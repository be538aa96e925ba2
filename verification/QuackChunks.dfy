/** Data chunks inside a payload (src/ducknng_quack.c, lines 1805-1874 and 2861-3105): the
    optional schema in front, a counted list of wrapped chunks, each a row count, an
    optional type list and one vector per column. A scan restarts from the front on every
    call, steps over the chunks already delivered and decodes one. */
module QuackChunks {
  import opened Leb128
  import opened ByteKernel
  import opened Options
  import opened QuackTypes
  import opened QuackVectors
  import opened Widths

  /** `duckdb_vector_size()`. */
  const VECTOR_SIZE: nat := 2048

  // ---- one chunk ----

  /** `ducknng_quack_schema_has_nested`. */
  predicate HasNested(schema: seq<Member>) {
    exists i | 0 <= i < |schema| :: HasMembers(schema[i].kind.id) || HasOneChild(schema[i].kind.id)
  }

  function ReadChunkRows(s: bytes): (p: Parsed<nat>)
    ensures p.Got? ==> |p.rest| < |s|
  {
    var (_, s1) :- Expect(s, 100);
    ReadUleb(s1)
  }

  /** Types that must equal the schema's, one by one. */
  function ReadTypes(s: bytes, schema: seq<Member>): (p: Parsed<()>)
    ensures p.Got? ==> |p.rest| <= |s|
    decreases |schema|
  {
    if schema == [] then Got((), s) else
    var (t, s1) :- ReadType(s, 0);
    if t != schema[0].kind then Bad(Invalid) else ReadTypes(s1, schema[1..])
  }

  /** `ducknng_quack_validate_optional_chunk_types`. */
  function ReadOptionalTypes(s: bytes, schema: seq<Member>): (p: Parsed<()>)
    ensures p.Got? ==> |p.rest| <= |s|
  {
    var (field, s1) :- ReadU16(s);
    if field != 101 then Got((), s) else
    var (n, s2) :- ReadUleb(s1);
    if n != |schema| then Bad(Invalid) else ReadTypes(s2, schema)
  }

  /** What stands between the row count and the first column. */
  function ReadColumnsStart(s: bytes, schema: seq<Member>): (p: Parsed<()>)
    ensures p.Got? ==> |p.rest| < |s|
  {
    var (_, s1) :- ReadOptionalTypes(s, schema);
    var (_, s2) :- Expect(s1, 102);
    var (n, s3) :- ReadUleb(s2);
    if n != |schema| then Bad(Invalid) else Got((), s3)
  }

  /** `ducknng_quack_skip_data_chunk`. */
  function SkipChunk(s: bytes, schema: seq<Member>): (p: Parsed<nat>)
    ensures p.Got? ==> |p.rest| < |s|
  {
    var (rows, s1) :- ReadChunkRows(s);
    var (_, s2) :- ReadColumnsStart(s1, schema);
    var (_, s3) :- SkipColumns(schema, s2, rows, 0);
    var (_, s4) :- Expect(s3, FIELD_END);
    Got(rows, s4)
  }

  /** What a chunk gave: its row count, and the columns from `offset` on unless that is
      past its rows. */
  datatype Slice = Slice(rows: nat, columns: Option<seq<seq<Value>>>)

  /** `ducknng_quack_decode_data_chunk_slice`. */
  function DecodeChunk(s: bytes, schema: seq<Member>, offset: nat): (p: Parsed<Slice>)
    ensures p.Got? ==>
      |p.rest| < |s| && p.value.rows <= VECTOR_SIZE && (p.value.columns.Some? <==> offset < p.value.rows)
  {
    var (rows, s1) :- ReadChunkRows(s);
    if rows > VECTOR_SIZE then Bad(Invalid)
    else if offset >= rows then
      var (_, s2) :- ReadColumnsStart(s1, schema);
      var (_, s3) :- SkipColumns(schema, s2, rows, 0);
      var (_, s4) :- Expect(s3, FIELD_END);
      Got(Slice(rows, None), s4)
    else if HasNested(schema) && offset != 0 then Bad(Invalid)
    else
      var (_, s2) :- ReadColumnsStart(s1, schema);
      var ((columns, _), s3) :- DecodeColumns(schema, s2, rows, offset, rows - offset, 0, 0);
      var (_, s4) :- Expect(s3, FIELD_END);
      Got(Slice(rows, Some(columns)), s4)
  }

  function Cut(columns: seq<seq<Value>>, offset: nat, rows: nat): (r: seq<seq<Value>>)
    requires offset <= rows && forall j | 0 <= j < |columns| :: |columns[j]| == rows
    ensures |r| == |columns| && forall j | 0 <= j < |columns| :: r[j] == columns[j][offset..]
  {
    seq(|columns|, j requires 0 <= j < |columns| => columns[j][offset..])
  }

  lemma {:induction false} FlatIsSliceable(schema: seq<Member>)
    requires !HasNested(schema)
    ensures SliceableAll(schema)
  {
    if schema != [] {
      assert schema[0] in schema;
      assert !HasNested(schema[1..]) by {
        assert forall i | 0 <= i < |schema| - 1 :: schema[1..][i] == schema[i + 1];
      }
      FlatIsSliceable(schema[1..]);
    }
  }

  /** The columns of a chunk that decodes from its first row are as long as it has rows. */
  lemma WholeColumns(s: bytes, schema: seq<Member>)
    requires DecodeChunk(s, schema, 0).Got? && DecodeChunk(s, schema, 0).value.columns.Some?
    ensures var whole := DecodeChunk(s, schema, 0).value;
      |whole.columns.value| == |schema| && forall j | 0 <= j < |schema| :: |whole.columns.value[j]| == whole.rows
  {
    hide ReadChunkRows, ReadColumnsStart, DecodeColumns, SkipColumns, Expect;
  }

  /** Whatever the schema, the offset and the data: of a chunk that decodes, a slice past
      its rows is stepped over, a slice from inside of a nested schema is refused, and
      every other slice is exactly the rows from `offset` on of every column. In all
      accepted cases reading goes on at the same byte. */
  lemma ChunkSliceExact(s: bytes, schema: seq<Member>, offset: nat)
    requires DecodeChunk(s, schema, 0).Got?
    ensures var whole := DecodeChunk(s, schema, 0);
      var p := DecodeChunk(s, schema, offset);
      if offset >= whole.value.rows then p == Got(Slice(whole.value.rows, None), whole.rest)
      else if offset != 0 && HasNested(schema) then p.Bad?
      else
        && whole.value.columns.Some? && p.Got? && p.rest == whole.rest && p.value.rows == whole.value.rows
        && p.value.columns.Some? && |p.value.columns.value| == |schema| == |whole.value.columns.value|
        && forall j | 0 <= j < |schema| ::
             |whole.value.columns.value[j]| == whole.value.rows
             && p.value.columns.value[j] == whole.value.columns.value[j][offset..]
  {
    hide ReadChunkRows, ReadColumnsStart, DecodeColumns, SkipColumns, Expect, HasNested;
    var (rows, s1) := ReadChunkRows(s).Extract();
    var s2 := ReadColumnsStart(s1, schema).rest;
    if offset >= rows {
      if rows > 0 { ColumnsSkip(schema, s2, rows, 0, rows, 0, 0); }
    } else if offset == 0 || !HasNested(schema) {
      if offset != 0 { FlatIsSliceable(schema); }
      ColumnsSlice(schema, s2, rows, offset, rows - offset, 0, 0);
      var columns := DecodeColumns(schema, s2, rows, 0, rows, 0, 0).value.0;
      assert forall j | 0 <= j < |schema| :: columns[j][offset..rows] == columns[j][offset..];
    }
  }

  // ---- the list of chunks ----

  /** `ducknng_quack_consume_chunk_wrapper_end`: only before another chunk may it be missing. */
  function ReadWrapperEnd(s: bytes, mayOmit: bool): (p: Parsed<()>)
    ensures p.Got? ==> |p.rest| <= |s|
  {
    var (field, s1) :- ReadU16(s);
    if field == FIELD_END then Got((), s1) else if mayOmit then Got((), s) else Bad(Invalid)
  }

  /** The start of a list element: a chunk that is present. */
  function ReadWrapperStart(s: bytes): (p: Parsed<()>)
    ensures p.Got? ==> |p.rest| < |s|
  {
    var (present, s1) :- ReadBoolean(s);
    if !present then Bad(Invalid) else Expect(s1, 300)
  }

  /** One list element, of which `n` are left. */
  function ChunkAt(s: bytes, schema: seq<Member>, n: nat, offset: nat): (p: Parsed<Slice>)
    ensures p.Got? ==>
      |p.rest| < |s| && p.value.rows <= VECTOR_SIZE && (p.value.columns.Some? <==> offset < p.value.rows)
  {
    var (_, s1) :- ReadWrapperStart(s);
    var (slice, s2) :- DecodeChunk(s1, schema, offset);
    var (_, s3) :- ReadWrapperEnd(s2, n > 1);
    Got(slice, s3)
  }

  function SkipAt(s: bytes, schema: seq<Member>, n: nat): (p: Parsed<nat>)
    ensures p.Got? ==> |p.rest| < |s|
  {
    var (_, s1) :- ReadWrapperStart(s);
    var (rows, s2) :- SkipChunk(s1, schema);
    var (_, s3) :- ReadWrapperEnd(s2, n > 1);
    Got(rows, s3)
  }

  /** A decoded chunk. */
  datatype Chunk = Chunk(rows: nat, columns: seq<seq<Value>>)

  /** Every column has all the rows. */
  predicate Full(c: Chunk) {
    forall j | 0 <= j < |c.columns| :: |c.columns[j]| == c.rows
  }

  predicate AllFull(chunks: seq<Chunk>) {
    forall i | 0 <= i < |chunks| :: Full(chunks[i])
  }

  /** The chunks that decode, in order, up to the first that does not; `rest` is where the
      list ends if all do. */
  datatype Pulled = Pulled(chunks: seq<Chunk>, rest: Option<bytes>)

  function Whole(slice: Slice): Chunk {
    Chunk(slice.rows, match slice.columns case Some(columns) => columns case None => [])
  }

  /** The reference: every chunk from its first row, one after the other. */
  function Pull(s: bytes, schema: seq<Member>, n: nat, seen: nat): (p: Pulled)
    decreases n
  {
    if n == 0 then Pulled([], Some(s)) else
    match ChunkAt(s, schema, n, 0)
    case Bad(_) => Pulled([], None)
    case Got(slice, s1) =>
      if seen + slice.rows > UINT64_MAX then Pulled([], None) else
      var p := Pull(s1, schema, n - 1, seen + slice.rows);
      Pulled([Whole(slice)] + p.chunks, p.rest)
  }

  function Total(chunks: seq<Chunk>): nat {
    if chunks == [] then 0 else chunks[0].rows + Total(chunks[1..])
  }

  // ---- scanning ----

  /** What a scan call does: it fails, finds nothing more, or delivers a chunk of rows and
      moves the offset on. */
  datatype Scanned = Failed | Done | Delivered(chunk: Chunk, next: nat)

  /** The loop of `ducknng_quack_payload_scan` from a list of `n` chunks on, `seen` rows
      having been stepped over. */
  function ScanFrom(s: bytes, schema: seq<Member>, n: nat, offset: nat, seen: nat): Scanned
    requires offset >= seen
    decreases n
  {
    if n == 0 then if Expect(s, FIELD_END).Got? then Done else Failed
    else match ChunkAt(s, schema, n, offset - seen)
      case Bad(_) => Failed
      case Got(slice, s1) =>
        if seen + slice.rows > UINT64_MAX then Failed
        else if offset < seen + slice.rows then
          Delivered(Chunk(seen + slice.rows - offset, slice.columns.value), seen + slice.rows)
        else ScanFrom(s1, schema, n - 1, offset, seen + slice.rows)
  }

  /** What a scan should do, given what can be pulled: `d` rows are to be stepped over. */
  function Serve(p: Pulled, nested: bool, d: nat, offset: nat): Scanned
    requires AllFull(p.chunks)
    decreases |p.chunks|
  {
    if p.chunks == [] then
      match p.rest
      case Some(s) => if Expect(s, FIELD_END).Got? then Done else Failed
      case None => Failed
    else
      var c := p.chunks[0];
      assert Full(c);
      if d >= c.rows then Serve(p.(chunks := p.chunks[1..]), nested, d - c.rows, offset)
      else if d > 0 && nested then Failed
      else Delivered(Chunk(c.rows - d, Cut(c.columns, d, c.rows)), offset + c.rows - d)
  }

  lemma {:induction false} PulledColumns(s: bytes, schema: seq<Member>, n: nat, seen: nat)
    ensures AllFull(Pull(s, schema, n, seen).chunks)
    decreases n
  {
    hide DecodeChunk, ReadWrapperStart, ReadWrapperEnd, Full;
    if n > 0 && ChunkAt(s, schema, n, 0).Got? {
      var (slice, s1) := ChunkAt(s, schema, n, 0).Extract();
      FullWhole(ReadWrapperStart(s).rest, schema);
      if seen + slice.rows <= UINT64_MAX {
        PulledColumns(s1, schema, n - 1, seen + slice.rows);
        var p, q := Pull(s, schema, n, seen), Pull(s1, schema, n - 1, seen + slice.rows);
        assert p.chunks == [Whole(slice)] + q.chunks;
      }
    }
  }

  /** What pulling does first. */
  lemma PullFirst(s: bytes, schema: seq<Member>, n: nat, seen: nat)
    requires n > 0
    ensures var p, first := Pull(s, schema, n, seen), ChunkAt(s, schema, n, 0);
      if first.Got? && seen + first.value.rows <= UINT64_MAX then
        var q := Pull(first.rest, schema, n - 1, seen + first.value.rows);
        |p.chunks| > 0 && p.chunks[0] == Whole(first.value) && p.chunks[1..] == q.chunks && p.rest == q.rest
      else p == Pulled([], None)
  {
    hide ChunkAt;
  }

  lemma FullWhole(s: bytes, schema: seq<Member>)
    requires DecodeChunk(s, schema, 0).Got?
    ensures Full(Whole(DecodeChunk(s, schema, 0).value))
  {
    hide DecodeChunk;
    if DecodeChunk(s, schema, 0).value.columns.Some? { WholeColumns(s, schema); }
  }

  /** One list element at an offset, from the same element at its first row. */
  lemma ElementSlice(s: bytes, schema: seq<Member>, n: nat, offset: nat)
    requires ChunkAt(s, schema, n, 0).Got?
    ensures var whole := ChunkAt(s, schema, n, 0);
      var p := ChunkAt(s, schema, n, offset);
      if offset >= whole.value.rows then p == Got(Slice(whole.value.rows, None), whole.rest)
      else if offset != 0 && HasNested(schema) then p.Bad?
      else
        && whole.value.columns.Some? && (forall j | 0 <= j < |whole.value.columns.value| ::
             |whole.value.columns.value[j]| == whole.value.rows)
        && p == Got(Slice(whole.value.rows, Some(Cut(whole.value.columns.value, offset, whole.value.rows))), whole.rest)
  {
    hide DecodeChunk, ReadWrapperStart, ReadWrapperEnd, HasNested;
    var s1 := ReadWrapperStart(s).rest;
    ChunkSliceExact(s1, schema, offset);
    var whole, p := DecodeChunk(s1, schema, 0).value, DecodeChunk(s1, schema, offset);
    if offset < whole.rows && (offset == 0 || !HasNested(schema)) {
      assert p.value.columns.value == Cut(whole.columns.value, offset, whole.rows);
    }
  }

  /** A scan call at any offset up to the end of what can be pulled: it steps over whole
      chunks and delivers the rest of the one it lands in, or refuses to resume inside a
      nested one; at the end it finds the end, or the chunk that does not decode. */
  lemma {:induction false} ScanServes(s: bytes, schema: seq<Member>, n: nat, offset: nat, seen: nat)
    requires offset >= seen && offset - seen <= Total(Pull(s, schema, n, seen).chunks)
    ensures AllFull(Pull(s, schema, n, seen).chunks)
    ensures ScanFrom(s, schema, n, offset, seen)
      == Serve(Pull(s, schema, n, seen), HasNested(schema), offset - seen, offset)
    decreases n
  {
    hide ChunkAt, Expect, HasNested, Pull, Cut, Full;
    PulledColumns(s, schema, n, seen);
    if n == 0 {
      PullNothing(s, schema, seen);
    } else {
      PullFirst(s, schema, n, seen);
      var p, d, first := Pull(s, schema, n, seen), offset - seen, ChunkAt(s, schema, n, 0);
      if first.Got? {
        ElementSlice(s, schema, n, d);
        if seen + first.value.rows <= UINT64_MAX {
          assert p.(chunks := p.chunks[1..]) == Pull(first.rest, schema, n - 1, seen + first.value.rows);
          if d >= first.value.rows { ScanServes(first.rest, schema, n - 1, offset, seen + first.value.rows); }
        }
      }
    }
  }

  lemma PullNothing(s: bytes, schema: seq<Member>, seen: nat)
    ensures Pull(s, schema, 0, seen) == Pulled([], Some(s))
  {
  }
}
