/** Whole payloads (src/ducknng_quack.c, lines 549-571, 2481-2600 and 2973-3105): reading
    the schema, checking the chunks without decoding them, and the table scan, which
    restarts from the front on every call. */
module QuackPayload {
  import opened Leb128
  import opened ByteKernel
  import opened Options
  import opened QuackChunks
  import opened QuackTypes
  import opened QuackVectors
  import opened Widths

  // ---- the schema ----

  function SkipTypes(s: bytes, n: nat): (p: Parsed<()>)
    ensures p.Got? ==> |p.rest| <= |s|
    decreases n
  {
    if n == 0 then Got((), s) else
    var (_, s1) :- ReadType(s, 0);
    SkipTypes(s1, n - 1)
  }

  function SkipNames(s: bytes, n: nat): (p: Parsed<()>)
    ensures p.Got? ==> |p.rest| <= |s|
    decreases n
  {
    if n == 0 then Got((), s) else
    var (_, s1) :- ReadCounted(s);
    SkipNames(s1, n - 1)
  }

  /** A counted list of which `n` elements are expected. */
  function ReadListCount(s: bytes, n: nat): (p: Parsed<()>)
    ensures p.Got? ==> |p.rest| < |s|
  {
    var (count, s1) :- ReadUleb(s);
    if count != n then Bad(Invalid) else Got((), s1)
  }

  /** Stepping over the schema, if there is one. */
  function SkipSchema(s: bytes, ncols: nat): (p: Parsed<()>)
    ensures p.Got? ==> |p.rest| <= |s|
  {
    var (field, s1) :- ReadU16(s);
    if field != 1 then Got((), s) else
    var (_, s2) :- ReadListCount(s1, ncols);
    var (_, s3) :- SkipTypes(s2, ncols);
    var (_, s4) :- Expect(s3, 2);
    var (_, s5) :- ReadListCount(s4, ncols);
    SkipNames(s5, ncols)
  }

  function ReadTypeList(s: bytes, n: nat): (p: Parsed<seq<Node>>)
    ensures p.Got? ==> |p.rest| <= |s| && |p.value| == n
    decreases n
  {
    if n == 0 then Got([], s) else
    var (first, s1) :- ReadType(s, 0);
    var (others, s2) :- ReadTypeList(s1, n - 1);
    Got([first] + others, s2)
  }

  function Columns(types: seq<Node>, names: seq<CString>): (schema: seq<Member>)
    requires |types| == |names|
    ensures |schema| == |types| && forall i | 0 <= i < |schema| :: schema[i] == Member(names[i], types[i])
  {
    if types == [] then [] else [Member(names[0], types[0])] + Columns(types[1..], names[1..])
  }

  /** `ducknng_quack_reader_parse_schema`. */
  function ParseSchema(s: bytes): (p: Parsed<seq<Member>>)
    ensures p.Got? ==> |p.rest| <= |s|
  {
    var (_, s1) :- Expect(s, 1);
    var (ncols, s2) :- ReadUleb(s1);
    if ncols > MAX_STRUCT_MEMBERS then Bad(Invalid) else
    var (types, s3) :- ReadTypeList(s2, ncols);
    var (_, s4) :- Expect(s3, 2);
    var (_, s5) :- ReadListCount(s4, ncols);
    var (names, s6) :- ReadLabels(s5, ncols);
    Got(Columns(types, names), s6)
  }

  lemma {:induction false} TypesSkipped(s: bytes, n: nat)
    requires ReadTypeList(s, n).Got?
    ensures SkipTypes(s, n) == Got((), ReadTypeList(s, n).rest)
    decreases n
  {
    hide ReadType;
    if n > 0 { TypesSkipped(ReadType(s, 0).rest, n - 1); }
  }

  lemma {:induction false} NamesSkipped(s: bytes, n: nat)
    requires ReadLabels(s, n).Got?
    ensures SkipNames(s, n) == Got((), ReadLabels(s, n).rest)
    decreases n
  {
    hide ReadCounted;
    if n > 0 { NamesSkipped(ReadIdentifier(s).rest, n - 1); }
  }

  /** Stepping over a schema ends where reading it ends. */
  lemma SchemaSkipped(s: bytes)
    requires ParseSchema(s).Got?
    ensures SkipSchema(s, |ParseSchema(s).value|) == Got((), ParseSchema(s).rest)
  {
    hide ReadType, ReadUleb, ReadTypeList, SkipTypes, ReadLabels, SkipNames;
    var s1 := Expect(s, 1).rest;
    var (ncols, s2) := ReadUleb(s1).Extract();
    TypesSkipped(s2, ncols);
    var s4 := Expect(ReadTypeList(s2, ncols).rest, 2).rest;
    NamesSkipped(ReadListCount(s4, ncols).rest, ncols);
  }

  // ---- the results section ----

  /** The number of chunks, or `None` where there is no results section. */
  function ReadResultsStart(s: bytes): (p: Parsed<Option<nat>>)
    ensures p.Got? ==> |p.rest| <= |s|
  {
    var (field, s1) :- ReadU16(s);
    if field != 4 then Got(None, s) else
    var (n, s2) :- ReadUleb(s1);
    Got(Some(n), s2)
  }

  /** `ducknng_quack_payload_scan_begin`. */
  function ScanBegin(payload: bytes, schema: seq<Member>): (p: Parsed<Option<nat>>) {
    var (_, s1) :- SkipSchema(payload, |schema|);
    ReadResultsStart(s1)
  }

  /** The checking loop: every chunk can be stepped over, none has more than `cap` rows
      (no cap when that is zero), and the rows can be counted. */
  function SkipChunks(s: bytes, schema: seq<Member>, n: nat, cap: nat, seen: nat): (p: Parsed<nat>)
    decreases n
  {
    if n == 0 then Got(seen, s) else
    var (rows, s1) :- SkipAt(s, schema, n);
    if (cap > 0 && rows > cap) || seen + rows > UINT64_MAX then Bad(Invalid)
    else SkipChunks(s1, schema, n - 1, cap, seen + rows)
  }

  /** `ducknng_quack_reader_validate_results`: the number of rows of a payload that is well
      formed to its last byte. */
  function ValidateResults(s: bytes, schema: seq<Member>, cap: nat): Option<nat> {
    match ReadResultsStart(s)
    case Bad(_) => None
    case Got(results, s1) =>
      match if results.Some? then SkipChunks(s1, schema, results.value, cap, 0) else Got(0, s1)
      case Bad(_) => None
      case Got(total, s2) =>
        if Expect(s2, FIELD_END).Got? && Expect(s2, FIELD_END).rest == [] then Some(total) else None
  }

  method CheckResults(s: bytes, schema: seq<Member>, cap: nat) returns (total: Option<nat>)
    ensures total == ValidateResults(s, schema, cap)
  {
    hide SkipAt, Expect;
    var start := ReadResultsStart(s);
    if start.Bad? { return None; }
    var rows: nat, rest := 0, start.rest;
    if start.value.Some? {
      var n := start.value.value;
      for i := 0 to n
        invariant SkipChunks(rest, schema, n - i, cap, rows) == SkipChunks(start.rest, schema, n, cap, 0)
      {
        var p := SkipAt(rest, schema, n - i);
        if p.Bad? { return None; }
        if cap > 0 && p.value > cap { return None; }
        if rows + p.value > UINT64_MAX { return None; }
        rows, rest := rows + p.value, p.rest;
      }
    }
    var end := Expect(rest, FIELD_END);
    if end.Bad? || end.rest != [] { return None; }
    return Some(rows);
  }

  /** A chunk that decodes is stepped over to the same byte and has the same row count;
      one that can be stepped over but does not decode has rows. */
  lemma SkippedElement(s: bytes, schema: seq<Member>, n: nat)
    ensures ChunkAt(s, schema, n, 0).Got? ==>
      SkipAt(s, schema, n) == Got(ChunkAt(s, schema, n, 0).value.rows, ChunkAt(s, schema, n, 0).rest)
    ensures ChunkAt(s, schema, n, 0).Bad? && SkipAt(s, schema, n).Got? ==> SkipAt(s, schema, n).value > 0
  {
    hide ReadChunkRows, ReadColumnsStart, DecodeColumns, SkipColumns, Expect, HasNested, ReadWrapperStart,
      ReadWrapperEnd;
    if ReadWrapperStart(s).Got? {
      var s1 := ReadWrapperStart(s).rest;
      if ReadChunkRows(s1).Got? {
        var (rows, s2) := ReadChunkRows(s1).Extract();
        if rows > 0 && ReadColumnsStart(s2, schema).Got? {
          var s3 := ReadColumnsStart(s2, schema).rest;
          if DecodeColumns(schema, s3, rows, 0, rows, 0, 0).Got? { ColumnsSkip(schema, s3, rows, 0, rows, 0, 0); }
        }
      }
    }
  }

  /** The checked row count is that of the chunks if they all decode, and more than that of
      the ones in front of the first that does not. */
  lemma {:induction false} ValidatedTotals(s: bytes, schema: seq<Member>, n: nat, cap: nat, seen: nat)
    requires SkipChunks(s, schema, n, cap, seen).Got?
    ensures var p, q := Pull(s, schema, n, seen), SkipChunks(s, schema, n, cap, seen);
      match p.rest
      case Some(rest) => q == Got(seen + Total(p.chunks), rest)
      case None => q.value > seen + Total(p.chunks)
    decreases n
  {
    hide ChunkAt, SkipAt, Pull;
    if n == 0 {
      PullNothing(s, schema, seen);
    } else {
      PullFirst(s, schema, n, seen);
      SkippedElement(s, schema, n);
      var rows := SkipAt(s, schema, n).value;
      if ChunkAt(s, schema, n, 0).Got? {
        ValidatedTotals(SkipAt(s, schema, n).rest, schema, n - 1, cap, seen + rows);
      } else {
        TotalsGrow(SkipAt(s, schema, n).rest, schema, n - 1, cap, seen + rows);
      }
    }
  }

  lemma {:induction false} TotalsGrow(s: bytes, schema: seq<Member>, n: nat, cap: nat, seen: nat)
    requires SkipChunks(s, schema, n, cap, seen).Got?
    ensures SkipChunks(s, schema, n, cap, seen).value >= seen
    decreases n
  {
    hide SkipAt;
    if n > 0 { TotalsGrow(SkipAt(s, schema, n).rest, schema, n - 1, cap, seen + SkipAt(s, schema, n).value); }
  }

  /** What can be pulled out of the results section. */
  function PullPayload(s: bytes, schema: seq<Member>): Pulled {
    match ReadResultsStart(s)
    case Bad(_) => Pulled([], None)
    case Got(None, s1) => Pulled([], Some(s1))
    case Got(Some(n), s1) => Pull(s1, schema, n, 0)
  }

  lemma PullTotals(s: bytes, schema: seq<Member>, total: nat)
    requires exists cap :: ValidateResults(s, schema, cap) == Some(total)
    ensures ReadResultsStart(s).Got? && (total > 0 ==> ReadResultsStart(s).value.Some?)
    ensures var p := PullPayload(s, schema);
      && AllFull(p.chunks)
      && match p.rest
         case Some(rest) => total == Total(p.chunks) && Expect(rest, FIELD_END).Got?
         case None => total > Total(p.chunks)
  {
    hide Pull, SkipChunks, Expect;
    var cap :| ValidateResults(s, schema, cap) == Some(total);
    var start := ReadResultsStart(s);
    if start.value.Some? {
      ValidatedTotals(start.rest, schema, start.value.value, cap, 0);
      PulledColumns(start.rest, schema, start.value.value, 0);
    }
  }

  lemma ServeEnd(rest: Option<bytes>, nested: bool, offset: nat)
    ensures Serve(Pulled([], rest), nested, 0, offset)
      == if rest.Some? && Expect(rest.value, FIELD_END).Got? then Done else Failed
  {
  }

  lemma NoChunks()
    ensures NonEmpty([]) == [] && Total([]) == 0
  {
  }

  lemma {:induction false} NoRowsLeft(chunks: seq<Chunk>)
    ensures Total(chunks) == 0 <==> NonEmpty(chunks) == []
  {
    if chunks != [] { NoRowsLeft(chunks[1..]); }
  }

  // ---- a table scan ----

  /** `ducknng_quack_payload_scan`. */
  function Scan(payload: bytes, schema: seq<Member>, offset: nat): Scanned {
    match ScanBegin(payload, schema)
    case Bad(_) => Failed
    case Got(None, _) => Done
    case Got(Some(n), s) => ScanFrom(s, schema, n, offset, 0)
  }

  method PayloadScan(payload: bytes, schema: seq<Member>, offset: nat) returns (r: Scanned)
    ensures r == Scan(payload, schema, offset)
  {
    hide ChunkAt, Expect, SkipSchema;
    var start := ScanBegin(payload, schema);
    if start.Bad? { return Failed; }
    if start.value.None? { return Done; }
    var n, rest, seen: nat := start.value.value, start.rest, 0;
    for i := 0 to n
      invariant offset >= seen
      invariant ScanFrom(rest, schema, n - i, offset, seen) == ScanFrom(start.rest, schema, n, offset, 0)
    {
      var p := ChunkAt(rest, schema, n - i, offset - seen);
      if p.Bad? { return Failed; }
      var next := seen + p.value.rows;
      if next > UINT64_MAX { return Failed; }
      if offset < next { return Delivered(Chunk(next - offset, p.value.columns.value), next); }
      seen, rest := next, p.rest;
    }
    return if Expect(rest, FIELD_END).Got? then Done else Failed;
  }

  /** A payload whose schema is followed by anything but the results field has nothing to scan. */
  lemma NothingToScan(payload: bytes, offset: nat)
    requires ParseSchema(payload).Got?
    requires var s := ParseSchema(payload).rest; |s| >= 2 && !(s[0] == 4 && s[1] == 0)
    ensures Scan(payload, ParseSchema(payload).value, offset) == Done
  {
    hide ParseSchema, SkipSchema, ScanFrom;
    SchemaSkipped(payload);
  }

  /** The chunks with rows. */
  function NonEmpty(chunks: seq<Chunk>): (r: seq<Chunk>)
    ensures |r| <= |chunks|
  {
    if chunks == [] then []
    else if chunks[0].rows == 0 then NonEmpty(chunks[1..])
    else [chunks[0]] + NonEmpty(chunks[1..])
  }

  lemma {:induction false} TotalConcat(a: seq<Chunk>, b: seq<Chunk>)
    ensures Total(a + b) == Total(a) + Total(b)
  {
    if a == [] {
      assert a + b == b;
    } else {
      assert (a + b)[1..] == a[1..] + b;
      TotalConcat(a[1..], b);
    }
  }

  lemma {:induction false} NonEmptyConcat(a: seq<Chunk>, b: seq<Chunk>)
    ensures NonEmpty(a + b) == NonEmpty(a) + NonEmpty(b)
  {
    if a == [] {
      assert a + b == b;
    } else {
      assert (a + b)[1..] == a[1..] + b;
      NonEmptyConcat(a[1..], b);
    }
  }

  /** At a chunk boundary a scan serves from what is left. */
  lemma {:induction false} ServeAfter(done: seq<Chunk>, left: seq<Chunk>, rest: Option<bytes>, nested: bool,
      offset: nat)
    requires AllFull(done + left)
    ensures AllFull(left)
    ensures Serve(Pulled(done + left, rest), nested, Total(done), offset)
      == Serve(Pulled(left, rest), nested, 0, offset)
  {
    hide Full, Cut;
    assert forall i | 0 <= i < |left| :: (done + left)[|done| + i] == left[i];
    if done == [] {
      assert done + left == left;
    } else {
      assert (done + left)[1..] == done[1..] + left;
      assert forall i | 0 <= i < |done + left| - 1 :: (done + left)[1..][i] == (done + left)[i + 1];
      ServeAfter(done[1..], left, rest, nested, offset);
    }
  }

  /** There it steps over empty chunks and delivers the next one whole. */
  lemma {:induction false} ServeNext(left: seq<Chunk>, rest: Option<bytes>, nested: bool, offset: nat)
      returns (left': seq<Chunk>)
    requires AllFull(left)
    ensures NonEmpty(left) == [] ==>
      Serve(Pulled(left, rest), nested, 0, offset) == Serve(Pulled([], rest), nested, 0, offset)
    ensures NonEmpty(left) != [] ==>
      var c := NonEmpty(left)[0];
      && Serve(Pulled(left, rest), nested, 0, offset) == Delivered(c, offset + c.rows) && c.rows > 0
      && |left'| < |left| && left' == left[|left| - |left'|..] && NonEmpty(left) == [c] + NonEmpty(left')
      && Total(left) == c.rows + Total(left')
  {
    left' := [];
    if left != [] {
      var c := left[0];
      assert Full(c);
      if c.rows == 0 {
        left' := ServeNext(left[1..], rest, nested, offset);
      } else {
        left' := left[1..];
        assert Cut(c.columns, 0, c.rows) == c.columns;
      }
    }
  }

  /** A scan of the payload at a boundary between its chunks. */
  lemma ScanAtBoundary(payload: bytes, schema: seq<Member>, done: seq<Chunk>, left: seq<Chunk>)
    requires ParseSchema(payload).Got? && ParseSchema(payload).value == schema
    requires PullPayload(ParseSchema(payload).rest, schema).chunks == done + left
    requires ReadResultsStart(ParseSchema(payload).rest).Got?
    ensures AllFull(done + left)
    ensures var p, d := PullPayload(ParseSchema(payload).rest, schema), Total(done);
      ReadResultsStart(ParseSchema(payload).rest).value.Some? ==>
        Scan(payload, schema, d) == Serve(p, HasNested(schema), d, d)
  {
    hide ParseSchema, Pull, ScanFrom, Serve, HasNested, SkipSchema, Total;
    SchemaSkipped(payload);
    var start := ReadResultsStart(ParseSchema(payload).rest);
    if start.value.Some? {
      TotalConcat(done, left);
      ScanServes(start.rest, schema, start.value.value, Total(done), 0);
    }
  }

  lemma CancelSuffix(a: seq<Chunk>, b: seq<Chunk>, c: seq<Chunk>)
    requires a + c == b + c
    ensures a == b
  {
    assert |a| == |b|;
    assert a == (a + c)[..|a|] && b == (b + c)[..|b|];
  }

  /** One call between the chunks done and the chunks left: it delivers the next chunk with
      rows, or there is none left and it finds the end of the list, or of what decodes. */
  lemma OneScan(payload: bytes, schema: seq<Member>, done: seq<Chunk>, left: seq<Chunk>)
      returns (done': seq<Chunk>, left': seq<Chunk>)
    requires ParseSchema(payload).Got? && ParseSchema(payload).value == schema
    requires PullPayload(ParseSchema(payload).rest, schema).chunks == done + left
    requires ReadResultsStart(ParseSchema(payload).rest).Got? && ReadResultsStart(ParseSchema(payload).rest).value.Some?
    ensures var p, r := PullPayload(ParseSchema(payload).rest, schema), Scan(payload, schema, Total(done));
      && (r.Delivered? ==> done' + left' == p.chunks && |left'| < |left| && Total(done') == r.next
                           && NonEmpty(done') == NonEmpty(done) + [r.chunk])
      && (!r.Delivered? ==> NonEmpty(done) == NonEmpty(p.chunks)
                            && (r.Done? <==> p.rest.Some? && Expect(p.rest.value, FIELD_END).Got?))
  {
    hide ParseSchema, Serve, NonEmpty, Total, PullPayload, Expect, HasNested, Scan, AllFull;
    var p, offset := PullPayload(ParseSchema(payload).rest, schema), Total(done);
    ScanAtBoundary(payload, schema, done, left);
    ServeAfter(done, left, p.rest, HasNested(schema), offset);
    left' := ServeNext(left, p.rest, HasNested(schema), offset);
    done' := p.chunks;
    ServeEnd(p.rest, HasNested(schema), offset);
    NonEmptyConcat(done, left);
    if NonEmpty(left) != [] {
      var c := NonEmpty(left)[0];
      done' := done + left[..|left| - |left'|];
      assert done' + left' == done + left;
      TotalConcat(done, left);
      TotalConcat(done', left');
      NonEmptyConcat(done', left');
      assert NonEmpty(done) + ([c] + NonEmpty(left')) == NonEmpty(done) + [c] + NonEmpty(left');
      CancelSuffix(NonEmpty(done'), NonEmpty(done) + [c], NonEmpty(left'));
    }
  }

  /** The table function: calls the scan until the offset has reached the row count found
      when the payload was checked. Every call that delivers moves on, and together they
      deliver every chunk with rows once, whole and in order - all of them if and only if
      every chunk decodes, otherwise those in front of the first that does not. */
  method ReadTable(payload: bytes, schema: seq<Member>, total: nat) returns (ok: bool, delivered: seq<Chunk>)
    requires ParseSchema(payload).Got? && ParseSchema(payload).value == schema
    requires ValidateResults(ParseSchema(payload).rest, schema, 0) == Some(total)
    ensures var p := PullPayload(ParseSchema(payload).rest, schema);
      delivered == NonEmpty(p.chunks) && (ok <==> p.rest.Some?)
  {
    hide ParseSchema, PullPayload, NonEmpty, Total, Expect, ValidateResults, Scan;
    ghost var p := PullPayload(ParseSchema(payload).rest, schema);
    PullTotals(ParseSchema(payload).rest, schema, total);
    NoChunks();
    delivered := [];
    var offset := 0;
    ghost var done, left := [], p.chunks;
    while offset < total
      invariant done + left == p.chunks && offset == Total(done) && delivered == NonEmpty(done)
      decreases |left|
    {
      var r := PayloadScan(payload, schema, offset);
      ghost var done', left' := OneScan(payload, schema, done, left);
      match r {
        case Failed => return false, delivered;
        case Done => return true, delivered;
        case Delivered(c, next) =>
          delivered, offset := delivered + [c], next;
          done, left := done', left';
      }
    }
    TotalConcat(done, left);
    NonEmptyConcat(done, left);
    NoRowsLeft(left);
    ok := true;
  }

  /** One row across the columns of a chunk, and all rows of a list of chunks. */
  function RowsOf(c: Chunk): (rows: seq<seq<Value>>)
    requires Full(c)
    ensures |rows| == c.rows
  {
    seq(c.rows, i requires 0 <= i < c.rows => Across(c.columns, i))
  }

  function AllRows(chunks: seq<Chunk>): seq<seq<Value>>
    requires AllFull(chunks)
  {
    if chunks == [] then [] else
    assert Full(chunks[0]);
    RowsOf(chunks[0]) + AllRows(Rest(chunks))
  }

  function Rest(chunks: seq<Chunk>): (rest: seq<Chunk>)
    requires chunks != []
    ensures |rest| < |chunks| && (AllFull(chunks) ==> AllFull(rest))
  {
    chunks[1..]
  }

  /** Leaving out the empty chunks leaves out no row. */
  lemma {:induction false} NonEmptyHasAllRows(chunks: seq<Chunk>)
    requires AllFull(chunks)
    ensures AllFull(NonEmpty(chunks)) && AllRows(NonEmpty(chunks)) == AllRows(chunks)
  {
    if chunks != [] {
      assert Full(chunks[0]) && Rest(chunks) == chunks[1..];
      NonEmptyHasAllRows(chunks[1..]);
      if chunks[0].rows > 0 {
        var r := NonEmpty(chunks);
        assert r == [chunks[0]] + NonEmpty(chunks[1..]) && Rest(r) == NonEmpty(chunks[1..]);
      }
    }
  }
}
