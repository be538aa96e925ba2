/** Appending an uploaded batch to a table (ducknng_quack_payload_append_to_appender in
    src/ducknng_quack.c): the whole payload is checked by stepping over it, then decoded and
    appended chunk by chunk. A batch that is refused on the way leaves what was appended
    before in the appender. */
module QuackAppend {
  import opened Leb128
  import opened Options
  import opened Outcomes
  import opened QuackChunks
  import opened QuackExpansion
  import opened QuackPayload
  import opened QuackRows
  import opened QuackTypes
  import opened QuackVectors
  import opened Widths

  /** What is checked before the appender is touched: the row count of a well-formed batch
      that has exactly the columns of the target. */
  function Preflight(payload: bytes, target: seq<Member>): Option<nat> {
    match ParseSchema(payload)
    case Bad(_) => None
    case Got(schema, s) =>
      if schema == [] then None
      else match ValidateResults(s, schema, VECTOR_SIZE)
        case None => None
        case Some(total) => if schema != target || !BuildableAll(schema, 0) then None else Some(total)
  }

  /** `ducknng_quack_payload_scan_next`: one chunk, and the end marker after the last. */
  function ScanNext(s: bytes, schema: seq<Member>, n: nat): (p: Parsed<Chunk>)
    requires n > 0
    ensures p.Got? ==> |p.rest| <= |s|
  {
    var (slice, s1) :- ChunkAt(s, schema, n, 0);
    if n > 1 then Got(Whole(slice), s1) else
    var (_, s2) :- Expect(s1, FIELD_END);
    Got(Whole(slice), s2)
  }

  /** The append loop over `n` chunks. `accepts` is how many more chunks the appender takes
      before it reports an error. */
  function AppendFrom(s: bytes, schema: seq<Member>, n: nat, accepts: nat): Outcome
    decreases n
  {
    if n == 0 then Appended(0)
    else match ScanNext(s, schema, n)
      case Bad(_) => Refused(0)
      case Got(chunk, s1) =>
        if chunk.rows == 0 then AppendFrom(s1, schema, n - 1, accepts)
        else if accepts == 0 then Refused(0)
        else After(chunk.rows, AppendFrom(s1, schema, n - 1, accepts - 1))
  }

  function After(rows: nat, o: Outcome): Outcome {
    match o
    case Appended(more) => Appended(rows + more)
    case Refused(more) => Refused(rows + more)
  }

  function Append(payload: bytes, target: seq<Member>, accepts: nat): Outcome {
    match Preflight(payload, target)
    case None => Refused(0)
    case Some(total) =>
      match ScanBegin(payload, target)
      case Bad(_) => Refused(0)
      case Got(None, _) => if total == 0 then Appended(0) else Refused(0)
      case Got(Some(n), s) =>
        var o := AppendFrom(s, target, n, accepts);
        if o.Appended? && o.rows != total then Refused(o.rows) else o
  }

  /** The function as the source runs it; `buffered` is what the appender holds of the batch. */
  method AppendToAppender(payload: bytes, target: seq<Member>, accepts: nat)
      returns (rc: int, buffered: nat, counted: nat)
    ensures match Append(payload, target, accepts)
      case Appended(rows) => rc == 0 && buffered == rows && counted == rows
      case Refused(left) => rc == -1 && buffered == left && counted == 0
  {
    hide Preflight, ScanNext, ScanBegin;
    rc, buffered, counted := -1, 0, 0;
    var expected := Preflight(payload, target);
    if expected.None? { return; }
    var start := ScanBegin(payload, target);
    if start.Bad? { return; }
    if start.value.Some? {
      var n, rest, taken := start.value.value, start.rest, 0;
      ghost var all := AppendFrom(rest, target, n, accepts);
      for i := 0 to n
        invariant taken <= accepts && After(buffered, AppendFrom(rest, target, n - i, accepts - taken)) == all
      {
        var p := ScanNext(rest, target, n - i);
        if p.Bad? { return; }
        rest := p.rest;
        if p.value.rows > 0 {
          if taken == accepts { return; }
          taken, buffered := taken + 1, buffered + p.value.rows;
        }
      }
    }
    if buffered != expected.value { return; }
    rc, counted := 0, buffered;
  }

  // ---- what it comes to ----

  /** The first `k` chunks. */
  function First(chunks: seq<Chunk>, k: nat): seq<Chunk> {
    if k >= |chunks| then chunks else chunks[..k]
  }

  lemma {:induction false} AppendFromExact(s: bytes, schema: seq<Member>, n: nat, accepts: nat, cap: nat, seen: nat)
    requires SkipChunks(s, schema, n, cap, seen).Got?
    requires Expect(SkipChunks(s, schema, n, cap, seen).rest, FIELD_END).Got?
    ensures var p := Pull(s, schema, n, seen);
      var taken := First(NonEmpty(p.chunks), accepts);
      AppendFrom(s, schema, n, accepts)
      == if p.rest.Some? && |NonEmpty(p.chunks)| <= accepts then Appended(Total(taken)) else Refused(Total(taken))
    decreases n
  {
    hide ChunkAt, SkipAt, Pull, Expect, Total, NonEmpty;
    if n == 0 {
      PullNothing(s, schema, seen);
      NoChunks();
    } else {
      PullFirst(s, schema, n, seen);
      SkippedElement(s, schema, n);
      var first := ChunkAt(s, schema, n, 0);
      if first.Bad? {
        NoChunks();
      } else {
        NextReads(s, schema, n, cap, seen);
        var p, q := Pull(s, schema, n, seen), Pull(first.rest, schema, n - 1, seen + first.value.rows);
        assert p.chunks == [p.chunks[0]] + q.chunks;
        FirstChunk(p.chunks[0], q.chunks, accepts);
        if first.value.rows == 0 {
          AppendFromExact(first.rest, schema, n - 1, accepts, cap, seen);
        } else if accepts > 0 {
          AppendFromExact(first.rest, schema, n - 1, accepts - 1, cap, seen + first.value.rows);
        }
      }
    }
  }

  /** In a checked payload the next chunk is read if it decodes: the end marker is there. */
  lemma NextReads(s: bytes, schema: seq<Member>, n: nat, cap: nat, seen: nat)
    requires n > 0 && SkipChunks(s, schema, n, cap, seen).Got?
    requires Expect(SkipChunks(s, schema, n, cap, seen).rest, FIELD_END).Got?
    requires ChunkAt(s, schema, n, 0).Got?
    ensures var first, p := ChunkAt(s, schema, n, 0), ScanNext(s, schema, n);
      && seen + first.value.rows <= UINT64_MAX
      && SkipChunks(s, schema, n, cap, seen) == SkipChunks(first.rest, schema, n - 1, cap, seen + first.value.rows)
      && p.Got? && p.value == Whole(first.value) && (n > 1 ==> p.rest == first.rest)
  {
    hide ChunkAt, SkipAt, Expect;
    SkippedElement(s, schema, n);
  }

  lemma FirstChunk(c: Chunk, others: seq<Chunk>, accepts: nat)
    ensures NonEmpty([c] + others) == if c.rows == 0 then NonEmpty(others) else [c] + NonEmpty(others)
    ensures c.rows > 0 && accepts == 0 ==> Total(First(NonEmpty([c] + others), accepts)) == 0
    ensures c.rows > 0 && accepts > 0 ==>
      Total(First(NonEmpty([c] + others), accepts)) == c.rows + Total(First(NonEmpty(others), accepts - 1))
  {
    assert ([c] + others)[1..] == others;
    if c.rows > 0 {
      var r := [c] + NonEmpty(others);
      assert r[1..] == NonEmpty(others);
      if accepts > 0 {
        var f := First(r, accepts);
        assert f[0] == c && f[1..] == First(NonEmpty(others), accepts - 1);
      }
    }
  }

  /** A batch that passes the checks is appended if and only if every chunk decodes and the
      appender takes every chunk with rows. Otherwise the chunks with rows in front of
      the failing one stay behind. */
  lemma AppendExact(payload: bytes, target: seq<Member>, accepts: nat)
    ensures match Preflight(payload, target)
      case None => Append(payload, target, accepts) == Refused(0)
      case Some(total) =>
        && ParseSchema(payload).Got? && ParseSchema(payload).value == target
        && var p := PullPayload(ParseSchema(payload).rest, target);
           var chunks := NonEmpty(p.chunks);
           Append(payload, target, accepts)
           == if p.rest.Some? && |chunks| <= accepts then Appended(total) else Refused(Total(First(chunks, accepts)))
  {
    hide ParseSchema, SkipSchema, Expect, Pull, SkipChunks, AppendFrom, NonEmpty, Total, BuildableAll;
    if Preflight(payload, target).Some? {
      var s := ParseSchema(payload).rest;
      SchemaSkipped(payload);
      NoChunks();
      var start := ReadResultsStart(s);
      if start.value.Some? {
        ValidatedTotals(start.rest, target, start.value.value, VECTOR_SIZE, 0);
        AppendFromExact(start.rest, target, start.value.value, accepts, VECTOR_SIZE, 0);
        NonEmptyTotal(Pull(start.rest, target, start.value.value, 0).chunks);
      }
    }
  }

  lemma {:induction false} NonEmptyTotal(chunks: seq<Chunk>)
    ensures Total(NonEmpty(chunks)) == Total(chunks)
  {
    if chunks != [] {
      NonEmptyTotal(chunks[1..]);
      if chunks[0].rows > 0 { assert ([chunks[0]] + NonEmpty(chunks[1..]))[1..] == NonEmpty(chunks[1..]); }
    }
  }

  /** A refused batch leaves rows behind if and only if it passed the checks, its first chunk
      with rows decodes and the appender took that one. */
  lemma RefusalLeaves(payload: bytes, target: seq<Member>, accepts: nat)
    requires Append(payload, target, accepts).Refused?
    ensures Append(payload, target, accepts).left > 0 <==>
      && Preflight(payload, target).Some? && accepts > 0
      && NonEmpty(PullPayload(ParseSchema(payload).rest, target).chunks) != []
  {
    hide Preflight, Append, PullPayload, ParseSchema;
    AppendExact(payload, target, accepts);
    if Preflight(payload, target).Some? {
      var chunks := PullPayload(ParseSchema(payload).rest, target).chunks;
      FirstHasRows(chunks, accepts);
    }
  }

  lemma {:induction false} FirstHasRows(chunks: seq<Chunk>, accepts: nat)
    ensures Total(First(NonEmpty(chunks), accepts)) > 0 <==> accepts > 0 && NonEmpty(chunks) != []
  {
    if chunks != [] {
      assert chunks == [chunks[0]] + chunks[1..];
      FirstChunk(chunks[0], chunks[1..], accepts);
      FirstHasRows(chunks[1..], accepts);
    }
  }

  /** When a chunk decodes: it can be stepped over, has at most 2048 rows, and either has none,
      or the values it expands to fit the budget, its sequences stay in the range of their
      types and its compressed columns have types that can be built. */
  lemma ChunkDecodesIff(s: bytes, schema: seq<Member>)
    ensures DecodeChunk(s, schema, 0).Got? <==>
      && SkipChunk(s, schema).Got? && SkipChunk(s, schema).value <= 2048
      && (SkipChunk(s, schema).value == 0
          || (&& ColumnsCost(schema, ColumnBytes(s, schema), SkipChunk(s, schema).value, 0) <= 4194304
              && FaithfulColumns(schema, ColumnBytes(s, schema), SkipChunk(s, schema).value, 0,
                   SkipChunk(s, schema).value, 0)))
  {
    hide ReadChunkRows, ReadColumnsStart, SkipColumns, DecodeColumns, ColumnsCost, FaithfulColumns, Expect, HasNested;
    if ReadChunkRows(s).Got? {
      var (rows, s1) := ReadChunkRows(s).Extract();
      if ReadColumnsStart(s1, schema).Got? {
        ColumnsIff(schema, ReadColumnsStart(s1, schema).rest, rows, 0, rows, 0, 0);
      }
    }
  }

  /** Where the columns of a chunk that can be stepped over start. */
  function ColumnBytes(s: bytes, schema: seq<Member>): bytes
    requires SkipChunk(s, schema).Got?
  {
    ReadColumnsStart(ReadChunkRows(s).rest, schema).rest
  }

  lemma {:induction false} TypesCanonical(s: bytes, n: nat)
    requires ReadTypeList(s, n).Got?
    ensures forall i | 0 <= i < n :: Canonical(ReadTypeList(s, n).value[i], 0)
    decreases n
  {
    hide ReadType, Canonical;
    if n > 0 {
      AcceptedTypeIsCanonical(s, 0);
      TypesCanonical(ReadType(s, 0).rest, n - 1);
    }
  }

  lemma {:induction false} MembersCanonical(schema: seq<Member>)
    requires forall i | 0 <= i < |schema| :: Canonical(schema[i].kind, 0)
    ensures CanonicalMembers(schema, 0)
  {
    hide Canonical;
    if schema != [] { MembersCanonical(schema[1..]); }
  }

  /** A schema that was read has types that survive the wire, so they can be built. */
  lemma SchemaCanonical(payload: bytes)
    requires ParseSchema(payload).Got?
    ensures CanonicalMembers(ParseSchema(payload).value, 0) && BuildableAll(ParseSchema(payload).value, 0)
  {
    hide Canonical, CanonicalMembers, ReadTypeList, ReadLabels, ReadUleb, BuildableAll;
    var (ncols, s2) := ReadUleb(Expect(payload, 1).rest).Extract();
    TypesCanonical(s2, ncols);
    var schema := ParseSchema(payload).value;
    assert forall i | 0 <= i < |schema| :: schema[i].kind == ReadTypeList(s2, ncols).value[i];
    MembersCanonical(schema);
    AllBuildable(schema, 0);
  }

  /** A batch passes the checks, with that row count, if and only if its schema is the target's,
      which has columns, and its results section passes with at most 2048 rows in each chunk. */
  lemma PreflightIff(payload: bytes, target: seq<Member>, total: nat)
    ensures Preflight(payload, target) == Some(total) <==>
      && ParseSchema(payload).Got? && ParseSchema(payload).value == target && target != []
      && ValidateResults(ParseSchema(payload).rest, target, 2048) == Some(total)
  {
    hide ParseSchema, ValidateResults, BuildableAll;
    if ParseSchema(payload).Got? { SchemaCanonical(payload); }
  }
}
