/** Payloads as the encoder writes them (src/ducknng_quack.c, lines 1380-1489), and what
    the receiving side makes of them: stepping over them, scanning them, appending them.
    Between two servers a payload arrives whole if and only if every chunk stays within
    the decoder's budget. */
module QuackTransfer {
  import opened Leb128
  import opened ByteKernel
  import opened Options
  import opened Outcomes
  import opened QuackAppend
  import opened QuackChunks
  import opened QuackPayload
  import opened QuackTypes
  import opened QuackVectors
  import opened Widths

  // ---- encoded vectors can be stepped over, whatever they expand to ----

  lemma {:induction false} EncodedSkips(t: Node, v: Vector, rows: nat, depth: nat, rest: bytes)
    requires Fits(t, v, rows) && VectorBefore(t, v, rows, depth, rest).Some?
    ensures Skip(t, VectorBefore(t, v, rows, depth, rest).value, rows, depth) == Got((), rest)
    decreases v, 1
  {
    hide PrologueBefore, BodyBefore, ReadKind, ReadPrologue, SkipBody, ReadDictionary;
    PrologueRoundTrip(v.validity, BodyBefore(t, v, rows, depth, rest).value);
    match v.body
    case Strings(_) => StringsBodySkips(t, v, rows, depth, rest);
    case Raw(_) => RawBodySkips(t, v, rows, depth, rest);
    case Columns(_) => StructBodySkips(t, v, rows, depth, rest);
    case Listed(_, _, _) => ListBodySkips(t, v, rows, depth, rest);
    case Arrayed(_) => ArrayBodySkips(t, v, rows, depth, rest);
  }

  lemma StringsBodySkips(t: Node, v: Vector, rows: nat, depth: nat, rest: bytes)
    requires Fits(t, v, rows) && v.body.Strings?
    ensures SkipBody(t, BodyBefore(t, v, rows, depth, rest).value, rows, depth) == Got((), rest)
  {
    hide Field, Number, Expect, RowValid, CleanStrings;
    var end := Field(FIELD_END, rest);
    var clean := CleanStrings(v.validity, v.body.values);
    StringsRead(clean, end);
    ExpectField(102, Number(rows, StringsBefore(clean, end)));
    NumberRead(rows, StringsBefore(clean, end));
    ExpectField(FIELD_END, rest);
  }

  lemma RawBodySkips(t: Node, v: Vector, rows: nat, depth: nat, rest: bytes)
    requires Fits(t, v, rows) && v.body.Raw?
    ensures SkipBody(t, BodyBefore(t, v, rows, depth, rest).value, rows, depth) == Got((), rest)
  {
    hide Field, Text, Expect, FixedWidth;
    var data, end := v.body.data, Field(FIELD_END, rest);
    ExpectField(102, Text(data, end));
    TextBytesRead(data, end);
    ExpectField(FIELD_END, rest);
  }

  lemma {:induction false} StructBodySkips(t: Node, v: Vector, rows: nat, depth: nat, rest: bytes)
    requires Fits(t, v, rows) && v.body.Columns? && BodyBefore(t, v, rows, depth, rest).Some?
    ensures SkipBody(t, BodyBefore(t, v, rows, depth, rest).value, rows, depth) == Got((), rest)
    decreases v, 0
  {
    hide Field, Number, Expect, SkipColumns;
    var end := Field(FIELD_END, rest);
    var columns := ColumnsBefore(t.members, v.body.children, rows, depth + 1, end).value;
    ColumnCountRead(|t.members|, columns);
    EncodedColumnsSkip(t.members, v.body.children, rows, depth + 1, end);
    ExpectField(FIELD_END, rest);
  }

  lemma {:induction false} ListBodySkips(t: Node, v: Vector, rows: nat, depth: nat, rest: bytes)
    requires Fits(t, v, rows) && v.body.Listed? && BodyBefore(t, v, rows, depth, rest).Some?
    ensures SkipBody(t, BodyBefore(t, v, rows, depth, rest).value, rows, depth) == Got((), rest)
    decreases v, 0
  {
    hide Field, Number, Expect, RowValid, CleanEntries, Skip, ReadEntries, EntriesBefore;
    var Listed(entries, size, child) := v.body;
    var end := Field(FIELD_END, rest);
    var c := VectorBefore(t.members[0].kind, child, size, depth + 1, end).value;
    EncodedSkips(t.members[0].kind, child, size, depth + 1, end);
    var clean := CleanEntries(v.validity, entries);
    ListSizeRead(size, rows, EntriesBefore(clean, Field(106, c)));
    ListEntriesRead(clean, size, c);
    ExpectField(FIELD_END, rest);
  }

  lemma {:induction false} ArrayBodySkips(t: Node, v: Vector, rows: nat, depth: nat, rest: bytes)
    requires Fits(t, v, rows) && v.body.Arrayed? && BodyBefore(t, v, rows, depth, rest).Some?
    ensures SkipBody(t, BodyBefore(t, v, rows, depth, rest).value, rows, depth) == Got((), rest)
    decreases v, 0
  {
    hide Fits, Weight, Rows, BodyBefore, Field, Number, Skip, SkipBody, VectorBefore, ReadArraySize;
    ArrayUnfolds(t, v, rows, depth, rest);
    var kind, element, size := t.members[0].kind, v.body.element, rows * t.arraySize;
    var c := VectorBefore(kind, element, size, depth + 1, Field(FIELD_END, rest)).value;
    EncodedSkips(kind, element, size, depth + 1, Field(FIELD_END, rest));
    ArraySizeRead(t.arraySize, rows, c);
    ArrayBodySkip(t, Field(103, Number(t.arraySize, Field(104, c))), rows, depth, size, c, rest);
  }

  lemma ArrayBodySkip(t: Node, s: bytes, rows: nat, depth: nat, size: nat, s1: bytes, rest: bytes)
    requires t.id == ARRAY && |t.members| == 1 && ReadArraySize(s, t.arraySize, rows) == Got(size, s1)
    requires Skip(t.members[0].kind, s1, size, depth + 1) == Got((), Field(FIELD_END, rest))
    ensures SkipBody(t, s, rows, depth) == Got((), rest)
  {
    hide Field, Expect, ReadArraySize, Skip;
    ExpectField(FIELD_END, rest);
  }

  lemma {:induction false} EncodedColumnsSkip(members: seq<Member>, children: seq<Vector>, rows: nat, depth: nat,
      rest: bytes)
    requires FitsAll(members, children, rows) && ColumnsBefore(members, children, rows, depth, rest).Some?
    ensures SkipColumns(members, ColumnsBefore(members, children, rows, depth, rest).value, rows, depth)
      == Got((), rest)
    decreases children, 0
  {
    hide Skip;
    if children != [] {
      var tail := ColumnsBefore(members[1..], children[1..], rows, depth, rest).value;
      EncodedSkips(members[0].kind, children[0], rows, depth, tail);
      EncodedColumnsSkip(members[1..], children[1..], rows, depth, rest);
    }
  }

  // ---- encoded chunks ----

  /** A chunk as the encoder finds it. */
  datatype Batch = Batch(rows: nat, vectors: seq<Vector>)

  /** What DuckDB guarantees of the chunks of a result. */
  predicate Sound(schema: seq<Member>, b: Batch) {
    b.rows <= VECTOR_SIZE && FitsAll(schema, b.vectors, b.rows)
  }

  function TypesBefore(schema: seq<Member>, rest: bytes): Option<bytes> {
    if schema == [] then Some(rest)
    else match TypesBefore(schema[1..], rest)
      case None => None
      case Some(tail) => TypeBefore(schema[0].kind, 0, tail)
  }

  /** A list element with the given bytes from its first column on. */
  function Element(schema: seq<Member>, rows: nat, columns: bytes): Option<bytes> {
    match TypesBefore(schema, Field(102, Number(|schema|, columns)))
    case None => None
    case Some(types) => Some([1] + Field(300, Field(100, Number(rows, Field(101, Number(|schema|, types))))))
  }

  /** `ducknng_quack_encode_one_chunk`. */
  function BatchBefore(schema: seq<Member>, b: Batch, rest: bytes): Option<bytes>
    requires Sound(schema, b)
  {
    match ColumnsBefore(schema, b.vectors, b.rows, 0, Field(FIELD_END, Field(FIELD_END, rest)))
    case None => None
    case Some(columns) => Element(schema, b.rows, columns)
  }

  lemma {:induction false} TypesRead(schema: seq<Member>, rest: bytes)
    requires CanonicalMembers(schema, 0)
    ensures TypesBefore(schema, rest).Some?
    ensures ReadTypes(TypesBefore(schema, rest).value, schema) == Got((), rest)
    ensures ReadTypeList(TypesBefore(schema, rest).value, |schema|) == Got(Kinds(schema), rest)
  {
    hide ReadType, TypeBefore, Canonical;
    if schema != [] {
      TypesRead(schema[1..], rest);
      TypeRoundTrip(schema[0].kind, 0, TypesBefore(schema[1..], rest).value);
    }
  }

  function Kinds(schema: seq<Member>): (kinds: seq<Node>)
    ensures |kinds| == |schema| && forall i | 0 <= i < |schema| :: kinds[i] == schema[i].kind
  {
    if schema == [] then [] else [schema[0].kind] + Kinds(schema[1..])
  }

  /** Everything in front of the columns is read back. */
  lemma ElementRead(schema: seq<Member>, rows: uint64, columns: bytes) returns (s1: bytes, s2: bytes)
    requires CanonicalMembers(schema, 0) && |schema| <= MAX_STRUCT_MEMBERS
    ensures Element(schema, rows, columns).Some?
    ensures ReadWrapperStart(Element(schema, rows, columns).value) == Got((), s1)
    ensures ReadChunkRows(s1) == Got(rows, s2) && ReadColumnsStart(s2, schema) == Got((), columns)
  {
    hide Field, Number, ReadU16, ReadUleb, TypesBefore, ReadTypes, CanonicalMembers;
    var s3 := Field(102, Number(|schema|, columns));
    TypesRead(schema, s3);
    var types := TypesBefore(schema, s3).value;
    s2 := Field(101, Number(|schema|, types));
    s1 := Field(100, Number(rows, s2));
    var e := [1] + Field(300, s1);
    assert e[1..] == Field(300, s1);
    FieldRead(300, s1);
    FieldRead(100, Number(rows, s2));
    NumberRead(rows, s2);
    FieldRead(101, Number(|schema|, types));
    NumberRead(|schema|, types);
    FieldRead(102, Number(|schema|, columns));
    NumberRead(|schema|, columns);
  }

  /** The two end markers of a chunk and of its wrapper. */
  lemma EndsRead(rest: bytes, mayOmit: bool)
    ensures Expect(Field(FIELD_END, Field(FIELD_END, rest)), FIELD_END) == Got((), Field(FIELD_END, rest))
    ensures ReadWrapperEnd(Field(FIELD_END, rest), mayOmit) == Got((), rest)
  {
    hide Field;
    FieldRead(FIELD_END, rest);
    FieldRead(FIELD_END, Field(FIELD_END, rest));
  }

  /** The chunk an encoded chunk is decoded to, if it is. */
  function Sent(schema: seq<Member>, b: Batch): Chunk
    requires Sound(schema, b)
  {
    Chunk(b.rows, if b.rows == 0 then [] else ColumnRows(schema, b.vectors, b.rows))
  }

  /** The receiver decodes a chunk without rows by stepping over it, any other within its budget. */
  predicate Receivable(schema: seq<Member>, b: Batch)
    requires Sound(schema, b)
  {
    b.rows == 0 || ColumnWeight(schema, b.vectors, b.rows) <= MAX_MATERIALIZED_VALUES
  }

  /** An encoded chunk can always be stepped over; it decodes, to what was sent, if and
      only if it is receivable. */
  lemma BatchRead(schema: seq<Member>, b: Batch, n: nat, rest: bytes)
    requires CanonicalMembers(schema, 0) && |schema| <= MAX_STRUCT_MEMBERS && Sound(schema, b)
    ensures BatchBefore(schema, b, rest).Some?
    ensures var s := BatchBefore(schema, b, rest).value;
      var p := ChunkAt(s, schema, n, 0);
      && SkipAt(s, schema, n) == Got(b.rows, rest)
      && (p.Got? <==> Receivable(schema, b))
      && (p.Got? ==> Whole(p.value) == Sent(schema, b) && p.rest == rest)
  {
    hide CanonicalMembers, FitsAll, ColumnsBefore, ColumnRows, ColumnWeight, Field, ReadWrapperStart, ReadChunkRows,
      ReadColumnsStart, SkipColumns, DecodeColumns, Expect, ReadWrapperEnd, Element, HasNested;
    var end := Field(FIELD_END, Field(FIELD_END, rest));
    ColumnsTotal(schema, b.vectors, b.rows, 0, end);
    var columns := ColumnsBefore(schema, b.vectors, b.rows, 0, end).value;
    var s1, s2 := ElementRead(schema, b.rows, columns);
    EncodedColumnsSkip(schema, b.vectors, b.rows, 0, end);
    ColumnsRoundTrip(schema, b.vectors, b.rows, 0, end, 0);
    EndsRead(rest, n > 1);
  }

  // ---- encoded payloads ----

  predicate AllSound(schema: seq<Member>, batches: seq<Batch>) {
    batches == [] || (Sound(schema, batches[0]) && AllSound(schema, batches[1..]))
  }

  predicate AllReceivable(schema: seq<Member>, batches: seq<Batch>)
    requires AllSound(schema, batches)
  {
    batches == [] || (Receivable(schema, batches[0]) && AllReceivable(schema, batches[1..]))
  }

  /** The chunks that arrive: those in front of the first that is not receivable. */
  function Arriving(schema: seq<Member>, batches: seq<Batch>): seq<Chunk>
    requires AllSound(schema, batches)
  {
    if batches == [] || !Receivable(schema, batches[0]) then []
    else [Sent(schema, batches[0])] + Arriving(schema, batches[1..])
  }

  function RowsSent(batches: seq<Batch>): nat {
    if batches == [] then 0 else batches[0].rows + RowsSent(batches[1..])
  }

  function BatchesBefore(schema: seq<Member>, batches: seq<Batch>, rest: bytes): Option<bytes>
    requires AllSound(schema, batches)
  {
    if batches == [] then Some(rest)
    else match BatchesBefore(schema, batches[1..], rest)
      case None => None
      case Some(tail) => BatchBefore(schema, batches[0], tail)
  }

  function ResultsBefore(schema: seq<Member>, batches: seq<Batch>): Option<bytes>
    requires AllSound(schema, batches)
  {
    if batches == [] then Some(Field(FIELD_END, []))
    else match BatchesBefore(schema, batches, Field(FIELD_END, []))
      case None => None
      case Some(chunks) => Some(Field(4, Number(|batches|, chunks)))
  }

  function Names(schema: seq<Member>): (names: seq<CString>)
    ensures |names| == |schema| && forall i | 0 <= i < |schema| :: names[i] == schema[i].name
  {
    if schema == [] then [] else [schema[0].name] + Names(schema[1..])
  }

  /** `ducknng_quack_encode_result_payload_pass`, with the schema. */
  function Payload(schema: seq<Member>, batches: seq<Batch>): Option<bytes>
    requires AllSound(schema, batches)
  {
    if |schema| > MAX_STRUCT_MEMBERS then None
    else match ResultsBefore(schema, batches)
      case None => None
      case Some(results) =>
        match TypesBefore(schema, Field(2, Number(|schema|, LabelsBefore(Names(schema), results))))
        case None => None
        case Some(types) => Some(Field(1, Number(|schema|, types)))
  }

  lemma {:induction false} BatchesRead(schema: seq<Member>, batches: seq<Batch>, rest: bytes, cap: nat, seen: nat)
    requires CanonicalMembers(schema, 0) && |schema| <= MAX_STRUCT_MEMBERS && AllSound(schema, batches)
    requires seen + RowsSent(batches) <= UINT64_MAX && (cap == 0 || cap >= VECTOR_SIZE)
    ensures BatchesBefore(schema, batches, rest).Some?
    ensures var s := BatchesBefore(schema, batches, rest).value;
      && SkipChunks(s, schema, |batches|, cap, seen) == Got(seen + RowsSent(batches), rest)
      && Pull(s, schema, |batches|, seen)
         == Pulled(Arriving(schema, batches), if AllReceivable(schema, batches) then Some(rest) else None)
    decreases |batches|
  {
    hide CanonicalMembers, Sound, BatchBefore, Receivable, Sent, ChunkAt, SkipAt, Pull;
    if batches == [] {
      PullNothing(rest, schema, seen);
    } else {
      var b, others := batches[0], batches[1..];
      BatchesRead(schema, others, rest, cap, seen + b.rows);
      var tail := BatchesBefore(schema, others, rest).value;
      BatchRead(schema, b, |batches|, tail);
      SoundRows(schema, b);
      var s := BatchBefore(schema, b, tail).value;
      PullFirst(s, schema, |batches|, seen);
      SkippedElement(s, schema, |batches|);
      if Receivable(schema, b) {
        var p := Pull(s, schema, |batches|, seen);
        assert p.chunks == [p.chunks[0]] + p.chunks[1..];
      }
    }
  }

  lemma SoundRows(schema: seq<Member>, b: Batch)
    requires Sound(schema, b)
    ensures b.rows <= VECTOR_SIZE && Sent(schema, b).rows == b.rows
  {
  }

  lemma SchemaRead(schema: seq<Member>, results: bytes)
    requires CanonicalMembers(schema, 0) && |schema| <= MAX_STRUCT_MEMBERS
    ensures var types := TypesBefore(schema, Field(2, Number(|schema|, LabelsBefore(Names(schema), results))));
      types.Some? && ParseSchema(Field(1, Number(|schema|, types.value))) == Got(schema, results)
  {
    hide CanonicalMembers, Field, Number, ReadU16, ReadUleb, ReadTypeList, ReadLabels, TypesBefore, LabelsBefore;
    var names := LabelsBefore(Names(schema), results);
    var s3 := Field(2, Number(|schema|, names));
    TypesRead(schema, s3);
    var types := TypesBefore(schema, s3).value;
    FieldRead(1, Number(|schema|, types));
    NumberRead(|schema|, types);
    FieldRead(2, Number(|schema|, names));
    NumberRead(|schema|, names);
    LabelsRoundTrip(Names(schema), results);
    assert QuackPayload.Columns(Kinds(schema), Names(schema)) == schema;
  }

  /** A result sent to another server: the schema is read back, the payload passes the
      check with the number of rows sent, and exactly the chunks up to the first one past
      the budget can be pulled out of it, each with the values it had. */
  lemma PayloadArrives(schema: seq<Member>, batches: seq<Batch>, cap: nat)
    requires CanonicalMembers(schema, 0) && |schema| <= MAX_STRUCT_MEMBERS && AllSound(schema, batches)
    requires |batches| <= UINT64_MAX && RowsSent(batches) <= UINT64_MAX && (cap == 0 || cap >= VECTOR_SIZE)
    ensures Payload(schema, batches).Some? && ParseSchema(Payload(schema, batches).value).Got?
    ensures ParseSchema(Payload(schema, batches).value).value == schema
    ensures var results := ParseSchema(Payload(schema, batches).value).rest;
      && ValidateResults(results, schema, cap) == Some(RowsSent(batches))
      && var p := PullPayload(results, schema);
         p.chunks == Arriving(schema, batches) && (p.rest.Some? <==> AllReceivable(schema, batches))
  {
    hide CanonicalMembers, AllSound, Field, Number, ReadU16, ReadUleb, TypesBefore, LabelsBefore, ParseSchema,
      SkipChunks, Pull, BatchesBefore;
    var end: bytes := Field(FIELD_END, []);
    BatchesRead(schema, batches, end, cap, 0);
    var results := ResultsBefore(schema, batches).value;
    SchemaRead(schema, results);
    FieldRead(FIELD_END, []);
    if batches != [] {
      var chunks := BatchesBefore(schema, batches, end).value;
      FieldRead(4, Number(|batches|, chunks));
      NumberRead(|batches|, chunks);
    }
  }

  /** An upload of a result by a server that has the same table: all its rows arrive if and
      only if every chunk is receivable and the appender takes them all. If not, the
      chunks in front stay in the appender although the append is refused. */
  lemma UploadArrives(schema: seq<Member>, batches: seq<Batch>, accepts: nat)
    requires CanonicalMembers(schema, 0) && 1 <= |schema| <= MAX_STRUCT_MEMBERS && AllSound(schema, batches)
    requires |batches| <= UINT64_MAX && RowsSent(batches) <= UINT64_MAX
    ensures Payload(schema, batches).Some?
    ensures var chunks := NonEmpty(Arriving(schema, batches));
      Append(Payload(schema, batches).value, schema, accepts)
      == if AllReceivable(schema, batches) && |chunks| <= accepts then Appended(RowsSent(batches))
         else Refused(Total(First(chunks, accepts)))
  {
    hide CanonicalMembers, AllSound, Payload, ParseSchema, ValidateResults, PullPayload, Arriving, AllReceivable,
      Append, NonEmpty, Total, First, Preflight;
    PayloadArrives(schema, batches, VECTOR_SIZE);
    PreflightIff(Payload(schema, batches).value, schema, RowsSent(batches));
    AppendExact(Payload(schema, batches).value, schema, accepts);
  }

  // ---- a batch that is half appended ----

  /** One column "a" of unsigned bytes. */
  const BYTE_COLUMN: seq<Member> := [Member([97], Bare(28))]

  /** A chunk of the one row 7, and a chunk whose row is the sequence 300, 300, ... */
  const SEVEN: Batch := Batch(1, [Vector(None, Raw([7]))])

  function ThreeHundred(rest: bytes): bytes {
    Field(90, Number(4, Field(91, Sleb(300) + Field(92, Sleb(0) + Field(FIELD_END, rest)))))
  }

  lemma ColumnIsSound()
    ensures CanonicalMembers(BYTE_COLUMN, 0) && BuildableAll(BYTE_COLUMN, 0) && |BYTE_COLUMN| == 1
    ensures Sound(BYTE_COLUMN, SEVEN) && Receivable(BYTE_COLUMN, SEVEN)
  {
    assert BYTE_COLUMN[1..] == [] && SEVEN.vectors[1..] == [];
    assert FixedWidth(Bare(28)) == 1;
    assert Fits(Bare(28), SEVEN.vectors[0], 1);
    assert Weight(Bare(28), SEVEN.vectors[0], 1) == 1;
  }

  /** The sequence can be stepped over but does not decode. */
  lemma ThreeHundredRefused(rest: bytes)
    ensures SkipColumns(BYTE_COLUMN, ThreeHundred(rest), 1, 0) == Got((), rest)
    ensures DecodeColumns(BYTE_COLUMN, ThreeHundred(rest), 1, 0, 1, 0, 0).Bad?
  {
    SequenceRead(rest);
    hide Field, Number, ReadKind, ReadSequence;
    var s1 := Field(91, Sleb(300) + Field(92, Sleb(0) + Field(FIELD_END, rest)));
    assert Skip(Bare(28), ThreeHundred(rest), 1, 0) == Got((), rest);
    assert SequenceAt(300, 0, 0) == 300;
    assert !AllInRange(28, 300, 0, 0, 1) by { assert !InRange(28, SequenceAt(300, 0, 0)); }
    assert DecodeSequence(28, s1, 0, 1).Bad?;
    assert BYTE_COLUMN[1..] == [];
  }

  lemma SequenceRead(rest: bytes)
    ensures var s1 := Field(91, Sleb(300) + Field(92, Sleb(0) + Field(FIELD_END, rest)));
      ReadKind(ThreeHundred(rest)) == Got(4, s1) && ReadSequence(s1) == Got((300, 0), rest)
  {
    hide Field, Number, ReadU16, ReadUleb, ReadSleb, Sleb;
    var s3 := Field(92, Sleb(0) + Field(FIELD_END, rest));
    var s1 := Field(91, Sleb(300) + s3);
    FieldRead(90, Number(4, s1));
    NumberRead(4, s1);
    FieldRead(91, Sleb(300) + s3);
    SlebRoundTrip(300, s3);
    FieldRead(92, Sleb(0) + Field(FIELD_END, rest));
    SlebRoundTrip(0, Field(FIELD_END, rest));
    FieldRead(FIELD_END, rest);
  }

  lemma SecondChunk(rest: bytes)
    ensures var s := Element(BYTE_COLUMN, 1, ThreeHundred(Field(FIELD_END, Field(FIELD_END, rest))));
      s.Some? && SkipAt(s.value, BYTE_COLUMN, 1) == Got(1, rest) && ChunkAt(s.value, BYTE_COLUMN, 1, 0).Bad?
  {
    hide CanonicalMembers, Field, ReadWrapperStart, ReadChunkRows, ReadColumnsStart, SkipColumns, DecodeColumns,
      Expect, ReadWrapperEnd, Element, HasNested, ThreeHundred, BuildableAll, Sound, Receivable;
    ColumnIsSound();
    var columns := ThreeHundred(Field(FIELD_END, Field(FIELD_END, rest)));
    var s1, s2 := ElementRead(BYTE_COLUMN, 1, columns);
    ThreeHundredRefused(Field(FIELD_END, Field(FIELD_END, rest)));
    EndsRead(rest, false);
  }

  /** Both chunks, the first of which decodes. */
  lemma TwoChunks(rest: bytes) returns (s: bytes, c: Chunk)
    ensures SkipChunks(s, BYTE_COLUMN, 2, VECTOR_SIZE, 0) == Got(2, rest)
    ensures Pull(s, BYTE_COLUMN, 2, 0) == Pulled([c], None) && c.rows == 1
  {
    hide CanonicalMembers, Element, Sound, Receivable, BatchBefore, ChunkAt, SkipAt, Pull, SkipChunks, BuildableAll,
      ThreeHundred, Field, Sent;
    ColumnIsSound();
    SecondChunk(rest);
    var second := Element(BYTE_COLUMN, 1, ThreeHundred(Field(FIELD_END, Field(FIELD_END, rest)))).value;
    BatchRead(BYTE_COLUMN, SEVEN, 2, second);
    s := BatchBefore(BYTE_COLUMN, SEVEN, second).value;
    c := Sent(BYTE_COLUMN, SEVEN);
    SoundRows(BYTE_COLUMN, SEVEN);
    TwoSkipped(s, second, rest, BYTE_COLUMN);
    OnePulled(s, second, BYTE_COLUMN, c);
  }

  lemma TwoSkipped(s: bytes, second: bytes, rest: bytes, schema: seq<Member>)
    requires SkipAt(s, schema, 2) == Got(1, second) && SkipAt(second, schema, 1) == Got(1, rest)
    ensures SkipChunks(s, schema, 2, VECTOR_SIZE, 0) == Got(2, rest)
  {
    hide SkipAt;
    assert SkipChunks(second, schema, 1, VECTOR_SIZE, 1) == Got(2, rest);
  }

  lemma OnePulled(s: bytes, second: bytes, schema: seq<Member>, c: Chunk)
    requires ChunkAt(s, schema, 2, 0).Got? && Whole(ChunkAt(s, schema, 2, 0).value) == c && c.rows == 1
    requires ChunkAt(s, schema, 2, 0).rest == second && ChunkAt(second, schema, 1, 0).Bad?
    ensures Pull(s, schema, 2, 0) == Pulled([c], None)
  {
    hide ChunkAt, Pull;
    PullFirst(s, schema, 2, 0);
    PullFirst(second, schema, 1, 1);
  }

  /** Those two chunks in one payload: the check lets it pass with two rows, the second
      chunk does not decode, and the append is refused with one row in the appender. */
  lemma HalfAppended() returns (payload: bytes)
    ensures Preflight(payload, BYTE_COLUMN) == Some(2)
    ensures forall accepts | accepts > 0 :: Append(payload, BYTE_COLUMN, accepts) == Refused(1)
  {
    hide CanonicalMembers, Field, Number, ReadU16, ReadUleb, TypesBefore, LabelsBefore, ParseSchema, SkipChunks,
      Pull, Append, NonEmpty, Total, BuildableAll, Sound, Receivable;
    var end: bytes := Field(FIELD_END, []);
    var chunks, c := TwoChunks(end);
    var results := Field(4, Number(2, chunks));
    ColumnIsSound();
    SchemaRead(BYTE_COLUMN, results);
    payload := Field(1,
      Number(1, TypesBefore(BYTE_COLUMN, Field(2, Number(1, LabelsBefore(Names(BYTE_COLUMN), results)))).value));
    FieldRead(4, Number(2, chunks));
    NumberRead(2, chunks);
    FieldRead(FIELD_END, []);
    NoChunks();
    assert [c] + [] == [c];
    forall accepts | accepts > 0 ensures Append(payload, BYTE_COLUMN, accepts) == Refused(1) {
      FirstChunk(c, [], accepts);
      AppendExact(payload, BYTE_COLUMN, accepts);
    }
  }
}
