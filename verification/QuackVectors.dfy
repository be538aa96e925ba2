/** Column vectors on the wire (src/ducknng_quack.c, lines 1256-1378 and
    1573-2230): the encoder writes flat vectors, the decoder also materialises
    constant, dictionary and sequence vectors, and a skipper steps over a vector
    without decoding it. What a vector means is the sequence of its row values. */
module QuackVectors {
  import opened Leb128
  import opened ByteKernel
  import opened Options
  import opened QuackTypes
  import opened Widths

  /** One logical value: a scalar is its bytes. */
  datatype Value = Null | Scalar(data: bytes) | Record(fields: seq<Value>) | Items(items: seq<Value>)

  /** A flat vector as the encoder finds it: its validity mask, and per kind of
      type strings, child vectors, list entries over a child, an array child or
      raw fixed-width data. */
  datatype Vector = Vector(validity: Option<bytes>, body: Body)
  datatype Body =
    | Strings(values: seq<bytes>)
    | Columns(children: seq<Vector>)
    | Listed(entries: seq<Entry>, size: uint64, child: Vector)
    | Arrayed(element: Vector)
    | Raw(data: bytes)
  datatype Entry = Entry(offset: uint64, length: uint64)

  const MAX_MATERIALIZED_VALUES: nat := 0x40_0000

  // ---- validity masks ----

  function Bit(b: byte, k: nat): bool
    requires k < 8
  {
    b / Shl(1, k) % 2 == 1
  }

  /** `ducknng_quack_vector_row_is_valid`; no mask means every row is valid. */
  predicate RowValid(validity: Option<bytes>, row: nat) {
    match validity
    case None => true
    case Some(mask) => row / 8 < |mask| && Bit(mask[row / 8], row % 8)
  }

  /** `ducknng_qk_validity_bytes`. */
  function ValidityBytes(rows: nat): nat {
    if rows > UINT64_MAX - 63 then SIZE_MAX else (rows + 63) / 64 * 8
  }

  /** A mask of that size has a bit for every row. */
  lemma MaskCoversRows(rows: nat, row: nat)
    requires row < rows <= UINT64_MAX
    ensures row / 8 < ValidityBytes(rows)
  {
  }

  // ---- pieces of the wire format ----

  function Expect(s: bytes, field: nat): (p: Parsed<()>)
    ensures p.Got? ==> |p.rest| < |s|
  {
    var (id, s1) :- ReadU16(s);
    if id == field then Got((), s1) else Bad(Invalid)
  }

  /** `ducknng_quack_read_vector_type`: flat unless field 90 says otherwise. */
  function ReadKind(s: bytes): (p: Parsed<nat>)
    ensures p.Got? ==> |p.rest| <= |s| && p.value <= 4
    ensures p.Got? && p.value != 0 ==> |p.rest| < |s|
  {
    var (id, s1) :- ReadU16(s);
    if id != 90 then Got(0, s) else
    var (kind, s2) :- ReadUleb(s1);
    if kind > 4 then Bad(Invalid) else Got(kind, s2)
  }

  function ReadPrologue(s: bytes): (p: Parsed<Option<bytes>>)
    ensures p.Got? ==> |p.rest| < |s|
  {
    var (_, s1) :- Expect(s, 100);
    var (present, s2) :- ReadBoolean(s1);
    if !present then Got(None, s2) else
    var (_, s3) :- Expect(s2, 101);
    var (mask, s4) :- ReadCounted(s3);
    Got(Some(mask), s4)
  }

  /** A little-endian 32-bit selection index. */
  function Index32(s: bytes, i: nat): nat
    requires 4 * i + 4 <= |s|
  {
    s[4 * i] + 0x100 * s[4 * i + 1] as int + 0x1_0000 * s[4 * i + 2] as int + 0x100_0000 * s[4 * i + 3] as int
  }

  function Indexes(s: bytes, n: nat): (r: seq<nat>)
    requires 4 * n <= |s|
    ensures |r| == n && forall i :: 0 <= i < n ==> r[i] == Index32(s, i)
  {
    seq(n, i requires 0 <= i < n => Index32(s, i))
  }

  /** `ducknng_quack_read_dictionary_header`: the selected index of every row,
      each within the dictionary, and the dictionary's size. */
  function ReadDictionary(s: bytes, rows: nat): (p: Parsed<(seq<nat>, nat)>)
    ensures p.Got? ==> |p.rest| < |s| && |p.value.0| == rows
    ensures p.Got? ==> forall i :: 0 <= i < rows ==> p.value.0[i] < p.value.1
  {
    var (_, s1) :- Expect(s, 91);
    var (selection, s2) :- ReadCounted(s1);
    var (_, s3) :- Expect(s2, 92);
    var (n, s4) :- ReadUleb(s3);
    if |selection| != 4 * rows || (rows > 0 && n == 0) || n > rows then Bad(Invalid) else
    var picks := Indexes(selection, rows);
    if exists i :: 0 <= i < rows && picks[i] >= n then Bad(Invalid) else Got((picks, n), s4)
  }

  function ReadStrings(s: bytes, n: nat): (p: Parsed<seq<bytes>>)
    ensures p.Got? ==> |p.rest| <= |s| && |p.value| == n
    decreases n
  {
    if n == 0 then Got([], s) else
    var (first, s1) :- ReadCounted(s);
    var (others, s2) :- ReadStrings(s1, n - 1);
    Got([first] + others, s2)
  }

  function ReadEntries(s: bytes, n: nat, size: nat): (p: Parsed<seq<Entry>>)
    ensures p.Got? ==> |p.rest| <= |s| && |p.value| == n
    ensures p.Got? ==> forall i :: 0 <= i < n ==> p.value[i].offset + p.value[i].length <= size
    decreases n
  {
    if n == 0 then Got([], s) else
    var (_, s1) :- Expect(s, 100);
    var (offset, s2) :- ReadUleb(s1);
    var (_, s3) :- Expect(s2, 101);
    var (length, s4) :- ReadUleb(s3);
    var (_, s5) :- Expect(s4, FIELD_END);
    if offset >= TWO_64 || length >= TWO_64 || offset > size || length > size - offset then Bad(Invalid) else
    var (others, s6) :- ReadEntries(s5, n - 1, size);
    Got([Entry(offset, length)] + others, s6)
  }

  /** Start and increment of a sequence vector. */
  function ReadSequence(s: bytes): (p: Parsed<(int, int)>)
    ensures p.Got? ==> |p.rest| < |s|
  {
    var (_, s1) :- Expect(s, 91);
    var (start, s2) :- ReadSleb(s1);
    var (_, s3) :- Expect(s2, 92);
    var (increment, s4) :- ReadSleb(s3);
    var (_, s5) :- Expect(s4, FIELD_END);
    Got((start, increment), s5)
  }

  /** The strings of a variable-width vector and its end marker. */
  function ReadStringData(s: bytes, rows: nat): (p: Parsed<seq<bytes>>)
    ensures p.Got? ==> |p.rest| < |s| && |p.value| == rows
  {
    var (_, s1) :- Expect(s, 102);
    var (n, s2) :- ReadUleb(s1);
    if n != rows then Bad(Invalid) else
    var (values, s3) :- ReadStrings(s2, rows);
    var (_, s4) :- Expect(s3, FIELD_END);
    Got(values, s4)
  }

  /** The data of a fixed-width vector and its end marker. */
  function ReadRawData(s: bytes, width: nat, rows: nat): (p: Parsed<bytes>)
    ensures p.Got? ==> |p.rest| < |s| && width > 0 && |p.value| == width * rows
  {
    var (_, s1) :- Expect(s, 102);
    var (data, s2) :- ReadCounted(s1);
    if width == 0 || |data| != width * rows then Bad(Invalid) else
    var (_, s3) :- Expect(s2, FIELD_END);
    Got(data, s3)
  }

  function ReadColumnCount(s: bytes, n: nat): (p: Parsed<()>)
    ensures p.Got? ==> |p.rest| < |s|
  {
    var (_, s1) :- Expect(s, 103);
    var (count, s2) :- ReadUleb(s1);
    if count != n || n == 0 then Bad(Invalid) else Got((), s2)
  }

  /** The child size of a list vector; its entry count must be the row count. */
  function ReadListSize(s: bytes, rows: nat): (p: Parsed<nat>)
    ensures p.Got? ==> |p.rest| < |s|
  {
    var (_, s1) :- Expect(s, 104);
    var (size, s2) :- ReadUleb(s1);
    var (_, s3) :- Expect(s2, 105);
    var (n, s4) :- ReadUleb(s3);
    if n != rows then Bad(Invalid) else Got(size, s4)
  }

  function ReadListEntries(s: bytes, rows: nat, size: nat): (p: Parsed<seq<Entry>>)
    ensures p.Got? ==> |p.rest| < |s| && |p.value| == rows
    ensures p.Got? ==> forall i :: 0 <= i < rows ==> p.value[i].offset + p.value[i].length <= size
  {
    var (entries, s1) :- ReadEntries(s, rows, size);
    var (_, s2) :- Expect(s1, 106);
    Got(entries, s2)
  }

  /** The child row count of an array vector. */
  function ReadArraySize(s: bytes, arraySize: nat, rows: nat): (p: Parsed<nat>)
    ensures p.Got? ==> |p.rest| < |s| && p.value == rows * arraySize
  {
    var (_, s1) :- Expect(s, 103);
    var (size, s2) :- ReadUleb(s1);
    var (_, s3) :- Expect(s2, 104);
    if size != arraySize || rows * arraySize > UINT64_MAX then Bad(Invalid)
    else Got(rows * arraySize, s3)
  }

  // ---- skipping ----

  predicate IsSequenceInteger(id: int) {
    id in {11, 12, 13, 14, 28, 29, 30, 31}
  }

  /** `ducknng_quack_skip_vector_node`. */
  function Skip(t: Node, s: bytes, rows: nat, depth: nat): (p: Parsed<()>)
    ensures p.Got? ==> |p.rest| < |s|
    decreases |s|, 1
  {
    if depth > MAX_NESTING then Bad(Invalid) else
    var (kind, s1) :- ReadKind(s);
    if kind == 1 then Bad(Invalid)
    else if kind == 2 then Skip(t, s1, 1, depth + 1)
    else if kind == 3 then
      var ((_, n), s2) :- ReadDictionary(s1, rows);
      Skip(t, s2, n, depth + 1)
    else if kind == 4 then
      if !IsSequenceInteger(t.id) then Bad(Invalid) else
      var (_, s2) :- ReadSequence(s1);
      Got((), s2)
    else
      var (validity, s2) :- ReadPrologue(s1);
      if validity.Some? && |validity.value| != ValidityBytes(rows) then Bad(Invalid)
      else SkipBody(t, s2, rows, depth)
  }

  /** The part of a flat vector after its validity mask. */
  function SkipBody(t: Node, s: bytes, rows: nat, depth: nat): (p: Parsed<()>)
    ensures p.Got? ==> |p.rest| < |s|
    decreases |s|, 0
  {
    if IsVarlen(t.id) then
      var (_, s1) :- ReadStringData(s, rows);
      Got((), s1)
    else if HasMembers(t.id) then
      var (_, s1) :- ReadColumnCount(s, |t.members|);
      var (_, s2) :- SkipColumns(t.members, s1, rows, depth + 1);
      Expect(s2, FIELD_END)
    else if HasOneChild(t.id) && |t.members| != 1 then Bad(Invalid)
    else if t.id == LIST || t.id == MAP then
      var (size, s1) :- ReadListSize(s, rows);
      var (_, s2) :- ReadListEntries(s1, rows, size);
      var (_, s3) :- Skip(t.members[0].kind, s2, size, depth + 1);
      Expect(s3, FIELD_END)
    else if t.id == ARRAY then
      var (size, s1) :- ReadArraySize(s, t.arraySize, rows);
      var (_, s2) :- Skip(t.members[0].kind, s1, size, depth + 1);
      Expect(s2, FIELD_END)
    else
      var (_, s1) :- ReadRawData(s, FixedWidth(t), rows);
      Got((), s1)
  }

  function SkipColumns(members: seq<Member>, s: bytes, rows: nat, depth: nat): (p: Parsed<()>)
    ensures p.Got? ==> |p.rest| <= |s|
    decreases |s|, 2, |members|
  {
    if members == [] then Got((), s) else
    var (_, s1) :- Skip(members[0].kind, s, rows, depth);
    SkipColumns(members[1..], s1, rows, depth)
  }

  // ---- decoding ----

  /** `ducknng_quack_check_materialized_values`: the budget of values one payload
      may expand to. */
  predicate WithinBudget(used: nat, count: nat) {
    used <= MAX_MATERIALIZED_VALUES && count <= MAX_MATERIALIZED_VALUES - used
  }

  /** `ducknng_quack_node_to_duckdb` accepts the type at this depth. */
  predicate Buildable(t: Node, depth: nat)
    decreases t, 0
  {
    && depth <= MAX_NESTING
    && (t.id == LIST || t.id == ARRAY ==> |t.members| == 1 && Buildable(t.members[0].kind, depth + 1))
    && (t.id == STRUCT ==> |t.members| >= 1 && BuildableAll(t.members, depth + 1))
    && (t.id == UNION ==> |t.members| >= 2 && BuildableAll(t.members[1..], depth + 1))
    && (t.id == MAP ==>
      |t.members| == 1 && t.members[0].kind.id == STRUCT && |t.members[0].kind.members| == 2
      && BuildableAll(t.members[0].kind.members, depth + 2))
    && (!NeedsInfo(t.id) ==> IsPlain(t.id))
  }

  predicate BuildableAll(members: seq<Member>, depth: nat)
    decreases members, 0
  {
    members == [] || (Buildable(members[0].kind, depth) && BuildableAll(members[1..], depth))
  }

  /** The value of a sequence vector at a row: 64-bit wrapping arithmetic. */
  function SequenceAt(start: int, increment: int, row: nat): int {
    Signed64((start + increment * row) % TWO_64)
  }

  /** The range check of `ducknng_quack_decode_sequence`. */
  predicate InRange(id: int, v: int) {
    if id == 11 then -0x80 <= v <= 0x7f
    else if id == 12 then -0x8000 <= v <= 0x7fff
    else if id == 13 then -0x8000_0000 <= v <= 0x7fff_ffff
    else if id == 28 then 0 <= v <= 0xff
    else if id == 29 then 0 <= v <= 0xffff
    else if id == 30 then 0 <= v <= 0xffff_ffff
    else if id == 31 then 0 <= v
    else true
  }

  predicate AllInRange(id: int, start: int, increment: int, from: nat, to: nat) {
    forall row :: from <= row < to ==> InRange(id, SequenceAt(start, increment, row))
  }

  function LittleEndian(v: int, width: nat): bytes
    decreases width
  {
    if width == 0 then [] else [v % 256] + LittleEndian(v / 256, width - 1)
  }

  function SequenceRow(id: int, start: int, increment: int, row: nat): Value {
    Scalar(LittleEndian(SequenceAt(start, increment, row), PlainWidth(id)))
  }

  /** `n` consecutive pieces of `width` elements each. */
  function Pieces<T>(data: seq<T>, width: nat, n: nat): (r: seq<seq<T>>)
    requires |data| == width * n
    ensures |r| == n
    decreases n
  {
    if n == 0 then [] else
    assert width * n == width * (n - 1) + width;
    [data[..width]] + Pieces(data[width..], width, n - 1)
  }

  /** The selection of a constant vector. */
  function Zeros(count: nat): (r: seq<nat>)
    ensures |r| == count
  {
    seq(count, _ => 0)
  }

  /** `ducknng_quack_decode_vector_into`: rows `offset .. offset + count` of a
      vector of `rows` rows, and the budget used afterwards. */
  function Decode(t: Node, s: bytes, rows: nat, offset: nat, count: nat, depth: nat, used: nat):
      (p: Parsed<(seq<Value>, nat)>)
    ensures p.Got? ==> |p.rest| < |s| && |p.value.0| == count
    decreases |s|, 1
  {
    if depth > MAX_NESTING || offset + count > rows || !WithinBudget(used, rows) then Bad(Invalid) else
    var (kind, s1) :- ReadKind(s);
    if kind == 1 then Bad(Invalid)
    else if kind == 2 then DecodeCopy(t, s1, 1, Zeros(count), depth, used + rows)
    else if kind == 3 then
      var ((picks, n), s2) :- ReadDictionary(s1, rows);
      DecodeCopy(t, s2, n, picks[offset..offset + count], depth, used + rows)
    else if kind == 4 then
      var (values, s2) :- DecodeSequence(t.id, s1, offset, count);
      Got((values, used + rows), s2)
    else
      var (validity, s2) :- ReadPrologue(s1);
      if validity.Some? && |validity.value| != ValidityBytes(rows) then Bad(Invalid)
      else DecodeBody(t, s2, validity, rows, offset, count, depth, used + rows)
  }

  function DecodeSequence(id: int, s: bytes, offset: nat, count: nat): (p: Parsed<seq<Value>>)
    ensures p.Got? ==> |p.rest| < |s| && |p.value| == count
  {
    var ((start, increment), s1) :- ReadSequence(s);
    if !IsSequenceInteger(id) || !AllInRange(id, start, increment, offset, offset + count) then Bad(Invalid)
    else Got(SequenceRows(id, start, increment, offset, count), s1)
  }

  /** `ducknng_quack_decode_compressed_copy`: decode `n` source rows, then pick. */
  function DecodeCopy(t: Node, s: bytes, n: nat, picks: seq<nat>, depth: nat, used: nat): (p: Parsed<(seq<Value>, nat)>)
    ensures p.Got? ==> |p.rest| < |s| && |p.value.0| == |picks|
    decreases |s|, 2
  {
    if !WithinBudget(used, n) || !Buildable(t, depth) then Bad(Invalid) else
    var ((source, used'), s1) :- Decode(t, s, n, 0, n, depth + 1, used);
    if exists i :: 0 <= i < |picks| && picks[i] >= n then Bad(Invalid)
    else Got((Picked(source, picks), used'), s1)
  }

  /** The part of a flat vector after its validity mask. */
  function DecodeBody(t: Node, s: bytes, validity: Option<bytes>, rows: nat, offset: nat, count: nat, depth: nat,
      used: nat):
    (p: Parsed<(seq<Value>, nat)>)
    requires offset + count <= rows
    ensures p.Got? ==> |p.rest| < |s| && |p.value.0| == count
    decreases |s|, 0
  {
    if IsVarlen(t.id) then
      var (values, s1) :- ReadStringData(s, rows);
      Got((ScalarRows(validity, values, offset, count), used), s1)
    else if HasMembers(t.id) then
      var (_, s1) :- ReadColumnCount(s, |t.members|);
      var ((columns, used'), s2) :- DecodeColumns(t.members, s1, rows, offset, count, depth + 1, used);
      var (_, s3) :- Expect(s2, FIELD_END);
      Got((RecordRows(validity, columns, offset, count), used'), s3)
    else if HasOneChild(t.id) && |t.members| != 1 then Bad(Invalid)
    else if t.id == LIST || t.id == MAP then
      var (size, s1) :- ReadListSize(s, rows);
      if !WithinBudget(used, size) then Bad(Invalid) else
      var (entries, s2) :- ReadListEntries(s1, rows, size);
      var ((child, used'), s3) :- Decode(t.members[0].kind, s2, size, 0, size, depth + 1, used);
      var (_, s4) :- Expect(s3, FIELD_END);
      Got((ListRows(validity, entries, child, offset, count), used'), s4)
    else if t.id == ARRAY then
      var (size, s1) :- ReadArraySize(s, t.arraySize, rows);
      var ((child, used'), s2) :- Decode(t.members[0].kind, s1, size, 0, size, depth + 1, used);
      var (_, s3) :- Expect(s2, FIELD_END);
      var pieces := Pieces(child, t.arraySize, rows);
      Got((ArrayRows(validity, pieces, offset, count), used'), s3)
    else
      var (data, s1) :- ReadRawData(s, FixedWidth(t), rows);
      var pieces := Pieces(data, FixedWidth(t), rows);
      Got((ScalarRows(validity, pieces, offset, count), used), s1)
  }

  function DecodeColumns(members: seq<Member>, s: bytes, rows: nat, offset: nat, count: nat, depth: nat, used: nat):
    (p: Parsed<(seq<seq<Value>>, nat)>)
    ensures p.Got? ==> |p.rest| <= |s| && |p.value.0| == |members|
    ensures p.Got? ==> forall j :: 0 <= j < |members| ==> |p.value.0[j]| == count
    decreases |s|, 2, |members|
  {
    if members == [] then Got(([], used), s) else
    var ((first, used'), s1) :- Decode(members[0].kind, s, rows, offset, count, depth, used);
    var ((others, used''), s2) :- DecodeColumns(members[1..], s1, rows, offset, count, depth, used');
    Got(([first] + others, used''), s2)
  }

  // The values the destination rows end up with. Destination row `i` is wire row
  // `offset + i`, whose validity bit decides.

  function SequenceRows(id: int, start: int, increment: int, offset: nat, count: nat): (r: seq<Value>)
    ensures |r| == count && forall i :: 0 <= i < count ==> r[i] == SequenceRow(id, start, increment, offset + i)
  {
    if count == 0 then []
    else SequenceRows(id, start, increment, offset, count - 1) + [SequenceRow(id, start, increment, offset + count - 1)]
  }

  function Picked(source: seq<Value>, picks: seq<nat>): (r: seq<Value>)
    requires forall i :: 0 <= i < |picks| ==> picks[i] < |source|
    ensures |r| == |picks| && forall i :: 0 <= i < |picks| ==> r[i] == source[picks[i]]
  {
    seq(|picks|, i requires 0 <= i < |picks| => source[picks[i]])
  }

  function Masked(validity: Option<bytes>, source: nat, v: Value): Value {
    if RowValid(validity, source) then v else Null
  }

  function ScalarRows(validity: Option<bytes>, values: seq<bytes>, offset: nat, count: nat): (r: seq<Value>)
    requires offset + count <= |values|
    ensures |r| == count && forall i :: 0 <= i < count ==>
      r[i] == Masked(validity, offset + i, Scalar(values[offset + i]))
  {
    seq(count, i requires 0 <= i < count => Masked(validity, offset + i, Scalar(values[offset + i])))
  }

  function Across(columns: seq<seq<Value>>, i: nat): (r: seq<Value>)
    requires forall j :: 0 <= j < |columns| ==> i < |columns[j]|
    ensures |r| == |columns| && forall j :: 0 <= j < |columns| ==> r[j] == columns[j][i]
  {
    seq(|columns|, j requires 0 <= j < |columns| => columns[j][i])
  }

  function RecordRows(validity: Option<bytes>, columns: seq<seq<Value>>, offset: nat, count: nat): (r: seq<Value>)
    requires forall j :: 0 <= j < |columns| ==> |columns[j]| == count
    ensures |r| == count && forall i :: 0 <= i < count ==>
      r[i] == Masked(validity, offset + i, Record(Across(columns, i)))
  {
    seq(count, i requires 0 <= i < count => Masked(validity, offset + i, Record(Across(columns, i))))
  }

  function ListRow(validity: Option<bytes>, entries: seq<Entry>, child: seq<Value>, source: nat): Value
    requires source < |entries|
    requires RowValid(validity, source) ==> entries[source].offset + entries[source].length <= |child|
  {
    if RowValid(validity, source) then
      Items(child[entries[source].offset..entries[source].offset + entries[source].length])
    else Null
  }

  function ListRows(validity: Option<bytes>, entries: seq<Entry>, child: seq<Value>, offset: nat, count: nat):
      (r: seq<Value>)
    requires offset + count <= |entries|
    requires forall k :: 0 <= k < |entries| && RowValid(validity, k) ==>
      entries[k].offset + entries[k].length <= |child|
    ensures |r| == count && forall i :: 0 <= i < count ==> r[i] == ListRow(validity, entries, child, offset + i)
  {
    seq(count, i requires 0 <= i < count => ListRow(validity, entries, child, offset + i))
  }

  /** The decoder fills the child of an array from its first row whatever the
      slice, so destination row `i` takes the elements of wire row `i`. */
  function ArrayRows(validity: Option<bytes>, pieces: seq<seq<Value>>, offset: nat, count: nat): (r: seq<Value>)
    requires count <= |pieces|
    ensures |r| == count && forall i :: 0 <= i < count ==> r[i] == Masked(validity, offset + i, Items(pieces[i]))
  {
    seq(count, i requires 0 <= i < count => Masked(validity, offset + i, Items(pieces[i])))
  }

  // ---- decoding and skipping agree ----

  /** Whatever bytes arrive, where the decoder succeeds on any slice the skipper
      succeeds too, and both stop at the same byte. */
  lemma {:induction false} DecodeSkip(t: Node, s: bytes, rows: nat, offset: nat, count: nat, depth: nat, used: nat)
    requires Decode(t, s, rows, offset, count, depth, used).Got?
    ensures Skip(t, s, rows, depth) == Got((), Decode(t, s, rows, offset, count, depth, used).rest)
    decreases |s|, 1
  {
    hide ReadDictionary, ReadPrologue, ReadKind, ReadSequence;
    var (kind, s1) := ReadKind(s).Extract();
    var p := Decode(t, s, rows, offset, count, depth, used);
    if kind == 2 {
      assert p == DecodeCopy(t, s1, 1, Zeros(count), depth, used + rows);
      CopySkip(t, s1, 1, Zeros(count), depth, used + rows);
    } else if kind == 3 {
      var ((picks, n), s2) := ReadDictionary(s1, rows).Extract();
      assert p == DecodeCopy(t, s2, n, picks[offset..offset + count], depth, used + rows);
      CopySkip(t, s2, n, picks[offset..offset + count], depth, used + rows);
    } else if kind == 4 {
      SequenceSkip(t, s1, offset, count);
    } else {
      var (validity, s2) := ReadPrologue(s1).Extract();
      assert p == DecodeBody(t, s2, validity, rows, offset, count, depth, used + rows);
      BodySkip(t, s2, validity, rows, offset, count, depth, used + rows);
    }
  }

  lemma SequenceSkip(t: Node, s: bytes, offset: nat, count: nat)
    requires DecodeSequence(t.id, s, offset, count).Got?
    ensures IsSequenceInteger(t.id) && ReadSequence(s).Got?
      && ReadSequence(s).rest == DecodeSequence(t.id, s, offset, count).rest
  {
  }

  lemma {:induction false} CopySkip(t: Node, s: bytes, n: nat, picks: seq<nat>, depth: nat, used: nat)
    requires DecodeCopy(t, s, n, picks, depth, used).Got?
    ensures Skip(t, s, n, depth + 1) == Got((), DecodeCopy(t, s, n, picks, depth, used).rest)
    decreases |s|, 2
  {
    DecodeSkip(t, s, n, 0, n, depth + 1, used);
  }

  lemma {:induction false} BodySkip(t: Node, s: bytes, validity: Option<bytes>, rows: nat, offset: nat, count: nat,
      depth: nat, used: nat)
    requires offset + count <= rows
    requires DecodeBody(t, s, validity, rows, offset, count, depth, used).Got?
    ensures SkipBody(t, s, rows, depth) == Got((), DecodeBody(t, s, validity, rows, offset, count, depth, used).rest)
    decreases |s|, 0
  {
    if IsVarlen(t.id) {
    } else if HasMembers(t.id) {
      ColumnsSkip(t.members, ReadColumnCount(s, |t.members|).rest, rows, offset, count, depth + 1, used);
    } else if t.id == LIST || t.id == MAP {
      var (size, s1) := ReadListSize(s, rows).Extract();
      var (entries, s2) := ReadListEntries(s1, rows, size).Extract();
      DecodeSkip(t.members[0].kind, s2, size, 0, size, depth + 1, used);
    } else if t.id == ARRAY {
      var (size, s1) := ReadArraySize(s, t.arraySize, rows).Extract();
      DecodeSkip(t.members[0].kind, s1, size, 0, size, depth + 1, used);
    }
  }

  lemma {:induction false} ColumnsSkip(members: seq<Member>, s: bytes, rows: nat, offset: nat, count: nat, depth: nat,
      used: nat)
    requires DecodeColumns(members, s, rows, offset, count, depth, used).Got?
    ensures SkipColumns(members, s, rows, depth)
      == Got((), DecodeColumns(members, s, rows, offset, count, depth, used).rest)
    decreases |s|, 2, |members|
  {
    if members != [] {
      var ((first, used'), s1) := Decode(members[0].kind, s, rows, offset, count, depth, used).Extract();
      DecodeSkip(members[0].kind, s, rows, offset, count, depth, used);
      ColumnsSkip(members[1..], s1, rows, offset, count, depth, used');
    }
  }

  // ---- slices ----

  /** No array is reached from the type through structs and unions alone. */
  predicate Sliceable(t: Node)
    decreases t, 0
  {
    t.id != ARRAY && (HasMembers(t.id) ==> SliceableAll(t.members))
  }

  predicate SliceableAll(members: seq<Member>)
    decreases members, 0
  {
    members == [] || (Sliceable(members[0].kind) && SliceableAll(members[1..]))
  }

  /** Decoding rows `offset .. offset + count` gives those rows of the whole
      vector, the same budget and the same end, compressed or not. */
  lemma {:induction false} DecodeSlice(t: Node, s: bytes, rows: nat, offset: nat, count: nat, depth: nat, used: nat)
    requires offset + count <= rows && (offset == 0 || Sliceable(t))
    requires Decode(t, s, rows, 0, rows, depth, used).Got?
    ensures var whole := Decode(t, s, rows, 0, rows, depth, used);
      Decode(t, s, rows, offset, count, depth, used)
      == Got((whole.value.0[offset..offset + count], whole.value.1), whole.rest)
    decreases |s|, 1
  {
    hide ReadDictionary, ReadPrologue, ReadKind, DecodeSequence, DecodeCopy, DecodeBody;
    var (kind, s1) := ReadKind(s).Extract();
    if kind == 2 {
      CopySlice(t, s1, 1, Zeros(rows), depth, used + rows, offset, offset + count);
      assert Zeros(rows)[offset..offset + count] == Zeros(count);
    } else if kind == 3 {
      var ((picks, n), s2) := ReadDictionary(s1, rows).Extract();
      assert picks[0..rows] == picks;
      CopySlice(t, s2, n, picks, depth, used + rows, offset, offset + count);
    } else if kind == 4 {
      SequenceSlice(t.id, s1, rows, offset, count);
    } else {
      var (validity, s2) := ReadPrologue(s1).Extract();
      BodySlice(t, s2, validity, rows, offset, count, depth, used + rows);
    }
  }

  lemma CopySlice(t: Node, s: bytes, n: nat, picks: seq<nat>, depth: nat, used: nat, from: nat, to: nat)
    requires from <= to <= |picks|
    requires DecodeCopy(t, s, n, picks, depth, used).Got?
    ensures var whole := DecodeCopy(t, s, n, picks, depth, used);
      DecodeCopy(t, s, n, picks[from..to], depth, used) == Got((whole.value.0[from..to], whole.value.1), whole.rest)
  {
    hide Decode, Buildable, Picked;
    var ((source, _), _) := Decode(t, s, n, 0, n, depth + 1, used).Extract();
    assert Picked(source, picks[from..to]) == Picked(source, picks)[from..to];
  }

  lemma SequenceSlice(id: int, s: bytes, rows: nat, offset: nat, count: nat)
    requires offset + count <= rows && DecodeSequence(id, s, 0, rows).Got?
    ensures var whole := DecodeSequence(id, s, 0, rows);
      DecodeSequence(id, s, offset, count) == Got(whole.value[offset..offset + count], whole.rest)
  {
    hide ReadSequence, SequenceAt, InRange, LittleEndian, SequenceRow, SequenceRows;
    var ((start, increment), _) := ReadSequence(s).Extract();
    assert SequenceRows(id, start, increment, offset, count)
        == SequenceRows(id, start, increment, 0, rows)[offset..offset + count];
  }

  lemma {:induction false} BodySlice(t: Node, s: bytes, validity: Option<bytes>, rows: nat, offset: nat, count: nat,
      depth: nat, used: nat)
    requires offset + count <= rows && (offset == 0 || Sliceable(t))
    requires DecodeBody(t, s, validity, rows, 0, rows, depth, used).Got?
    ensures var whole := DecodeBody(t, s, validity, rows, 0, rows, depth, used);
      DecodeBody(t, s, validity, rows, offset, count, depth, used)
      == Got((whole.value.0[offset..offset + count], whole.value.1), whole.rest)
    decreases |s|, 0
  {
    hide Expect, Decode, DecodeColumns, ReadStringData, ReadColumnCount, ReadListSize, ReadListEntries,
      ReadArraySize, ReadRawData, Pieces, FixedWidth, ScalarRows, RecordRows, ListRows, ArrayRows, RowValid, Masked,
      ListRow;
    if IsVarlen(t.id) {
      var values := ReadStringData(s, rows).value;
      ScalarsSlice(validity, values, rows, offset, count);
    } else if HasMembers(t.id) {
      var s1 := ReadColumnCount(s, |t.members|).rest;
      ColumnsSlice(t.members, s1, rows, offset, count, depth + 1, used);
      RecordsSlice(validity, DecodeColumns(t.members, s1, rows, 0, rows, depth + 1, used).value.0,
        DecodeColumns(t.members, s1, rows, offset, count, depth + 1, used).value.0, rows, offset, count);
    } else if t.id == LIST || t.id == MAP {
      var (size, s1) := ReadListSize(s, rows).Extract();
      var (entries, s2) := ReadListEntries(s1, rows, size).Extract();
      var ((child, _), _) := Decode(t.members[0].kind, s2, size, 0, size, depth + 1, used).Extract();
      ListsSlice(validity, entries, child, rows, offset, count);
    } else if t.id == ARRAY {
      var (size, s1) := ReadArraySize(s, t.arraySize, rows).Extract();
      var ((child, _), _) := Decode(t.members[0].kind, s1, size, 0, size, depth + 1, used).Extract();
      var pieces := Pieces(child, t.arraySize, rows);
      ArraysSlice(validity, pieces, rows, count);
    } else {
      var data := ReadRawData(s, FixedWidth(t), rows).value;
      var pieces := Pieces(data, FixedWidth(t), rows);
      ScalarsSlice(validity, pieces, rows, offset, count);
    }
  }

  lemma ScalarsSlice(validity: Option<bytes>, values: seq<bytes>, rows: nat, offset: nat, count: nat)
    requires offset + count <= rows == |values|
    ensures ScalarRows(validity, values, offset, count) == ScalarRows(validity, values, 0, rows)[offset..offset + count]
  {
    hide Masked, ScalarRows;
    var part, all := ScalarRows(validity, values, offset, count), ScalarRows(validity, values, 0, rows);
    assert forall i :: 0 <= i < count ==> part[i] == all[offset + i];
  }

  lemma ListsSlice(validity: Option<bytes>, entries: seq<Entry>, child: seq<Value>, rows: nat, offset: nat, count: nat)
    requires offset + count <= rows == |entries|
    requires forall k :: 0 <= k < |entries| && RowValid(validity, k) ==>
      entries[k].offset + entries[k].length <= |child|
    ensures ListRows(validity, entries, child, offset, count)
         == ListRows(validity, entries, child, 0, rows)[offset..offset + count]
  {
    hide RowValid, ListRow, ListRows;
    var part, all := ListRows(validity, entries, child, offset, count), ListRows(validity, entries, child, 0, rows);
    assert forall i :: 0 <= i < count ==> part[i] == all[offset + i];
  }

  lemma ArraysSlice(validity: Option<bytes>, pieces: seq<seq<Value>>, rows: nat, count: nat)
    requires count <= rows == |pieces|
    ensures ArrayRows(validity, pieces, 0, count) == ArrayRows(validity, pieces, 0, rows)[0..count]
  {
    hide Masked, ArrayRows;
    var part, all := ArrayRows(validity, pieces, 0, count), ArrayRows(validity, pieces, 0, rows);
    assert forall i :: 0 <= i < count ==> part[i] == all[i];
  }

  lemma RecordsSlice(validity: Option<bytes>, all: seq<seq<Value>>, part: seq<seq<Value>>, rows: nat, offset: nat,
      count: nat)
    requires offset + count <= rows && |all| == |part|
    requires forall j :: 0 <= j < |all| ==> |all[j]| == rows && part[j] == all[j][offset..offset + count]
    ensures RecordRows(validity, part, offset, count) == RecordRows(validity, all, 0, rows)[offset..offset + count]
  {
    hide RowValid, RecordRows, Across;
    var left, right := RecordRows(validity, part, offset, count), RecordRows(validity, all, 0, rows);
    forall i {:trigger left[i]} | 0 <= i < count
      ensures left[i] == right[offset + i]
    {
      assert Across(part, i) == Across(all, offset + i);
    }
  }

  lemma {:induction false} ColumnsSlice(members: seq<Member>, s: bytes, rows: nat, offset: nat, count: nat,
      depth: nat, used: nat)
    requires offset + count <= rows && (offset == 0 || SliceableAll(members))
    requires DecodeColumns(members, s, rows, 0, rows, depth, used).Got?
    ensures var whole := DecodeColumns(members, s, rows, 0, rows, depth, used);
      var part := DecodeColumns(members, s, rows, offset, count, depth, used);
      && part.Got? && part.rest == whole.rest && part.value.1 == whole.value.1
      && forall j :: 0 <= j < |members| ==> part.value.0[j] == whole.value.0[j][offset..offset + count]
    decreases |s|, 2, |members|
  {
    hide Decode, Sliceable;
    if members != [] {
      var ((first, used'), s1) := Decode(members[0].kind, s, rows, 0, rows, depth, used).Extract();
      DecodeSlice(members[0].kind, s, rows, offset, count, depth, used);
      ColumnsSlice(members[1..], s1, rows, offset, count, depth, used');
    }
  }

  /** An array is the exception: a flat one without nulls is decoded from its
      first row on whatever `offset` says, so a slice is right exactly when the
      leading rows happen to equal the wanted ones. */
  lemma ArraySliceIgnoresOffset(t: Node, s: bytes, rows: nat, offset: nat, count: nat, depth: nat, used: nat)
    requires offset + count <= rows && t.id == ARRAY
    requires Decode(t, s, rows, 0, rows, depth, used).Got?
    requires ReadKind(s).value == 0 && ReadPrologue(ReadKind(s).rest).value == None
    ensures var whole := Decode(t, s, rows, 0, rows, depth, used);
      var part := Decode(t, s, rows, offset, count, depth, used);
      && part == Got((whole.value.0[..count], whole.value.1), whole.rest)
      && (part == Got((whole.value.0[offset..offset + count], whole.value.1), whole.rest)
          <==> whole.value.0[..count] == whole.value.0[offset..offset + count])
  {
    hide ReadKind, ReadPrologue, ReadArraySize, Expect, Pieces, ArrayRows, DecodeSequence, ReadDictionary, DecodeCopy;
    var s2 := ReadPrologue(ReadKind(s).rest).rest;
    var (size, s3) := ReadArraySize(s2, t.arraySize, rows).Extract();
    var ((child, _), _) := Decode(t.members[0].kind, s3, size, 0, size, depth + 1, used + rows).Extract();
    var pieces := Pieces(child, t.arraySize, rows);
    assert ArrayRows(None, pieces, offset, count) == ArrayRows(None, pieces, 0, rows)[..count];
  }

  // ---- encoding ----

  /** What DuckDB guarantees of a vector of the type with that many rows. */
  predicate Fits(t: Node, v: Vector, rows: nat)
    decreases v, 0
  {
    && rows <= UINT64_MAX - 63
    && (v.validity.Some? ==> |v.validity.value| == ValidityBytes(rows))
    && match v.body
       case Strings(values) =>
         IsVarlen(t.id) && |values| == rows && forall i :: 0 <= i < rows ==> |values[i]| <= SIZE_MAX
       case Columns(children) =>
         HasMembers(t.id) && 1 <= |children| <= UINT32_MAX && FitsAll(t.members, children, rows)
       case Listed(entries, size, child) =>
         && (t.id == LIST || t.id == MAP) && |t.members| == 1 && |entries| == rows
         && (forall k :: 0 <= k < rows && RowValid(v.validity, k) ==> entries[k].offset + entries[k].length <= size)
         && Fits(t.members[0].kind, child, size)
       case Arrayed(element) =>
         && t.id == ARRAY && |t.members| == 1 && rows * t.arraySize <= UINT64_MAX
         && Fits(t.members[0].kind, element, rows * t.arraySize)
       case Raw(data) =>
         && !IsVarlen(t.id) && !HasMembers(t.id) && !HasOneChild(t.id)
         && FixedWidth(t) != 0 && |data| == FixedWidth(t) * rows <= SIZE_MAX
  }

  predicate FitsAll(members: seq<Member>, children: seq<Vector>, rows: nat)
    decreases children, 0
  {
    && |members| == |children|
    && (children == [] || (Fits(members[0].kind, children[0], rows) && FitsAll(members[1..], children[1..], rows)))
  }

  /** The row values a vector stands for. */
  function Rows(t: Node, v: Vector, rows: nat): (r: seq<Value>)
    requires Fits(t, v, rows)
    ensures |r| == rows
    decreases v, 0
  {
    match v.body
    case Strings(values) => ScalarRows(v.validity, values, 0, rows)
    case Columns(children) => RecordRows(v.validity, ColumnRows(t.members, children, rows), 0, rows)
    case Listed(entries, size, child) => ListRows(v.validity, entries, Rows(t.members[0].kind, child, size), 0, rows)
    case Arrayed(element) =>
      ArrayRows(v.validity, Pieces(Rows(t.members[0].kind, element, rows * t.arraySize), t.arraySize, rows), 0, rows)
    case Raw(data) => ScalarRows(v.validity, Pieces(data, FixedWidth(t), rows), 0, rows)
  }

  function ColumnRows(members: seq<Member>, children: seq<Vector>, rows: nat): (r: seq<seq<Value>>)
    requires FitsAll(members, children, rows)
    ensures |r| == |members| && forall j :: 0 <= j < |r| ==> |r[j]| == rows
    decreases children, 0
  {
    if children == [] then []
    else [Rows(members[0].kind, children[0], rows)] + ColumnRows(members[1..], children[1..], rows)
  }

  /** How many values decoding the vector materialises, over all its levels. */
  function Weight(t: Node, v: Vector, rows: nat): (w: nat)
    requires Fits(t, v, rows)
    ensures w >= rows
    decreases v, 0
  {
    match v.body
    case Strings(_) => rows
    case Columns(children) => rows + ColumnWeight(t.members, children, rows)
    case Listed(_, size, child) => rows + Weight(t.members[0].kind, child, size)
    case Arrayed(element) => rows + Weight(t.members[0].kind, element, rows * t.arraySize)
    case Raw(_) => rows
  }

  function ColumnWeight(members: seq<Member>, children: seq<Vector>, rows: nat): nat
    requires FitsAll(members, children, rows)
    decreases children, 0
  {
    if children == [] then 0
    else Weight(members[0].kind, children[0], rows) + ColumnWeight(members[1..], children[1..], rows)
  }

  /** A null row is written as an empty string or an empty list entry. */
  function CleanStrings(validity: Option<bytes>, values: seq<bytes>): (r: seq<bytes>)
    ensures |r| == |values|
    ensures forall i :: 0 <= i < |r| ==> r[i] == if RowValid(validity, i) then values[i] else []
  {
    seq(|values|, i requires 0 <= i < |values| => if RowValid(validity, i) then values[i] else [])
  }

  function CleanEntries(validity: Option<bytes>, entries: seq<Entry>): (r: seq<Entry>)
    ensures |r| == |entries|
    ensures forall i :: 0 <= i < |r| ==> r[i] == if RowValid(validity, i) then entries[i] else Entry(0, 0)
  {
    seq(|entries|, i requires 0 <= i < |entries| => if RowValid(validity, i) then entries[i] else Entry(0, 0))
  }

  function StringsBefore(values: seq<bytes>, rest: bytes): bytes {
    if values == [] then rest else Text(values[0], StringsBefore(values[1..], rest))
  }

  function EntriesBefore(entries: seq<Entry>, rest: bytes): bytes {
    if entries == [] then rest else
    Field(100, Number(entries[0].offset,
      Field(101, Number(entries[0].length, Field(FIELD_END, EntriesBefore(entries[1..], rest))))))
  }

  function PrologueBefore(validity: Option<bytes>, rest: bytes): bytes {
    match validity
    case None => Field(100, [0] + rest)
    case Some(mask) => Field(100, [1] + Field(101, Text(mask, rest)))
  }

  /** The bytes `ducknng_quack_encode_vector` puts in front of `rest`, or nothing
      when the nesting is too deep. */
  function VectorBefore(t: Node, v: Vector, rows: nat, depth: nat, rest: bytes): Option<bytes>
    requires Fits(t, v, rows)
    decreases v, 1
  {
    if depth > MAX_NESTING then None
    else match BodyBefore(t, v, rows, depth, rest)
      case None => None
      case Some(body) => Some(PrologueBefore(v.validity, body))
  }

  function BodyBefore(t: Node, v: Vector, rows: nat, depth: nat, rest: bytes): Option<bytes>
    requires Fits(t, v, rows)
    decreases v, 0
  {
    var end := Field(FIELD_END, rest);
    match v.body
    case Strings(values) => Some(Field(102, Number(rows, StringsBefore(CleanStrings(v.validity, values), end))))
    case Raw(data) => Some(Field(102, Text(data, end)))
    case Columns(children) =>
      (match ColumnsBefore(t.members, children, rows, depth + 1, end)
       case None => None
       case Some(columns) => Some(Field(103, Number(|t.members|, columns))))
    case Listed(entries, size, child) =>
      (match VectorBefore(t.members[0].kind, child, size, depth + 1, end)
       case None => None
       case Some(c) =>
         Some(Field(104,
           Number(size, Field(105, Number(rows, EntriesBefore(CleanEntries(v.validity, entries), Field(106, c))))))))
    case Arrayed(element) =>
      (match VectorBefore(t.members[0].kind, element, rows * t.arraySize, depth + 1, end)
       case None => None
       case Some(c) => Some(Field(103, Number(t.arraySize, Field(104, c)))))
  }

  function ColumnsBefore(members: seq<Member>, children: seq<Vector>, rows: nat, depth: nat, rest: bytes): Option<bytes>
    requires FitsAll(members, children, rows)
    decreases children, 0
  {
    if children == [] then Some(rest)
    else match ColumnsBefore(members[1..], children[1..], rows, depth, rest)
      case None => None
      case Some(tail) => VectorBefore(members[0].kind, children[0], rows, depth, tail)
  }

  // ---- decoding undoes encoding ----

  lemma ExpectField(id: nat, rest: bytes)
    requires id < 0x1_0000
    ensures Expect(Field(id, rest), id) == Got((), rest)
  {
    FieldRead(id, rest);
  }

  lemma PrologueRoundTrip(validity: Option<bytes>, rest: bytes)
    requires validity.Some? ==> |validity.value| <= SIZE_MAX
    ensures ReadKind(PrologueBefore(validity, rest)) == Got(0, PrologueBefore(validity, rest))
    ensures ReadPrologue(PrologueBefore(validity, rest)) == Got(validity, rest)
  {
    hide Field, Text;
    match validity
    case None =>
      FieldRead(100, [0] + rest);
      assert ([0] + rest)[1..] == rest;
    case Some(mask) =>
      var tail := Field(101, Text(mask, rest));
      FieldRead(100, [1] + tail);
      assert ([1] + tail)[1..] == tail;
      FieldRead(101, Text(mask, rest));
      TextBytesRead(mask, rest);
  }

  lemma TextBytesRead(text: bytes, rest: bytes)
    requires |text| <= SIZE_MAX
    ensures ReadCounted(Text(text, rest)) == Got(text, rest)
  {
    CountedRoundTrip(text, rest);
  }

  lemma {:induction false} StringsRead(values: seq<bytes>, rest: bytes)
    requires forall i :: 0 <= i < |values| ==> |values[i]| <= SIZE_MAX
    ensures ReadStrings(StringsBefore(values, rest), |values|) == Got(values, rest)
  {
    hide Text, ReadCounted;
    if values != [] {
      var first, tail := values[0], StringsBefore(values[1..], rest);
      StringsRead(values[1..], rest);
      assert values == [first] + values[1..];
      assert StringsBefore(values, rest) == Text(first, tail);
      TextBytesRead(first, tail);
    }
  }

  lemma {:induction false} EntriesRead(entries: seq<Entry>, size: nat, rest: bytes)
    requires forall i :: 0 <= i < |entries| ==> entries[i].offset + entries[i].length <= size
    ensures ReadEntries(EntriesBefore(entries, rest), |entries|, size) == Got(entries, rest)
  {
    hide Field, Number, Expect;
    if entries != [] {
      var first, tail := entries[0], EntriesBefore(entries[1..], rest);
      EntriesRead(entries[1..], size, rest);
      assert entries == [first] + entries[1..];
      var s4 := Field(FIELD_END, tail);
      var s2 := Field(101, Number(first.length, s4));
      ExpectField(100, Number(first.offset, s2));
      NumberRead(first.offset, s2);
      ExpectField(101, Number(first.length, s4));
      NumberRead(first.length, s4);
      ExpectField(FIELD_END, tail);
    }
  }

  /** What the body of an encoded vector decodes to, given the budget left. */
  predicate BodyDecodes(t: Node, v: Vector, rows: nat, body: bytes, depth: nat, rest: bytes, used: nat)
    requires Fits(t, v, rows)
  {
    var p := DecodeBody(t, body, v.validity, rows, 0, rows, depth, used);
    var total := used + Weight(t, v, rows) - rows;
    if total <= MAX_MATERIALIZED_VALUES then p == Got((Rows(t, v, rows), total), rest) else p.Bad?
  }

  lemma StringsBodyRoundTrip(t: Node, v: Vector, rows: nat, depth: nat, rest: bytes, used: nat)
    requires Fits(t, v, rows) && v.body.Strings? && used <= MAX_MATERIALIZED_VALUES
    ensures BodyBefore(t, v, rows, depth, rest).Some?
    ensures BodyDecodes(t, v, rows, BodyBefore(t, v, rows, depth, rest).value, depth, rest, used)
  {
    hide Field, Number, Expect, RowValid, ScalarRows, CleanStrings;
    var values, end := v.body.values, Field(FIELD_END, rest);
    var clean := CleanStrings(v.validity, values);
    StringsRead(clean, end);
    ExpectField(102, Number(rows, StringsBefore(clean, end)));
    NumberRead(rows, StringsBefore(clean, end));
    ExpectField(FIELD_END, rest);
    assert ReadStringData(BodyBefore(t, v, rows, depth, rest).value, rows) == Got(clean, rest);
    assert ScalarRows(v.validity, clean, 0, rows) == ScalarRows(v.validity, values, 0, rows);
  }

  lemma RawBodyRoundTrip(t: Node, v: Vector, rows: nat, depth: nat, rest: bytes, used: nat)
    requires Fits(t, v, rows) && v.body.Raw? && used <= MAX_MATERIALIZED_VALUES
    ensures BodyBefore(t, v, rows, depth, rest).Some?
    ensures BodyDecodes(t, v, rows, BodyBefore(t, v, rows, depth, rest).value, depth, rest, used)
  {
    hide Field, Text, Expect, ScalarRows, Pieces, FixedWidth;
    var data, end := v.body.data, Field(FIELD_END, rest);
    ExpectField(102, Text(data, end));
    TextBytesRead(data, end);
    ExpectField(FIELD_END, rest);
    assert ReadRawData(BodyBefore(t, v, rows, depth, rest).value, FixedWidth(t), rows) == Got(data, rest);
  }

  lemma {:induction false} ListBodyRoundTrip(t: Node, v: Vector, rows: nat, depth: nat, rest: bytes, used: nat)
    requires Fits(t, v, rows) && v.body.Listed? && used <= MAX_MATERIALIZED_VALUES
    requires BodyBefore(t, v, rows, depth, rest).Some?
    ensures BodyDecodes(t, v, rows, BodyBefore(t, v, rows, depth, rest).value, depth, rest, used)
    decreases v, 0
  {
    hide Field, Number, Expect, RowValid, ListRows, ListRow, CleanEntries, Decode, ReadEntries, EntriesBefore;
    var Listed(entries, size, child) := v.body;
    var kind, end := t.members[0].kind, Field(FIELD_END, rest);
    var c := VectorBefore(kind, child, size, depth + 1, end).value;
    VectorRoundTrip(kind, child, size, depth + 1, end, used);
    var clean := CleanEntries(v.validity, entries);
    var tail := EntriesBefore(clean, Field(106, c));
    ListSizeRead(size, rows, tail);
    ListEntriesRead(clean, size, c);
    ExpectField(FIELD_END, rest);
    var values := Rows(kind, child, size);
    assert ListRows(v.validity, clean, values, 0, rows) == ListRows(v.validity, entries, values, 0, rows) by {
      ListRowsClean(v.validity, entries, values, rows);
    }
  }

  lemma ListSizeRead(size: uint64, rows: uint64, rest: bytes)
    ensures ReadListSize(Field(104, Number(size, Field(105, Number(rows, rest)))), rows) == Got(size, rest)
  {
    hide Field, Number, Expect;
    var s2 := Field(105, Number(rows, rest));
    ExpectField(104, Number(size, s2));
    NumberRead(size, s2);
    ExpectField(105, Number(rows, rest));
    NumberRead(rows, rest);
  }

  lemma ListEntriesRead(entries: seq<Entry>, size: nat, rest: bytes)
    requires forall i :: 0 <= i < |entries| ==> entries[i].offset + entries[i].length <= size
    ensures ReadListEntries(EntriesBefore(entries, Field(106, rest)), |entries|, size) == Got(entries, rest)
  {
    hide Field, Expect, ReadEntries, EntriesBefore;
    EntriesRead(entries, size, Field(106, rest));
    ExpectField(106, rest);
  }

  lemma ListRowsClean(validity: Option<bytes>, entries: seq<Entry>, values: seq<Value>, rows: nat)
    requires |entries| == rows
    requires forall k :: 0 <= k < rows && RowValid(validity, k) ==> entries[k].offset + entries[k].length <= |values|
    ensures ListRows(validity, CleanEntries(validity, entries), values, 0, rows)
      == ListRows(validity, entries, values, 0, rows)
  {
    hide RowValid;
  }

  lemma {:induction false} ArrayBodyRoundTrip(t: Node, v: Vector, rows: nat, depth: nat, rest: bytes, used: nat)
    requires Fits(t, v, rows) && v.body.Arrayed? && used <= MAX_MATERIALIZED_VALUES
    requires BodyBefore(t, v, rows, depth, rest).Some?
    ensures BodyDecodes(t, v, rows, BodyBefore(t, v, rows, depth, rest).value, depth, rest, used)
    decreases v, 0
  {
    hide Fits, Weight, Rows, BodyBefore, Field, Number, Decode, DecodeBody, VectorBefore, ReadArraySize, ArrayRows,
      Pieces;
    ArrayUnfolds(t, v, rows, depth, rest);
    var kind, element, size := t.members[0].kind, v.body.element, rows * t.arraySize;
    var end := Field(FIELD_END, rest);
    var c := VectorBefore(kind, element, size, depth + 1, end).value;
    VectorRoundTrip(kind, element, size, depth + 1, end, used);
    ArraySizeRead(t.arraySize, rows, c);
    ArrayBody(t, Field(103, Number(t.arraySize, Field(104, c))), v.validity, rows, depth, used, size, c, rest);
  }

  lemma ArrayUnfolds(t: Node, v: Vector, rows: nat, depth: nat, rest: bytes)
    requires Fits(t, v, rows) && v.body.Arrayed? && BodyBefore(t, v, rows, depth, rest).Some?
    ensures t.id == ARRAY && |t.members| == 1 && rows * t.arraySize <= UINT64_MAX
    ensures var kind, element, size := t.members[0].kind, v.body.element, rows * t.arraySize;
      && Fits(kind, element, size) && Weight(t, v, rows) == rows + Weight(kind, element, size)
      && Rows(t, v, rows) == ArrayRows(v.validity, Pieces(Rows(kind, element, size), t.arraySize, rows), 0, rows)
    ensures var end := Field(FIELD_END, rest);
      var c := VectorBefore(t.members[0].kind, v.body.element, rows * t.arraySize, depth + 1, end);
      c.Some? && BodyBefore(t, v, rows, depth, rest).value == Field(103, Number(t.arraySize, Field(104, c.value)))
  {
    hide Field, Number, VectorBefore, ArrayRows, Pieces;
  }

  /** The array case of a body, in terms of how its elements decode. */
  lemma ArrayBody(t: Node, s: bytes, validity: Option<bytes>, rows: nat, depth: nat, used: nat, size: nat, s1: bytes,
      rest: bytes)
    requires t.id == ARRAY && |t.members| == 1 && ReadArraySize(s, t.arraySize, rows) == Got(size, s1)
    ensures var elements := Decode(t.members[0].kind, s1, size, 0, size, depth + 1, used);
      var p := DecodeBody(t, s, validity, rows, 0, rows, depth, used);
      && (elements.Bad? ==> p.Bad?)
      && (elements.Got? && elements.rest == Field(FIELD_END, rest) ==>
            p == Got((ArrayRows(validity, Pieces(elements.value.0, t.arraySize, rows), 0, rows), elements.value.1),
              rest))
  {
    hide Field, Expect, ReadArraySize, Decode, ArrayRows, Pieces;
    ExpectField(FIELD_END, rest);
  }

  lemma ArraySizeRead(arraySize: uint32, rows: nat, rest: bytes)
    requires rows * arraySize <= UINT64_MAX
    ensures ReadArraySize(Field(103, Number(arraySize, Field(104, rest))), arraySize, rows)
      == Got(rows * arraySize, rest)
  {
    hide Field, Number, Expect;
    ExpectField(103, Number(arraySize, Field(104, rest)));
    NumberRead(arraySize, Field(104, rest));
    ExpectField(104, rest);
  }

  lemma {:induction false} StructBodyRoundTrip(t: Node, v: Vector, rows: nat, depth: nat, rest: bytes, used: nat)
    requires Fits(t, v, rows) && v.body.Columns? && used <= MAX_MATERIALIZED_VALUES
    requires BodyBefore(t, v, rows, depth, rest).Some?
    ensures BodyDecodes(t, v, rows, BodyBefore(t, v, rows, depth, rest).value, depth, rest, used)
    decreases v, 0
  {
    hide Field, Number, Expect, RecordRows, DecodeColumns;
    var children, end := v.body.children, Field(FIELD_END, rest);
    var columns := ColumnsBefore(t.members, children, rows, depth + 1, end).value;
    ColumnCountRead(|t.members|, columns);
    ColumnsRoundTrip(t.members, children, rows, depth + 1, end, used);
    ExpectField(FIELD_END, rest);
  }

  lemma ColumnCountRead(n: uint64, rest: bytes)
    requires n != 0
    ensures ReadColumnCount(Field(103, Number(n, rest)), n) == Got((), rest)
  {
    hide Field, Number, Expect;
    ExpectField(103, Number(n, rest));
    NumberRead(n, rest);
  }

  lemma {:induction false} ColumnsRoundTrip(members: seq<Member>, children: seq<Vector>, rows: nat, depth: nat,
      rest: bytes, used: nat)
    requires FitsAll(members, children, rows) && used <= MAX_MATERIALIZED_VALUES
    requires ColumnsBefore(members, children, rows, depth, rest).Some?
    ensures var p := DecodeColumns(members, ColumnsBefore(members, children, rows, depth, rest).value, rows, 0, rows,
      depth, used);
      var total := used + ColumnWeight(members, children, rows);
      if total <= MAX_MATERIALIZED_VALUES then p == Got((ColumnRows(members, children, rows), total), rest) else p.Bad?
    decreases children, 0
  {
    hide Decode;
    if children != [] {
      var tail := ColumnsBefore(members[1..], children[1..], rows, depth, rest).value;
      VectorRoundTrip(members[0].kind, children[0], rows, depth, tail, used);
      var used' := used + Weight(members[0].kind, children[0], rows);
      if used' <= MAX_MATERIALIZED_VALUES {
        ColumnsRoundTrip(members[1..], children[1..], rows, depth, rest, used');
      }
    }
  }

  /** Decoding an encoded vector gives back exactly its row values and leaves what
      follows unread, if and only if the values it materialises fit the budget. */
  lemma {:induction false} VectorRoundTrip(t: Node, v: Vector, rows: nat, depth: nat, rest: bytes, used: nat)
    requires Fits(t, v, rows) && VectorBefore(t, v, rows, depth, rest).Some?
    ensures var p := Decode(t, VectorBefore(t, v, rows, depth, rest).value, rows, 0, rows, depth, used);
      var total := used + Weight(t, v, rows);
      if total <= MAX_MATERIALIZED_VALUES then p == Got((Rows(t, v, rows), total), rest) else p.Bad?
    decreases v, 1
  {
    hide PrologueBefore, BodyBefore, ReadKind, ReadPrologue, DecodeBody, Rows, ReadDictionary, DecodeSequence,
      DecodeCopy;
    var body := BodyBefore(t, v, rows, depth, rest).value;
    PrologueRoundTrip(v.validity, body);
    var used' := used + rows;
    if used' <= MAX_MATERIALIZED_VALUES {
      match v.body
      case Strings(_) => StringsBodyRoundTrip(t, v, rows, depth, rest, used');
      case Columns(_) => StructBodyRoundTrip(t, v, rows, depth, rest, used');
      case Listed(_, _, _) => ListBodyRoundTrip(t, v, rows, depth, rest, used');
      case Arrayed(_) => ArrayBodyRoundTrip(t, v, rows, depth, rest, used');
      case Raw(_) => RawBodyRoundTrip(t, v, rows, depth, rest, used');
    }
  }

  /** A type that survives the wire has vectors that can be encoded: the encoder's
      nesting limit is never met before the type codec's. */
  lemma {:induction false} EncoderTotal(t: Node, v: Vector, rows: nat, depth: nat, rest: bytes)
    requires Canonical(t, depth) && Fits(t, v, rows)
    ensures VectorBefore(t, v, rows, depth, rest).Some?
    decreases v, 1
  {
    hide Field, Number, Text, CleanStrings, CleanEntries, StringsBefore, EntriesBefore, PrologueBefore;
    match v.body
    case Strings(_) =>
    case Raw(_) =>
    case Columns(children) =>
      ColumnsTotal(t.members, children, rows, depth + 1, Field(FIELD_END, rest));
    case Listed(_, size, child) =>
      EncoderTotal(t.members[0].kind, child, size, depth + 1, Field(FIELD_END, rest));
    case Arrayed(element) =>
      EncoderTotal(t.members[0].kind, element, rows * t.arraySize, depth + 1, Field(FIELD_END, rest));
  }

  lemma {:induction false} ColumnsTotal(members: seq<Member>, children: seq<Vector>, rows: nat, depth: nat, rest: bytes)
    requires CanonicalMembers(members, depth) && FitsAll(members, children, rows)
    ensures ColumnsBefore(members, children, rows, depth, rest).Some?
    decreases children, 0
  {
    if children != [] {
      ColumnsTotal(members[1..], children[1..], rows, depth, rest);
      EncoderTotal(members[0].kind, children[0], rows, depth,
        ColumnsBefore(members[1..], children[1..], rows, depth, rest).value);
    }
  }

  /** A whole column, type and data: write both, read both back. */
  lemma ColumnRoundTrip(t: Node, v: Vector, rows: nat, rest: bytes)
    requires Canonical(t, 0) && Fits(t, v, rows) && Weight(t, v, rows) <= MAX_MATERIALIZED_VALUES
    ensures VectorBefore(t, v, rows, 0, rest).Some?
    ensures var data := VectorBefore(t, v, rows, 0, rest).value;
      && TypeBefore(t, 0, data).Some?
      && ReadType(TypeBefore(t, 0, data).value, 0) == Got(t, data)
      && Decode(t, data, rows, 0, rows, 0, 0) == Got((Rows(t, v, rows), Weight(t, v, rows)), rest)
      && Skip(t, data, rows, 0) == Got((), rest)
  {
    hide *;
    EncoderTotal(t, v, rows, 0, rest);
    var data := VectorBefore(t, v, rows, 0, rest).value;
    TypeRoundTrip(t, 0, data);
    VectorRoundTrip(t, v, rows, 0, rest, 0);
    DecodeSkip(t, data, rows, 0, rows, 0, 0);
  }
}
