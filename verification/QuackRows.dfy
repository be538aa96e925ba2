/** What vectors mean, row by row: flat ones from their parts, and the three compressed
    forms from the bytes a peer sends. The encoder writes flat vectors only, so the
    compressed forms are built here from the wire format itself
    (src/ducknng_quack.c, lines 1576-1660 and 1876-2030). */
module QuackRows {
  import opened Leb128
  import opened ByteKernel
  import opened Options
  import opened QuackTypes
  import opened QuackVectors
  import opened Widths
  import WideMultiply

  /** Bytes as the digits of a number, the low one first. */
  function Digits(data: bytes): nat {
    if data == [] then 0 else data[0] + 256 * Digits(data[1..])
  }

  /** The binary digit `k` of a number. */
  predicate BinaryDigit(v: nat, k: nat) {
    if k == 0 then v % 2 == 1 else BinaryDigit(v / 2, k - 1)
  }

  // ---- validity masks ----

  /** The digits of a number split into `m` low ones and the others. */
  lemma {:induction false} SplitDigits(b: nat, d: nat, m: nat, k: nat)
    requires b < Pow2(m)
    ensures BinaryDigit(b + Pow2(m) * d, k) == if k < m then BinaryDigit(b, k) else BinaryDigit(d, k - m)
    decreases m
  {
    if m > 0 {
      HalfPower(b, d, m);
      if k > 0 { SplitDigits(b / 2, d, m - 1, k - 1); }
    }
  }

  lemma HalfPower(b: nat, d: nat, m: nat)
    requires m > 0
    ensures Pow2(m) == 2 * Pow2(m - 1)
    ensures (b + Pow2(m) * d) / 2 == b / 2 + Pow2(m - 1) * d && (b + Pow2(m) * d) % 2 == b % 2
  {
    assert Pow2(m) * d == 2 * (Pow2(m - 1) * d);
  }

  lemma {:induction false} ByteDigit(v: nat, k: nat)
    ensures BinaryDigit(v, k) <==> v / Shl(1, k) % 2 == 1
    decreases k
  {
    if k > 0 {
      ByteDigit(v / 2, k - 1);
      HalveFirst(v, Shl(1, k - 1));
    }
  }

  lemma HalveFirst(v: nat, p: nat)
    requires p > 0
    ensures v / 2 / p == v / (2 * p)
  {
    var h := v / 2;
    var q, r := h / p, h % p;
    assert v == 2 * (p * q + r) + v % 2;
    QuotientIs(v, 2 * p, q, 2 * r + v % 2);
  }

  lemma QuotientIs(x: nat, y: nat, q: nat, r: nat)
    requires y > 0 && r < y && x == y * q + r
    ensures x / y == q
  {
    var d := x / y - q;
    assert y * (x / y) + x % y == x;
    assert y * d == r - x % y;
  }

  /** Read as a number, low byte first, a mask has the validity of row `i` at binary digit `i`. */
  lemma {:induction false} MaskDigit(mask: bytes, row: nat)
    requires row < 8 * |mask|
    ensures RowValid(Some(mask), row) <==> BinaryDigit(Digits(mask), row)
    decreases |mask|
  {
    hide BinaryDigit;
    var b, others := mask[0], mask[1..];
    assert Pow2(8) == 256;
    SplitDigits(b, Digits(others), 8, row);
    if row < 8 {
      ByteDigit(b, row);
    } else {
      MaskDigit(others, row - 8);
      assert others[(row - 8) / 8] == mask[row / 8];
    }
  }

  // ---- flat vectors ----

  /** A row is valid: there is no mask, or it has the row's digit. */
  predicate ValidRow(validity: Option<bytes>, row: nat) {
    validity.None? || BinaryDigit(Digits(validity.value), row)
  }

  lemma {:induction false} FitsAt(members: seq<Member>, children: seq<Vector>, rows: nat, j: nat)
    requires FitsAll(members, children, rows) && j < |children|
    ensures j < |members| && Fits(members[j].kind, children[j], rows)
    ensures ColumnRows(members, children, rows)[j] == Rows(members[j].kind, children[j], rows)
    decreases j
  {
    hide Fits, Rows;
    if j > 0 {
      FitsAt(members[1..], children[1..], rows, j - 1);
    }
  }

  lemma {:induction false} PieceIs<T>(data: seq<T>, width: nat, n: nat, i: nat)
    requires |data| == width * n && i < n
    ensures 0 <= width * i <= width * i + width <= |data|
      && Pieces(data, width, n)[i] == data[width * i..width * i + width]
    decreases n
  {
    NextPiece(width, n, i);
    if i == 0 {
      assert width * i == 0;
    } else {
      PieceIs(data[width..], width, n - 1, i - 1);
      var from := width * (i - 1);
      assert data[width..][from..from + width] == data[width + from..width + from + width];
    }
  }

  lemma NextPiece(width: nat, n: nat, i: nat)
    requires i < n
    ensures width * n == width * (n - 1) + width && 0 <= width * i <= width * n - width
    ensures i > 0 ==> width * i == width * (i - 1) + width
  {
    assert width * n - width * i == width * (n - i);
  }

  lemma MaskRow(t: Node, v: Vector, rows: nat, i: nat)
    requires Fits(t, v, rows) && i < rows
    ensures RowValid(v.validity, i) <==> ValidRow(v.validity, i)
  {
    hide Digits, BinaryDigit;
    if v.validity.Some? {
      MaskCoversRows(rows, i);
      MaskDigit(v.validity.value, i);
    }
  }

  // Row `i` of a flat vector: null where it is not valid, otherwise taken from the body.

  lemma StringRow(t: Node, v: Vector, rows: nat, i: nat)
    requires Fits(t, v, rows) && i < rows && v.body.Strings?
    ensures Rows(t, v, rows)[i] == if ValidRow(v.validity, i) then Scalar(v.body.values[i]) else Null
  {
    hide ValidRow, RowValid;
    MaskRow(t, v, rows, i);
  }

  lemma RawRow(t: Node, v: Vector, rows: nat, i: nat)
    requires Fits(t, v, rows) && i < rows && v.body.Raw?
    ensures var width, data := FixedWidth(t), v.body.data;
      && 0 <= width * i <= width * i + width <= |data|
      && Rows(t, v, rows)[i] == if ValidRow(v.validity, i) then Scalar(data[width * i..width * i + width]) else Null
  {
    hide ValidRow, RowValid, Pieces, FixedWidth;
    MaskRow(t, v, rows, i);
    PieceIs(v.body.data, FixedWidth(t), rows, i);
  }

  lemma RecordRow(t: Node, v: Vector, rows: nat, i: nat, j: nat)
    requires Fits(t, v, rows) && i < rows && v.body.Columns? && j < |v.body.children|
    ensures j < |t.members| && Fits(t.members[j].kind, v.body.children[j], rows)
    ensures var row := Rows(t, v, rows)[i];
      if ValidRow(v.validity, i) then
        row.Record? && |row.fields| == |v.body.children|
        && row.fields[j] == Rows(t.members[j].kind, v.body.children[j], rows)[i]
      else row == Null
  {
    hide ValidRow, RowValid;
    MaskRow(t, v, rows, i);
    FitsAt(t.members, v.body.children, rows, j);
  }

  lemma ListedRow(t: Node, v: Vector, rows: nat, i: nat)
    requires Fits(t, v, rows) && i < rows && v.body.Listed?
    ensures var e, values := v.body.entries[i], Rows(t.members[0].kind, v.body.child, v.body.size);
      if ValidRow(v.validity, i) then
        e.offset + e.length <= |values| && Rows(t, v, rows)[i] == Items(values[e.offset..e.offset + e.length])
      else Rows(t, v, rows)[i] == Null
  {
    hide ValidRow, RowValid;
    MaskRow(t, v, rows, i);
  }

  lemma ArrayRow(t: Node, v: Vector, rows: nat, i: nat)
    requires Fits(t, v, rows) && i < rows && v.body.Arrayed?
    ensures var n, values := t.arraySize, Rows(t.members[0].kind, v.body.element, rows * t.arraySize);
      && 0 <= n * i <= n * i + n <= |values|
      && Rows(t, v, rows)[i] == if ValidRow(v.validity, i) then Items(values[n * i..n * i + n]) else Null
  {
    hide ValidRow, RowValid, Pieces;
    MaskRow(t, v, rows, i);
    var n, values := t.arraySize, Rows(t.members[0].kind, v.body.element, rows * t.arraySize);
    assert |values| == n * rows;
    PieceIs(values, n, rows, i);
  }

  /** How wide the values of each type are. */
  lemma RawWidth(t: Node, v: Vector, rows: nat, depth: nat)
    requires Canonical(t, depth) && Fits(t, v, rows) && v.body.Raw?
    ensures var width := FixedWidth(t);
      && |v.body.data| == width * rows
      && (t.id in {10, 11, 28} ==> width == 1) && (t.id in {12, 29} ==> width == 2)
      && (t.id in {13, 15, 22, 30} ==> width == 4)
      && (t.id in {14, 16, 17, 18, 19, 20, 23, 31, 32, 34, 35} ==> width == 8)
      && (t.id in {27, 49, 50, 54} ==> width == 16)
      && (t.id == 21 ==> width == if t.width < 5 then 2 else if t.width < 10 then 4 else if t.width < 19 then 8 else 16)
      && (t.id == 104 ==> width == if |t.labels| < 256 then 1 else if |t.labels| < 65536 then 2 else 4)
      && t.id in {10, 11, 12, 13, 14, 15, 16, 17, 18, 19, 20, 21, 22, 23, 27, 28, 29, 30, 31, 32, 34, 35, 49, 50, 54,
        104}
  {
    hide CanonicalMembers, ValidityBytes;
  }

  // ---- compressed vectors, from their bytes ----

  /** Selected rows as 32-bit numbers, the low byte first. */
  function Selection(picks: seq<uint32>): (s: bytes)
    ensures |s| == 4 * |picks|
  {
    if picks == [] then [] else
    var p := picks[0];
    [p % 256, p / 256 % 256, p / 65536 % 256, p / 16777216] + Selection(picks[1..])
  }

  lemma {:induction false} SelectionRead(picks: seq<uint32>, i: nat)
    requires i < |picks|
    ensures Index32(Selection(picks), i) == picks[i]
  {
    var s, tail := Selection(picks), Selection(picks[1..]);
    if i == 0 {
      FourDigits(picks[0]);
    } else {
      SelectionRead(picks[1..], i - 1);
      assert forall k | 0 <= k < |tail| :: s[4 + k] == tail[k];
    }
  }

  lemma FourDigits(p: nat)
    requires p < TWO_32
    ensures p == p % 256 + 0x100 * (p / 256 % 256) + 0x1_0000 * (p / 65536 % 256) + 0x100_0000 * (p / 16777216)
  {
    assert p / 65536 == p / 256 / 256 && p / 16777216 == p / 65536 / 256;
  }

  /** A dictionary vector: selected rows of another vector. */
  function Dictionary(picks: seq<uint32>, n: nat, source: bytes): bytes {
    [90, 0, 3, 91, 0] + Uleb(4 * |picks|) + Selection(picks) + [92, 0] + Uleb(n) + source
  }

  lemma DictionaryBytes(picks: seq<uint32>, n: nat, source: bytes)
    ensures Dictionary(picks, n, source)
      == Field(90, [3] + Field(91, Text(Selection(picks), Field(92, Number(n, source)))))
  {
    hide Selection, Uleb;
    var a, x, b := Uleb(4 * |picks|), Selection(picks), Uleb(n);
    assert Field(92, Number(n, source)) == [92, 0] + (b + source);
    assert Text(x, Field(92, Number(n, source))) == a + x + ([92, 0] + (b + source));
    Regroup(a, x, b, source);
  }

  lemma Regroup(a: bytes, x: bytes, b: bytes, source: bytes)
    ensures [90, 0] + ([3] + ([91, 0] + (a + x + ([92, 0] + (b + source)))))
      == [90, 0, 3, 91, 0] + a + x + [92, 0] + b + source
  {
  }

  /** The header is accepted if and only if every selected row exists and the source has no
      more rows than are selected. */
  lemma HeaderRead(picks: seq<uint32>, n: uint64, source: bytes)
    requires 4 * |picks| <= SIZE_MAX
    ensures var p := ReadDictionary(Field(91, Text(Selection(picks), Field(92, Number(n, source)))), |picks|);
      && (p.Got? <==> n <= |picks| && forall i | 0 <= i < |picks| :: picks[i] < n)
      && (p.Got? ==> p == Got((picks, n), source))
  {
    hide *;
    var selection := Selection(picks);
    var s4 := Field(92, Number(n, source));
    ExpectField(91, Text(selection, s4));
    TextBytesRead(selection, s4);
    ExpectField(92, Number(n, source));
    NumberRead(n, source);
    forall i | 0 <= i < |picks| ensures Index32(selection, i) == picks[i] { SelectionRead(picks, i); }
    HeaderFrom(Field(91, Text(selection, s4)), picks, selection, n, Text(selection, s4), s4, Number(n, source), source);
  }

  lemma HeaderFrom(s: bytes, picks: seq<nat>, selection: bytes, n: nat, s1: bytes, s2: bytes, s3: bytes, s4: bytes)
    requires Expect(s, 91) == Got((), s1) && ReadCounted(s1) == Got(selection, s2)
    requires Expect(s2, 92) == Got((), s3) && ReadUleb(s3) == Got(n, s4)
    requires |selection| == 4 * |picks| && forall i | 0 <= i < |picks| :: Index32(selection, i) == picks[i]
    ensures var p := ReadDictionary(s, |picks|);
      && (p.Got? <==> n <= |picks| && forall i | 0 <= i < |picks| :: picks[i] < n)
      && (p.Got? ==> p == Got((picks, n), s4))
  {
    hide Expect, ReadCounted, ReadUleb, Index32;
    assert Indexes(selection, |picks|) == picks;
    assert |picks| > 0 && n == 0 ==> !(picks[0] < n);
  }

  lemma KindRead(s1: bytes)
    ensures ReadKind(Field(90, [3] + s1)) == Got(3, s1)
  {
    hide ReadUleb;
    FieldRead(90, [3] + s1);
    assert Number(3, s1) == [3] + s1;
    NumberRead(3, s1);
  }

  /** A type that survives the wire can be built where it stands; further down it can if and
      only if it would survive there. */
  lemma {:induction false} CanonicalBuildable(t: Node, depth: nat)
    requires Canonical(t, depth)
    ensures Buildable(t, depth)
    decreases t, 1
  {
    hide CanonicalMembers, BuildableAll;
    if t.id == UNION {
      AllBuildable(t.members, depth + 1);
    } else if t.id == MAP {
      AllBuildable(t.members, depth + 1);
      MapBuildable(t, depth);
    } else {
      AllBuildable(t.members, depth + 1);
    }
  }

  lemma {:induction false} AllBuildable(members: seq<Member>, depth: nat)
    requires CanonicalMembers(members, depth)
    ensures BuildableAll(members, depth) && (members != [] ==> BuildableAll(members[1..], depth))
    ensures |members| == 1 ==> Buildable(members[0].kind, depth)
    decreases members, 0
  {
    hide Canonical, Buildable;
    if members != [] {
      CanonicalBuildable(members[0].kind, depth);
      AllBuildable(members[1..], depth);
    }
  }

  lemma MapBuildable(t: Node, depth: nat)
    requires Canonical(t, depth) && t.id == MAP && Buildable(t.members[0].kind, depth + 1)
    ensures BuildableAll(t.members[0].kind.members, depth + 2)
  {
    hide BuildableAll, CanonicalMembers;
  }

  lemma {:induction false} BuildableSurvives(t: Node, d: nat, depth: nat)
    requires Canonical(t, d) && Buildable(t, depth)
    ensures Canonical(t, depth)
    decreases t, 1
  {
    hide CanonicalMembers, BuildableAll;
    if t.id == STRUCT {
      AllSurvive(t.members, d + 1, depth + 1);
    } else if t.id == UNION {
      UnionSurvives(t, d, depth);
    } else if t.id == MAP {
      MapSurvives(t, d, depth);
    } else if t.id == LIST || t.id == ARRAY {
      ChildSurvives(t, d, depth);
    } else {
      NoMembers(depth + 1);
    }
  }

  lemma NoMembers(depth: nat)
    ensures CanonicalMembers([], depth) && BuildableAll([], depth)
  {
  }

  lemma {:induction false} ChildSurvives(t: Node, d: nat, depth: nat)
    requires Canonical(t, d) && Buildable(t, depth) && (t.id == LIST || t.id == ARRAY)
    ensures CanonicalMembers(t.members, depth + 1)
    decreases t, 0
  {
    assert CanonicalMembers(t.members, d + 1);
    BuildableSurvives(t.members[0].kind, d + 1, depth + 1);
    assert t.members[1..] == [];
  }

  lemma {:induction false} UnionSurvives(t: Node, d: nat, depth: nat)
    requires Canonical(t, d) && Buildable(t, depth) && t.id == UNION
    ensures CanonicalMembers(t.members, depth + 1)
    decreases t, 0
  {
    hide BuildableAll;
    assert CanonicalMembers(t.members, d + 1);
    AllSurvive(t.members[1..], d + 1, depth + 1);
    assert Canonical(t.members[1..][0].kind, depth + 1);
    TagSurvives(t.members[0].kind, d + 1, depth + 1);
  }

  lemma TagSurvives(tag: Node, d: nat, depth: nat)
    requires Canonical(tag, d) && tag.id == UTINYINT && depth <= MAX_NESTING
    ensures Canonical(tag, depth)
  {
    hide CanonicalMembers;
    NoMembers(depth + 1);
  }

  lemma {:induction false} MapSurvives(t: Node, d: nat, depth: nat)
    requires Canonical(t, d) && Buildable(t, depth) && t.id == MAP
    ensures CanonicalMembers(t.members, depth + 1)
    decreases t, 0
  {
    hide BuildableAll;
    assert CanonicalMembers(t.members, d + 1);
    var pair := t.members[0].kind;
    assert Canonical(pair, d + 1);
    AllSurvive(pair.members, d + 2, depth + 2);
    assert Canonical(pair.members[0].kind, depth + 2);
    assert Canonical(pair, depth + 1);
    assert t.members[1..] == [];
  }

  lemma {:induction false} AllSurvive(members: seq<Member>, d: nat, depth: nat)
    requires CanonicalMembers(members, d) && BuildableAll(members, depth)
    ensures CanonicalMembers(members, depth)
    decreases members, 0
  {
    hide Canonical, Buildable;
    if members != [] {
      BuildableSurvives(members[0].kind, d, depth);
      AllSurvive(members[1..], d, depth);
    }
  }

  lemma BuildableIff(t: Node, d: nat, depth: nat)
    requires Canonical(t, d)
    ensures Buildable(t, depth) <==> Canonical(t, depth)
  {
    hide Buildable, Canonical;
    if Buildable(t, depth) { BuildableSurvives(t, d, depth); }
    if Canonical(t, depth) { CanonicalBuildable(t, depth); }
  }

  predicate Exist(picks: seq<uint32>, n: nat) {
    forall i | 0 <= i < |picks| :: picks[i] < n
  }

  /** A dictionary vector has, at row `i`, row `picks[i]` of its source, if its type can be
      built, the rows of both fit the budget, every selected row exists and no more rows are
      sent than selected; otherwise it is refused. */
  lemma DictionaryDecodes(t: Node, v: Vector, n: uint64, picks: seq<uint32>, depth: nat, rest: bytes, used: nat)
    requires Fits(t, v, n) && 4 * |picks| <= SIZE_MAX && VectorBefore(t, v, n, depth + 1, rest).Some?
    ensures var p := Decode(t, Dictionary(picks, n, VectorBefore(t, v, n, depth + 1, rest).value), |picks|, 0, |picks|,
        depth, used);
      var total := used + |picks| + Weight(t, v, n);
      if Buildable(t, depth) && total <= 4194304 && n <= |picks| && Exist(picks, n) then
        && p.Got? && p.rest == rest && p.value.1 == total && |p.value.0| == |picks|
        && forall i | 0 <= i < |picks| :: p.value.0[i] == Rows(t, v, n)[picks[i]]
      else p.Bad?
  {
    hide Dictionary, ReadKind, ReadDictionary, Rows, Weight, VectorBefore, Field, Fits, Buildable, Text, Selection,
      DecodeSequence, DecodeBody, ReadPrologue;
    var source := VectorBefore(t, v, n, depth + 1, rest).value;
    DictionaryBytes(picks, n, source);
    KindRead(Field(91, Text(Selection(picks), Field(92, Number(n, source)))));
    HeaderRead(picks, n, source);
    assert picks[0..|picks|] == picks;
    if Exist(picks, n) { CopyDecodes(t, v, n, picks, depth, rest, used + |picks|); }
    DepthFits(t, v, n, depth + 1, rest);
  }

  lemma DepthFits(t: Node, v: Vector, n: nat, depth: nat, rest: bytes)
    requires Fits(t, v, n) && VectorBefore(t, v, n, depth, rest).Some?
    ensures depth <= MAX_NESTING
  {
  }

  /** Rows picked out of an encoded vector. */
  lemma CopyDecodes(t: Node, v: Vector, n: nat, picks: seq<nat>, depth: nat, rest: bytes, used: nat)
    requires Fits(t, v, n) && VectorBefore(t, v, n, depth + 1, rest).Some?
    requires forall i | 0 <= i < |picks| :: picks[i] < n
    ensures var p := DecodeCopy(t, VectorBefore(t, v, n, depth + 1, rest).value, n, picks, depth, used);
      var total := used + Weight(t, v, n);
      if Buildable(t, depth) && total <= 4194304 then
        && p.Got? && p.rest == rest && p.value.1 == total && |p.value.0| == |picks|
        && forall i | 0 <= i < |picks| :: p.value.0[i] == Rows(t, v, n)[picks[i]]
      else p.Bad?
  {
    hide Rows, Weight, VectorBefore, Fits, Buildable, Decode;
    VectorRoundTrip(t, v, n, depth + 1, rest, used);
  }

  /** A constant vector has row 0 of its source everywhere. */
  lemma ConstantDecodes(t: Node, v: Vector, rows: nat, depth: nat, rest: bytes, used: nat)
    requires Fits(t, v, 1) && VectorBefore(t, v, 1, depth + 1, rest).Some?
    ensures var p := Decode(t, [90, 0, 2] + VectorBefore(t, v, 1, depth + 1, rest).value, rows, 0, rows, depth, used);
      var total := used + rows + Weight(t, v, 1);
      if Buildable(t, depth) && total <= 4194304 then
        && p.Got? && p.rest == rest && p.value.1 == total && |p.value.0| == rows
        && forall i | 0 <= i < rows :: p.value.0[i] == Rows(t, v, 1)[0]
      else p.Bad?
  {
    hide ReadKind, ReadDictionary, Rows, Weight, VectorBefore, Field, Fits, Buildable, DecodeSequence, DecodeBody,
      ReadPrologue;
    var source := VectorBefore(t, v, 1, depth + 1, rest).value;
    ConstantKind(source);
    CopyDecodes(t, v, 1, Zeros(rows), depth, rest, used + rows);
    DepthFits(t, v, 1, depth + 1, rest);
  }

  lemma ConstantKind(source: bytes)
    ensures ReadKind([90, 0, 2] + source) == Got(2, source)
  {
    hide ReadUleb;
    FieldRead(90, [2] + source);
    assert Number(2, source) == [2] + source;
    assert [90, 0, 2] + source == Field(90, Number(2, source));
    NumberRead(2, source);
  }

  /** A sequence vector: a start and an increment. */
  function Sequence(start: int64, increment: int64, rest: bytes): bytes {
    [90, 0, 4, 91, 0] + Sleb(start) + [92, 0] + Sleb(increment) + [255, 255] + rest
  }

  /** A number as 64-bit arithmetic leaves it. */
  function Wrapped(x: int): int {
    (x + TWO_63) % TWO_64 - TWO_63
  }

  /** The integer types: their width in bytes, and their smallest and largest value. */
  predicate Integer(id: int, width: nat, low: int, high: int) {
    || (id == 11 && width == 1 && low == -128 && high == 127)
    || (id == 12 && width == 2 && low == -32768 && high == 32767)
    || (id == 13 && width == 4 && low == -2147483648 && high == 2147483647)
    || (id == 14 && width == 8 && low == -TWO_63 && high == TWO_63 - 1)
    || (id == 28 && width == 1 && low == 0 && high == 255)
    || (id == 29 && width == 2 && low == 0 && high == 65535)
    || (id == 30 && width == 4 && low == 0 && high == 4294967295)
    || (id == 31 && width == 8 && low == 0 && high == TWO_63 - 1)
  }

  function Power256(n: nat): nat {
    if n == 0 then 1 else 256 * Power256(n - 1)
  }

  lemma {:induction false} DigitsOf(v: int, width: nat)
    ensures |LittleEndian(v, width)| == width && Power256(width) > 0
    ensures Digits(LittleEndian(v, width)) == v % Power256(width)
    decreases width
  {
    if width > 0 {
      DigitsOf(v / 256, width - 1);
      var m := Power256(width - 1);
      var w := v / 256;
      assert v == 256 * (m * (w / m) + w % m) + v % 256;
      assert 256 * (m * (w / m)) == 256 * m * (w / m);
      WideMultiply.ModIs(256 * m, v, v % 256 + 256 * (w % m), w / m);
    }
  }

  lemma SequenceRead(start: int64, increment: int64, rest: bytes) returns (s1: bytes)
    ensures ReadKind(Sequence(start, increment, rest)) == Got(4, s1)
      && ReadSequence(s1) == Got((start, increment), rest)
  {
    hide Sleb, ReadSleb, ReadUleb;
    var s5 := Field(FIELD_END, rest);
    var s3 := Field(92, Sleb(increment) + s5);
    s1 := Field(91, Sleb(start) + s3);
    assert Sequence(start, increment, rest) == Field(90, [4] + s1);
    FieldRead(90, [4] + s1);
    assert Number(4, s1) == [4] + s1;
    NumberRead(4, s1);
    FieldRead(91, Sleb(start) + s3);
    SlebRoundTrip(start, s3);
    FieldRead(92, Sleb(increment) + s5);
    SlebRoundTrip(increment, s5);
    FieldRead(FIELD_END, rest);
  }

  lemma InRangeMeans(id: int, width: nat, low: int, high: int, x: int)
    requires Integer(id, width, low, high)
    ensures InRange(id, Wrapped(x)) <==> low <= Wrapped(x) <= high
    ensures PlainWidth(id) == width
  {
  }

  lemma WrappedIs(start: int, increment: int, row: nat)
    ensures SequenceAt(start, increment, row) == Wrapped(start + increment * row)
  {
    var x := start + increment * row;
    assert (x % TWO_64 + TWO_63) % TWO_64 == (x + TWO_63) % TWO_64;
  }

  lemma Powers()
    ensures Power256(1) == 256 && Power256(2) == 65536 && Power256(4) == 4294967296 && Power256(8) == TWO_64
  {
    assert Power256(3) == 256 * Power256(2) && Power256(5) == 256 * Power256(4);
    assert Power256(6) == 256 * Power256(5) && Power256(7) == 256 * Power256(6);
  }

  lemma SameDigits(x: int, width: nat)
    requires width in {1, 2, 4, 8}
    ensures Wrapped(x) % Power256(width) == x % Power256(width)
  {
    hide Power256;
    Powers();
    var k := (x + TWO_63) / TWO_64;
    assert Wrapped(x) == x - TWO_64 * k;
    Congruent(x, k, 256, 0x100_0000_0000_0000);
    Congruent(x, k, 65536, 0x1_0000_0000_0000);
    Congruent(x, k, 4294967296, 4294967296);
    Congruent(x, k, TWO_64, 1);
  }

  lemma Congruent(x: int, k: int, m: nat, c: nat)
    requires m > 0 && m * c == TWO_64
    ensures (x - TWO_64 * k) % m == x % m
  {
    assert x == m * (x / m) + x % m;
    assert TWO_64 * k == m * (c * k);
    assert x - TWO_64 * k == x % m + (x / m - c * k) * m;
    WideMultiply.ModIs(m, x - TWO_64 * k, x % m, x / m - c * k);
  }

  predicate AllBetween(start: int, increment: int, rows: nat, low: int, high: int) {
    forall i | 0 <= i < rows :: low <= Wrapped(start + increment * i) <= high
  }

  lemma RangesAgree(id: int, width: nat, low: int, high: int, start: int, increment: int, rows: nat)
    requires Integer(id, width, low, high)
    ensures AllInRange(id, start, increment, 0, rows) <==> AllBetween(start, increment, rows, low, high)
  {
    hide Wrapped, InRange, SequenceAt, Integer;
    forall row | 0 <= row < rows
      ensures InRange(id, SequenceAt(start, increment, row)) <==> low <= Wrapped(start + increment * row) <= high
    {
      WrappedIs(start, increment, row);
      InRangeMeans(id, width, low, high, start + increment * row);
    }
    if AllInRange(id, start, increment, 0, rows) {
      forall i | 0 <= i < rows ensures low <= Wrapped(start + increment * i) <= high {
        assert InRange(id, SequenceAt(start, increment, i));
      }
    }
  }

  /** A sequence vector of an integer type is accepted if and only if the budget allows its
      rows and every value, as 64-bit arithmetic leaves it, is in the range of the type. Row
      `i` then has the digits of start + increment * i. */
  lemma SequenceDecodes(t: Node, width: nat, low: int, high: int, start: int64, increment: int64, rows: nat, depth: nat,
      rest: bytes, used: nat)
    requires depth <= MAX_NESTING && Integer(t.id, width, low, high)
    ensures var p := Decode(t, Sequence(start, increment, rest), rows, 0, rows, depth, used);
      && (p.Got? <==> used + rows <= 4194304 && AllBetween(start, increment, rows, low, high))
      && (p.Got? ==> p.rest == rest && p.value.1 == used + rows && |p.value.0| == rows)
      && (p.Got? ==> forall i | 0 <= i < rows :: HasDigits(p.value.0[i], width, start + increment * i))
  {
    hide Sequence, ReadKind, ReadSequence, SequenceRow, DecodeBody, DecodeCopy, ReadDictionary, ReadPrologue,
      AllInRange,
      AllBetween, HasDigits, Integer;
    var s1 := SequenceRead(start, increment, rest);
    RangesAgree(t.id, width, low, high, start, increment, rows);
    IsInteger(t.id, width, low, high);
    forall i: nat ensures HasDigits(SequenceRow(t.id, start, increment, i), width, start + increment * i) {
      RowDigits(t.id, width, low, high, start, increment, i);
    }
  }

  lemma IsInteger(id: int, width: nat, low: int, high: int)
    requires Integer(id, width, low, high)
    ensures IsSequenceInteger(id) && width in {1, 2, 4, 8}
  {
  }

  /** A value of that many bytes, congruent to the number. */
  predicate HasDigits(v: Value, width: nat, x: int) {
    v.Scalar? && |v.data| == width && Power256(width) > 0 && Digits(v.data) == x % Power256(width)
  }

  lemma RowDigits(id: int, width: nat, low: int, high: int, start: int, increment: int, i: nat)
    requires Integer(id, width, low, high)
    ensures HasDigits(SequenceRow(id, start, increment, i), width, start + increment * i)
  {
    hide Integer, Wrapped, Power256, LittleEndian, Digits, SequenceAt, PlainWidth;
    var x := start + increment * i;
    WrappedIs(start, increment, i);
    InRangeMeans(id, width, low, high, x);
    IsInteger(id, width, low, high);
    DigitsOf(Wrapped(x), width);
    SameDigits(x, width);
  }

  /** Of any other type it is refused. */
  lemma SequenceRefused(t: Node, start: int64, increment: int64, rows: nat, depth: nat, rest: bytes, used: nat)
    requires t.id !in {11, 12, 13, 14, 28, 29, 30, 31}
    ensures Decode(t, Sequence(start, increment, rest), rows, 0, rows, depth, used).Bad?
  {
    hide Sequence, ReadKind, ReadSequence, DecodeBody, DecodeCopy, ReadDictionary, ReadPrologue, AllInRange;
    var s1 := SequenceRead(start, increment, rest);
  }
}
