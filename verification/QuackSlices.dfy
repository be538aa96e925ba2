/** When decoding a slice of a column is right for all data: exactly when the slice
    starts at row 0 or the type reaches no array through structs and unions
    (src/ducknng_quack.c, lines 2026-2230). */
module QuackSlices {
  import opened Leb128
  import opened Options
  import opened QuackTypes
  import opened QuackVectors
  import opened Widths

  /** Decoding rows `offset .. offset + count` gives those rows of the whole column. */
  predicate SliceRight(t: Node, s: bytes, rows: nat, offset: nat, count: nat)
    requires offset + count <= rows && Decode(t, s, rows, 0, rows, 0, 0).Got?
  {
    var whole := Decode(t, s, rows, 0, rows, 0, 0);
    Decode(t, s, rows, offset, count, 0, 0) == Got((whole.value.0[offset..offset + count], whole.value.1), whole.rest)
  }

  // ---- a column of nothing in particular ----

  function Zeroes<T>(n: nat, zero: T): (s: seq<T>)
    ensures |s| == n && forall i | 0 <= i < n :: s[i] == zero
  {
    seq(n, i => zero)
  }

  /** A column without nulls: empty strings and lists, zero bytes. */
  function Blank(t: Node, rows: nat): Vector
    decreases t, 0
  {
    if IsVarlen(t.id) then Vector(None, Strings(Zeroes(rows, [])))
    else if HasMembers(t.id) then Vector(None, Columns(BlankAll(t.members, rows)))
    else if t.members == [] then Vector(None, Raw(Zeroes(FixedWidth(t) * rows, 0)))
    else if t.id == ARRAY then Vector(None, Arrayed(Blank(t.members[0].kind, rows * t.arraySize)))
    else Vector(None, Listed(Zeroes(rows, Entry(0, 0)), 0, Blank(t.members[0].kind, 0)))
  }

  function BlankAll(members: seq<Member>, rows: nat): (vs: seq<Vector>)
    ensures |vs| == |members|
    decreases members, 0
  {
    if members == [] then [] else [Blank(members[0].kind, rows)] + BlankAll(members[1..], rows)
  }

  /** How many values such a column materialises. */
  function BlankWeight(t: Node, rows: nat): (w: nat)
    ensures w >= rows
    decreases t, 0
  {
    if IsVarlen(t.id) then rows
    else if HasMembers(t.id) then rows + BlankWeights(t.members, rows)
    else if t.members == [] then rows
    else if t.id == ARRAY then rows + BlankWeight(t.members[0].kind, rows * t.arraySize)
    else rows + BlankWeight(t.members[0].kind, 0)
  }

  function BlankWeights(members: seq<Member>, rows: nat): nat
    decreases members, 0
  {
    if members == [] then 0 else BlankWeight(members[0].kind, rows) + BlankWeights(members[1..], rows)
  }

  lemma RawFits(t: Node, rows: nat)
    requires ShapeOk(t) && rows <= MAX_MATERIALIZED_VALUES && !IsVarlen(t.id) && !HasMembers(t.id) && !HasOneChild(t.id)
    ensures 0 < FixedWidth(t) <= 16 && FixedWidth(t) * rows <= 16 * rows
  {
  }

  lemma {:induction false} BlankFits(t: Node, rows: nat, depth: nat)
    requires Canonical(t, depth) && BlankWeight(t, rows) <= MAX_MATERIALIZED_VALUES
    ensures Fits(t, Blank(t, rows), rows) && Weight(t, Blank(t, rows), rows) == BlankWeight(t, rows)
    decreases t, 0
  {
    if IsVarlen(t.id) {
    } else if HasMembers(t.id) {
      BlankAllFits(t.members, rows, depth + 1);
    } else if !HasOneChild(t.id) {
      RawFits(t, rows);
    } else if t.id == ARRAY {
      BlankFits(t.members[0].kind, rows * t.arraySize, depth + 1);
    } else {
      BlankFits(t.members[0].kind, 0, depth + 1);
    }
  }

  lemma {:induction false} BlankAllFits(members: seq<Member>, rows: nat, depth: nat)
    requires CanonicalMembers(members, depth) && BlankWeights(members, rows) <= MAX_MATERIALIZED_VALUES
    ensures FitsAll(members, BlankAll(members, rows), rows)
    ensures ColumnWeight(members, BlankAll(members, rows), rows) == BlankWeights(members, rows)
    decreases members, 0
  {
    if members != [] {
      BlankFits(members[0].kind, rows, depth);
      BlankAllFits(members[1..], rows, depth);
      var vs := BlankAll(members, rows);
      assert vs[1..] == BlankAll(members[1..], rows);
    }
  }

  // ---- a column that is cut wrong ----

  /** A mask in which row 0 alone is null. */
  function FirstNull(rows: nat): (mask: bytes)
    ensures |mask| == ValidityBytes(rows)
    ensures |mask| > 0 ==> mask[0] == 0xFE && forall k | 0 < k < |mask| :: mask[k] == 0xFF
  {
    var n := ValidityBytes(rows);
    if n == 0 then [] else [0xFE] + Zeroes(n - 1, 0xFF)
  }

  lemma BitsOfFirstNull()
    ensures !Bit(0xFE, 0)
    ensures forall k | 0 < k < 8 :: Bit(0xFE, k)
    ensures forall k | 0 <= k < 8 :: Bit(0xFF, k)
  {
    assert Shl(1, 0) == 1 && Shl(1, 1) == 2 && Shl(1, 2) == 4 && Shl(1, 3) == 8;
    assert Shl(1, 4) == 16 && Shl(1, 5) == 32 && Shl(1, 6) == 64 && Shl(1, 7) == 128;
  }

  lemma FirstNullRows(rows: nat, row: nat)
    requires row < rows <= MAX_MATERIALIZED_VALUES
    ensures RowValid(Some(FirstNull(rows)), row) <==> row != 0
  {
    hide Bit;
    BitsOfFirstNull();
    MaskCoversRows(rows, row);
    assert row / 8 == 0 ==> row % 8 == row;
  }

  /** The same column with row 0 null. */
  function Masking(v: Vector, rows: nat): Vector {
    v.(validity := Some(FirstNull(rows)))
  }

  /** A column of a type that reaches an array: in the first such array, the first
      element of row 0 is null and no other is. */
  function Odd(t: Node, rows: nat): Vector
    requires !Sliceable(t)
    decreases t, 0
  {
    if HasMembers(t.id) then Vector(None, Columns(OddAll(t.members, rows)))
    else if t.members == [] then Blank(t, rows)
    else
      var n := rows * t.arraySize;
      Vector(None, Arrayed(Masking(Blank(t.members[0].kind, n), n)))
  }

  function OddAll(members: seq<Member>, rows: nat): (vs: seq<Vector>)
    requires !SliceableAll(members)
    ensures |vs| == |members|
    decreases members, 0
  {
    if !Sliceable(members[0].kind) then [Odd(members[0].kind, rows)] + BlankAll(members[1..], rows)
    else [Blank(members[0].kind, rows)] + OddAll(members[1..], rows)
  }

  lemma MaskingFits(t: Node, v: Vector, rows: nat)
    requires Fits(t, v, rows) && v.validity == None && rows <= MAX_MATERIALIZED_VALUES
    ensures Fits(t, Masking(v, rows), rows) && Weight(t, Masking(v, rows), rows) == Weight(t, v, rows)
  {
  }

  lemma {:induction false} OddFits(t: Node, rows: nat, depth: nat)
    requires Canonical(t, depth) && !Sliceable(t) && BlankWeight(t, rows) <= MAX_MATERIALIZED_VALUES
    ensures Fits(t, Odd(t, rows), rows) && Weight(t, Odd(t, rows), rows) == BlankWeight(t, rows)
    decreases t, 0
  {
    if HasMembers(t.id) {
      OddAllFits(t.members, rows, depth + 1);
    } else {
      var kind, n := t.members[0].kind, rows * t.arraySize;
      BlankFits(kind, n, depth + 1);
      BlankHasNoNulls(kind, n);
      MaskingFits(kind, Blank(kind, n), n);
    }
  }

  lemma BlankHasNoNulls(t: Node, rows: nat)
    ensures Blank(t, rows).validity == None
  {
  }

  lemma {:induction false} OddAllFits(members: seq<Member>, rows: nat, depth: nat)
    requires CanonicalMembers(members, depth) && !SliceableAll(members)
    requires BlankWeights(members, rows) <= MAX_MATERIALIZED_VALUES
    ensures FitsAll(members, OddAll(members, rows), rows)
    ensures ColumnWeight(members, OddAll(members, rows), rows) == BlankWeights(members, rows)
    decreases members, 0
  {
    var vs := OddAll(members, rows);
    if !Sliceable(members[0].kind) {
      OddFits(members[0].kind, rows, depth);
      BlankAllFits(members[1..], rows, depth);
      assert vs[1..] == BlankAll(members[1..], rows);
    } else {
      BlankFits(members[0].kind, rows, depth);
      OddAllFits(members[1..], rows, depth);
      assert vs[1..] == OddAll(members[1..], rows);
    }
  }

  /** A row is null exactly when its bit is clear. */
  lemma NullRows(t: Node, v: Vector, rows: nat, row: nat)
    requires Fits(t, v, rows) && row < rows
    ensures Rows(t, v, rows)[row] == Null <==> !RowValid(v.validity, row)
  {
    hide RowValid, Pieces, FixedWidth;
  }

  lemma {:induction false} PieceAt<T>(data: seq<T>, width: nat, n: nat, i: nat)
    requires |data| == width * n && i < n && width > 0
    ensures 0 <= width * i < |data| && |Pieces(data, width, n)[i]| == width
      && Pieces(data, width, n)[i][0] == data[width * i]
    decreases n
  {
    assert width * n == width * (n - 1) + width;
    assert width * i + width <= width * n by { Scale(width, i + 1, n); }
    if i > 0 {
      assert width * (i - 1) + width == width * i;
      PieceAt(data[width..], width, n - 1, i - 1);
    }
  }

  lemma Scale(width: nat, i: nat, n: nat)
    requires i <= n
    ensures width * i <= width * n
  {
  }

  /** Where a flat vector without nulls starts. */
  lemma FlatHeader(t: Node, v: Vector, rows: nat, depth: nat, rest: bytes)
    requires Fits(t, v, rows) && v.validity == None && VectorBefore(t, v, rows, depth, rest).Some?
    ensures BodyBefore(t, v, rows, depth, rest).Some?
    ensures var s, body := VectorBefore(t, v, rows, depth, rest).value, BodyBefore(t, v, rows, depth, rest).value;
      ReadKind(s) == Got(0, s) && ReadPrologue(s) == Got(None, body)
  {
    hide BodyBefore, ReadKind, ReadPrologue, PrologueBefore;
    PrologueRoundTrip(None, BodyBefore(t, v, rows, depth, rest).value);
  }

  /** The elements of the odd array column. */
  function Elements(t: Node, rows: nat): (elements: seq<Value>)
    requires t.id == ARRAY && Fits(t, Odd(t, rows), rows)
    ensures |elements| == t.arraySize * rows
  {
    var kind, n := t.members[0].kind, rows * t.arraySize;
    Rows(kind, Masking(Blank(kind, n), n), n)
  }

  lemma ElementNull(t: Node, rows: nat, k: nat)
    requires t.id == ARRAY && Fits(t, Odd(t, rows), rows) && k < t.arraySize * rows <= MAX_MATERIALIZED_VALUES
    ensures Elements(t, rows)[k] == Null <==> k == 0
  {
    hide FirstNull;
    var kind, n := t.members[0].kind, rows * t.arraySize;
    NullRows(kind, Masking(Blank(kind, n), n), n, k);
    FirstNullRows(n, k);
  }

  lemma ArrayRowAt(t: Node, rows: nat, i: nat)
    requires t.id == ARRAY && Fits(t, Odd(t, rows), rows) && i < rows
    ensures Rows(t, Odd(t, rows), rows)[i] == Items(Pieces(Elements(t, rows), t.arraySize, rows)[i])
  {
    hide Pieces;
  }

  lemma ElementsWithinBudget(t: Node, rows: nat)
    requires t.id == ARRAY && t.members != [] && BlankWeight(t, rows) <= MAX_MATERIALIZED_VALUES
    ensures t.arraySize * rows <= MAX_MATERIALIZED_VALUES
  {
  }

  lemma ArrayRowsDiffer(t: Node, rows: nat, offset: nat)
    requires t.id == ARRAY && t.arraySize != 0 && t.members != [] && BlankWeight(t, rows) <= MAX_MATERIALIZED_VALUES
    requires 0 < offset < rows && Fits(t, Odd(t, rows), rows)
    ensures Rows(t, Odd(t, rows), rows)[0] != Rows(t, Odd(t, rows), rows)[offset]
  {
    hide Pieces, Fits, Rows, Odd, Elements, BlankWeight;
    ElementsWithinBudget(t, rows);
    var elements, size := Elements(t, rows), t.arraySize;
    PieceAt(elements, size, rows, 0);
    PieceAt(elements, size, rows, offset);
    Positive(size, offset);
    ElementNull(t, rows, size * 0);
    ElementNull(t, rows, size * offset);
    ArrayRowAt(t, rows, 0);
    ArrayRowAt(t, rows, offset);
  }

  lemma Positive(a: nat, b: nat)
    requires a > 0 && b > 0
    ensures a * b > 0 && a * 0 == 0
  {
  }

  /** Cutting the odd column anywhere but at its front gives something else, if anything. */
  lemma {:induction false} OddFails(t: Node, rows: nat, offset: nat, count: nat, depth: nat, rest: bytes, used: nat)
    requires Canonical(t, depth) && !Sliceable(t) && 0 < offset && 0 < count && offset + count <= rows
    requires used + BlankWeight(t, rows) <= MAX_MATERIALIZED_VALUES
    requires Fits(t, Odd(t, rows), rows) && Weight(t, Odd(t, rows), rows) == BlankWeight(t, rows)
    requires VectorBefore(t, Odd(t, rows), rows, depth, rest).Some?
    ensures var s := VectorBefore(t, Odd(t, rows), rows, depth, rest).value;
      var part := Decode(t, s, rows, offset, count, depth, used);
      part.Got? ==> part.value.0 != Rows(t, Odd(t, rows), rows)[offset..offset + count]
    decreases t, 1
  {
    hide Decode, VectorBefore, Rows, Weight, Fits, Odd, BlankWeight;
    if HasMembers(t.id) {
      StructFails(t, rows, offset, count, depth, rest, used);
    } else {
      ArrayFails(t, rows, offset, count, depth, rest, used);
    }
  }

  lemma ArrayFails(t: Node, rows: nat, offset: nat, count: nat, depth: nat, rest: bytes, used: nat)
    requires Canonical(t, depth) && t.id == ARRAY && 0 < offset && 0 < count && offset + count <= rows
    requires used + BlankWeight(t, rows) <= MAX_MATERIALIZED_VALUES
    requires Fits(t, Odd(t, rows), rows) && Weight(t, Odd(t, rows), rows) == BlankWeight(t, rows)
    requires VectorBefore(t, Odd(t, rows), rows, depth, rest).Some?
    ensures var s := VectorBefore(t, Odd(t, rows), rows, depth, rest).value;
      var part := Decode(t, s, rows, offset, count, depth, used);
      part.Got? ==> part.value.0 != Rows(t, Odd(t, rows), rows)[offset..offset + count]
  {
    assert Odd(t, rows).validity == None && t.members != [] && t.arraySize != 0;
    hide Decode, VectorBefore, BodyBefore, Rows, Weight, Fits, Odd, BlankWeight, Canonical, ReadKind, ReadPrologue;
    var v := Odd(t, rows);
    var s := VectorBefore(t, v, rows, depth, rest).value;
    FlatHeader(t, v, rows, depth, rest);
    VectorRoundTrip(t, v, rows, depth, rest, used);
    ArraySliceIgnoresOffset(t, s, rows, offset, count, depth, used);
    ArrayRowsDiffer(t, rows, offset);
    var whole := Rows(t, v, rows);
    assert whole[offset..offset + count][0] == whole[offset] && whole[..count][0] == whole[0];
  }

  ghost predicate ColumnsDiffer(part: seq<seq<Value>>, all: seq<seq<Value>>, offset: nat, count: nat) {
    |part| == |all| && exists j, i ::
      0 <= j < |part| && 0 <= i < count && i < |part[j]| && offset + i < |all[j]| && part[j][i] != all[j][offset + i]
  }

  lemma RecordsDiffer(part: seq<seq<Value>>, all: seq<seq<Value>>, rows: nat, offset: nat, count: nat)
    requires offset + count <= rows && ColumnsDiffer(part, all, offset, count)
    requires forall j :: 0 <= j < |part| ==> |part[j]| == count
    requires forall j :: 0 <= j < |all| ==> |all[j]| == rows
    ensures RecordRows(None, part, offset, count) != RecordRows(None, all, 0, rows)[offset..offset + count]
  {
    hide RecordRows, Across;
    var j, i :| 0 <= j < |part| && 0 <= i < count && part[j][i] != all[j][offset + i];
    var left, right := RecordRows(None, part, offset, count), RecordRows(None, all, 0, rows);
    assert left[i] == Record(Across(part, i)) && right[offset + i] == Record(Across(all, offset + i));
    assert Across(part, i)[j] != Across(all, offset + i)[j];
    assert right[offset..offset + count][i] == right[offset + i];
  }

  /** What decoding a struct comes down to. */
  lemma StructDecodes(t: Node, s: bytes, body: bytes, columns: bytes, rows: nat, offset: nat, count: nat, depth: nat,
      used: nat)
    requires ReadKind(s) == Got(0, s) && ReadPrologue(s) == Got(None, body)
    requires HasMembers(t.id) && ReadColumnCount(body, |t.members|) == Got((), columns) && offset + count <= rows
    ensures var part := Decode(t, s, rows, offset, count, depth, used);
      var cs := DecodeColumns(t.members, columns, rows, offset, count, depth + 1, used + rows);
      part.Got? ==> cs.Got? && part.value.0 == RecordRows(None, cs.value.0, offset, count)
  {
    hide ReadKind, ReadPrologue, ReadColumnCount, ReadDictionary, DecodeSequence, DecodeCopy, DecodeColumns,
      RecordRows, Expect;
  }

  lemma {:induction false} StructFails(t: Node, rows: nat, offset: nat, count: nat, depth: nat, rest: bytes, used: nat)
    requires Canonical(t, depth) && !Sliceable(t) && HasMembers(t.id) && 0 < offset && 0 < count
      && offset + count <= rows
    requires used + BlankWeight(t, rows) <= MAX_MATERIALIZED_VALUES
    requires Fits(t, Odd(t, rows), rows) && Weight(t, Odd(t, rows), rows) == BlankWeight(t, rows)
    requires VectorBefore(t, Odd(t, rows), rows, depth, rest).Some?
    ensures var s := VectorBefore(t, Odd(t, rows), rows, depth, rest).value;
      var part := Decode(t, s, rows, offset, count, depth, used);
      part.Got? ==> part.value.0 != Rows(t, Odd(t, rows), rows)[offset..offset + count]
    decreases t, 0
  {
    hide Field, Number, Decode, DecodeColumns, RecordRows, ReadKind, ReadPrologue, ReadColumnCount, ColumnsBefore;
    var v := Odd(t, rows);
    FlatHeader(t, v, rows, depth, rest);
    var s, body := VectorBefore(t, v, rows, depth, rest).value, BodyBefore(t, v, rows, depth, rest).value;
    var end := Field(FIELD_END, rest);
    var columns := ColumnsBefore(t.members, OddAll(t.members, rows), rows, depth + 1, end).value;
    ColumnCountRead(|t.members|, columns);
    StructDecodes(t, s, body, columns, rows, offset, count, depth, used);
    OddAllFits(t.members, rows, depth + 1);
    ColumnsFail(t.members, rows, offset, count, depth + 1, end, used + rows);
    var part := Decode(t, s, rows, offset, count, depth, used);
    if part.Got? {
      var cs := DecodeColumns(t.members, columns, rows, offset, count, depth + 1, used + rows).value.0;
      RecordsDiffer(cs, ColumnRows(t.members, OddAll(t.members, rows), rows), rows, offset, count);
    }
  }

  lemma {:induction false} ColumnsFail(members: seq<Member>, rows: nat, offset: nat, count: nat, depth: nat,
      rest: bytes, used: nat)
    requires CanonicalMembers(members, depth) && !SliceableAll(members) && 0 < offset && 0 < count
      && offset + count <= rows
    requires used + BlankWeights(members, rows) <= MAX_MATERIALIZED_VALUES
    requires FitsAll(members, OddAll(members, rows), rows)
    requires ColumnsBefore(members, OddAll(members, rows), rows, depth, rest).Some?
    ensures var s := ColumnsBefore(members, OddAll(members, rows), rows, depth, rest).value;
      var part := DecodeColumns(members, s, rows, offset, count, depth, used);
      part.Got? ==> ColumnsDiffer(part.value.0, ColumnRows(members, OddAll(members, rows), rows), offset, count)
    decreases members, 0
  {
    hide Decode, VectorBefore, Rows, Weight, Fits, Canonical, Sliceable;
    var vs := OddAll(members, rows);
    var kind, tail := members[0].kind, ColumnsBefore(members[1..], vs[1..], rows, depth, rest).value;
    var s := VectorBefore(kind, vs[0], rows, depth, tail).value;
    if !Sliceable(kind) {
      OddFits(kind, rows, depth);
      OddFails(kind, rows, offset, count, depth, tail, used);
      FirstDiffers(members, s, vs, rows, offset, count, depth, used);
    } else {
      assert vs[1..] == OddAll(members[1..], rows);
      BlankFits(kind, rows, depth);
      VectorRoundTrip(kind, vs[0], rows, depth, tail, used);
      DecodeSlice(kind, s, rows, offset, count, depth, used);
      ColumnsFail(members[1..], rows, offset, count, depth, rest, used + BlankWeight(kind, rows));
      LaterDiffers(members, s, tail, vs, rows, offset, count, depth, used, used + BlankWeight(kind, rows));
    }
  }

  lemma FirstDiffers(members: seq<Member>, s: bytes, vs: seq<Vector>, rows: nat, offset: nat, count: nat, depth: nat,
      used: nat)
    requires members != [] && FitsAll(members, vs, rows) && offset + count <= rows
    requires var part := Decode(members[0].kind, s, rows, offset, count, depth, used);
      part.Got? ==> part.value.0 != Rows(members[0].kind, vs[0], rows)[offset..offset + count]
    ensures var part := DecodeColumns(members, s, rows, offset, count, depth, used);
      part.Got? ==> ColumnsDiffer(part.value.0, ColumnRows(members, vs, rows), offset, count)
  {
    hide Decode, Rows, Fits;
    var part := DecodeColumns(members, s, rows, offset, count, depth, used);
    if part.Got? {
      var first := Decode(members[0].kind, s, rows, offset, count, depth, used).value.0;
      var whole := Rows(members[0].kind, vs[0], rows);
      var i :| 0 <= i < count && first[i] != whole[offset..offset + count][i];
      assert part.value.0[0][i] != ColumnRows(members, vs, rows)[0][offset + i];
    }
  }

  lemma LaterDiffers(members: seq<Member>, s: bytes, tail: bytes, vs: seq<Vector>, rows: nat, offset: nat, count: nat,
                     depth: nat, used: nat, used': nat)
    requires members != [] && FitsAll(members, vs, rows) && offset + count <= rows
    requires var part := Decode(members[0].kind, s, rows, offset, count, depth, used);
      part.Got? && part.value.1 == used' && part.rest == tail
    requires var part := DecodeColumns(members[1..], tail, rows, offset, count, depth, used');
      part.Got? ==> ColumnsDiffer(part.value.0, ColumnRows(members[1..], vs[1..], rows), offset, count)
    ensures var part := DecodeColumns(members, s, rows, offset, count, depth, used);
      part.Got? ==> ColumnsDiffer(part.value.0, ColumnRows(members, vs, rows), offset, count)
  {
    hide Decode, Rows, Fits;
    var part := DecodeColumns(members, s, rows, offset, count, depth, used);
    if part.Got? {
      var others, all := DecodeColumns(members[1..], tail, rows, offset, count, depth, used').value.0,
        ColumnRows(members[1..], vs[1..], rows);
      var j, i :| 0 <= j < |others| && 0 <= i < count && others[j][i] != all[j][offset + i];
      assert part.value.0[j + 1] == others[j] && ColumnRows(members, vs, rows)[j + 1] == all[j];
    }
  }

  /** For a type whose columns can be decoded at all, every non-empty slice of every
      column is decoded right if and only if the slice starts at row 0 or the type
      reaches no array through structs and unions. */
  lemma SliceLawIff(t: Node, rows: nat, offset: nat, count: nat)
    requires Canonical(t, 0) && BlankWeight(t, rows) <= MAX_MATERIALIZED_VALUES && 0 < count && offset + count <= rows
    ensures (forall s: bytes | Decode(t, s, rows, 0, rows, 0, 0).Got? :: SliceRight(t, s, rows, offset, count))
      <==> offset == 0 || Sliceable(t)
  {
    hide Decode, Canonical, Sliceable;
    if offset == 0 || Sliceable(t) {
      forall s: bytes | Decode(t, s, rows, 0, rows, 0, 0).Got? ensures SliceRight(t, s, rows, offset, count) {
        DecodeSlice(t, s, rows, offset, count, 0, 0);
      }
    } else {
      OddFits(t, rows, 0);
      EncoderTotal(t, Odd(t, rows), rows, 0, []);
      var s := VectorBefore(t, Odd(t, rows), rows, 0, []).value;
      VectorRoundTrip(t, Odd(t, rows), rows, 0, [], 0);
      OddFails(t, rows, offset, count, 0, [], 0);
      assert !SliceRight(t, s, rows, offset, count);
    }
  }

  /** The slice law does fail: row 1 of the two-row array column [[7], [9]]
      decodes to [7]. */
  lemma ArraySliceCounterexample()
    ensures exists t: Node, s: bytes ::
      && Decode(t, s, 2, 0, 2, 0, 0).Got?
      && Decode(t, s, 2, 0, 2, 0, 0).value.0 == [Items([Scalar([7])]), Items([Scalar([9])])]
      && Decode(t, s, 2, 1, 1, 0, 0).Got?
      && Decode(t, s, 2, 1, 1, 0, 0).value.0 == [Items([Scalar([7])])]
  {
    var t := Node(ARRAY, 0, 0, 1, [], [Member([], Bare(UTINYINT))]);
    var v := Vector(None, Arrayed(Vector(None, Raw([7, 9]))));
    ExampleFits(t, v);
    hide Decode, Canonical, Fits, Weight, Rows, VectorBefore, ReadKind, ReadPrologue;
    ColumnRoundTrip(t, v, 2, []);
    var s := VectorBefore(t, v, 2, 0, []).value;
    ExampleRows(t, v);
    FlatHeader(t, v, 2, 0, []);
    ArraySliceIgnoresOffset(t, s, 2, 1, 1, 0, 0);
    assert [Items([Scalar([7])]), Items([Scalar([9])])][..1] == [Items([Scalar([7])])];
  }

  lemma ExampleFits(t: Node, v: Vector)
    requires t == Node(ARRAY, 0, 0, 1, [], [Member([], Bare(UTINYINT))])
    requires v == Vector(None, Arrayed(Vector(None, Raw([7, 9]))))
    ensures Canonical(t, 0) && Fits(t, v, 2) && Weight(t, v, 2) == 4
  {
  }

  lemma ExampleRows(t: Node, v: Vector)
    requires t == Node(ARRAY, 0, 0, 1, [], [Member([], Bare(UTINYINT))])
    requires v == Vector(None, Arrayed(Vector(None, Raw([7, 9])))) && Fits(t, v, 2)
    ensures Rows(t, v, 2) == [Items([Scalar([7])]), Items([Scalar([9])])]
  {
    var element := Vector(None, Raw([7, 9]));
    assert Pieces<byte>([7, 9], 1, 2) == [[7], [9]] by {
      assert [7, 9][..1] == [7] && [7, 9][1..] == [9] && [9][..1] == [9] && [9][1..] == [];
    }
    var values := Rows(Bare(UTINYINT), element, 2);
    assert values == [Scalar([7]), Scalar([9])];
    assert Pieces(values, 1, 2) == [[Scalar([7])], [Scalar([9])]] by {
      assert values[..1] == [Scalar([7])] && values[1..] == [Scalar([9])];
      assert [Scalar([9])][..1] == [Scalar([9])] && [Scalar([9])][1..] == [];
    }
  }
}
