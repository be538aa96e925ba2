/** When the decoder accepts what the skipper accepts. A payload is checked by skipping
    over it and later decoded (src/ducknng_quack.c, lines 1660-1803 and 2026-2230); the
    two differ in exactly three things: how many values the bytes expand to, whether the
    values of sequence vectors fit their type, and whether a compressed vector's type
    can be built. */
module QuackExpansion {
  import opened Leb128
  import opened Options
  import opened QuackTypes
  import opened QuackVectors

  /** How many values decoding materialises, over all levels. */
  function Cost(t: Node, s: bytes, rows: nat, depth: nat): nat
    decreases |s|, 1
  {
    rows + match ReadKind(s)
           case Bad(_) => 0
           case Got(kind, s1) =>
             if kind == 2 then Cost(t, s1, 1, depth + 1)
             else if kind == 3 then
               (match ReadDictionary(s1, rows)
                case Bad(_) => 0
                case Got(dictionary, s2) => Cost(t, s2, dictionary.1, depth + 1))
             else if kind == 0 then
               (match ReadPrologue(s1)
                case Bad(_) => 0
                case Got(_, s2) => BodyCost(t, s2, rows, depth))
             else 0
  }

  function BodyCost(t: Node, s: bytes, rows: nat, depth: nat): nat
    decreases |s|, 0
  {
    if IsVarlen(t.id) then 0
    else if HasMembers(t.id) then
      (match ReadColumnCount(s, |t.members|)
       case Bad(_) => 0
       case Got(_, s1) => ColumnsCost(t.members, s1, rows, depth + 1))
    else if |t.members| != 1 then 0
    else if t.id == LIST || t.id == MAP then
      (match ListChild(s, rows)
       case Bad(_) => 0
       case Got(size, s2) => Cost(t.members[0].kind, s2, size, depth + 1))
    else if t.id == ARRAY then
      (match ReadArraySize(s, t.arraySize, rows)
       case Bad(_) => 0
       case Got(size, s1) => Cost(t.members[0].kind, s1, size, depth + 1))
    else 0
  }

  /** The size of a list's child and the bytes it starts at. */
  function ListChild(s: bytes, rows: nat): (p: Parsed<nat>)
    ensures p.Got? ==> |p.rest| < |s|
  {
    var (size, s1) :- ReadListSize(s, rows);
    var (_, s2) :- ReadListEntries(s1, rows, size);
    Got(size, s2)
  }

  function ColumnsCost(members: seq<Member>, s: bytes, rows: nat, depth: nat): nat
    decreases |s|, 2, |members|
  {
    if members == [] then 0 else
    Cost(members[0].kind, s, rows, depth) +
    match Skip(members[0].kind, s, rows, depth)
    case Bad(_) => 0
    case Got(_, s1) => ColumnsCost(members[1..], s1, rows, depth)
  }

  /** Every sequence vector stays in the range of its type on the rows that are decoded,
      and every compressed vector has a type that can be built. */
  predicate Faithful(t: Node, s: bytes, rows: nat, offset: nat, count: nat, depth: nat)
    decreases |s|, 1
  {
    match ReadKind(s)
    case Bad(_) => true
    case Got(kind, s1) =>
      if kind == 2 then Buildable(t, depth) && Faithful(t, s1, 1, 0, 1, depth + 1)
      else if kind == 3 then
        (match ReadDictionary(s1, rows)
         case Bad(_) => true
         case Got(dictionary, s2) =>
           Buildable(t, depth) && Faithful(t, s2, dictionary.1, 0, dictionary.1, depth + 1))
      else if kind == 4 then
        (match ReadSequence(s1)
         case Bad(_) => true
         case Got(range, _) => AllInRange(t.id, range.0, range.1, offset, offset + count))
      else
        (match ReadPrologue(s1)
         case Bad(_) => true
         case Got(_, s2) => FaithfulBody(t, s2, rows, offset, count, depth))
  }

  predicate FaithfulBody(t: Node, s: bytes, rows: nat, offset: nat, count: nat, depth: nat)
    decreases |s|, 0
  {
    if IsVarlen(t.id) then true
    else if HasMembers(t.id) then
      (match ReadColumnCount(s, |t.members|)
       case Bad(_) => true
       case Got(_, s1) => FaithfulColumns(t.members, s1, rows, offset, count, depth + 1))
    else if |t.members| != 1 then true
    else if t.id == LIST || t.id == MAP then
      (match ListChild(s, rows)
       case Bad(_) => true
       case Got(size, s2) => Faithful(t.members[0].kind, s2, size, 0, size, depth + 1))
    else if t.id == ARRAY then
      (match ReadArraySize(s, t.arraySize, rows)
       case Bad(_) => true
       case Got(size, s1) => Faithful(t.members[0].kind, s1, size, 0, size, depth + 1))
    else true
  }

  predicate FaithfulColumns(members: seq<Member>, s: bytes, rows: nat, offset: nat, count: nat, depth: nat)
    decreases |s|, 2, |members|
  {
    members == [] ||
    (Faithful(members[0].kind, s, rows, offset, count, depth) &&
     match Skip(members[0].kind, s, rows, depth)
     case Bad(_) => true
     case Got(_, s1) => FaithfulColumns(members[1..], s1, rows, offset, count, depth))
  }

  /** The decoder accepts if and only if the skipper does, the values fit the budget and
      the vector is faithful; it then has used up exactly the cost and stops where the
      skipper stops. */
  lemma {:induction false} DecodesIff(t: Node, s: bytes, rows: nat, offset: nat, count: nat, depth: nat, used: nat)
    requires offset + count <= rows
    ensures var p, cost := Decode(t, s, rows, offset, count, depth, used), used + Cost(t, s, rows, depth);
      && (p.Got? <==> Skip(t, s, rows, depth).Got? && cost <= MAX_MATERIALIZED_VALUES
                      && Faithful(t, s, rows, offset, count, depth))
      && (p.Got? ==> p.value.1 == cost && p.rest == Skip(t, s, rows, depth).rest)
    decreases |s|, 1
  {
    hide ReadDictionary, ReadPrologue, ReadKind, ReadSequence, DecodeSequence, DecodeCopy, DecodeBody, SkipBody,
      BodyCost, FaithfulBody, Buildable;
    if ReadKind(s).Got? {
      var (kind, s1) := ReadKind(s).Extract();
      if kind == 2 {
        CopyIff(t, s1, 1, Zeros(count), depth, used + rows);
      } else if kind == 3 {
        if ReadDictionary(s1, rows).Got? {
          var ((picks, n), s2) := ReadDictionary(s1, rows).Extract();
          CopyIff(t, s2, n, picks[offset..offset + count], depth, used + rows);
        }
      } else if kind == 4 {
        SequenceIff(t.id, s1, offset, count);
      } else if kind == 0 && ReadPrologue(s1).Got? && used + rows <= MAX_MATERIALIZED_VALUES {
        var (validity, s2) := ReadPrologue(s1).Extract();
        BodyIff(t, s2, validity, rows, offset, count, depth, used + rows);
      }
    }
  }

  lemma SequenceIff(id: int, s: bytes, offset: nat, count: nat)
    ensures var p, q := DecodeSequence(id, s, offset, count), ReadSequence(s);
      && (p.Got? <==> q.Got? && IsSequenceInteger(id) && AllInRange(id, q.value.0, q.value.1, offset, offset + count))
      && (p.Got? ==> p.rest == q.rest)
  {
    hide ReadSequence, AllInRange, SequenceRows;
  }

  lemma {:induction false} CopyIff(t: Node, s: bytes, n: nat, picks: seq<nat>, depth: nat, used: nat)
    requires forall i :: 0 <= i < |picks| ==> picks[i] < n
    ensures var p, cost := DecodeCopy(t, s, n, picks, depth, used), used + Cost(t, s, n, depth + 1);
      && (p.Got? <==> Skip(t, s, n, depth + 1).Got? && cost <= MAX_MATERIALIZED_VALUES
                      && Buildable(t, depth) && Faithful(t, s, n, 0, n, depth + 1))
      && (p.Got? ==> p.value.1 == cost && p.rest == Skip(t, s, n, depth + 1).rest)
    decreases |s|, 2
  {
    hide Decode, Skip, Faithful, Buildable, Picked;
    DecodesIff(t, s, n, 0, n, depth + 1, used);
    CostCoversRows(t, s, n, depth + 1);
  }

  lemma CostCoversRows(t: Node, s: bytes, rows: nat, depth: nat)
    ensures Cost(t, s, rows, depth) >= rows
  {
  }

  lemma {:induction false} BodyIff(t: Node, s: bytes, validity: Option<bytes>, rows: nat, offset: nat, count: nat,
                                   depth: nat, used: nat)
    requires offset + count <= rows && used <= MAX_MATERIALIZED_VALUES
    ensures var p := DecodeBody(t, s, validity, rows, offset, count, depth, used);
      var cost := used + BodyCost(t, s, rows, depth);
      && (p.Got? <==> SkipBody(t, s, rows, depth).Got? && cost <= MAX_MATERIALIZED_VALUES
                      && FaithfulBody(t, s, rows, offset, count, depth))
      && (p.Got? ==> p.value.1 == cost && p.rest == SkipBody(t, s, rows, depth).rest)
    decreases |s|, 0
  {
    hide ReadStringData, ReadColumnCount, ReadListSize, ReadListEntries, ReadArraySize, ReadRawData, Expect, Decode,
      Skip, Cost, Faithful, DecodeColumns, SkipColumns, ColumnsCost, FaithfulColumns, ScalarRows, RecordRows,
      ListRows, ArrayRows, Pieces, FixedWidth;
    if IsVarlen(t.id) {
    } else if HasMembers(t.id) {
      if ReadColumnCount(s, |t.members|).Got? {
        ColumnsIff(t.members, ReadColumnCount(s, |t.members|).rest, rows, offset, count, depth + 1, used);
      }
    } else if t.id == LIST || t.id == MAP {
      if |t.members| == 1 && ListChild(s, rows).Got? {
        var (size, s2) := ListChild(s, rows).Extract();
        DecodesIff(t.members[0].kind, s2, size, 0, size, depth + 1, used);
        CostCoversRows(t.members[0].kind, s2, size, depth + 1);
      }
    } else if t.id == ARRAY {
      if |t.members| == 1 && ReadArraySize(s, t.arraySize, rows).Got? {
        var (size, s1) := ReadArraySize(s, t.arraySize, rows).Extract();
        DecodesIff(t.members[0].kind, s1, size, 0, size, depth + 1, used);
      }
    }
  }

  lemma {:induction false} ColumnsIff(members: seq<Member>, s: bytes, rows: nat, offset: nat, count: nat,
                                      depth: nat, used: nat)
    requires offset + count <= rows && used <= MAX_MATERIALIZED_VALUES
    ensures var p := DecodeColumns(members, s, rows, offset, count, depth, used);
      var cost := used + ColumnsCost(members, s, rows, depth);
      && (p.Got? <==> SkipColumns(members, s, rows, depth).Got? && cost <= MAX_MATERIALIZED_VALUES
                      && FaithfulColumns(members, s, rows, offset, count, depth))
      && (p.Got? ==> p.value.1 == cost && p.rest == SkipColumns(members, s, rows, depth).rest)
    decreases |s|, 2, |members|
  {
    hide Decode, Skip, Cost, Faithful;
    if members != [] {
      DecodesIff(members[0].kind, s, rows, offset, count, depth, used);
      var used' := used + Cost(members[0].kind, s, rows, depth);
      if Skip(members[0].kind, s, rows, depth).Got? && used' <= MAX_MATERIALIZED_VALUES {
        ColumnsIff(members[1..], Skip(members[0].kind, s, rows, depth).rest, rows, offset, count, depth, used');
      }
    }
  }
}
