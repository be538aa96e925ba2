/** The wire format of types, vectors, chunks and payloads with every number written out,
    as src/include/ducknng_quack_core.h and the constants at the top of
    src/ducknng_quack.c fix it. What a peer sends is these bytes; the encoders are
    proved to produce them and the readers to take them. */
module QuackSpelling {
  import opened Leb128
  import opened ByteKernel
  import opened Options
  import opened QuackTypes
  import opened QuackVectors
  import opened Widths

  // ---- types ----

  /** A length and the bytes. */
  function Spell(text: bytes, rest: bytes): bytes {
    Uleb(|text|) + text + rest
  }

  function SpelledLabels(labels: seq<CString>, rest: bytes): bytes {
    if labels == [] then rest else Spell(labels[0], SpelledLabels(labels[1..], rest))
  }

  /** The element type of a list, map or array. */
  function Child(t: Node, depth: nat): (child: Node)
    requires Canonical(t, depth) && t.id in {101, 102, 108}
    ensures child < t && |t.members| == 1 && child == t.members[0].kind && Canonical(child, depth + 1)
  {
    assert CanonicalMembers(t.members, depth + 1);
    t.members[0].kind
  }

  /** A canonical type in front of `rest`. */
  function Spelled(t: Node, depth: nat, rest: bytes): bytes
    requires Canonical(t, depth)
    decreases t, 1
  {
    var end := [255, 255, 255, 255] + rest;
    if t.id == 21 then
      [100, 0, 21, 101, 0, 1, 100, 0, 2, 200, 0] + Uleb(t.width)
      + (if t.scale == 0 then end else [201, 0] + Uleb(t.scale) + end)
    else if t.id == 104 then
      [100, 0, 104, 101, 0, 1, 100, 0, 6, 200, 0] + Uleb(|t.labels|) + [201, 0] + Uleb(|t.labels|)
      + SpelledLabels(t.labels, end)
    else if t.id == 101 then
      [100, 0, 101, 101, 0, 1, 100, 0, 4, 200, 0] + Spelled(Child(t, depth), depth + 1, end)
    else if t.id == 102 then
      [100, 0, 102, 101, 0, 1, 100, 0, 4, 200, 0] + Spelled(Child(t, depth), depth + 1, end)
    else if t.id == 108 then
      [100, 0, 108, 101, 0, 1, 100, 0, 9, 200, 0]
      + Spelled(Child(t, depth), depth + 1, [201, 0] + Uleb(t.arraySize) + end)
    else if t.id == 100 then
      [100, 0, 100, 101, 0, 1, 100, 0, 5, 200, 0] + Uleb(|t.members|) + SpelledMembers(t.members, depth + 1, end)
    else if t.id == 107 then
      [100, 0, 107, 101, 0, 1, 100, 0, 5, 200, 0] + Uleb(|t.members|) + SpelledMembers(t.members, depth + 1, end)
    else [100, 0, t.id, 255, 255] + rest
  }

  function SpelledMembers(members: seq<Member>, depth: nat, rest: bytes): bytes
    requires CanonicalMembers(members, depth)
    decreases members, 0
  {
    if members == [] then rest else
    [0, 0] + Spell(members[0].name,
      [1, 0] + Spelled(members[0].kind, depth, [255, 255] + SpelledMembers(members[1..], depth, rest)))
  }

  lemma {:induction false} LabelsSpelled(labels: seq<CString>, rest: bytes)
    ensures LabelsBefore(labels, rest) == SpelledLabels(labels, rest)
  {
    if labels != [] { LabelsSpelled(labels[1..], rest); }
  }

  lemma EndSpelled(rest: bytes)
    ensures Field(FIELD_END, rest) == [255, 255] + rest
    ensures Field(FIELD_END, Field(FIELD_END, rest)) == [255, 255, 255, 255] + rest
  {
  }

  lemma NumbersSpelled(v: byte, rest: bytes)
    requires v < 128
    ensures Number(v, rest) == [v] + rest
  {
  }

  /** What stands in front of a type's parameters. */
  lemma HeadSpelled(id: byte, kind: byte, info: bytes)
    requires id < 128 && kind < 128
    ensures Field(100, Number(id, Field(101, [1] + Field(100, Number(kind, info)))))
      == [100, 0, id, 101, 0, 1, 100, 0, kind] + info
  {
    hide Number;
    NumbersSpelled(kind, info);
    NumbersSpelled(id, Field(101, [1] + Field(100, Number(kind, info))));
  }

  /** The writer produces exactly these bytes. */
  lemma {:induction false} TypeSpelled(t: Node, depth: nat, rest: bytes)
    requires Canonical(t, depth)
    ensures TypeBefore(t, depth, rest) == Some(Spelled(t, depth, rest))
    decreases t, 3
  {
    hide Field, Number, CanonicalMembers, Spelled;
    EndSpelled(rest);
    if NeedsInfo(t.id) {
      InfoSpelled(t, depth, rest);
    } else {
      PlainSpelled(t, depth, rest);
    }
  }

  lemma PlainSpelled(t: Node, depth: nat, rest: bytes)
    requires Canonical(t, depth) && !NeedsInfo(t.id)
    ensures TypeBefore(t, depth, rest) == Some(Spelled(t, depth, rest))
  {
    hide Number, CanonicalMembers;
    EndSpelled(rest);
    assert t.id % TWO_64 == t.id;
    NumbersSpelled(t.id, Field(FIELD_END, rest));
    assert [100, 0] + ([t.id] + ([255, 255] + rest)) == [100, 0, t.id, 255, 255] + rest;
  }

  lemma {:induction false} InfoSpelled(t: Node, depth: nat, rest: bytes)
    requires Canonical(t, depth) && NeedsInfo(t.id)
    ensures TypeBefore(t, depth, rest) == Some(Spelled(t, depth, rest))
    decreases t, 2
  {
    hide Field, Number, CanonicalMembers, ShapeOk, InfoBefore, Spelled;
    EndSpelled(rest);
    var info := ParametersSpelled(t, depth, rest);
    assert t.id % TWO_64 == t.id;
    HeadSpelled(t.id, InfoKind(t.id), info);
  }

  lemma {:induction false} ParametersSpelled(t: Node, depth: nat, rest: bytes) returns (info: bytes)
    requires Canonical(t, depth) && NeedsInfo(t.id)
    ensures InfoBefore(t, depth, [255, 255, 255, 255] + rest) == Some(info)
    ensures 0 <= t.id < 128 && InfoKind(t.id) < 128
    ensures Spelled(t, depth, rest) == [100, 0, t.id, 101, 0, 1, 100, 0, InfoKind(t.id)] + info
    decreases t, 1
  {
    var end := [255, 255, 255, 255] + rest;
    if t.id == 21 {
      info := DecimalSpelled(t, depth, rest);
    } else if t.id == 104 {
      info := EnumSpelled(t, depth, rest);
    } else if t.id == 100 || t.id == 107 {
      info := RecordSpelled(t, depth, rest);
    } else {
      info := ChildSpelled(t, depth, rest);
    }
  }

  lemma DecimalSpelled(t: Node, depth: nat, rest: bytes) returns (info: bytes)
    requires Canonical(t, depth) && t.id == 21
    ensures InfoBefore(t, depth, [255, 255, 255, 255] + rest) == Some(info)
    ensures Spelled(t, depth, rest) == [100, 0, 21, 101, 0, 1, 100, 0, 2] + info
  {
    hide CanonicalMembers, Uleb;
    var end := [255, 255, 255, 255] + rest;
    var scale := if t.scale == 0 then end else Field(201, Number(t.scale, end));
    info := Field(200, Number(t.width, scale));
    assert t.scale != 0 ==> scale == [201, 0] + Uleb(t.scale) + end;
    assert info == [200, 0] + Uleb(t.width) + scale;
  }

  lemma EnumSpelled(t: Node, depth: nat, rest: bytes) returns (info: bytes)
    requires Canonical(t, depth) && t.id == 104
    ensures InfoBefore(t, depth, [255, 255, 255, 255] + rest) == Some(info)
    ensures Spelled(t, depth, rest) == [100, 0, 104, 101, 0, 1, 100, 0, 6] + info
  {
    hide CanonicalMembers, Uleb, LabelsBefore, SpelledLabels;
    var end := [255, 255, 255, 255] + rest;
    LabelsSpelled(t.labels, end);
    var n, labels := |t.labels|, SpelledLabels(t.labels, end);
    info := Field(200, Number(n, Field(201, Number(n, labels))));
    assert info == [200, 0] + Uleb(n) + [201, 0] + Uleb(n) + labels;
  }

  lemma {:induction false} RecordSpelled(t: Node, depth: nat, rest: bytes) returns (info: bytes)
    requires Canonical(t, depth) && (t.id == 100 || t.id == 107)
    ensures InfoBefore(t, depth, [255, 255, 255, 255] + rest) == Some(info)
    ensures Spelled(t, depth, rest) == [100, 0, t.id, 101, 0, 1, 100, 0, 5] + info
    decreases t, 0
  {
    hide CanonicalMembers, Uleb, MembersBefore, SpelledMembers;
    var end := [255, 255, 255, 255] + rest;
    MembersSpelled(t.members, depth + 1, end);
    var n, members := |t.members|, SpelledMembers(t.members, depth + 1, end);
    info := Field(200, Number(n, members));
    assert info == [200, 0] + Uleb(n) + members;
  }

  lemma {:induction false} ChildSpelled(t: Node, depth: nat, rest: bytes) returns (info: bytes)
    requires Canonical(t, depth) && t.id in {101, 102, 108}
    ensures InfoBefore(t, depth, [255, 255, 255, 255] + rest) == Some(info)
    ensures Spelled(t, depth, rest) == [100, 0, t.id, 101, 0, 1, 100, 0, if t.id == 108 then 9 else 4] + info
    decreases t, 0
  {
    hide CanonicalMembers, Uleb, TypeBefore, ShapeOk, Spelled;
    var end := [255, 255, 255, 255] + rest;
    var tail := if t.id == 108 then [201, 0] + Uleb(t.arraySize) + end else end;
    var child := Child(t, depth);
    TypeSpelled(child, depth + 1, tail);
    info := [200, 0] + Spelled(child, depth + 1, tail);
    if t.id == 108 {
      SizeSpelled(t, depth, end);
    }
    ChildBytes(t, depth, rest, tail, info);
  }

  lemma SizeSpelled(t: Node, depth: nat, end: bytes)
    requires Canonical(t, depth) && t.id == 108
    ensures t.arraySize != 0 && Field(201, Number(t.arraySize, end)) == [201, 0] + Uleb(t.arraySize) + end
  {
    hide CanonicalMembers, Uleb;
  }

  lemma ChildBytes(t: Node, depth: nat, rest: bytes, tail: bytes, info: bytes)
    requires Canonical(t, depth) && t.id in {101, 102, 108}
    requires var end := [255, 255, 255, 255] + rest;
      tail == if t.id == 108 then [201, 0] + Uleb(t.arraySize) + end else end
    requires info == [200, 0] + Spelled(Child(t, depth), depth + 1, tail)
    ensures Spelled(t, depth, rest) == [100, 0, t.id, 101, 0, 1, 100, 0, if t.id == 108 then 9 else 4] + info
  {
    hide CanonicalMembers, Uleb, Canonical;
  }

  lemma {:induction false} MembersSpelled(members: seq<Member>, depth: nat, rest: bytes)
    requires CanonicalMembers(members, depth)
    ensures MembersBefore(members, depth, rest) == Some(SpelledMembers(members, depth, rest))
    decreases members, 0
  {
    hide Canonical, Uleb, TypeBefore, Spelled;
    if members != [] {
      var tail := SpelledMembers(members[1..], depth, rest);
      MembersSpelled(members[1..], depth, rest);
      EndSpelled(tail);
      TypeSpelled(members[0].kind, depth, [255, 255] + tail);
    }
  }

  /** And the reader takes them. */
  lemma SpelledRead(t: Node, depth: nat, rest: bytes)
    requires Canonical(t, depth)
    ensures ReadType(Spelled(t, depth, rest), depth) == Got(t, rest)
  {
    hide *;
    TypeSpelled(t, depth, rest);
    TypeRoundTrip(t, depth, rest);
  }

  // Each kind of type on its own, with its parameters.

  /** The types without parameters. */
  const PLAIN: set<int> := {10, 11, 12, 13, 14, 15, 16, 17, 18, 19, 20, 22, 23, 24, 25, 26, 27, 28, 29, 30, 31, 32,
    34, 35, 49, 50, 54}

  /** Which types are accepted at all. */
  lemma CanonicalMeans(t: Node, depth: nat)
    ensures Canonical(t, depth) <==> (depth <= 64 &&
      (|| (t.id in PLAIN && t == Node(t.id, 0, 0, 0, [], []))
       || (t.id == 21 && 1 <= t.width <= 38 && t.scale <= t.width && t == Node(21, t.width, t.scale, 0, [], []))
       || (t.id == 104 && |t.labels| <= 16777216 && t == Node(104, 0, 0, 0, t.labels, []))
       || (t.id == 101 && |t.members| == 1 && t.members[0].name == [] && t == Node(101, 0, 0, 0, [], t.members)
           && CanonicalMembers(t.members, depth + 1))
       || (t.id == 102 && |t.members| == 1 && t.members[0].name == [] && t == Node(102, 0, 0, 0, [], t.members)
           && t.members[0].kind.id == 100 && |t.members[0].kind.members| == 2
           && CanonicalMembers(t.members, depth + 1))
       || (t.id == 108 && |t.members| == 1 && t.members[0].name == [] && t.arraySize != 0
           && t == Node(108, 0, 0, t.arraySize, [], t.members) && CanonicalMembers(t.members, depth + 1))
       || (t.id == 100 && 1 <= |t.members| <= 65536 && t == Node(100, 0, 0, 0, [], t.members)
           && CanonicalMembers(t.members, depth + 1))
       || (t.id == 107 && 2 <= |t.members| <= 65536 && t.members[0].kind.id == 28
           && t == Node(107, 0, 0, 0, [], t.members) && CanonicalMembers(t.members, depth + 1))))
  {
    hide CanonicalMembers;
    NoneCanonical(depth + 1);
  }

  lemma NoneCanonical(depth: nat)
    ensures CanonicalMembers([], depth)
  {
  }

  lemma PlainRead(id: byte, depth: nat, rest: bytes)
    requires id in PLAIN && depth <= 64
    ensures ReadType([100, 0, id, 255, 255] + rest, depth) == Got(Node(id, 0, 0, 0, [], []), rest)
  {
    hide ReadType, CanonicalMembers;
    NoneCanonical(depth + 1);
    SpelledRead(Node(id, 0, 0, 0, [], []), depth, rest);
  }

  lemma DecimalRead(width: uint8, scale: uint8, depth: nat, rest: bytes)
    requires 1 <= width <= 38 && 1 <= scale <= width && depth <= 64
    ensures ReadType([100, 0, 21, 101, 0, 1, 100, 0, 2, 200, 0] + Uleb(width) + ([201, 0] + Uleb(scale)
        + ([255, 255, 255, 255] + rest)), depth)
      == Got(Node(21, width, scale, 0, [], []), rest)
    ensures ReadType([100, 0, 21, 101, 0, 1, 100, 0, 2, 200, 0] + Uleb(width) + ([255, 255, 255, 255] + rest), depth)
      == Got(Node(21, width, 0, 0, [], []), rest)
  {
    hide ReadType, CanonicalMembers, Uleb;
    NoneCanonical(depth + 1);
    SpelledRead(Node(21, width, scale, 0, [], []), depth, rest);
    SpelledRead(Node(21, width, 0, 0, [], []), depth, rest);
  }

  lemma EnumRead(labels: seq<CString>, depth: nat, rest: bytes)
    requires |labels| <= 16777216 && depth <= 64
    ensures ReadType([100, 0, 104, 101, 0, 1, 100, 0, 6, 200, 0] + Uleb(|labels|) + [201, 0] + Uleb(|labels|)
        + SpelledLabels(labels, [255, 255, 255, 255] + rest), depth)
      == Got(Node(104, 0, 0, 0, labels, []), rest)
  {
    hide ReadType, CanonicalMembers, Uleb, SpelledLabels;
    NoneCanonical(depth + 1);
    SpelledRead(Node(104, 0, 0, 0, labels, []), depth, rest);
  }

  lemma ListRead(child: Node, depth: nat, rest: bytes)
    requires Canonical(child, depth + 1)
    ensures ReadType([100, 0, 101, 101, 0, 1, 100, 0, 4, 200, 0]
        + Spelled(child, depth + 1, [255, 255, 255, 255] + rest), depth)
      == Got(Node(101, 0, 0, 0, [], [Member([], child)]), rest)
  {
    hide ReadType, CanonicalMembers;
    OneMember(child, depth + 1);
    SpelledRead(Node(101, 0, 0, 0, [], [Member([], child)]), depth, rest);
  }

  lemma MapRead(child: Node, depth: nat, rest: bytes)
    requires Canonical(child, depth + 1) && child.id == 100 && |child.members| == 2
    ensures ReadType([100, 0, 102, 101, 0, 1, 100, 0, 4, 200, 0]
        + Spelled(child, depth + 1, [255, 255, 255, 255] + rest), depth)
      == Got(Node(102, 0, 0, 0, [], [Member([], child)]), rest)
  {
    hide ReadType, CanonicalMembers;
    OneMember(child, depth + 1);
    SpelledRead(Node(102, 0, 0, 0, [], [Member([], child)]), depth, rest);
  }

  lemma ArrayRead(child: Node, size: uint32, depth: nat, rest: bytes)
    requires Canonical(child, depth + 1) && size != 0
    ensures ReadType([100, 0, 108, 101, 0, 1, 100, 0, 9, 200, 0]
        + Spelled(child, depth + 1, [201, 0] + Uleb(size) + ([255, 255, 255, 255] + rest)), depth)
      == Got(Node(108, 0, 0, size, [], [Member([], child)]), rest)
  {
    hide ReadType, CanonicalMembers, Uleb;
    OneMember(child, depth + 1);
    SpelledRead(Node(108, 0, 0, size, [], [Member([], child)]), depth, rest);
  }

  lemma StructRead(members: seq<Member>, depth: nat, rest: bytes)
    requires CanonicalMembers(members, depth + 1) && 1 <= |members| <= 65536 && depth <= 64
    ensures ReadType([100, 0, 100, 101, 0, 1, 100, 0, 5, 200, 0] + Uleb(|members|)
        + SpelledMembers(members, depth + 1, [255, 255, 255, 255] + rest), depth)
      == Got(Node(100, 0, 0, 0, [], members), rest)
  {
    hide ReadType, CanonicalMembers, Uleb, SpelledMembers;
    SpelledRead(Node(100, 0, 0, 0, [], members), depth, rest);
  }

  lemma UnionRead(members: seq<Member>, depth: nat, rest: bytes)
    requires CanonicalMembers(members, depth + 1) && 2 <= |members| <= 65536 && members[0].kind.id == 28 && depth <= 64
    ensures ReadType([100, 0, 107, 101, 0, 1, 100, 0, 5, 200, 0] + Uleb(|members|)
        + SpelledMembers(members, depth + 1, [255, 255, 255, 255] + rest), depth)
      == Got(Node(107, 0, 0, 0, [], members), rest)
  {
    hide ReadType, CanonicalMembers, Uleb, SpelledMembers;
    SpelledRead(Node(107, 0, 0, 0, [], members), depth, rest);
  }

  lemma OneMember(child: Node, depth: nat)
    requires Canonical(child, depth)
    ensures CanonicalMembers([Member([], child)], depth)
  {
  }

  // ---- vectors ----

  function SpelledStrings(validity: Option<bytes>, values: seq<bytes>, row: nat, rest: bytes): bytes
    requires row <= |values|
    decreases |values| - row
  {
    if row == |values| then rest else
    Spell(if RowValid(validity, row) then values[row] else [], SpelledStrings(validity, values, row + 1, rest))
  }

  function SpelledEntries(validity: Option<bytes>, entries: seq<Entry>, row: nat, rest: bytes): bytes
    requires row <= |entries|
    decreases |entries| - row
  {
    if row == |entries| then rest else
    var e := if RowValid(validity, row) then entries[row] else Entry(0, 0);
    [100, 0] + Uleb(e.offset) + [101, 0] + Uleb(e.length) + [255, 255]
      + SpelledEntries(validity, entries, row + 1, rest)
  }

  /** A flat vector in front of `rest`. */
  function SpelledVector(t: Node, v: Vector, rows: nat, rest: bytes): bytes
    requires Fits(t, v, rows)
    decreases v, 1
  {
    var body := SpelledBody(t, v, rows, [255, 255] + rest);
    match v.validity
    case None => [100, 0, 0] + body
    case Some(mask) => [100, 0, 1, 101, 0] + Spell(mask, body)
  }

  function SpelledBody(t: Node, v: Vector, rows: nat, rest: bytes): bytes
    requires Fits(t, v, rows)
    decreases v, 0
  {
    match v.body
    case Strings(values) => [102, 0] + Uleb(rows) + SpelledStrings(v.validity, values, 0, rest)
    case Raw(data) => [102, 0] + Spell(data, rest)
    case Columns(children) => [103, 0] + Uleb(|children|) + SpelledColumns(t.members, children, rows, rest)
    case Listed(entries, size, child) =>
      [104, 0] + Uleb(size) + [105, 0] + Uleb(rows)
      + SpelledEntries(v.validity, entries, 0, [106, 0] + SpelledVector(t.members[0].kind, child, size, rest))
    case Arrayed(element) =>
      [103, 0] + Uleb(t.arraySize) + [104, 0]
      + SpelledVector(t.members[0].kind, element, rows * t.arraySize, rest)
  }

  function SpelledColumns(members: seq<Member>, children: seq<Vector>, rows: nat, rest: bytes): bytes
    requires FitsAll(members, children, rows)
    decreases children, 0
  {
    if children == [] then rest else
    SpelledVector(members[0].kind, children[0], rows, SpelledColumns(members[1..], children[1..], rows, rest))
  }

  lemma {:induction false} StringsSpelled(validity: Option<bytes>, values: seq<bytes>, row: nat, rest: bytes)
    requires row <= |values|
    ensures StringsBefore(CleanStrings(validity, values)[row..], rest) == SpelledStrings(validity, values, row, rest)
    decreases |values| - row
  {
    hide RowValid, Uleb;
    if row < |values| {
      StringsSpelled(validity, values, row + 1, rest);
      assert CleanStrings(validity, values)[row..][1..] == CleanStrings(validity, values)[row + 1..];
    }
  }

  lemma {:induction false} EntriesSpelled(validity: Option<bytes>, entries: seq<Entry>, row: nat, rest: bytes)
    requires row <= |entries|
    ensures EntriesBefore(CleanEntries(validity, entries)[row..], rest) == SpelledEntries(validity, entries, row, rest)
    decreases |entries| - row
  {
    hide RowValid, Uleb;
    if row < |entries| {
      EntriesSpelled(validity, entries, row + 1, rest);
      var clean := CleanEntries(validity, entries);
      assert clean[row..][1..] == clean[row + 1..];
      var e, tail := clean[row], SpelledEntries(validity, entries, row + 1, rest);
      EntrySpelled(e, tail);
    }
  }

  lemma EntrySpelled(e: Entry, tail: bytes)
    ensures Field(100, Number(e.offset, Field(101, Number(e.length, Field(FIELD_END, tail)))))
      == [100, 0] + Uleb(e.offset) + [101, 0] + Uleb(e.length) + [255, 255] + tail
  {
    hide Uleb;
  }

  /** The encoder produces exactly these bytes. */
  lemma {:induction false} VectorSpelled(t: Node, v: Vector, rows: nat, depth: nat, rest: bytes)
    requires Fits(t, v, rows) && VectorBefore(t, v, rows, depth, rest).Some?
    ensures VectorBefore(t, v, rows, depth, rest).value == SpelledVector(t, v, rows, rest)
    decreases v, 2
  {
    hide BodyBefore, SpelledBody, Uleb, Fits;
    BodySpelled(t, v, rows, depth, rest);
  }

  lemma {:induction false} BodySpelled(t: Node, v: Vector, rows: nat, depth: nat, rest: bytes)
    requires Fits(t, v, rows) && BodyBefore(t, v, rows, depth, rest).Some?
    ensures BodyBefore(t, v, rows, depth, rest).value == SpelledBody(t, v, rows, [255, 255] + rest)
    decreases v, 1
  {
    hide Uleb, CleanStrings, CleanEntries, StringsBefore, EntriesBefore, SpelledStrings, SpelledEntries, VectorBefore,
      SpelledVector, SpelledColumns, ColumnsBefore, RowValid;
    EndSpelled(rest);
    var end := [255, 255] + rest;
    match v.body
    case Strings(values) =>
      StringsSpelled(v.validity, values, 0, end);
      assert CleanStrings(v.validity, values)[0..] == CleanStrings(v.validity, values);
    case Raw(data) =>
    case Columns(children) =>
      ColumnsSpelled(t.members, children, rows, depth + 1, end);
    case Listed(entries, size, child) =>
      VectorSpelled(t.members[0].kind, child, size, depth + 1, end);
      var c := SpelledVector(t.members[0].kind, child, size, end);
      EntriesSpelled(v.validity, entries, 0, [106, 0] + c);
      assert CleanEntries(v.validity, entries)[0..] == CleanEntries(v.validity, entries);
    case Arrayed(element) =>
      VectorSpelled(t.members[0].kind, element, rows * t.arraySize, depth + 1, end);
  }

  lemma {:induction false} ColumnsSpelled(members: seq<Member>, children: seq<Vector>, rows: nat, depth: nat,
      rest: bytes)
    requires FitsAll(members, children, rows) && ColumnsBefore(members, children, rows, depth, rest).Some?
    ensures ColumnsBefore(members, children, rows, depth, rest).value == SpelledColumns(members, children, rows, rest)
    decreases children, 0
  {
    hide VectorBefore, SpelledVector, Fits;
    if children != [] {
      ColumnsSpelled(members[1..], children[1..], rows, depth, rest);
      VectorSpelled(members[0].kind, children[0], rows, depth, SpelledColumns(members[1..], children[1..], rows, rest));
    }
  }
}
