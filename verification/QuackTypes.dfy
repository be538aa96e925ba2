/** Logical types on the wire (src/ducknng_quack.c, lines 814-1254, with the
    classification and shape rules of src/ducknng_quack_core.c). A type is a
    tree; it is written as tagged fields closed by an end marker, and read back
    by loops that accept the fields in any order that makes sense.

    Every error the reader raises itself is `Invalid`; `Truncated` and `Overflow`
    come from the byte kernel. */
module QuackTypes {
  import opened Leb128
  import opened ByteKernel
  import opened Options
  import opened Widths

  /** A NUL-terminated string without its terminator. */
  type CString = s: bytes | 0 !in s && |s| <= SIZE_MAX

  /** `ducknng_quack_column_schema`: width and scale of a decimal, size of an
      array, labels of an enum, children of a nested type. */
  datatype Node = Node(id: int32, width: uint8, scale: uint8, arraySize: uint32, labels: seq<CString>,
    members: seq<Member>)
  datatype Member = Member(name: CString, kind: Node)

  type int32 = x: int | -0x8000_0000 <= x < 0x8000_0000
  type uint8 = x: int | 0 <= x < 0x100
  type uint32 = x: int | 0 <= x < 0x1_0000_0000

  const FIELD_END: nat := 0xffff
  const MAX_NESTING: nat := 64
  const MAX_STRUCT_MEMBERS: nat := 65536
  const MAX_ENUM_VALUES: nat := 0x100_0000

  const UTINYINT: int := 28
  const DECIMAL: int := 21
  const STRUCT: int := 100
  const LIST: int := 101
  const MAP: int := 102
  const ENUM: int := 104
  const UNION: int := 107
  const ARRAY: int := 108

  predicate IsVarlen(id: int) {
    24 <= id <= 26
  }

  /** Byte width of the types that have a fixed one and no parameters. */
  function PlainWidth(id: int): nat {
    if id in {10, 11, 28} then 1
    else if id in {12, 29} then 2
    else if id in {13, 15, 22, 30} then 4
    else if id in {14, 16, 17, 18, 19, 20, 23, 31, 32, 34, 35} then 8
    else if id in {27, 49, 50, 54} then 16
    else 0
  }

  predicate IsPlain(id: int) {
    IsVarlen(id) || PlainWidth(id) != 0
  }

  /** `ducknng_qk_type_fixed_width`. */
  function FixedWidth(t: Node): nat {
    if t.id == ENUM then if |t.labels| <= 0xff then 1 else if |t.labels| <= 0xffff then 2 else 4
    else if t.id == DECIMAL then
      if t.width <= 4 then 2 else if t.width <= 9 then 4 else if t.width <= 18 then 8
      else if t.width <= 38 then 16 else 0
    else PlainWidth(t.id)
  }

  predicate HasMembers(id: int) {
    id == STRUCT || id == UNION
  }

  predicate HasOneChild(id: int) {
    id == LIST || id == MAP || id == ARRAY
  }

  predicate NeedsInfo(id: int) {
    HasMembers(id) || HasOneChild(id) || id == DECIMAL || id == ENUM
  }

  /** `ducknng_qk_type_expected_info_kind`. */
  function InfoKind(id: int): uint64 {
    if id == DECIMAL then 2
    else if id == LIST || id == MAP then 4
    else if HasMembers(id) then 5
    else if id == ENUM then 6
    else if id == ARRAY then 9
    else 0xffff_ffff_ffff_ffff
  }

  /** `ducknng_qk_type_shape_validate`. */
  predicate ShapeOk(t: Node) {
    if t.id == DECIMAL then 1 <= t.width <= 38 && t.scale <= t.width
    else if t.id == LIST then |t.members| == 1
    else if t.id == MAP then |t.members| == 1 && t.members[0].kind.id == STRUCT && |t.members[0].kind.members| == 2
    else if t.id == STRUCT then |t.members| >= 1
    else if t.id == UNION then |t.members| >= 2 && t.members[0].kind.id == UTINYINT
    else if t.id == ENUM then |t.labels| <= MAX_ENUM_VALUES
    else if t.id == ARRAY then t.arraySize != 0 && |t.members| == 1
    else IsPlain(t.id)
  }

  /** The tree that only carries a type id. */
  function Bare(id: int32): Node {
    Node(id, 0, 0, 0, [], [])
  }

  // ---- writing ----

  function Field(id: nat, rest: bytes): bytes
    requires id < 0x1_0000
  {
    U16(id) + rest
  }

  function Number(v: nat, rest: bytes): bytes {
    Uleb(v) + rest
  }

  function Text(s: bytes, rest: bytes): bytes {
    Counted(s) + rest
  }

  /** The bytes `ducknng_quack_write_type_node` puts in front of `rest`, or
      nothing when it refuses the tree. */
  function TypeBefore(t: Node, depth: nat, rest: bytes): Option<bytes>
    decreases t, 1
  {
    if depth > MAX_NESTING then None
    else if !NeedsInfo(t.id) then Some(Field(100, Number(t.id % TWO_64, Field(FIELD_END, rest))))
    else match InfoBefore(t, depth, Field(FIELD_END, Field(FIELD_END, rest)))
      case None => None
      case Some(info) => Some(Field(100,
        Number(t.id % TWO_64, Field(101, [1] + Field(100, Number(InfoKind(t.id), info))))))
  }

  /** The extra-info fields after the kind. */
  function InfoBefore(t: Node, depth: nat, rest: bytes): Option<bytes>
    decreases t, 0
  {
    if t.id == DECIMAL then
      var scale := if t.scale == 0 then rest else Field(201, Number(t.scale, rest));
      Some(if t.width == 0 then scale else Field(200, Number(t.width, scale)))
    else if t.id == ENUM then
      Some(Field(200, Number(|t.labels|, Field(201, Number(|t.labels|, LabelsBefore(t.labels, rest))))))
    else if HasMembers(t.id) then
      match MembersBefore(t.members, depth + 1, rest)
      case None => None
      case Some(members) => Some(Field(200, Number(|t.members|, members)))
    else if |t.members| != 1 then None
    else
      var size := if t.id != ARRAY || t.arraySize == 0 then rest else Field(201, Number(t.arraySize, rest));
      match TypeBefore(t.members[0].kind, depth + 1, size)
      case None => None
      case Some(child) => Some(Field(200, child))
  }

  function LabelsBefore(labels: seq<CString>, rest: bytes): bytes {
    if labels == [] then rest else Text(labels[0], LabelsBefore(labels[1..], rest))
  }

  /** The name and type pairs of a struct or union. */
  function MembersBefore(members: seq<Member>, depth: nat, rest: bytes): Option<bytes>
    decreases members, 0
  {
    if members == [] then Some(rest)
    else match MembersBefore(members[1..], depth, rest)
      case None => None
      case Some(tail) => match TypeBefore(members[0].kind, depth, Field(FIELD_END, tail))
        case None => None
        case Some(kind) => Some(Field(0, Text(members[0].name, Field(1, kind))))
  }

  // ---- reading ----

  /** `ducknng_quack_read_string_dup`: identifiers may not hold a NUL. */
  function ReadIdentifier(s: bytes): (p: Parsed<CString>)
    ensures p.Got? ==> |p.rest| < |s|
  {
    var (text, s1) :- ReadCounted(s);
    if 0 in text || |text| > SIZE_MAX then Bad(Invalid) else Got(text, s1)
  }

  /** `ducknng_quack_read_type_node`. */
  function ReadType(s: bytes, depth: nat): (p: Parsed<Node>)
    ensures p.Got? ==> |p.rest| < |s|
    decreases |s|, 1
  {
    if depth > MAX_NESTING then Bad(Invalid) else ReadTypeFields(s, depth, Bare(0), false, false, false)
  }

  /** Its field loop: the tree so far, whether its id and its type info have been
      seen, and whether that info was present. */
  function ReadTypeFields(s: bytes, depth: nat, t: Node, seenId: bool, seenInfo: bool, present: bool): (p: Parsed<Node>)
    ensures p.Got? ==> |p.rest| < |s|
    decreases |s|, 0
  {
    var (field, s1) :- ReadU16(s);
    if field == FIELD_END then
      if !seenId || (NeedsInfo(t.id) && !(seenInfo && present)) || (!present && !ShapeOk(t)) then Bad(Invalid)
      else Got(t, s1)
    else if field == 100 then
      if seenId then Bad(Invalid) else
      var (v, s2) :- ReadUleb(s1);
      if v > 0x7fff_ffff then Bad(Invalid) else ReadTypeFields(s2, depth, t.(id := v), true, seenInfo, present)
    else if field == 101 then
      if !seenId || seenInfo then Bad(Invalid) else
      var (flag, s2) :- ReadBoolean(s1);
      if !flag then ReadTypeFields(s2, depth, t, seenId, true, false) else
      var (t', s3) :- ReadInfoFields(s2, depth, t, {}, 0);
      ReadTypeFields(s3, depth, t', seenId, true, true)
    else Bad(Invalid)
  }

  /** The fields a type's info must have. */
  function Required(id: int): set<nat> {
    if id == ENUM || id == ARRAY then {100, 200, 201} else if NeedsInfo(id) then {100, 200} else {100}
  }

  /** `ducknng_quack_read_type_info`: the tree so far, the fields seen, and the
      enum size field 200 announced. */
  function ReadInfoFields(s: bytes, depth: nat, t: Node, seen: set<nat>, declared: nat): (p: Parsed<Node>)
    ensures p.Got? ==> |p.rest| < |s|
    decreases |s|, 0
  {
    var (field, s1) :- ReadU16(s);
    if field == FIELD_END then
      if !(Required(t.id) <= seen) || !ShapeOk(t) then Bad(Invalid) else Got(t, s1)
    else if field in seen then Bad(Invalid)
    else if field == 100 then
      var (kind, s2) :- ReadUleb(s1);
      if kind != InfoKind(t.id) then Bad(Invalid) else ReadInfoFields(s2, depth, t, seen + {100}, declared)
    else if field == 101 then
      var (alias, s2) :- ReadCounted(s1);
      ReadInfoFields(s2, depth, t, seen + {101}, declared)
    else if field == 103 then
      var (extension, s2) :- ReadBoolean(s1);
      if extension then Bad(Invalid) else ReadInfoFields(s2, depth, t, seen + {103}, declared)
    else if field == 200 then
      var ((t', n), s2) :- ReadField200(s1, depth, t);
      ReadInfoFields(s2, depth, t', seen + {200}, n)
    else if field == 201 then
      if 200 !in seen then Bad(Invalid) else
      var (t', s2) :- ReadField201(s1, t, declared);
      ReadInfoFields(s2, depth, t', seen + {201}, declared)
    else Bad(Invalid)
  }

  /** Field 200: decimal width, child type, struct members or enum size. */
  function ReadField200(s: bytes, depth: nat, t: Node): (p: Parsed<(Node, nat)>)
    ensures p.Got? ==> |p.rest| < |s|
    decreases |s|, 2
  {
    if t.id == DECIMAL then
      var (v, s1) :- ReadUleb(s);
      if v == 0 || v > 38 then Bad(Invalid) else Got((t.(width := v), 0), s1)
    else if HasOneChild(t.id) then
      var (child, s1) :- ReadType(s, depth + 1);
      Got((t.(members := t.members + [Member([], child)]), 0), s1)
    else if HasMembers(t.id) then
      var (count, s1) :- ReadUleb(s);
      if count > MAX_STRUCT_MEMBERS || count > |s1| then Bad(Invalid) else
      var (members, s2) :- ReadMembers(s1, depth + 1, count);
      Got((t.(members := members), 0), s2)
    else if t.id == ENUM then
      var (v, s1) :- ReadUleb(s);
      if v > MAX_ENUM_VALUES then Bad(Invalid) else Got((t, v), s1)
    else Bad(Invalid)
  }

  /** Field 201: decimal scale, array size or enum labels. */
  function ReadField201(s: bytes, t: Node, declared: nat): (p: Parsed<Node>)
    ensures p.Got? ==> |p.rest| < |s|
  {
    if t.id == DECIMAL then
      var (v, s1) :- ReadUleb(s);
      if v > 38 then Bad(Invalid) else Got(t.(scale := v), s1)
    else if t.id == ARRAY then
      var (v, s1) :- ReadUleb(s);
      if v == 0 || v > 0xffff_ffff then Bad(Invalid) else Got(t.(arraySize := v), s1)
    else if t.id == ENUM then
      var (n, s1) :- ReadUleb(s);
      if n != declared || n > MAX_ENUM_VALUES || n > |s1| then Bad(Invalid) else
      var (labels, s2) :- ReadLabels(s1, n);
      Got(t.(labels := labels), s2)
    else Bad(Invalid)
  }

  function ReadLabels(s: bytes, n: nat): (p: Parsed<seq<CString>>)
    ensures p.Got? ==> |p.rest| <= |s| && |p.value| == n
    decreases n
  {
    if n == 0 then Got([], s) else
    var (first, s1) :- ReadIdentifier(s);
    var (labels, s2) :- ReadLabels(s1, n - 1);
    Got([first] + labels, s2)
  }

  function ReadMembers(s: bytes, depth: nat, n: nat): (p: Parsed<seq<Member>>)
    ensures p.Got? ==> |p.rest| <= |s| && |p.value| == n
    decreases |s|, 1, n
  {
    if n == 0 then Got([], s) else
    var (member, s1) :- ReadPairFields(s, depth, None, None);
    var (members, s2) :- ReadMembers(s1, depth, n - 1);
    Got([member] + members, s2)
  }

  /** `ducknng_quack_read_child_pair`: a name and a type, in either order. */
  function ReadPairFields(s: bytes, depth: nat, name: Option<CString>, kind: Option<Node>): (p: Parsed<Member>)
    ensures p.Got? ==> |p.rest| < |s|
    decreases |s|, 0
  {
    var (field, s1) :- ReadU16(s);
    if field == FIELD_END then
      if kind.None? then Bad(Invalid)
      else Got(Member(if name.None? then [] else name.value, kind.value), s1)
    else if field == 0 then
      if name.Some? then Bad(Invalid) else
      var (text, s2) :- ReadIdentifier(s1);
      ReadPairFields(s2, depth, Some(text), kind)
    else if field == 1 then
      if kind.Some? then Bad(Invalid) else
      var (child, s2) :- ReadType(s1, depth);
      ReadPairFields(s2, depth, name, Some(child))
    else Bad(Invalid)
  }

  // ---- what a well-formed tree is ----

  /** Exactly the trees that survive the wire: nested no deeper than the limit,
      every node of the shape its type id asks for, and carrying nothing that
      its type id does not use. */
  predicate Canonical(t: Node, depth: nat)
    decreases t, 0
  {
    && depth <= MAX_NESTING
    && ShapeOk(t)
    && (t.id != DECIMAL ==> t.width == 0 && t.scale == 0)
    && (t.id != ARRAY ==> t.arraySize == 0)
    && (t.id != ENUM ==> t.labels == [])
    && (HasMembers(t.id) ==> |t.members| <= MAX_STRUCT_MEMBERS)
    && (HasOneChild(t.id) ==> t.members[0].name == [])
    && (!HasMembers(t.id) && !HasOneChild(t.id) ==> t.members == [])
    && CanonicalMembers(t.members, depth + 1)
  }

  predicate CanonicalMembers(members: seq<Member>, depth: nat)
    decreases members, 0
  {
    members == [] || (Canonical(members[0].kind, depth) && CanonicalMembers(members[1..], depth))
  }

  // ---- every accepted payload is well-formed ----

  /** What the info loop keeps: canonical but for the shape check to come. */
  predicate Partial(t: Node, seen: set<nat>, depth: nat) {
    && (t.id != DECIMAL ==> t.width == 0 && t.scale == 0)
    && (t.id != ARRAY ==> t.arraySize == 0)
    && (t.id != ENUM ==> t.labels == [])
    && (200 !in seen ==> t.members == [])
    && (HasMembers(t.id) ==> |t.members| <= MAX_STRUCT_MEMBERS)
    && (HasOneChild(t.id) ==> t.members == [] || t.members[0].name == [])
    && (!HasMembers(t.id) && !HasOneChild(t.id) ==> t.members == [])
    && CanonicalMembers(t.members, depth + 1)
  }

  /** Whatever bytes arrive, a type the reader accepts is canonical. */
  lemma {:induction false} AcceptedTypeIsCanonical(s: bytes, depth: nat)
    requires ReadType(s, depth).Got?
    ensures Canonical(ReadType(s, depth).value, depth)
    decreases |s|, 1
  {
    TypeFieldsSound(s, depth, Bare(0), false, false, false);
  }

  lemma {:induction false} TypeFieldsSound(s: bytes, depth: nat, t: Node, seenId: bool, seenInfo: bool, present: bool)
    requires depth <= MAX_NESTING
    requires if present then Canonical(t, depth) else t == Bare(t.id)
    requires present ==> seenId && seenInfo
    requires ReadTypeFields(s, depth, t, seenId, seenInfo, present).Got?
    ensures Canonical(ReadTypeFields(s, depth, t, seenId, seenInfo, present).value, depth)
    decreases |s|, 0
  {
    var (field, s1) := ReadU16(s).Extract();
    if field == 100 {
      var (v, s2) := ReadUleb(s1).Extract();
      TypeFieldsSound(s2, depth, t.(id := v), true, seenInfo, present);
    } else if field == 101 {
      var (flag, s2) := ReadBoolean(s1).Extract();
      if flag {
        var (t', s3) := ReadInfoFields(s2, depth, t, {}, 0).Extract();
        InfoSound(s2, depth, t, {}, 0);
        TypeFieldsSound(s3, depth, t', seenId, true, true);
      } else {
        TypeFieldsSound(s2, depth, t, seenId, true, false);
      }
    }
  }

  lemma {:induction false} InfoSound(s: bytes, depth: nat, t: Node, seen: set<nat>, declared: nat)
    requires depth <= MAX_NESTING && Partial(t, seen, depth)
    requires ReadInfoFields(s, depth, t, seen, declared).Got?
    ensures Canonical(ReadInfoFields(s, depth, t, seen, declared).value, depth)
    decreases |s|, 0
  {
    var (field, s1) := ReadU16(s).Extract();
    if field == 100 {
      InfoSound(ReadUleb(s1).rest, depth, t, seen + {100}, declared);
    } else if field == 101 {
      InfoSound(ReadCounted(s1).rest, depth, t, seen + {101}, declared);
    } else if field == 103 {
      InfoSound(ReadBoolean(s1).rest, depth, t, seen + {103}, declared);
    } else if field == 200 {
      var ((t', n), s2) := ReadField200(s1, depth, t).Extract();
      Field200Sound(s1, depth, t, seen);
      InfoSound(s2, depth, t', seen + {200}, n);
    } else if field == 201 {
      var (t', s2) := ReadField201(s1, t, declared).Extract();
      InfoSound(s2, depth, t', seen + {201}, declared);
    }
  }

  lemma {:induction false} Field200Sound(s: bytes, depth: nat, t: Node, seen: set<nat>)
    requires Partial(t, seen, depth) && 200 !in seen
    requires ReadField200(s, depth, t).Got?
    ensures Partial(ReadField200(s, depth, t).value.0, seen + {200}, depth)
    decreases |s|, 2
  {
    if HasOneChild(t.id) {
      AcceptedTypeIsCanonical(s, depth + 1);
    } else if HasMembers(t.id) {
      var (count, s1) := ReadUleb(s).Extract();
      MembersSound(s1, depth + 1, count);
    }
  }

  lemma {:induction false} MembersSound(s: bytes, depth: nat, n: nat)
    requires ReadMembers(s, depth, n).Got?
    ensures CanonicalMembers(ReadMembers(s, depth, n).value, depth)
    decreases |s|, 1, n
  {
    if n > 0 {
      var (member, s1) := ReadPairFields(s, depth, None, None).Extract();
      PairSound(s, depth, None, None);
      MembersSound(s1, depth, n - 1);
      var tail := ReadMembers(s1, depth, n - 1).value;
      assert ([member] + tail)[1..] == tail;
    }
  }

  lemma {:induction false} PairSound(s: bytes, depth: nat, name: Option<CString>, kind: Option<Node>)
    requires kind.Some? ==> Canonical(kind.value, depth)
    requires ReadPairFields(s, depth, name, kind).Got?
    ensures Canonical(ReadPairFields(s, depth, name, kind).value.kind, depth)
    decreases |s|, 0
  {
    var (field, s1) := ReadU16(s).Extract();
    if field == 0 {
      var (text, s2) := ReadIdentifier(s1).Extract();
      PairSound(s2, depth, Some(text), kind);
    } else if field == 1 {
      var (child, s2) := ReadType(s1, depth).Extract();
      AcceptedTypeIsCanonical(s1, depth);
      PairSound(s2, depth, name, Some(child));
    }
  }

  // ---- reading undoes writing ----

  lemma FieldRead(id: nat, rest: bytes)
    requires id < 0x1_0000
    ensures ReadU16(Field(id, rest)) == Got(id, rest)
  {
    U16RoundTrip(id, rest);
  }

  lemma NumberRead(v: uint64, rest: bytes)
    ensures ReadUleb(Number(v, rest)) == Got(v, rest)
  {
    UlebRoundTrip(v, rest);
  }

  lemma TextRead(text: CString, rest: bytes)
    ensures ReadIdentifier(Text(text, rest)) == Got(text, rest)
    ensures |Text(text, rest)| > |rest|
  {
    CountedRoundTrip(text, rest);
  }

  /** The end marker of the info loop, once the tree is complete. */
  lemma InfoEnd(t: Node, depth: nat, seen: set<nat>, declared: nat, rest: bytes)
    requires Required(t.id) <= seen && ShapeOk(t)
    ensures ReadInfoFields(Field(FIELD_END, rest), depth, t, seen, declared) == Got(t, rest)
  {
    FieldRead(FIELD_END, rest);
  }

  /** One turn of the info loop at field 200, and one at field 201. */
  lemma InfoStep200(body: bytes, depth: nat, t: Node, seen: set<nat>, declared: nat)
    requires ReadField200(body, depth, t).Got? && 200 !in seen
    ensures var p := ReadField200(body, depth, t);
      ReadInfoFields(Field(200, body), depth, t, seen, declared)
      == ReadInfoFields(p.rest, depth, p.value.0, seen + {200}, p.value.1)
  {
    hide Field, ReadU16, ReadUleb, ReadCounted, ReadBoolean, ReadField200, ReadField201, ShapeOk, Required, InfoKind;
    FieldRead(200, body);
  }

  lemma InfoStep201(body: bytes, depth: nat, t: Node, seen: set<nat>, declared: nat)
    requires ReadField201(body, t, declared).Got? && 200 in seen && 201 !in seen
    ensures var p := ReadField201(body, t, declared);
      ReadInfoFields(Field(201, body), depth, t, seen, declared)
      == ReadInfoFields(p.rest, depth, p.value, seen + {201}, declared)
  {
    hide Field, ReadU16, ReadUleb, ReadCounted, ReadBoolean, ReadField200, ReadField201, ShapeOk, Required, InfoKind;
    FieldRead(201, body);
  }

  lemma {:induction false} LabelsRoundTrip(labels: seq<CString>, rest: bytes)
    ensures ReadLabels(LabelsBefore(labels, rest), |labels|) == Got(labels, rest)
    ensures |LabelsBefore(labels, rest)| >= |labels|
  {
    if labels != [] {
      var first, tail := labels[0], labels[1..];
      assert labels == [first] + tail;
      LabelsRoundTrip(tail, rest);
      assert LabelsBefore(labels, rest) == Text(first, LabelsBefore(tail, rest));
      TextRead(first, LabelsBefore(tail, rest));
    }
  }

  lemma DecimalRoundTrip(t: Node, depth: nat, rest: bytes)
    requires Canonical(t, depth) && t.id == DECIMAL
    ensures InfoBefore(t, depth, Field(FIELD_END, rest)).Some?
    ensures ReadInfoFields(InfoBefore(t, depth, Field(FIELD_END, rest)).value, depth, Bare(t.id), {100}, 0)
      == Got(t, rest)
  {
    var end := Field(FIELD_END, rest);
    var tail := if t.scale == 0 then end else Field(201, Number(t.scale, end));
    assert InfoBefore(t, depth, end) == Some(Field(200, Number(t.width, tail)));
    DecimalWidth(t.width, tail, depth);
    InfoStep200(Number(t.width, tail), depth, Bare(t.id), {100}, 0);
    if t.scale == 0 {
      InfoEnd(t, depth, {100} + {200}, 0, rest);
    } else {
      DecimalScale(t, end);
      InfoStep201(Number(t.scale, end), depth, Bare(t.id).(width := t.width), {100} + {200}, 0);
      InfoEnd(t, depth, {100} + {200} + {201}, 0, rest);
    }
  }

  lemma DecimalWidth(width: uint8, rest: bytes, depth: nat)
    requires 1 <= width <= 38
    ensures ReadField200(Number(width, rest), depth, Bare(DECIMAL)) == Got((Bare(DECIMAL).(width := width), 0), rest)
  {
    NumberRead(width, rest);
  }

  lemma DecimalScale(t: Node, rest: bytes)
    requires t.id == DECIMAL && t == Bare(DECIMAL).(width := t.width, scale := t.scale) && t.scale <= 38
    ensures ReadField201(Number(t.scale, rest), Bare(DECIMAL).(width := t.width), 0) == Got(t, rest)
  {
    NumberRead(t.scale, rest);
  }

  lemma EnumRoundTrip(t: Node, depth: nat, rest: bytes)
    requires Canonical(t, depth) && t.id == ENUM
    ensures InfoBefore(t, depth, Field(FIELD_END, rest)).Some?
    ensures ReadInfoFields(InfoBefore(t, depth, Field(FIELD_END, rest)).value, depth, Bare(t.id), {100}, 0)
      == Got(t, rest)
  {
    var end := Field(FIELD_END, rest);
    var n := |t.labels|;
    var labels := LabelsBefore(t.labels, end);
    var values := Field(201, Number(n, labels));
    assert InfoBefore(t, depth, end) == Some(Field(200, Number(n, values)));
    EnumCount(n, values, depth);
    InfoStep200(Number(n, values), depth, Bare(t.id), {100}, 0);
    LabelsRoundTrip(t.labels, end);
    EnumTail(t, labels, depth, rest);
  }

  lemma EnumTail(t: Node, labels: bytes, depth: nat, rest: bytes)
    requires ShapeOk(t) && t == Bare(ENUM).(labels := t.labels) && |t.labels| <= |labels|
    requires ReadLabels(labels, |t.labels|) == Got(t.labels, Field(FIELD_END, rest))
    ensures ReadInfoFields(Field(201, Number(|t.labels|, labels)), depth, Bare(ENUM), {100} + {200}, |t.labels|)
      == Got(t, rest)
  {
    EnumLabels(t, labels, Field(FIELD_END, rest));
    InfoStep201(Number(|t.labels|, labels), depth, Bare(ENUM), {100} + {200}, |t.labels|);
    InfoEnd(t, depth, {100} + {200} + {201}, |t.labels|, rest);
  }

  lemma EnumCount(n: nat, rest: bytes, depth: nat)
    requires n <= MAX_ENUM_VALUES
    ensures ReadField200(Number(n, rest), depth, Bare(ENUM)) == Got((Bare(ENUM), n), rest)
  {
    hide Number, ReadUleb;
    NumberRead(n, rest);
  }

  lemma EnumLabels(t: Node, labels: bytes, rest: bytes)
    requires t == Bare(ENUM).(labels := t.labels) && |t.labels| <= MAX_ENUM_VALUES && |t.labels| <= |labels|
    requires ReadLabels(labels, |t.labels|) == Got(t.labels, rest)
    ensures ReadField201(Number(|t.labels|, labels), Bare(ENUM), |t.labels|) == Got(t, rest)
  {
    hide Number, ReadUleb, ReadLabels;
    NumberRead(|t.labels|, labels);
  }

  lemma {:induction false} StructRoundTrip(t: Node, depth: nat, rest: bytes)
    requires Canonical(t, depth) && HasMembers(t.id)
    ensures InfoBefore(t, depth, Field(FIELD_END, rest)).Some?
    ensures ReadInfoFields(InfoBefore(t, depth, Field(FIELD_END, rest)).value, depth, Bare(t.id), {100}, 0)
      == Got(t, rest)
    decreases t, 0
  {
    var end := Field(FIELD_END, rest);
    MembersRoundTrip(t.members, depth + 1, end);
    var members := MembersBefore(t.members, depth + 1, end).value;
    assert InfoBefore(t, depth, end) == Some(Field(200, Number(|t.members|, members)));
    StructMembers(t, depth, members, end);
    InfoStep200(Number(|t.members|, members), depth, Bare(t.id), {100}, 0);
    InfoEnd(t, depth, {100} + {200}, 0, rest);
  }

  lemma StructMembers(t: Node, depth: nat, members: bytes, rest: bytes)
    requires HasMembers(t.id) && t == Bare(t.id).(members := t.members)
    requires |t.members| <= MAX_STRUCT_MEMBERS && |t.members| <= |members|
    requires ReadMembers(members, depth + 1, |t.members|) == Got(t.members, rest)
    ensures ReadField200(Number(|t.members|, members), depth, Bare(t.id)) == Got((t, 0), rest)
  {
    hide Number, ReadUleb, ReadMembers;
    NumberRead(|t.members|, members);
  }

  lemma {:induction false} ChildRoundTrip(t: Node, depth: nat, rest: bytes)
    requires Canonical(t, depth) && HasOneChild(t.id)
    ensures InfoBefore(t, depth, Field(FIELD_END, rest)).Some?
    ensures ReadInfoFields(InfoBefore(t, depth, Field(FIELD_END, rest)).value, depth, Bare(t.id), {100}, 0)
      == Got(t, rest)
    decreases t, 0
  {
    var end := Field(FIELD_END, rest);
    hide ReadU16, ReadUleb, ReadInfoFields, Field, Number, ReadType, TypeBefore;
    var tail := if t.id != ARRAY then end else Field(201, Number(t.arraySize, end));
    var child := t.members[0].kind;
    TypeRoundTrip(child, depth + 1, tail);
    assert InfoBefore(t, depth, end) == Some(Field(200, TypeBefore(child, depth + 1, tail).value));
    InfoStep200(TypeBefore(child, depth + 1, tail).value, depth, Bare(t.id), {100}, 0);
    assert t.members == [] + [Member([], child)];
    if t.id != ARRAY {
      InfoEnd(t, depth, {100} + {200}, 0, rest);
    } else {
      ArrayTail(t, depth, rest);
    }
  }

  lemma ArrayTail(t: Node, depth: nat, rest: bytes)
    requires ShapeOk(t) && t.id == ARRAY && t == Bare(ARRAY).(arraySize := t.arraySize, members := t.members)
    ensures ReadInfoFields(Field(201, Number(t.arraySize, Field(FIELD_END, rest))), depth, t.(arraySize := 0),
        {100} + {200}, 0)
         == Got(t, rest)
  {
    var end := Field(FIELD_END, rest);
    NumberRead(t.arraySize, end);
    InfoStep201(Number(t.arraySize, end), depth, t.(arraySize := 0), {100} + {200}, 0);
    InfoEnd(t, depth, {100} + {200} + {201}, 0, rest);
  }

  lemma {:induction false} MembersRoundTrip(members: seq<Member>, depth: nat, rest: bytes)
    requires CanonicalMembers(members, depth)
    ensures MembersBefore(members, depth, rest).Some?
    ensures ReadMembers(MembersBefore(members, depth, rest).value, depth, |members|) == Got(members, rest)
    ensures |MembersBefore(members, depth, rest).value| >= |members|
    decreases members, 0
  {
    hide TypeBefore, ReadType, ReadPairFields, Canonical;
    if members != [] {
      MembersRoundTrip(members[1..], depth, rest);
      var first := members[0];
      var tail := MembersBefore(members[1..], depth, rest).value;
      PairRoundTrip(first, depth, tail);
      assert members == [first] + members[1..];
      assert MembersBefore(members, depth, rest)
          == Some(Field(0, Text(first.name, Field(1, TypeBefore(first.kind, depth, Field(FIELD_END, tail)).value))));
    }
  }

  lemma {:induction false} PairRoundTrip(member: Member, depth: nat, rest: bytes)
    requires Canonical(member.kind, depth)
    ensures TypeBefore(member.kind, depth, Field(FIELD_END, rest)).Some?
    ensures var pair := Field(0,
      Text(member.name, Field(1, TypeBefore(member.kind, depth, Field(FIELD_END, rest)).value)));
      ReadPairFields(pair, depth, None, None) == Got(member, rest)
    decreases member, 0
  {
    var end := Field(FIELD_END, rest);
    TypeRoundTrip(member.kind, depth, end);
    var kind := TypeBefore(member.kind, depth, end).value;
    PairName(member.name, Field(1, kind), depth);
    PairKind(member, kind, end, depth);
    FieldRead(FIELD_END, rest);
  }

  lemma PairName(name: CString, rest: bytes, depth: nat)
    ensures ReadPairFields(Field(0, Text(name, rest)), depth, None, None)
      == ReadPairFields(rest, depth, Some(name), None)
  {
    FieldRead(0, Text(name, rest));
    TextRead(name, rest);
  }

  lemma PairKind(member: Member, kind: bytes, rest: bytes, depth: nat)
    requires ReadType(kind, depth) == Got(member.kind, rest)
    ensures ReadPairFields(Field(1, kind), depth, Some(member.name), None)
         == ReadPairFields(rest, depth, Some(member.name), Some(member.kind))
  {
    FieldRead(1, kind);
  }

  lemma {:induction false} InfoRoundTrip(t: Node, depth: nat, rest: bytes)
    requires Canonical(t, depth) && NeedsInfo(t.id)
    ensures InfoBefore(t, depth, Field(FIELD_END, rest)).Some?
    ensures ReadInfoFields(InfoBefore(t, depth, Field(FIELD_END, rest)).value, depth, Bare(t.id), {100}, 0)
      == Got(t, rest)
    decreases t, 1
  {
    if t.id == DECIMAL {
      DecimalRoundTrip(t, depth, rest);
    } else if t.id == ENUM {
      EnumRoundTrip(t, depth, rest);
    } else if HasMembers(t.id) {
      StructRoundTrip(t, depth, rest);
    } else {
      ChildRoundTrip(t, depth, rest);
    }
  }

  /** A canonical tree can be written, and reading the bytes back gives the same
      tree and leaves what follows it unread. */
  lemma {:induction false} TypeRoundTrip(t: Node, depth: nat, rest: bytes)
    requires Canonical(t, depth)
    ensures TypeBefore(t, depth, rest).Some?
    ensures ReadType(TypeBefore(t, depth, rest).value, depth) == Got(t, rest)
    decreases t, 2
  {
    var end := Field(FIELD_END, rest);
    assert t.id % TWO_64 == t.id;
    if !NeedsInfo(t.id) {
      TypeIdStep(t.id, end, depth);
      TypeEnd(t, depth, false, rest);
    } else {
      InfoRoundTrip(t, depth, end);
      var info := InfoBefore(t, depth, Field(FIELD_END, end)).value;
      TypeFromInfo(t, info, depth, rest);
      assert TypeBefore(t, depth, rest)
          == Some(Field(100, Number(t.id, Field(101, [1] + Field(100, Number(InfoKind(t.id), info))))));
    }
  }

  lemma TypeFromInfo(t: Node, info: bytes, depth: nat, rest: bytes)
    requires t.id >= 0 && NeedsInfo(t.id) && ShapeOk(t) && depth <= MAX_NESTING
    requires ReadInfoFields(info, depth, Bare(t.id), {100}, 0) == Got(t, Field(FIELD_END, rest))
    ensures ReadType(Field(100, Number(t.id, Field(101, [1] + Field(100, Number(InfoKind(t.id), info))))), depth)
      == Got(t, rest)
  {
    TypeInfoStep(t, info, Field(FIELD_END, rest), depth);
    TypeIdStep(t.id, Field(101, [1] + Field(100, Number(InfoKind(t.id), info))), depth);
    TypeEnd(t, depth, true, rest);
  }

  /** The turns of the outer field loop: id, type info, end. */
  lemma TypeIdStep(id: int32, rest: bytes, depth: nat)
    requires id >= 0
    ensures ReadTypeFields(Field(100, Number(id, rest)), depth, Bare(0), false, false, false)
         == ReadTypeFields(rest, depth, Bare(id), true, false, false)
  {
    FieldRead(100, Number(id, rest));
    NumberRead(id, rest);
  }

  lemma TypeInfoStep(t: Node, info: bytes, rest: bytes, depth: nat)
    requires ReadInfoFields(info, depth, Bare(t.id), {100}, 0) == Got(t, rest)
    ensures ReadTypeFields(Field(101, [1] + Field(100, Number(InfoKind(t.id), info))), depth, Bare(t.id),
        true, false, false)
         == ReadTypeFields(rest, depth, t, true, true, true)
  {
    var kind := Field(100, Number(InfoKind(t.id), info));
    InfoKindStep(t.id, info, depth);
    FieldRead(101, [1] + kind);
    assert ([1] + kind)[1..] == kind;
  }

  lemma InfoKindStep(id: int32, info: bytes, depth: nat)
    ensures ReadInfoFields(Field(100, Number(InfoKind(id), info)), depth, Bare(id), {}, 0)
         == ReadInfoFields(info, depth, Bare(id), {100}, 0)
  {
    FieldRead(100, Number(InfoKind(id), info));
    NumberRead(InfoKind(id), info);
    assert {} + {100} == {100};
  }

  lemma TypeEnd(t: Node, depth: nat, present: bool, rest: bytes)
    requires ShapeOk(t) && (NeedsInfo(t.id) ==> present)
    ensures ReadTypeFields(Field(FIELD_END, rest), depth, t, true, present, present) == Got(t, rest)
  {
    FieldRead(FIELD_END, rest);
  }

  /** A tree survives the wire if and only if it is canonical. */
  lemma SurvivesIffCanonical(t: Node, depth: nat, rest: bytes)
    ensures Canonical(t, depth) <==>
      (TypeBefore(t, depth, rest).Some? && ReadType(TypeBefore(t, depth, rest).value, depth) == Got(t, rest))
  {
    if Canonical(t, depth) {
      TypeRoundTrip(t, depth, rest);
    } else if TypeBefore(t, depth, rest).Some? && ReadType(TypeBefore(t, depth, rest).value, depth).Got? {
      AcceptedTypeIsCanonical(TypeBefore(t, depth, rest).value, depth);
    }
  }

  /** Writing an accepted type again gives bytes that mean the same: whatever
      order, padding or aliases the peer used, one writer form stands for it. */
  lemma RewritingNormalises(s: bytes, depth: nat, rest: bytes)
    requires ReadType(s, depth).Got?
    ensures TypeBefore(ReadType(s, depth).value, depth, rest).Some?
    ensures ReadType(TypeBefore(ReadType(s, depth).value, depth, rest).value, depth)
      == Got(ReadType(s, depth).value, rest)
  {
    AcceptedTypeIsCanonical(s, depth);
    TypeRoundTrip(ReadType(s, depth).value, depth, rest);
  }

  /** Distinct canonical trees have distinct encodings, none a prefix of another. */
  lemma EncodingsPrefixFree(t: Node, u: Node, depth: nat, rest: bytes, rest': bytes)
    requires Canonical(t, depth) && Canonical(u, depth)
    requires TypeBefore(t, depth, rest) == TypeBefore(u, depth, rest')
    ensures t == u && rest == rest'
  {
    TypeRoundTrip(t, depth, rest);
    TypeRoundTrip(u, depth, rest');
  }
}
