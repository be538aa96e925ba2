/** Vectors and types that are refused, from their bytes: counts that do not fit the rows,
    masks of the wrong length, unsupported forms, wrong or repeated fields
    (src/ducknng_quack.c, lines 902-1254 and 1576-1803). What the skipper refuses, the
    decoder refuses too. */
module QuackRefusals {
  import opened Leb128
  import opened ByteKernel
  import opened Options
  import opened QuackSpelling
  import opened QuackTypes
  import opened QuackVectors
  import opened Widths

  /** Refused by the skipper, so by the decoder on any slice. */
  lemma RefusedByBoth(t: Node, s: bytes, rows: nat, depth: nat, offset: nat, count: nat, used: nat)
    requires Skip(t, s, rows, depth).Bad?
    ensures Decode(t, s, rows, offset, count, depth, used).Bad?
  {
    hide Skip, Decode;
    if Decode(t, s, rows, offset, count, depth, used).Got? { DecodeSkip(t, s, rows, offset, count, depth, used); }
  }

  // ---- the form of a vector ----

  lemma KindOf(kind: uint64, s: bytes)
    ensures ReadKind([90, 0] + Uleb(kind) + s) == if kind <= 4 then Got(kind, s) else Bad(Invalid)
  {
    hide ReadUleb, Uleb;
    FieldRead(90, Number(kind, s));
    assert Field(90, Number(kind, s)) == [90, 0] + Uleb(kind) + s;
    NumberRead(kind, s);
  }

  /** Form 1 (strings compressed with FSST) and numbers past 4 are unsupported. */
  lemma FormRefused(t: Node, kind: uint64, s: bytes, rows: nat, depth: nat)
    requires kind == 1 || kind > 4
    ensures Skip(t, [90, 0] + Uleb(kind) + s, rows, depth).Bad?
  {
    hide ReadKind, Uleb;
    KindOf(kind, s);
  }

  /** A flat vector without mask, from its body on. */
  lemma FlatSkips(t: Node, body: bytes, rows: nat, depth: nat)
    ensures Skip(t, [100, 0, 0] + body, rows, depth) == if depth > 64 then Bad(Invalid)
      else SkipBody(t, body, rows, depth)
  {
    hide SkipBody, ReadDictionary, ReadSequence;
    assert [100, 0, 0] + body == PrologueBefore(None, body);
    PrologueRoundTrip(None, body);
  }

  /** The flag that says whether a mask follows is 0 or 1. */
  lemma FlagRefused(t: Node, flag: byte, s: bytes, rows: nat, depth: nat)
    requires flag > 1
    ensures Skip(t, [100, 0, flag] + s, rows, depth).Bad?
  {
    hide SkipBody, ReadDictionary, ReadSequence, ReadCounted;
    assert [100, 0, flag] + s == Field(100, [flag] + s);
    FieldRead(100, [flag] + s);
  }

  /** A mask has one bit per row, in whole 64-bit words. */
  lemma MaskLength(t: Node, mask: bytes, body: bytes, rows: nat, depth: nat)
    requires |mask| <= SIZE_MAX && rows <= UINT64_MAX - 63
    requires Skip(t, [100, 0, 1, 101, 0] + Spell(mask, body), rows, depth).Got?
    ensures |mask| == (rows + 63) / 64 * 8
  {
    hide SkipBody, ReadDictionary, ReadSequence, ReadKind, ReadPrologue, Uleb;
    assert [100, 0, 1, 101, 0] + Spell(mask, body) == PrologueBefore(Some(mask), body);
    PrologueRoundTrip(Some(mask), body);
  }

  // ---- bodies ----

  lemma NumberedRead(field: byte, n: uint64, s: bytes)
    ensures Expect([field, 0] + Uleb(n) + s, field) == Got((), Number(n, s)) && ReadUleb(Number(n, s)) == Got(n, s)
  {
    hide Uleb, ReadUleb;
    assert [field, 0] + Uleb(n) + s == Field(field, Number(n, s));
    ExpectField(field, Number(n, s));
    NumberRead(n, s);
  }

  /** Data of the wrong size for the type and the rows. */
  lemma RawLength(t: Node, data: bytes, s: bytes, rows: nat, depth: nat)
    requires !IsVarlen(t.id) && !HasMembers(t.id) && !HasOneChild(t.id) && |data| <= SIZE_MAX
    requires |data| != FixedWidth(t) * rows
    ensures SkipBody(t, [102, 0] + Spell(data, s), rows, depth).Bad?
  {
    hide Uleb, ReadCounted, FixedWidth;
    assert [102, 0] + Spell(data, s) == Field(102, Text(data, s));
    ExpectField(102, Text(data, s));
    TextBytesRead(data, s);
  }

  /** More or fewer strings than rows. */
  lemma StringCount(t: Node, n: uint64, s: bytes, rows: nat, depth: nat)
    requires IsVarlen(t.id) && n != rows
    ensures SkipBody(t, [102, 0] + Uleb(n) + s, rows, depth).Bad?
  {
    hide Uleb, ReadUleb, Expect, ReadStrings;
    NumberedRead(102, n, s);
  }

  /** More or fewer columns than the type has members. */
  lemma ColumnCount(t: Node, n: uint64, s: bytes, rows: nat, depth: nat)
    requires HasMembers(t.id) && n != |t.members|
    ensures SkipBody(t, [103, 0] + Uleb(n) + s, rows, depth).Bad?
  {
    hide Uleb, ReadUleb, Expect, SkipColumns;
    NumberedRead(103, n, s);
  }

  /** A list vector with another number of entries than rows. */
  lemma EntryCount(t: Node, size: uint64, n: uint64, s: bytes, rows: nat, depth: nat)
    requires (t.id == LIST || t.id == MAP) && n != rows
    ensures SkipBody(t, [104, 0] + Uleb(size) + ([105, 0] + Uleb(n) + s), rows, depth).Bad?
  {
    hide Uleb, ReadUleb, Expect, Skip, ReadListEntries;
    NumberedRead(104, size, [105, 0] + Uleb(n) + s);
    NumberedRead(105, n, s);
  }

  /** A list entry that reaches past the child. */
  lemma EntryRange(e: Entry, s: bytes, n: nat, size: nat)
    requires n > 0 && e.offset + e.length > size
    ensures ReadEntries([100, 0] + Uleb(e.offset) + ([101, 0] + Uleb(e.length) + ([255, 255] + s)), n, size).Bad?
  {
    hide Uleb, ReadUleb, Expect;
    NumberedRead(100, e.offset, [101, 0] + Uleb(e.length) + ([255, 255] + s));
    NumberedRead(101, e.length, [255, 255] + s);
    ExpectField(FIELD_END, s);
    EndSpelled(s);
  }

  /** An array vector of another element count than the type's. */
  lemma ArrayCount(t: Node, n: uint64, s: bytes, rows: nat, depth: nat)
    requires t.id == ARRAY && n != t.arraySize
    ensures SkipBody(t, [103, 0] + Uleb(n) + s, rows, depth).Bad?
  {
    hide Uleb, ReadUleb, Expect, Skip;
    NumberedRead(103, n, s);
  }

  // ---- types ----

  /** Type information of another kind than the type's is refused, whatever follows. */
  lemma WrongKind(id: byte, kind: uint64, s: bytes, depth: nat)
    requires id < 128
    requires (id == 21 && kind != 2) || (id in {101, 102} && kind != 4) || (id in {100, 107} && kind != 5)
      || (id == 104 && kind != 6) || (id == 108 && kind != 9)
    ensures ReadType([100, 0, id, 101, 0, 1, 100, 0] + Uleb(kind) + s, depth).Bad?
  {
    hide Uleb, ReadUleb;
    var info := Field(100, Number(kind, s));
    var s1 := Field(101, [1] + info);
    assert [100, 0, id, 101, 0, 1, 100, 0] + Uleb(kind) + s == Field(100, [id] + s1);
    NumbersSpelled(id, s1);
    TypeIdStep(id, s1, depth);
    FieldRead(101, [1] + info);
    assert ([1] + info)[1..] == info;
    InfoKindRefused(id, kind, s, depth);
  }

  lemma InfoKindRefused(id: int32, kind: uint64, s: bytes, depth: nat)
    requires kind != InfoKind(id)
    ensures ReadInfoFields(Field(100, Number(kind, s)), depth, Bare(id), {}, 0).Bad?
  {
    hide ReadUleb;
    FieldRead(100, Number(kind, s));
    NumberRead(kind, s);
  }

  /** So is a type that does not start with its id, or gives it twice. */
  lemma IdFirst(field: nat, s: bytes, depth: nat)
    requires field < 0x1_0000 && field != 100
    ensures ReadType(Field(field, s), depth).Bad?
  {
    FieldRead(field, s);
  }

  lemma IdTwice(id: byte, s: bytes, depth: nat)
    requires id < 128
    ensures ReadType([100, 0, id, 100, 0] + s, depth).Bad?
  {
    hide ReadUleb;
    var s1 := Field(100, s);
    assert [100, 0, id, 100, 0] + s == Field(100, [id] + s1);
    NumbersSpelled(id, s1);
    TypeIdStep(id, s1, depth);
    FieldRead(100, s);
  }

  /** Of a type's information an alias is passed over, whatever it says. */
  lemma AliasPassed(alias: bytes, s: bytes, depth: nat, t: Node, declared: nat)
    requires |alias| <= SIZE_MAX
    ensures ReadInfoFields([101, 0] + Spell(alias, s), depth, t, {100}, declared)
      == ReadInfoFields(s, depth, t, {100, 101}, declared)
  {
    hide Field, Text, ReadU16, ReadUleb, ReadCounted, ReadField200, ReadField201, ShapeOk, InfoKind, Required,
      ReadBoolean;
    AliasBytes(alias, s);
    FieldRead(101, Text(alias, s));
    TextBytesRead(alias, s);
    assert {100} + {101} == {100, 101};
  }

  lemma AliasBytes(alias: bytes, s: bytes)
    ensures [101, 0] + Spell(alias, s) == Field(101, Text(alias, s))
  {
    hide Uleb;
  }

  /** An extension mark is passed over where it is not set; a type that an extension defines is
      refused. */
  lemma MarkPassed(s: bytes, depth: nat, t: Node, declared: nat)
    ensures ReadInfoFields([103, 0, 0] + s, depth, t, {100}, declared)
      == ReadInfoFields(s, depth, t, {100, 103}, declared)
    ensures ReadInfoFields([103, 0, 1] + s, depth, t, {100}, declared).Bad?
  {
    hide ReadU16, ReadUleb, ReadCounted, ReadField200, ReadField201, ShapeOk, InfoKind, Required, ReadBoolean;
    assert {100} + {103} == {100, 103};
    MarkRead(0, s);
    MarkRead(1, s);
  }

  lemma MarkRead(mark: byte, s: bytes)
    requires mark <= 1
    ensures ReadU16([103, 0, mark] + s) == Got(103, [mark] + s) && ReadBoolean([mark] + s) == Got(mark == 1, s)
  {
    assert ([103, 0, mark] + s)[2..] == [mark] + s && ([mark] + s)[1..] == s;
  }

  /** A member may give its type before its name, or no name at all, which is the empty one. */
  lemma MemberOrders(member: Member, depth: nat, rest: bytes)
    requires Canonical(member.kind, depth)
    ensures ReadPairFields([1, 0] + Spelled(member.kind, depth, [0, 0] + Spell(member.name, [255, 255] + rest)),
        depth, None, None) == Got(member, rest)
    ensures ReadPairFields([1, 0] + Spelled(member.kind, depth, [255, 255] + rest), depth, None, None)
      == Got(Member([], member.kind), rest)
  {
    hide ReadType, Canonical, Spelled;
    var end := [255, 255] + rest;
    SpelledRead(member.kind, depth, end);
    TypeThen(member.kind, Spelled(member.kind, depth, end), depth, end);
    PairEnds([], member.kind, depth, rest);
    var named := [0, 0] + Spell(member.name, end);
    SpelledRead(member.kind, depth, named);
    TypeThen(member.kind, Spelled(member.kind, depth, named), depth, named);
    NameThen(member, depth, end);
    PairEnds(member.name, member.kind, depth, rest);
  }

  lemma TypeThen(kind: Node, s: bytes, depth: nat, rest: bytes)
    requires ReadType(s, depth) == Got(kind, rest)
    ensures ReadPairFields([1, 0] + s, depth, None, None) == ReadPairFields(rest, depth, None, Some(kind))
  {
    hide ReadType;
    assert [1, 0] + s == Field(1, s);
    FieldRead(1, s);
  }

  lemma NameThen(member: Member, depth: nat, rest: bytes)
    ensures ReadPairFields([0, 0] + Spell(member.name, rest), depth, None, Some(member.kind))
      == ReadPairFields(rest, depth, Some(member.name), Some(member.kind))
  {
    hide ReadType, Uleb, ReadIdentifier;
    assert [0, 0] + Spell(member.name, rest) == Field(0, Text(member.name, rest));
    FieldRead(0, Text(member.name, rest));
    TextRead(member.name, rest);
  }

  lemma PairEnds(name: CString, kind: Node, depth: nat, rest: bytes)
    ensures ReadPairFields([255, 255] + rest, depth, Some(name), Some(kind)) == Got(Member(name, kind), rest)
    ensures ReadPairFields([255, 255] + rest, depth, None, Some(kind)) == Got(Member([], kind), rest)
  {
    EndSpelled(rest);
    FieldRead(FIELD_END, rest);
  }

  /** A name may not hold a zero byte. */
  lemma NameWithZero(name: bytes, s: bytes)
    requires |name| <= SIZE_MAX && 0 in name
    ensures ReadIdentifier(Spell(name, s)).Bad?
  {
    hide Uleb, ReadCounted;
    assert Spell(name, s) == Text(name, s);
    TextBytesRead(name, s);
  }
}
