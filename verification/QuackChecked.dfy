/** Which payloads pass the check, from their bytes: the schema, each chunk with its markers,
    counts and types, and the row limits (src/ducknng_quack.c, lines 1805-1874 and
    2481-2600). */
module QuackChecked {
  import opened Leb128
  import opened ByteKernel
  import opened Options
  import opened QuackChunks
  import opened QuackPayload
  import opened QuackTypes
  import opened QuackVectors
  import opened Widths

  /** The types are those of the columns. */
  predicate TypesOf(types: seq<Node>, schema: seq<Member>) {
    |types| == |schema| && forall i | 0 <= i < |schema| :: types[i] == schema[i].kind
  }

  lemma {:induction false} TypesIff(s: bytes, schema: seq<Member>)
    ensures var p, q := ReadTypes(s, schema), ReadTypeList(s, |schema|);
      && (p.Got? <==> q.Got? && TypesOf(q.value, schema))
      && (p.Got? ==> p.rest == q.rest)
    decreases |schema|
  {
    hide ReadType;
    if schema != [] && ReadType(s, 0).Got? {
      var (first, s1) := ReadType(s, 0).Extract();
      TypesIff(s1, schema[1..]);
      var others := ReadTypeList(s1, |schema| - 1);
      if others.Got? {
        var types := [first] + others.value;
        assert types[1..] == others.value;
        TypesOfFirst(types, schema);
      }
    }
  }

  lemma TypesOfFirst(types: seq<Node>, schema: seq<Member>)
    requires |types| == |schema| > 0
    ensures TypesOf(types, schema) <==> types[0] == schema[0].kind && TypesOf(types[1..], schema[1..])
  {
    assert forall i | 0 < i < |schema| :: types[i] == types[1..][i - 1] && schema[i] == schema[1..][i - 1];
  }

  /** The list a chunk carries, and where reading goes on after it: there is none where the
      next field is not 101. */
  function ListedTypes(s: bytes, n: nat): Parsed<Option<seq<Node>>> {
    if |s| < 2 then Bad(Truncated)
    else if !(s[0] == 101 && s[1] == 0) then Got(None, s)
    else
      var (count, s1) :- ReadUleb(s[2..]);
      if count != n then Bad(Invalid) else
      var (types, s2) :- ReadTypeList(s1, n);
      Got(Some(types), s2)
  }

  /** The optional list is passed if and only if it is absent, or has as many types as there
      are columns and each is that of its column; reading goes on after it. */
  lemma OptionalTypesIff(s: bytes, schema: seq<Member>)
    ensures var p, q := ReadOptionalTypes(s, schema), ListedTypes(s, |schema|);
      && (p.Got? <==> q.Got? && (q.value.Some? ==> TypesOf(q.value.value, schema)))
      && (p.Got? ==> p.rest == q.rest)
  {
    hide ReadTypes, ReadTypeList, ReadUleb, TypesOf;
    if |s| >= 2 && s[0] == 101 && s[1] == 0 && ReadUleb(s[2..]).Got? {
      TypesIff(ReadUleb(s[2..]).rest, schema);
    }
  }

  /** The list carried by the chunk in the list element at `s`, if it carries one. */
  function CarriedTypes(s: bytes, n: nat): Option<seq<Node>> {
    match ReadWrapperStart(s)
    case Bad(_) => None
    case Got(_, s1) =>
      match ReadChunkRows(s1)
      case Bad(_) => None
      case Got(_, s2) =>
        match ListedTypes(s2, n)
        case Bad(_) => None
        case Got(types, _) => types
  }

  /** Every chunk of the list that carries types carries those of the columns. */
  predicate AllCarry(s: bytes, schema: seq<Member>, n: nat)
    decreases n
  {
    n == 0 ||
    (SkipAt(s, schema, n).Got?
     && (CarriedTypes(s, |schema|).Some? ==> TypesOf(CarriedTypes(s, |schema|).value, schema))
     && AllCarry(SkipAt(s, schema, n).rest, schema, n - 1))
  }

  lemma SkippedCarries(s: bytes, schema: seq<Member>, n: nat)
    requires SkipAt(s, schema, n).Got?
    ensures CarriedTypes(s, |schema|).Some? ==> TypesOf(CarriedTypes(s, |schema|).value, schema)
  {
    hide ReadWrapperStart, ReadChunkRows, ReadOptionalTypes, ListedTypes, TypesOf, SkipColumns, Expect, ReadUleb;
    var s1 := ReadWrapperStart(s).rest;
    OptionalTypesIff(ReadChunkRows(s1).rest, schema);
  }

  lemma {:induction false} SkippedAllCarry(s: bytes, schema: seq<Member>, n: nat, cap: nat, seen: nat)
    requires SkipChunks(s, schema, n, cap, seen).Got?
    ensures AllCarry(s, schema, n)
    decreases n
  {
    hide SkipAt, CarriedTypes, TypesOf;
    if n > 0 {
      SkippedCarries(s, schema, n);
      SkippedAllCarry(SkipAt(s, schema, n).rest, schema, n - 1, cap, seen + SkipAt(s, schema, n).value);
    }
  }

  /** In a payload that passes the check, every chunk with a type list lists exactly the
      schema's types. */
  lemma CheckedTypesMatch(s: bytes, schema: seq<Member>, cap: nat)
    requires ValidateResults(s, schema, cap).Some?
    ensures ReadResultsStart(s).Got?
    ensures ReadResultsStart(s).value.Some? ==>
      AllCarry(ReadResultsStart(s).rest, schema, ReadResultsStart(s).value.value)
  {
    hide AllCarry, SkipChunks, Expect;
    var start := ReadResultsStart(s);
    if start.value.Some? { SkippedAllCarry(start.rest, schema, start.value.value, cap, 0); }
  }

  predicate Starts(s: bytes, prefix: bytes) {
    prefix <= s
  }

  lemma StartsWith(s: bytes, field: nat)
    requires field < 0x1_0000
    ensures Expect(s, field).Got? <==> Starts(s, [field % 256, field / 256])
    ensures Expect(s, field).Got? ==> Expect(s, field).rest == s[2..]
  {
  }

  /** A list element passes if and only if it is: the byte 1, the field 300, the field 100 with
      the row count, an optional list of the schema's types, the field 102 with the column
      count, the columns, an end marker, and another one that only the last element needs. */
  lemma ElementIff(s: bytes, schema: seq<Member>, n: nat)
    ensures SkipAt(s, schema, n).Got? <==>
      && Starts(s, [1, 44, 1, 100, 0]) && ReadUleb(s[5..]).Got?
      && var (rows, s1) := ReadUleb(s[5..]).Extract();
         && ListedTypes(s1, |schema|).Got?
         && var (types, s2) := ListedTypes(s1, |schema|).Extract();
            && (types.Some? ==> TypesOf(types.value, schema))
            && Starts(s2, [102, 0]) && ReadUleb(s2[2..]).Got? && ReadUleb(s2[2..]).value == |schema|
            && SkipColumns(schema, ReadUleb(s2[2..]).rest, rows, 0).Got?
            && var s3 := SkipColumns(schema, ReadUleb(s2[2..]).rest, rows, 0).rest;
               Starts(s3, [255, 255]) && |s3| >= 4 && (n > 1 || Starts(s3[2..], [255, 255]))
    ensures SkipAt(s, schema, n).Got? ==> SkipAt(s, schema, n).value == ReadUleb(s[5..]).value
  {
    hide ReadUleb, ReadOptionalTypes, ListedTypes, SkipColumns, TypesOf, Starts, Expect;
    WrapperIff(s);
    if ReadWrapperStart(s).Got? {
      var s1 := ReadWrapperStart(s).rest;
      RowsIff(s, s1);
      if ReadChunkRows(s1).Got? {
        var (rows, s2) := ReadChunkRows(s1).Extract();
        OptionalTypesIff(s2, schema);
        ColumnsStartIff(s2, schema);
        if ReadColumnsStart(s2, schema).Got? && SkipColumns(schema, ReadColumnsStart(s2, schema).rest, rows, 0).Got? {
          EndsIff(SkipColumns(schema, ReadColumnsStart(s2, schema).rest, rows, 0).rest, n);
        }
      }
    }
  }

  lemma WrapperIff(s: bytes)
    ensures ReadWrapperStart(s).Got? <==> Starts(s, [1, 44, 1])
    ensures ReadWrapperStart(s).Got? ==> ReadWrapperStart(s).rest == s[3..]
    ensures Starts(s, [1, 44, 1, 100, 0]) ==> Starts(s, [1, 44, 1])
  {
  }

  lemma RowsIff(s: bytes, s1: bytes)
    requires Starts(s, [1, 44, 1]) && s1 == s[3..]
    ensures ReadChunkRows(s1).Got? <==> Starts(s, [1, 44, 1, 100, 0]) && ReadUleb(s[5..]).Got?
    ensures ReadChunkRows(s1).Got? ==> ReadChunkRows(s1) == ReadUleb(s[5..])
  {
    hide ReadUleb;
    StartsWith(s1, 100);
    if Starts(s1, [100, 0]) { assert s[5..] == s1[2..]; }
  }

  lemma ColumnsStartIff(s: bytes, schema: seq<Member>)
    ensures ReadColumnsStart(s, schema).Got? <==>
      && ReadOptionalTypes(s, schema).Got? && Starts(ReadOptionalTypes(s, schema).rest, [102, 0])
      && ReadUleb(ReadOptionalTypes(s, schema).rest[2..]).Got?
      && ReadUleb(ReadOptionalTypes(s, schema).rest[2..]).value == |schema|
    ensures ReadColumnsStart(s, schema).Got? ==>
      ReadColumnsStart(s, schema).rest == ReadUleb(ReadOptionalTypes(s, schema).rest[2..]).rest
  {
    hide ReadUleb, ReadOptionalTypes;
    if ReadOptionalTypes(s, schema).Got? { StartsWith(ReadOptionalTypes(s, schema).rest, 102); }
  }

  lemma EndsIff(s: bytes, n: nat)
    ensures Expect(s, FIELD_END).Got? && ReadWrapperEnd(Expect(s, FIELD_END).rest, n > 1).Got? <==>
      Starts(s, [255, 255]) && |s| >= 4 && (n > 1 || Starts(s[2..], [255, 255]))
  {
    StartsWith(s, FIELD_END);
    if Starts(s, [255, 255]) { StartsWith(s[2..], FIELD_END); }
  }

  /** All elements of a list pass, and none has more rows than the limit, if there is one. */
  predicate AllPass(s: bytes, schema: seq<Member>, n: nat, cap: nat)
    decreases n
  {
    n == 0 ||
    (SkipAt(s, schema, n).Got? && (cap == 0 || SkipAt(s, schema, n).value <= cap)
     && AllPass(SkipAt(s, schema, n).rest, schema, n - 1, cap))
  }

  function RowsIn(s: bytes, schema: seq<Member>, n: nat): nat
    decreases n
  {
    if n == 0 || SkipAt(s, schema, n).Bad? then 0
    else SkipAt(s, schema, n).value + RowsIn(SkipAt(s, schema, n).rest, schema, n - 1)
  }

  /** A list passes if and only if all its elements do and their rows can be counted in 64 bits. */
  lemma {:induction false} ListIff(s: bytes, schema: seq<Member>, n: nat, cap: nat, seen: nat)
    requires seen <= 0xffff_ffff_ffff_ffff
    ensures SkipChunks(s, schema, n, cap, seen).Got? <==>
      AllPass(s, schema, n, cap) && seen + RowsIn(s, schema, n) <= 0xffff_ffff_ffff_ffff
    ensures SkipChunks(s, schema, n, cap, seen).Got? ==>
      SkipChunks(s, schema, n, cap, seen).value == seen + RowsIn(s, schema, n)
    decreases n
  {
    hide SkipAt;
    if n > 0 && SkipAt(s, schema, n).Got? {
      var (rows, s1) := SkipAt(s, schema, n).Extract();
      if seen + rows <= UINT64_MAX { ListIff(s1, schema, n - 1, cap, seen + rows); }
    }
  }

  /** A schema is read if and only if it is the field 1 with a count of at most 65536 and that
      many types, and the field 2 with the same count and as many names. */
  lemma SchemaIff(s: bytes)
    ensures ParseSchema(s).Got? <==>
      && Starts(s, [1, 0]) && ReadUleb(s[2..]).Got? && ReadUleb(s[2..]).value <= 65536
      && var (n, s1) := ReadUleb(s[2..]).Extract();
         && ReadTypeList(s1, n).Got?
         && var s2 := ReadTypeList(s1, n).rest;
            && Starts(s2, [2, 0]) && ReadUleb(s2[2..]).Got? && ReadUleb(s2[2..]).value == n
            && ReadLabels(ReadUleb(s2[2..]).rest, n).Got?
    ensures ParseSchema(s).Got? ==>
      && |ParseSchema(s).value| == ReadUleb(s[2..]).value
      && var types := ReadTypeList(ReadUleb(s[2..]).rest, |ParseSchema(s).value|);
         types.Got? && TypesOf(types.value, ParseSchema(s).value)
  {
    hide ReadUleb, ReadTypeList, ReadLabels;
    StartsWith(s, 1);
    if Starts(s, [1, 0]) && ReadUleb(s[2..]).Got? {
      var (n, s1) := ReadUleb(s[2..]).Extract();
      if ReadTypeList(s1, n).Got? { StartsWith(ReadTypeList(s1, n).rest, 2); }
    }
  }

  /** The columns that make a chunk one that cannot be resumed inside. */
  lemma NestedMeans(schema: seq<Member>)
    ensures HasNested(schema) <==> exists i | 0 <= i < |schema| :: schema[i].kind.id in {100, 101, 102, 107, 108}
  {
  }
}
