/** The generated function catalog (function_catalog/generate_function_catalog.py):
    grouping the manifest's entries by category, and the two documents rendered from
    the groups. */
module Catalog {
  import opened MarkdownTable
  import opened Strings

  // ---- grouping ----

  datatype Group = Group(category: string, entries: seq<Entry>)

  /** The entries of one category, in their order. */
  function Of(functions: seq<Entry>, category: string): seq<Entry> {
    if functions == [] then []
    else
      var init := Of(functions[..|functions| - 1], category);
      var last := functions[|functions| - 1];
      if last.category == category then init + [last] else init
  }

  /** The categories, in the order they first occur. */
  function Categories(functions: seq<Entry>): seq<string> {
    if functions == [] then []
    else
      var init := Categories(functions[..|functions| - 1]);
      var last := functions[|functions| - 1].category;
      if last in init then init else init + [last]
  }

  /** The stable partition of the entries by category. */
  function Grouped(functions: seq<Entry>): seq<Group> {
    seq(|Categories(functions)|, i requires 0 <= i < |Categories(functions)| =>
      Group(Categories(functions)[i], Of(functions, Categories(functions)[i])))
  }

  lemma GroupedAt(functions: seq<Entry>)
    ensures var groups, names := Grouped(functions), Categories(functions);
      |groups| == |names| && forall i | 0 <= i < |groups| :: groups[i] == Group(names[i], Of(functions, names[i]))
  {
    hide Of, Categories;
  }

  /** The position of a category in an ordered dictionary, or its size. */
  function Position(groups: seq<Group>, category: string): (i: nat)
    ensures i <= |groups| && (i < |groups| ==> groups[i].category == category)
    ensures forall k | 0 <= k < i :: groups[k].category != category
  {
    if groups == [] || groups[0].category == category then 0 else 1 + Position(groups[1..], category)
  }

  /** `setdefault(category, []).append(entry)` on an ordered dictionary. */
  function Append(groups: seq<Group>, e: Entry): seq<Group> {
    var i := Position(groups, e.category);
    if i == |groups| then groups + [Group(e.category, [e])]
    else groups[i := groups[i].(entries := groups[i].entries + [e])]
  }

  /** The grouping loop of both renderers. */
  method GroupByCategory(functions: seq<Entry>) returns (groups: seq<Group>)
    ensures groups == Grouped(functions)
  {
    groups := [];
    for n := 0 to |functions|
      invariant groups == Grouped(functions[..n])
    {
      AppendGroups(functions[..n + 1]);
      assert functions[..n + 1][..n] == functions[..n];
      groups := Append(groups, functions[n]);
    }
    assert functions[..|functions|] == functions;
  }

  lemma {:induction false} CategoriesDistinct(functions: seq<Entry>)
    ensures forall i, j | 0 <= i < j < |Categories(functions)| :: Categories(functions)[i] != Categories(functions)[j]
    ensures forall c :: c in Categories(functions) <==> exists e <- functions :: e.category == c
  {
    if functions != [] {
      var init, last := functions[..|functions| - 1], functions[|functions| - 1];
      CategoriesDistinct(init);
      assert functions == init + [last];
      forall c ensures c in Categories(functions) <==> exists e <- functions :: e.category == c {
        if exists e <- functions :: e.category == c {
          var e :| e in functions && e.category == c;
          assert e in init || e == last;
        }
      }
    }
  }

  lemma {:induction false} OfAbsent(functions: seq<Entry>, category: string)
    requires category !in Categories(functions)
    ensures Of(functions, category) == []
  {
    if functions != [] { OfAbsent(functions[..|functions| - 1], category); }
  }

  lemma OfStep(functions: seq<Entry>, category: string)
    requires functions != []
    ensures var init, e := functions[..|functions| - 1], functions[|functions| - 1];
      Of(functions, category) == if e.category == category then Of(init, category) + [e] else Of(init, category)
  {
  }

  lemma PositionIs(groups: seq<Group>, category: string, k: nat)
    requires k <= |groups| && (k < |groups| ==> groups[k].category == category)
    requires forall i | 0 <= i < k :: groups[i].category != category
    ensures Position(groups, category) == k
  {
    hide Position;
    var i := Position(groups, category);
  }

  lemma CategoriesStep(functions: seq<Entry>)
    requires functions != []
    ensures var init, c := Categories(functions[..|functions| - 1]), functions[|functions| - 1].category;
      Categories(functions) == if c in init then init else init + [c]
  {
  }

  /** One turn of the loop: the groups of a longer list. */
  lemma AppendGroups(functions: seq<Entry>)
    requires functions != []
    ensures Grouped(functions) == Append(Grouped(functions[..|functions| - 1]), functions[|functions| - 1])
  {
    hide Grouped, Of, Position, Categories;
    CategoriesStep(functions);
    GroupedAt(functions);
    GroupedAt(functions[..|functions| - 1]);
    var init, e := functions[..|functions| - 1], functions[|functions| - 1];
    var names := Categories(init);
    CategoriesDistinct(init);
    if e.category in names {
      var k :| 0 <= k < |names| && names[k] == e.category;
      AppendToOld(functions, k);
    } else {
      AppendNew(functions);
    }
  }

  lemma AppendToOld(functions: seq<Entry>, k: nat)
    requires functions != []
    requires var init, e := functions[..|functions| - 1], functions[|functions| - 1];
      && Categories(functions) == Categories(init) && k < |Categories(init)| && Categories(init)[k] == e.category
      && forall i | 0 <= i < |Categories(init)| && i != k :: Categories(init)[i] != e.category
    ensures Grouped(functions) == Append(Grouped(functions[..|functions| - 1]), functions[|functions| - 1])
  {
    hide Grouped, Of, Position, Categories;
    var init, e := functions[..|functions| - 1], functions[|functions| - 1];
    var before, after, names := Grouped(init), Grouped(functions), Categories(init);
    GroupedAt(functions);
    GroupedAt(init);
    assert forall i | 0 <= i < |names| :: before[i].category == names[i];
    PositionIs(before, e.category, k);
    forall i | 0 <= i < |names| ensures after[i] == Append(before, e)[i] {
      OfStep(functions, names[i]);
    }
  }

  lemma AppendNew(functions: seq<Entry>)
    requires functions != []
    requires var init, e := functions[..|functions| - 1], functions[|functions| - 1];
      e.category !in Categories(init) && Categories(functions) == Categories(init) + [e.category]
    ensures Grouped(functions) == Append(Grouped(functions[..|functions| - 1]), functions[|functions| - 1])
  {
    hide Grouped, Of, Position, Categories;
    var init, e := functions[..|functions| - 1], functions[|functions| - 1];
    var before, after, names := Grouped(init), Grouped(functions), Categories(init);
    GroupedAt(functions);
    GroupedAt(init);
    assert forall i | 0 <= i < |names| :: before[i].category == names[i] && names[i] in names;
    PositionIs(before, e.category, |before|);
    forall i | 0 <= i < |names| ensures after[i] == before[i] {
      OfStep(functions, names[i]);
    }
    OfStep(functions, e.category);
    OfAbsent(init, e.category);
    assert Categories(functions)[|names|] == e.category;
    assert after[|names|] == Group(e.category, [e]);
    assert after == before + [Group(e.category, [e])];
  }

  // ---- nothing lost, nothing moved ----

  function InOrder(groups: seq<Group>): seq<Entry> {
    if groups == [] then [] else InOrder(groups[..|groups| - 1]) + groups[|groups| - 1].entries
  }

  lemma {:induction false} InOrderConcat(a: seq<Group>, b: seq<Group>)
    ensures InOrder(a + b) == InOrder(a) + InOrder(b)
  {
    if b == [] {
      assert a + b == a;
    } else {
      assert (a + b)[..|a + b| - 1] == a + b[..|b| - 1];
      InOrderConcat(a, b[..|b| - 1]);
    }
  }

  lemma AppendKeepsEntries(groups: seq<Group>, e: Entry)
    ensures multiset(InOrder(Append(groups, e))) == multiset(InOrder(groups)) + multiset{e}
  {
    hide InOrder, Position;
    var i := Position(groups, e.category);
    if i == |groups| {
      InOrderConcat(groups, [Group(e.category, [e])]);
      InOrderOne(Group(e.category, [e]));
    } else {
      var g := groups[i];
      var g' := g.(entries := g.entries + [e]);
      var before, after := groups[..i], groups[i + 1..];
      InOrderAt(before, g, after);
      InOrderAt(before, g', after);
      assert groups == before + [g] + after;
      assert Append(groups, e) == before + [g'] + after;
    }
  }

  lemma InOrderOne(g: Group)
    ensures InOrder([g]) == g.entries
  {
    assert [g][..0] == [];
  }

  lemma InOrderAt(before: seq<Group>, g: Group, after: seq<Group>)
    ensures InOrder(before + [g] + after) == InOrder(before) + g.entries + InOrder(after)
  {
    InOrderConcat(before + [g], after);
    InOrderConcat(before, [g]);
    InOrderOne(g);
  }

  lemma NothingToGroup()
    ensures Grouped([]) == [] && InOrder([]) == []
  {
  }

  lemma MultisetOfLast(functions: seq<Entry>)
    requires functions != []
    ensures multiset(functions) == multiset(functions[..|functions| - 1]) + multiset{functions[|functions| - 1]}
  {
    assert functions == functions[..|functions| - 1] + [functions[|functions| - 1]];
  }

  /** Grouping keeps every entry, as often as it occurs. */
  lemma {:induction false} GroupingKeepsEntries(functions: seq<Entry>)
    ensures multiset(InOrder(Grouped(functions))) == multiset(functions)
  {
    hide *;
    if functions == [] {
      NothingToGroup();
    } else {
      var init, e := functions[..|functions| - 1], functions[|functions| - 1];
      GroupingKeepsEntries(init);
      AppendGroups(functions);
      AppendKeepsEntries(Grouped(init), e);
      MultisetOfLast(functions);
    }
  }

  /** Groups as grouping makes them: each category once, none empty, entries where they belong. */
  predicate WellGrouped(groups: seq<Group>) {
    && (forall i, j | 0 <= i < j < |groups| :: groups[i].category != groups[j].category)
    && (forall g <- groups :: g.entries != [] && forall e <- g.entries :: e.category == g.category)
  }

  lemma {:induction false} GroupedIsWellGrouped(functions: seq<Entry>)
    ensures WellGrouped(Grouped(functions))
  {
    hide Append;
    if functions != [] {
      hide Grouped, WellGrouped;
      GroupedIsWellGrouped(functions[..|functions| - 1]);
      AppendGroups(functions);
      AppendStaysWellGrouped(Grouped(functions[..|functions| - 1]), functions[|functions| - 1]);
    }
  }

  lemma AppendStaysWellGrouped(groups: seq<Group>, e: Entry)
    requires WellGrouped(groups)
    ensures WellGrouped(Append(groups, e))
  {
    hide Position;
  }

  /** A run of entries of one new category becomes one new group at the end. */
  lemma {:induction false} GroupedRun(a: seq<Entry>, category: string, b: seq<Entry>)
    requires b != [] && forall e <- b :: e.category == category
    requires forall g <- Grouped(a) :: g.category != category
    ensures Grouped(a + b) == Grouped(a) + [Group(category, b)]
    decreases |b|
  {
    hide Grouped, Position;
    var init, e := b[..|b| - 1], b[|b| - 1];
    assert (a + b)[..|a + b| - 1] == a + init && (a + b)[|a + b| - 1] == e;
    AppendGroups(a + b);
    assert e.category == category;
    if init == [] {
      assert a + init == a && b == [e];
      PositionIs(Grouped(a), category, |Grouped(a)|);
    } else {
      GroupedRun(a, category, init);
      PositionIs(Grouped(a) + [Group(category, init)], category, |Grouped(a)|);
      assert init + [e] == b;
    }
  }

  /** Grouping is the inverse of flattening on every list of well-formed groups. */
  lemma {:induction false} GroupingUndoesFlatten(groups: seq<Group>)
    requires WellGrouped(groups)
    ensures Grouped(InOrder(groups)) == groups
  {
    if groups != [] {
      hide Grouped;
      var init, g := groups[..|groups| - 1], groups[|groups| - 1];
      assert forall h <- init :: h in groups;
      GroupingUndoesFlatten(init);
      assert g in groups;
      GroupedRun(InOrder(init), g.category, g.entries);
      assert init + [g] == groups;
    }
  }

  /** So grouping a catalog that is already in group order changes nothing. */
  lemma Regrouping(functions: seq<Entry>)
    ensures Grouped(InOrder(Grouped(functions))) == Grouped(functions)
  {
    GroupedIsWellGrouped(functions);
    GroupingUndoesFlatten(Grouped(functions));
  }

  // ---- the documents ----

  function DataRows(entries: seq<Entry>): (rows: seq<string>)
    ensures |rows| == |entries| && forall i | 0 <= i < |entries| :: rows[i] == DataRow(entries[i])
  {
    seq(|entries|, i requires 0 <= i < |entries| => DataRow(entries[i]))
  }

  const TABLE_HEAD: seq<string> :=
    ["", "| name | kind | " + "arguments | returns " + "| description |", "|---|---|---|---|---|"]

  function Section(g: Group): seq<string> {
    ["## " + g.category] + TABLE_HEAD + DataRows(g.entries) + [""]
  }

  function Sections(groups: seq<Group>): seq<string> {
    if groups == [] then [] else Sections(groups[..|groups| - 1]) + Section(groups[|groups| - 1])
  }

  const TITLE: seq<string> :=
    ["# Function Catalog", "", "This file is generated " + "from `function_catalog" + "/functions.yaml`.", ""]

  function Bullet(e: Entry): string {
    "- `" + e.signature + "`: " + e.description
  }

  function Bullets(entries: seq<Entry>): (lines: seq<string>)
    ensures |lines| == |entries| && forall i | 0 <= i < |entries| :: lines[i] == Bullet(entries[i])
  {
    seq(|entries|, i requires 0 <= i < |entries| => Bullet(entries[i]))
  }

  function Listing(g: Group): seq<string> {
    ["### " + g.category] + Bullets(g.entries) + [""]
  }

  function Listings(groups: seq<Group>): seq<string> {
    if groups == [] then [] else Listings(groups[..|groups| - 1]) + Listing(groups[|groups| - 1])
  }

  /** One section of functions.md, row by row. */
  method AppendSection(lines: seq<string>, g: Group) returns (lines': seq<string>)
    ensures lines' == lines + Section(g)
  {
    hide DataRow;
    lines' := lines + ["## " + g.category] + TABLE_HEAD;
    ghost var headed := lines';
    for k := 0 to |g.entries|
      invariant lines' == headed + DataRows(g.entries)[..k]
    {
      lines' := lines' + [DataRow(g.entries[k])];
    }
    lines' := lines' + [""];
    assert DataRows(g.entries)[..|g.entries|] == DataRows(g.entries);
  }

  /** The lines of functions.md. */
  function MarkdownLines(functions: seq<Entry>): seq<string> {
    TITLE + Sections(Grouped(functions))
  }

  /** The text of functions.md. */
  method RenderMarkdown(functions: seq<Entry>) returns (text: string)
    ensures text == Join(MarkdownLines(functions), "\n")
  {
    hide Grouped, Section;
    var groups := GroupByCategory(functions);
    var lines := TITLE;
    for n := 0 to |groups|
      invariant lines == TITLE + Sections(groups[..n])
    {
      assert groups[..n + 1][..n] == groups[..n];
      lines := AppendSection(lines, groups[n]);
    }
    assert groups[..|groups|] == groups;
    text := Join(lines, "\n");
  }

  /** One category of the extended description, function by function. */
  method AppendListing(lines: seq<string>, g: Group) returns (lines': seq<string>)
    ensures lines' == lines + Listing(g)
  {
    hide Bullet;
    lines' := lines + ["### " + g.category];
    ghost var headed := lines';
    for k := 0 to |g.entries|
      invariant lines' == headed + Bullets(g.entries)[..k]
    {
      lines' := lines' + [Bullet(g.entries[k])];
    }
    lines' := lines' + [""];
    assert Bullets(g.entries)[..|g.entries|] == Bullets(g.entries);
  }

  /** The introduction, each paragraph already split into its lines. */
  function Introduction(paragraphs: seq<seq<string>>): seq<string> {
    if paragraphs == [] then []
    else Introduction(paragraphs[..|paragraphs| - 1]) + paragraphs[|paragraphs| - 1] + [""]
  }

  function Notes(notes: seq<string>): (lines: seq<string>)
    ensures |lines| == |notes| && forall i | 0 <= i < |notes| :: lines[i] == "- " + notes[i]
  {
    seq(|notes|, i requires 0 <= i < |notes| => "- " + notes[i])
  }

  const FUNCTIONS_HEAD: seq<string> := ["Functions included " + "in this extension:", ""]
  const NOTES_HEAD: seq<string> := ["Operational notes:"]

  /** The lines of the extended description. */
  function DescriptionLines(functions: seq<Entry>, paragraphs: seq<seq<string>>, notes: seq<string>): seq<string> {
    Introduction(paragraphs) + FUNCTIONS_HEAD + Listings(Grouped(functions)) + NOTES_HEAD + Notes(notes)
  }

  method BuildExtendedDescription(functions: seq<Entry>, paragraphs: seq<seq<string>>, notes: seq<string>)
    returns (lines: seq<string>)
    ensures lines == DescriptionLines(functions, paragraphs, notes)
  {
    hide Grouped, Listing;
    var groups := GroupByCategory(functions);
    lines := [];
    for n := 0 to |paragraphs|
      invariant lines == Introduction(paragraphs[..n])
    {
      assert paragraphs[..n + 1][..n] == paragraphs[..n];
      lines := lines + paragraphs[n] + [""];
    }
    assert paragraphs[..|paragraphs|] == paragraphs;
    lines := lines + FUNCTIONS_HEAD;
    ghost var start := lines;
    for n := 0 to |groups|
      invariant lines == start + Listings(groups[..n])
    {
      assert groups[..n + 1][..n] == groups[..n];
      lines := AppendListing(lines, groups[n]);
    }
    assert groups[..|groups|] == groups;
    lines := lines + NOTES_HEAD;
    ghost var listed := lines;
    for n := 0 to |notes|
      invariant lines == listed + Notes(notes)[..n]
    {
      lines := lines + ["- " + notes[n]];
    }
    assert Notes(notes)[..|notes|] == Notes(notes);
  }
}
