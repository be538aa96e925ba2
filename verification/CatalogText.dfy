/** The catalog documents as they are written: lines joined into one text, the extended
    description indented into the descriptor (function_catalog/generate_function_catalog.py).
    What a reader of the text finds, and when that is what was meant. */
module CatalogText {
  import opened Catalog
  import opened MarkdownTable
  import opened Options
  import opened Strings

  const INDENT: string := "    "

  function IndentLine(line: string): string {
    if line != "" then INDENT + line else INDENT
  }

  function IndentLines(lines: seq<string>): (indented: seq<string>)
    ensures |indented| == |lines| && forall i | 0 <= i < |lines| :: indented[i] == INDENT + lines[i]
  {
    if lines == [] then [] else
    assert INDENT + "" == INDENT;
    [IndentLine(lines[0])] + IndentLines(lines[1..])
  }

  /** `indent_block` with its default of four blanks. */
  function IndentBlock(lines: seq<string>): string {
    Join(IndentLines(lines), "\n")
  }

  predicate Plain(lines: seq<string>) {
    forall i | 0 <= i < |lines| :: '\n' !in lines[i]
  }

  // ---- readers ----

  /** A category and the lines under it. */
  datatype Block = Block(category: string, lines: seq<string>)

  function FirstBlank(lines: seq<string>): (n: nat)
    ensures n <= |lines| && (n < |lines| ==> lines[n] == "") && forall i | 0 <= i < n :: lines[i] != ""
  {
    if lines == [] || lines[0] == "" then 0 else 1 + FirstBlank(lines[1..])
  }

  /** Blocks from the front, as long as there is a marked heading: `skip` lines of head,
      then lines up to a blank one. */
  function ReadBlocks(lines: seq<string>, mark: string, skip: nat): Option<seq<Block>>
    decreases |lines|
  {
    if lines == [] || !(mark <= lines[0]) then Some([])
    else if |lines| <= skip then None
    else
      var body := lines[1 + skip..];
      var n := FirstBlank(body);
      if n == |body| then None
      else match ReadBlocks(body[n + 1..], mark, skip)
        case None => None
        case Some(blocks) => Some([Block(lines[0][|mark|..], body[..n])] + blocks)
  }

  /** The blocks of functions.md: four lines of title, then sections. */
  function ReadMarkdown(text: string): Option<seq<Block>> {
    var lines := Split(text, '\n');
    if |lines| < |TITLE| then None else ReadBlocks(lines[|TITLE|..], "## ", |TABLE_HEAD|)
  }

  /** The lines of an indented block, up to the first that is not indented. */
  function Unindented(lines: seq<string>): seq<string> {
    if lines == [] || !(INDENT <= lines[0]) then [] else [lines[0][|INDENT|..]] + Unindented(lines[1..])
  }

  /** The categories of an extended description whose introduction has `intro` lines. */
  function ReadDescription(text: string, intro: nat): Option<seq<Block>> {
    var lines := Unindented(Split(text, '\n'));
    if |lines| < intro + |FUNCTIONS_HEAD| then None
    else ReadBlocks(lines[intro + |FUNCTIONS_HEAD|..], "### ", 0)
  }

  // ---- blocks as both documents lay them out ----

  /** A heading, a fixed head, the lines, a blank. */
  function OneBlock(b: Block, mark: string, head: seq<string>): seq<string> {
    [mark + b.category] + head + b.lines + [""]
  }

  function LaidOut(blocks: seq<Block>, mark: string, head: seq<string>): seq<string> {
    if blocks == [] then []
    else LaidOut(blocks[..|blocks| - 1], mark, head) + OneBlock(blocks[|blocks| - 1], mark, head)
  }

  predicate NoBlanks(blocks: seq<Block>) {
    forall b <- blocks :: forall i | 0 <= i < |b.lines| :: b.lines[i] != ""
  }

  lemma ReadOne(b: Block, mark: string, head: seq<string>, rest: seq<string>)
    requires forall i | 0 <= i < |b.lines| :: b.lines[i] != ""
    ensures ReadBlocks(OneBlock(b, mark, head) + rest, mark, |head|)
      == match ReadBlocks(rest, mark, |head|) case None => None case Some(blocks) => Some([b] + blocks)
  {
    hide FirstBlank;
    var lines := OneBlock(b, mark, head) + rest;
    var body := lines[1 + |head|..];
    assert body == b.lines + [""] + rest;
    var n := FirstBlank(body);
    assert body[|b.lines|] == "" && forall i | 0 <= i < |b.lines| :: body[i] == b.lines[i];
    assert n == |b.lines|;
    assert body[..n] == b.lines && body[n + 1..] == rest;
    assert lines[0] == mark + b.category && lines[0][|mark|..] == b.category;
  }

  lemma {:induction false} ReadLaidOut(blocks: seq<Block>, mark: string, head: seq<string>, after: seq<Block>,
                                       rest: seq<string>)
    requires NoBlanks(blocks) && ReadBlocks(rest, mark, |head|) == Some(after)
    ensures ReadBlocks(LaidOut(blocks, mark, head) + rest, mark, |head|) == Some(blocks + after)
    decreases |blocks|
  {
    hide OneBlock, ReadBlocks;
    if blocks == [] {
      assert LaidOut(blocks, mark, head) + rest == rest && blocks + after == after;
    } else {
      var init, b := blocks[..|blocks| - 1], blocks[|blocks| - 1];
      assert b in blocks;
      ReadOne(b, mark, head, rest);
      ReadLaidOut(init, mark, head, [b] + after, OneBlock(b, mark, head) + rest);
      assert LaidOut(blocks, mark, head) + rest == LaidOut(init, mark, head) + (OneBlock(b, mark, head) + rest);
      assert init + ([b] + after) == blocks + after;
    }
  }

  /** What is read from lines without line breaks has none. */
  lemma {:induction false} ReadIsPlain(lines: seq<string>, mark: string, skip: nat)
    requires Plain(lines) && ReadBlocks(lines, mark, skip).Some?
    ensures forall b <- ReadBlocks(lines, mark, skip).value :: '\n' !in b.category && Plain(b.lines)
    decreases |lines|
  {
    if lines != [] && mark <= lines[0] {
      var body := lines[1 + skip..];
      var n := FirstBlank(body);
      ReadIsPlain(body[n + 1..], mark, skip);
    }
  }

  // ---- the blocks of a catalog ----

  function RowBlocks(groups: seq<Group>): seq<Block> {
    if groups == [] then [] else
    var last := groups[|groups| - 1];
    RowBlocks(groups[..|groups| - 1]) + [Block(last.category, DataRows(last.entries))]
  }

  function BulletBlocks(groups: seq<Group>): seq<Block> {
    if groups == [] then [] else
    var last := groups[|groups| - 1];
    BulletBlocks(groups[..|groups| - 1]) + [Block(last.category, Bullets(last.entries))]
  }

  lemma RowNotBlank(e: Entry)
    ensures DataRow(e) != "" && Bullet(e) != ""
  {
  }

  lemma {:induction false} RowBlocksLaidOut(groups: seq<Group>)
    ensures Sections(groups) == LaidOut(RowBlocks(groups), "## ", TABLE_HEAD) && NoBlanks(RowBlocks(groups))
  {
    hide DataRow;
    if groups != [] {
      var init, g := groups[..|groups| - 1], groups[|groups| - 1];
      RowBlocksLaidOut(init);
      var b := Block(g.category, DataRows(g.entries));
      assert RowBlocks(groups)[..|RowBlocks(groups)| - 1] == RowBlocks(init);
      forall i | 0 <= i < |b.lines| ensures b.lines[i] != "" {
        RowNotBlank(g.entries[i]);
      }
    }
  }

  lemma {:induction false} BulletBlocksLaidOut(groups: seq<Group>)
    ensures Listings(groups) == LaidOut(BulletBlocks(groups), "### ", []) && NoBlanks(BulletBlocks(groups))
  {
    hide Bullet;
    if groups != [] {
      var init, g := groups[..|groups| - 1], groups[|groups| - 1];
      BulletBlocksLaidOut(init);
      var b := Block(g.category, Bullets(g.entries));
      assert BulletBlocks(groups)[..|BulletBlocks(groups)| - 1] == BulletBlocks(init);
      forall i | 0 <= i < |b.lines| ensures b.lines[i] != "" {
        RowNotBlank(g.entries[i]);
      }
      assert OneBlock(b, "### ", []) == Listing(g);
    }
  }

  // ---- which texts hold a line break ----

  lemma {:induction false} InGroups(groups: seq<Group>, e: Entry)
    ensures e in InOrder(groups) <==> exists g <- groups :: e in g.entries
  {
    if groups != [] {
      var init, g := groups[..|groups| - 1], groups[|groups| - 1];
      InGroups(init, e);
      assert g in groups && groups == init + [g];
    }
  }

  /** Every function is in its category's group, and nothing else is. */
  lemma FunctionsInGroups(functions: seq<Entry>, e: Entry)
    ensures e in functions <==> exists g <- Grouped(functions) :: e in g.entries
    ensures forall g <- Grouped(functions) | e in g.entries :: g.category == e.category
  {
    hide Grouped, InOrder;
    GroupingKeepsEntries(functions);
    InGroups(Grouped(functions), e);
    GroupedIsWellGrouped(functions);
    assert e in functions <==> e in multiset(functions);
    assert e in InOrder(Grouped(functions)) <==> e in multiset(InOrder(Grouped(functions)));
  }

  predicate CategoriesPlain(functions: seq<Entry>) {
    forall e <- functions :: '\n' !in e.category
  }

  predicate TextsPlain(functions: seq<Entry>) {
    forall e <- functions :: '\n' !in e.category && '\n' !in e.signature && '\n' !in e.description
  }

  /** No category of a group, or nothing a group shows, holds a line break. */
  predicate GroupPlain(g: Group) {
    '\n' !in g.category && forall e <- g.entries :: '\n' !in e.signature && '\n' !in e.description
  }

  lemma PlainGroups(functions: seq<Entry>)
    ensures CategoriesPlain(functions) <==> forall g <- Grouped(functions) :: '\n' !in g.category
    ensures TextsPlain(functions) <==> forall g <- Grouped(functions) :: GroupPlain(g)
  {
    hide Grouped;
    var groups := Grouped(functions);
    GroupedIsWellGrouped(functions);
    forall g <- groups ensures g.entries[0] in functions && g.entries[0].category == g.category {
      FunctionsInGroups(functions, g.entries[0]);
    }
    forall g, e | g in groups && e in g.entries ensures e in functions && e.category == g.category {
      FunctionsInGroups(functions, e);
    }
    forall e <- functions ensures exists g <- groups :: e in g.entries && g.category == e.category {
      FunctionsInGroups(functions, e);
    }
  }

  lemma TitlePlain()
    ensures Plain(TITLE)
  {
  }

  lemma TableHeadPlain()
    ensures Plain(TABLE_HEAD)
  {
  }

  lemma FunctionsHeadPlain()
    ensures Plain(FUNCTIONS_HEAD)
  {
  }

  lemma {:induction false} SectionsPlain(groups: seq<Group>)
    requires forall g <- groups :: '\n' !in g.category
    ensures Plain(Sections(groups))
  {
    hide DataRow;
    if groups != [] {
      var g := groups[|groups| - 1];
      assert g in groups;
      SectionsPlain(groups[..|groups| - 1]);
      TableHeadPlain();
      forall i | 0 <= i < |g.entries| ensures '\n' !in DataRows(g.entries)[i] {
        RowReadsBack(g.entries[i]);
      }
    }
  }

  lemma {:induction false} ListingsPlain(groups: seq<Group>)
    requires forall g <- groups :: GroupPlain(g)
    ensures Plain(Listings(groups))
  {
    if groups != [] {
      var g := groups[|groups| - 1];
      assert g in groups;
      ListingsPlain(groups[..|groups| - 1]);
      forall i | 0 <= i < |g.entries| ensures '\n' !in Bullets(g.entries)[i] {
        assert g.entries[i] in g.entries;
      }
    }
  }

  lemma {:induction false} RowBlockOf(groups: seq<Group>, g: Group)
    requires g in groups
    ensures Block(g.category, DataRows(g.entries)) in RowBlocks(groups)
  {
    if g != groups[|groups| - 1] { RowBlockOf(groups[..|groups| - 1], g); }
  }

  lemma {:induction false} BulletBlockOf(groups: seq<Group>, g: Group)
    requires g in groups
    ensures Block(g.category, Bullets(g.entries)) in BulletBlocks(groups)
  {
    if g != groups[|groups| - 1] { BulletBlockOf(groups[..|groups| - 1], g); }
  }

  // ---- functions.md ----

  /** A reader of the written functions.md finds the categories in first-occurrence order,
      each with one row for every function of it, in order, if and only if no category
      holds a line break. */
  lemma MarkdownReadsBack(functions: seq<Entry>)
    ensures ReadMarkdown(Join(MarkdownLines(functions), "\n")) == Some(RowBlocks(Grouped(functions)))
      <==> CategoriesPlain(functions)
  {
    hide Grouped, ReadBlocks, RowBlocks, Sections, Split, Join;
    var groups, lines := Grouped(functions), MarkdownLines(functions);
    var text := Join(lines, "\n");
    PlainGroups(functions);
    if CategoriesPlain(functions) {
      TitlePlain();
      SectionsPlain(groups);
      SplitJoined(lines, '\n');
      RowBlocksLaidOut(groups);
      NothingToRead("## ", |TABLE_HEAD|);
      ReadLaidOut(RowBlocks(groups), "## ", TABLE_HEAD, [], []);
      assert Sections(groups) + [] == Sections(groups) && RowBlocks(groups) + [] == RowBlocks(groups);
      assert lines[|TITLE|..] == Sections(groups);
    } else {
      var g :| g in groups && '\n' in g.category;
      RowBlockOf(groups, g);
      var split := Split(text, '\n');
      if |split| >= |TITLE| && ReadMarkdown(text).Some? { ReadIsPlain(split[|TITLE|..], "## ", |TABLE_HEAD|); }
    }
  }

  lemma NothingToRead(mark: string, skip: nat)
    ensures ReadBlocks([], mark, skip) == Some([])
  {
  }

  // ---- the extended description ----

  lemma {:induction false} UnindentIndented(lines: seq<string>, rest: seq<string>)
    ensures Unindented(IndentLines(lines) + rest) == lines + Unindented(rest)
  {
    if lines == [] {
      assert IndentLines(lines) + rest == rest;
    } else {
      var all := IndentLines(lines) + rest;
      assert all[0] == INDENT + lines[0] && all[0][|INDENT|..] == lines[0];
      assert all[1..] == IndentLines(lines[1..]) + rest by { IndentTail(lines); }
      UnindentIndented(lines[1..], rest);
    }
  }

  lemma IndentTail(lines: seq<string>)
    requires lines != []
    ensures IndentLines(lines)[1..] == IndentLines(lines[1..])
  {
  }

  lemma IndentConcat(a: seq<string>, b: seq<string>)
    ensures IndentLines(a + b) == IndentLines(a) + IndentLines(b)
  {
    hide IndentLines;
    var whole, parts := IndentLines(a + b), IndentLines(a) + IndentLines(b);
    assert forall i | 0 <= i < |whole| :: whole[i] == parts[i];
  }

  lemma IndentedPlain(lines: seq<string>)
    requires Plain(lines)
    ensures Plain(IndentLines(lines))
  {
    hide IndentLines;
  }

  lemma {:induction false} UnindentedPlain(lines: seq<string>)
    requires Plain(lines)
    ensures Plain(Unindented(lines))
  {
    if lines != [] && INDENT <= lines[0] { UnindentedPlain(lines[1..]); }
  }

  lemma {:induction false} IntroductionPlain(paragraphs: seq<seq<string>>)
    requires forall paragraph <- paragraphs :: Plain(paragraph)
    ensures Plain(Introduction(paragraphs))
  {
    if paragraphs != [] {
      assert paragraphs[|paragraphs| - 1] in paragraphs;
      IntroductionPlain(paragraphs[..|paragraphs| - 1]);
    }
  }

  /** A reader of the description as it stands in the descriptor finds the same categories,
      each with one line for every function, if and only if no category, signature or
      description holds a line break. The paragraphs come from `splitlines`; the notes
      may hold anything. */
  lemma DescriptionReadsBack(functions: seq<Entry>, paragraphs: seq<seq<string>>, notes: seq<string>)
    requires forall paragraph <- paragraphs :: Plain(paragraph)
    ensures ReadDescription(IndentBlock(DescriptionLines(functions, paragraphs, notes)), |Introduction(paragraphs)|)
        == Some(BulletBlocks(Grouped(functions)))
      <==> TextsPlain(functions)
  {
    hide Grouped, ReadBlocks, BulletBlocks, Listings, Split, Join, Unindented, IndentLines, Introduction, Notes;
    var groups, intro := Grouped(functions), |Introduction(paragraphs)|;
    var text := IndentBlock(DescriptionLines(functions, paragraphs, notes));
    PlainGroups(functions);
    if TextsPlain(functions) {
      ReadPlainDescription(functions, paragraphs, notes);
    } else {
      var g :| g in groups && !GroupPlain(g);
      BulletBlockOf(groups, g);
      if '\n' !in g.category { BulletsNotPlain(g); }
      var lines := Unindented(Split(text, '\n'));
      UnindentedPlain(Split(text, '\n'));
      if ReadDescription(text, intro).Some? { ReadIsPlain(lines[intro + |FUNCTIONS_HEAD|..], "### ", 0); }
    }
  }

  lemma BulletsNotPlain(g: Group)
    requires !GroupPlain(g) && '\n' !in g.category
    ensures !Plain(Bullets(g.entries))
  {
    var e :| e in g.entries && ('\n' in e.signature || '\n' in e.description);
    var i :| 0 <= i < |g.entries| && g.entries[i] == e;
    assert '\n' in Bullets(g.entries)[i];
  }

  lemma ReadPlainDescription(functions: seq<Entry>, paragraphs: seq<seq<string>>, notes: seq<string>)
    requires TextsPlain(functions) && forall paragraph <- paragraphs :: Plain(paragraph)
    ensures ReadDescription(IndentBlock(DescriptionLines(functions, paragraphs, notes)), |Introduction(paragraphs)|)
      == Some(BulletBlocks(Grouped(functions)))
  {
    hide Grouped, ReadBlocks, BulletBlocks, Listings, Split, Join, Unindented, IndentLines, Introduction, Notes;
    var groups := Grouped(functions);
    var head := Introduction(paragraphs) + FUNCTIONS_HEAD;
    var lines := head + Listings(groups);
    var rest := NOTES_HEAD + Notes(notes);
    assert DescriptionLines(functions, paragraphs, notes) == lines + rest;
    PlainGroups(functions);
    FunctionsHeadPlain();
    IntroductionPlain(paragraphs);
    ListingsPlain(groups);
    IndentedPlain(lines);
    IndentConcat(lines, rest);
    SplitPrefix(IndentLines(lines), IndentLines(rest), '\n');
    var after := Split(Join(IndentLines(rest), "\n"), '\n');
    UnindentIndented(lines, after);
    var read := lines + Unindented(after);
    NotesEndReading(notes);
    BulletBlocksLaidOut(groups);
    ReadLaidOut(BulletBlocks(groups), "### ", [], [], Unindented(after));
    assert BulletBlocks(groups) + [] == BulletBlocks(groups);
    assert read[|head|..] == Listings(groups) + Unindented(after);
  }

  /** The heading of the notes ends the list of categories, whatever the notes are. */
  lemma NotesEndReading(notes: seq<string>)
    ensures ReadBlocks(Unindented(Split(Join(IndentLines(NOTES_HEAD + Notes(notes)), "\n"), '\n')), "### ", 0)
      == Some([])
  {
    hide Split, Join, IndentLines, Notes;
    var first := INDENT + NOTES_HEAD[0];
    var lines := IndentLines(NOTES_HEAD + Notes(notes));
    assert lines == [first] + lines[1..];
    NotesHeadPlain();
    var split := Split(Join(lines, "\n"), '\n');
    if |lines| == 1 {
      assert lines == [first];
      SplitJoined(lines, '\n');
    } else {
      SplitPrefix([first], lines[1..], '\n');
    }
    assert split[0] == first;
    assert first[|INDENT|..] == NOTES_HEAD[0];
    assert Unindented(split)[0] == NOTES_HEAD[0] && NOTES_HEAD[0][0] == 'O';
  }

  lemma NotesHeadPlain()
    ensures '\n' !in INDENT + NOTES_HEAD[0]
  {
  }

  // ---- a description that looks like a category ----

  /** A function of `f` whose description goes on with the lines of another category. */
  function Lookalike(f: Entry, g: Entry): Entry {
    f.(description := f.description + "\n" + INDENT + "\n" + (INDENT + "### " + g.category) + "\n"
      + (INDENT + Bullet(g)))
  }

  lemma OneGroup(f: Entry)
    ensures Grouped([f]) == [Group(f.category, [f])]
  {
    hide Grouped;
    var groups := [Group(f.category, [f])];
    assert groups[..0] == [] && InOrder(groups) == [f];
    GroupingUndoesFlatten(groups);
  }

  lemma TwoGroups(f: Entry, g: Entry)
    requires f.category != g.category
    ensures Grouped([f, g]) == [Group(f.category, [f]), Group(g.category, [g])]
  {
    hide Grouped;
    var groups := [Group(f.category, [f]), Group(g.category, [g])];
    assert groups == [groups[0]] + [groups[1]];
    InOrderConcat([groups[0]], [groups[1]]);
    InOrderOne(groups[0]);
    InOrderOne(groups[1]);
    assert [f] + [g] == [f, g];
    assert WellGrouped(groups);
    GroupingUndoesFlatten(groups);
  }

  lemma ListingsOfOne(f: Entry)
    ensures Listings([Group(f.category, [f])]) == ["### " + f.category, Bullet(f), ""]
  {
    var g := Group(f.category, [f]);
    assert [g][..0] == [];
  }

  lemma ListingsOfTwo(f: Entry, g: Entry)
    ensures Listings([Group(f.category, [f]), Group(g.category, [g])])
      == ["### " + f.category, Bullet(f), "", "### " + g.category, Bullet(g), ""]
  {
    var groups := [Group(f.category, [f]), Group(g.category, [g])];
    assert groups[..1] == [groups[0]];
    ListingsOfOne(f);
  }

  /** That bullet, indented, is four lines of the text of both. */
  lemma LookalikeBullet(f: Entry, g: Entry)
    ensures INDENT + Bullet(Lookalike(f, g))
      == Join([INDENT + Bullet(f), INDENT, INDENT + ("### " + g.category), INDENT + Bullet(g)], "\n")
  {
    var a, b, c, d := INDENT + Bullet(f), INDENT, INDENT + ("### " + g.category), INDENT + Bullet(g);
    hide Join;
    assert [a, b, c, d] == [a] + [b, c, d] && [b, c, d] == [b] + [c, d] && [c, d] == [c] + [d];
    JoinFirst(a, [b, c, d], "\n");
    JoinFirst(b, [c, d], "\n");
    JoinFirst(c, [d], "\n");
    assert Join([d], "\n") == d by { JoinOne(d); }
    hide Bullet;
    BulletOfLookalike(f, g);
    Regroup(INDENT, Bullet(f), b, c, d);
  }

  lemma Regroup(i: string, x: string, b: string, c: string, d: string)
    ensures i + (x + ("\n" + b + "\n" + c + "\n" + d)) == i + x + "\n" + (b + "\n" + (c + "\n" + d))
  {
  }

  lemma JoinOne(part: string)
    ensures Join([part], "\n") == part
  {
  }

  lemma BulletOfLookalike(f: Entry, g: Entry)
    ensures var b, c, d := INDENT, INDENT + ("### " + g.category), INDENT + Bullet(g);
      Bullet(Lookalike(f, g)) == Bullet(f) + ("\n" + b + "\n" + c + "\n" + d)
  {
    var start := "- `" + f.signature + "`: ";
    var b, c, d := INDENT, INDENT + ("### " + g.category), INDENT + Bullet(g);
    assert INDENT + "### " + g.category == c;
    assert Bullet(Lookalike(f, g)) == start + (f.description + "\n" + b + "\n" + c + "\n" + d);
  }

  /** One function in one category and two functions in two give the same text, so the text
      cannot tell them apart. */
  lemma LookalikeText(f: Entry, g: Entry, paragraphs: seq<seq<string>>, notes: seq<string>)
    requires f.category != g.category
    ensures IndentBlock(DescriptionLines([Lookalike(f, g)], paragraphs, notes))
         == IndentBlock(DescriptionLines([f, g], paragraphs, notes))
    ensures !TextsPlain([Lookalike(f, g)])
  {
    hide Grouped, Listings, Introduction, Notes, Bullet, Join, IndentLines, Lookalike;
    var h := Lookalike(f, g);
    OneGroup(h);
    TwoGroups(f, g);
    LookalikeFields(f, g);
    ListingsOfOne(h);
    ListingsOfTwo(f, g);
    var head := Introduction(paragraphs) + FUNCTIONS_HEAD + ["### " + f.category];
    var tail := [""] + NOTES_HEAD + Notes(notes);
    var honest := [Bullet(f), "", "### " + g.category, Bullet(g)];
    assert DescriptionLines([h], paragraphs, notes) == head + [Bullet(h)] + tail;
    assert DescriptionLines([f, g], paragraphs, notes) == head + honest + tail;
    IndentConcat(head + [Bullet(h)], tail);
    IndentConcat(head, [Bullet(h)]);
    IndentConcat(head + honest, tail);
    IndentConcat(head, honest);
    IndentFour(Bullet(f), "### " + g.category, Bullet(g), Bullet(h));
    LookalikeBullet(f, g);
    JoinNested(IndentLines(head), IndentLines(honest), IndentLines(tail), "\n");
  }

  lemma LookalikeFields(f: Entry, g: Entry)
    ensures Lookalike(f, g).category == f.category && !TextsPlain([Lookalike(f, g)])
  {
    assert Lookalike(f, g) in [Lookalike(f, g)];
    assert Lookalike(f, g).description[|f.description|] == '\n';
  }

  lemma IndentFour(a: string, c: string, d: string, h: string)
    ensures IndentLines([a, "", c, d]) == [INDENT + a, INDENT, INDENT + c, INDENT + d]
      && IndentLines([h]) == [INDENT + h]
  {
    hide IndentLines;
    assert INDENT + "" == INDENT;
  }
}
