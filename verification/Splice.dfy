/** Keeping the transport matrix of docs/wasm.md current: the table rendered from the
    extension's capability rows is spliced between two marker comments
    (scripts/generate_wasm_matrix.py). */
module Splice {
  import opened Options
  import opened Strings

  datatype Markers = Markers(opening: string, closing: string)

  const WORDS: string := "GENERATED " + "TRANSPORT " + "MATRIX "

  const MATRIX: Markers := Markers(
    "<" + ("!-- BEGIN " + WORDS + ("(make " + "wasm_matrix) " + "-->")),
    "<" + ("!-- END " + WORDS + "-->"))

  // ---- searching ----

  predicate Occurs(text: string, part: string, i: int) {
    0 <= i && i + |part| <= |text| && text[i..i + |part|] == part
  }

  predicate First(text: string, part: string, i: int) {
    Occurs(text, part, i) && forall k | 0 <= k < i :: !Occurs(text, part, k)
  }

  predicate Contains(text: string, part: string) {
    Find(text, part).Some?
  }

  /** `text.index(part)`, with `None` for the error it raises. */
  function Find(text: string, part: string): (r: Option<nat>)
    ensures r.Some? ==> First(text, part, r.value)
    ensures r.None? ==> forall i | 0 <= i <= |text| :: !Occurs(text, part, i)
  {
    FindFrom(text, part, 0)
  }

  function FindFrom(text: string, part: string, from: nat): (r: Option<nat>)
    requires from <= |text| + 1 && forall k | 0 <= k < from :: !Occurs(text, part, k)
    ensures r.Some? ==> First(text, part, r.value)
    ensures r.None? ==> forall i | 0 <= i <= |text| :: !Occurs(text, part, i)
    decreases |text| + 1 - from
  {
    if from > |text| then None
    else if Occurs(text, part, from) then Some(from)
    else FindFrom(text, part, from + 1)
  }

  lemma FindIs(text: string, part: string, i: nat)
    requires First(text, part, i)
    ensures Find(text, part) == Some(i)
  {
    var r := Find(text, part);
    assert i <= |text| && Occurs(text, part, i);
  }

  // ---- the splice ----

  datatype Outcome = MarkerMissing | Misordered | Spliced(text: string)

  function Splice(m: Markers, text: string, table: string): Outcome {
    match (Find(text, m.opening), Find(text, m.closing))
    case (Some(begin), Some(end)) =>
      if end < begin then Misordered
      else Spliced(text[..begin + |m.opening|] + "\n" + table + "\n" + text[end..])
    case _ => MarkerMissing
  }

  /** What the two markers share with every marker pair the splice is safe for: '<'
      only at the front, no line break, and no common reading. */
  predicate Distinctive(m: Markers) {
    && 0 < |m.closing| <= |m.opening| && m.opening[0] == '<' && m.closing[0] == '<'
    && '<' !in m.opening[1..] && '<' !in m.closing[1..] && '\n' !in m.closing
    && !(m.closing <= m.opening)
  }

  lemma MatrixDistinctive()
    ensures Distinctive(MATRIX)
  {
    WordsPlain();
    var makeRule := "(make " + "wasm_matrix) " + "-->";
    assert '<' !in makeRule;
    Distinct("!-- BEGIN ", "!-- END ", WORDS, makeRule, "-->");
  }

  lemma WordsPlain()
    ensures '<' !in WORDS && '\n' !in WORDS
  {
  }

  lemma Distinct(a: string, b: string, words: string, c: string, d: string)
    requires |a| > 4 && |b| > 4 && a[4] != b[4] && |b| + |d| <= |a| + |c|
    requires '<' !in a && '<' !in b && '<' !in words && '<' !in c && '<' !in d
    requires '\n' !in b && '\n' !in words && '\n' !in d
    ensures Distinctive(Markers("<" + (a + words + c), "<" + (b + words + d)))
  {
    var opening, closing := "<" + (a + words + c), "<" + (b + words + d);
    assert opening[1..] == a + words + c && closing[1..] == b + words + d;
    assert opening[5] == a[4] && closing[5] == b[4];
  }

  /** Reading one character of an occurrence. */
  lemma CharAt(text: string, part: string, i: int, k: int)
    requires Occurs(text, part, i) && i <= k < i + |part|
    ensures text[k] == part[k - i]
  {
    assert text[k] == text[i..i + |part|][k - i];
  }

  /** Occurrences of the two markers never overlap. */
  lemma MarkersApart(m: Markers, text: string, b: int, e: int)
    requires Distinctive(m) && Occurs(text, m.opening, b) && Occurs(text, m.closing, e)
    ensures b + |m.opening| <= e || e + |m.closing| <= b
  {
    if b < e < b + |m.opening| {
      CharAt(text, m.opening, b, e);
      CharAt(text, m.closing, e, e);
    } else if e < b < e + |m.closing| {
      CharAt(text, m.opening, b, b);
      CharAt(text, m.closing, e, b);
    }
  }

  /** The pieces of a spliced text. */
  function Joined(head: string, table: string, tail: string): string {
    head + "\n" + table + "\n" + tail
  }

  /** Inside the spliced text every occurrence lies wholly in one piece, because the
      line breaks around the table belong to no marker. */
  lemma OccursInPiece(head: string, table: string, tail: string, part: string, i: int)
    requires part != [] && '\n' !in part && Occurs(Joined(head, table, tail), part, i)
    ensures Occurs(head, part, i) || Occurs(table, part, i - |head| - 1) || i >= |head| + |table| + 2
  {
    var u := Joined(head, table, tail);
    var h, n := |head|, |head| + 1 + |table|;
    assert u[h] == '\n' && u[n] == '\n';
    if i <= h < i + |part| { CharAt(u, part, i, h); }
    if i <= n < i + |part| { CharAt(u, part, i, n); }
    if i + |part| <= h {
      assert head[i..i + |part|] == u[i..i + |part|];
    } else if h < i && i + |part| <= n {
      assert table[i - h - 1..i - h - 1 + |part|] == u[i..i + |part|];
    }
  }

  lemma OccursStays(head: string, table: string, tail: string, part: string)
    ensures forall i | Occurs(head, part, i) :: Occurs(Joined(head, table, tail), part, i)
    ensures forall i | Occurs(table, part, i) :: Occurs(Joined(head, table, tail), part, |head| + 1 + i)
    ensures part <= tail ==> Occurs(Joined(head, table, tail), part, |head| + |table| + 2)
  {
    var u := Joined(head, table, tail);
    forall i | Occurs(head, part, i) ensures Occurs(u, part, i) {
      assert u[i..i + |part|] == head[i..i + |part|];
    }
    forall i | Occurs(table, part, i) ensures Occurs(u, part, |head| + 1 + i) {
      assert u[|head| + 1 + i..|head| + 1 + i + |part|] == table[i..i + |part|];
    }
    if part <= tail {
      var n := |head| + |table| + 2;
      assert u[n..n + |part|] == tail[..|part|];
    }
  }

  /** The text up to and including the opening marker holds no closing marker. */
  lemma HeadClean(m: Markers, text: string, b: nat, e: nat)
    requires Distinctive(m) && First(text, m.opening, b) && First(text, m.closing, e) && b < e
    ensures var head := text[..b + |m.opening|];
      && First(head, m.opening, b) && b + |m.opening| <= e
      && forall i | 0 <= i <= |head| :: !Occurs(head, m.closing, i)
  {
    MarkersApart(m, text, b, e);
    var head := text[..b + |m.opening|];
    assert head[b..b + |m.opening|] == m.opening;
    forall i, p | Occurs(head, p, i) ensures Occurs(text, p, i) {
      assert text[i..i + |p|] == head[i..i + |p|];
    }
  }

  /** Where a spliced text has its first markers: the opening one where it was, the
      closing one at the old one's text unless the table brought its own. */
  lemma SplicedMarkers(m: Markers, text: string, table: string, b: nat, e: nat)
    requires Distinctive(m) && First(text, m.opening, b) && First(text, m.closing, e) && b < e
    ensures b + |m.opening| <= e
    ensures var head := text[..b + |m.opening|];
      var u := Joined(head, table, text[e..]);
      && Find(u, m.opening) == Some(b)
      && Find(u, m.closing)
        == Some(|head| + 1 + match Find(table, m.closing) case Some(j) => j case None => |table| + 1)
  {
    hide Find, Joined;
    HeadClean(m, text, b, e);
    var head, tail := text[..b + |m.opening|], text[e..];
    var u := Joined(head, table, tail);
    OpeningStays(m, text, table, b, e);
    assert m.closing <= tail by { assert tail[..|m.closing|] == text[e..e + |m.closing|]; }
    OccursStays(head, table, tail, m.closing);
    var at := |head| + 1 + match Find(table, m.closing) case Some(j) => j case None => |table| + 1;
    assert Occurs(u, m.closing, at);
    forall k | 0 <= k < at ensures !Occurs(u, m.closing, k) {
      if Occurs(u, m.closing, k) {
        assert '\n' !in m.closing;
        OccursInPiece(head, table, tail, m.closing, k);
      }
    }
    FindIs(u, m.closing, at);
  }

  lemma OpeningStays(m: Markers, text: string, table: string, b: nat, e: nat)
    requires First(text, m.opening, b) && b + |m.opening| <= e <= |text| && m.opening != []
    ensures var u := Joined(text[..b + |m.opening|], table, text[e..]);
      Find(u, m.opening) == Some(b)
  {
    hide Find;
    var u := Joined(text[..b + |m.opening|], table, text[e..]);
    assert u[b..b + |m.opening|] == text[b..b + |m.opening|];
    forall k | 0 <= k < b ensures !Occurs(u, m.opening, k) {
      assert u[k..k + |m.opening|] == text[k..k + |m.opening|];
      assert !Occurs(text, m.opening, k);
    }
    FindIs(u, m.opening, b);
  }

  // ---- what a run leaves alone, and what a second run does ----

  /** A text the splice accepts. */
  predicate Ready(m: Markers, text: string) {
    Splice(m, text, "").Spliced?
  }

  /** The text up to the end of the first opening marker, and from the first closing one. */
  function Before(m: Markers, text: string): string
    requires Ready(m, text)
  {
    text[..Find(text, m.opening).value + |m.opening|]
  }

  function After(m: Markers, text: string): string
    requires Ready(m, text)
  {
    text[Find(text, m.closing).value..]
  }

  /** What stands between the two markers. */
  function Between(m: Markers, text: string): string
    requires Distinctive(m) && Ready(m, text)
  {
    ReadyApart(m, text);
    text[Find(text, m.opening).value + |m.opening|..Find(text, m.closing).value]
  }

  lemma ReadyApart(m: Markers, text: string)
    requires Distinctive(m) && Ready(m, text)
    ensures Find(text, m.opening).value + |m.opening| <= Find(text, m.closing).value
  {
    MarkersApart(m, text, Find(text, m.opening).value, Find(text, m.closing).value);
  }

  /** What a run writes: the region is replaced, what surrounds it is kept, and the
      region reads back as the table if and only if the table has no closing marker. */
  lemma RegionReplaced(m: Markers, text: string, table: string)
    requires Distinctive(m) && Ready(m, text)
    ensures text == Before(m, text) + Between(m, text) + After(m, text)
    ensures var u := Splice(m, text, table).text;
      && u == Joined(Before(m, text), table, After(m, text)) && Ready(m, u) && Before(m, u) == Before(m, text)
      && (After(m, u) == After(m, text) <==> !Contains(table, m.closing))
      && (Between(m, u) == "\n" + table + "\n" <==> !Contains(table, m.closing))
  {
    hide Find, Distinctive;
    ReadyApart(m, text);
    var b, e := Find(text, m.opening).value, Find(text, m.closing).value;
    OpeningNotEmpty(m);
    SplicedMarkers(m, text, table, b, e);
    var u := Joined(Before(m, text), table, After(m, text));
    assert u == Splice(m, text, table).text;
    PiecesOfJoined(Before(m, text), table, After(m, text));
    assert Before(m, u) == u[..|Before(m, text)|];
  }

  lemma OpeningNotEmpty(m: Markers)
    requires Distinctive(m)
    ensures |m.opening| > 0
  {
  }

  lemma PiecesOfJoined(head: string, table: string, tail: string)
    ensures var u := Joined(head, table, tail);
      && |u| == |head| + |table| + |tail| + 2 && u[..|head|] == head
      && u[|head| + 1 + |table| + 1..] == tail && u[|head|..|head| + 1 + |table| + 1] == "\n" + table + "\n"
  {
  }

  /** The last run wins: what an earlier run spliced in leaves no trace if and only if
      that table had no closing marker in it, whatever table comes next. */
  lemma LastRunWins(m: Markers, text: string, earlier: string, later: string)
    requires Distinctive(m) && Ready(m, text)
    ensures Splice(m, Splice(m, text, earlier).text, later) == Splice(m, text, later)
      <==> !Contains(earlier, m.closing)
  {
    hide Find, Distinctive, Contains, Joined;
    RegionReplaced(m, text, earlier);
    RegionReplaced(m, text, later);
    var u := Splice(m, text, earlier).text;
    RegionReplaced(m, u, later);
    JoinedInjective(Before(m, text), later, After(m, text), After(m, u));
  }

  lemma JoinedInjective(head: string, table: string, tail: string, other: string)
    ensures Joined(head, table, tail) == Joined(head, table, other) <==> tail == other
  {
    PiecesOfJoined(head, table, tail);
    PiecesOfJoined(head, table, other);
  }

  /** A second identical run changes nothing, under the same condition. */
  lemma SecondRunIsCurrent(m: Markers, text: string, table: string)
    requires Distinctive(m) && Ready(m, text)
    ensures var u := Splice(m, text, table).text;
      Splice(m, u, table) == Spliced(u) <==> !Contains(table, m.closing)
  {
    LastRunWins(m, text, table, table);
  }

  // ---- the table ----

  /** One capability row: the eight transport cells, three flags and the TLS owner. */
  datatype Row = Row(target: string, cells: seq<string>, flags: seq<bool>, tlsOwner: string)

  const NAMES: string :=
    "| target " + "| http " + "| https " + "| response " + "stream " + "| inproc " + "| tcp | ipc " + "| tls+tcp "
    + "| ws/wss | " + "real async " + "| timeout " + "| cancel " + "| TLS owner |\n"

  const RULE: string :=
    "| --- | --- | --- | --- " + "| --- | --- | --- | --- " + "| --- | --- | --- | --- | --- |"

  function YesNo(flags: seq<bool>): (cells: seq<string>)
    ensures |cells| == |flags| && forall i | 0 <= i < |cells| :: cells[i] == if flags[i] then "yes" else "no"
  {
    seq(|flags|, i requires 0 <= i < |flags| => if flags[i] then "yes" else "no")
  }

  function RowLine(row: Row): string {
    "| `" + row.target + "` | " + Join(row.cells + YesNo(row.flags) + [row.tlsOwner], " | ") + " |"
  }

  function RowLines(rows: seq<Row>): (lines: seq<string>)
    ensures |lines| == |rows| && forall i | 0 <= i < |rows| :: lines[i] == RowLine(rows[i])
  {
    seq(|rows|, i requires 0 <= i < |rows| => RowLine(rows[i]))
  }

  function Table(rows: seq<Row>): string {
    NAMES + RULE + "\n" + Join(RowLines(rows), "\n")
  }

  method RenderTable(rows: seq<Row>) returns (table: string)
    ensures table == Table(rows)
  {
    var body: seq<string> := [];
    for n := 0 to |rows|
      invariant body == RowLines(rows)[..n]
    {
      var row := rows[n];
      var flags := [];
      for k := 0 to |row.flags|
        invariant flags == YesNo(row.flags)[..k]
      {
        flags := flags + [if row.flags[k] then "yes" else "no"];
      }
      assert flags == YesNo(row.flags);
      body := body + ["| `" + row.target + "` | " + Join(row.cells + flags + [row.tlsOwner], " | ") + " |"];
    }
    assert body == RowLines(rows);
    table := NAMES + RULE + "\n" + Join(body, "\n");
  }

  /** No cell holds the character every marker starts with. */
  predicate Plain(row: Row) {
    '<' !in row.target && '<' !in row.tlsOwner && forall cell <- row.cells :: '<' !in cell
  }

  lemma RowPlain(row: Row)
    requires Plain(row)
    ensures '<' !in RowLine(row)
  {
    var cells := row.cells + YesNo(row.flags) + [row.tlsOwner];
    forall cell <- cells ensures '<' !in cell {
    }
    JoinPlain(cells, " | ", '<');
  }

  lemma NamesPlain()
    ensures '<' !in NAMES
  {
  }

  lemma RulePlain()
    ensures '<' !in RULE
  {
  }

  /** A table of such rows cannot end the region early. */
  lemma TableHasNoMarker(m: Markers, rows: seq<Row>)
    requires Distinctive(m) && forall row <- rows :: Plain(row)
    ensures !Contains(Table(rows), m.closing)
  {
    forall line <- RowLines(rows) ensures '<' !in line {
      var i :| 0 <= i < |rows| && line == RowLine(rows[i]);
      RowPlain(rows[i]);
    }
    NamesPlain();
    RulePlain();
    JoinPlain(RowLines(rows), "\n", '<');
    assert '<' !in Table(rows);
    NoFirstCharacter(Table(rows), m.closing);
  }

  lemma NoFirstCharacter(text: string, part: string)
    requires part != [] && part[0] !in text
    ensures !Contains(text, part)
  {
    forall i | 0 <= i <= |text| ensures !Occurs(text, part, i) {
      if Occurs(text, part, i) { CharAt(text, part, i, i); }
    }
  }

  // ---- one run of the script ----

  datatype Report = MarkersNotFound | Updated(document: string) | AlreadyCurrent

  /** A run on `text`: an error where `index` raises, otherwise what is reported and written. */
  method Run(text: string, rows: seq<Row>) returns (report: Option<Report>)
    ensures match Splice(MATRIX, text, Table(rows))
      case MarkerMissing => report == None
      case Misordered => report == Some(MarkersNotFound)
      case Spliced(u) => report == Some(if u == text then AlreadyCurrent else Updated(u))
  {
    var begin := Find(text, MATRIX.opening);
    if begin.None? { return None; }
    var end := Find(text, MATRIX.closing);
    if end.None? { return None; }
    if end.value < begin.value { return Some(MarkersNotFound); }
    var table := RenderTable(rows);
    var updated := text[..begin.value + |MATRIX.opening|] + "\n" + table + "\n" + text[end.value..];
    if updated != text { return Some(Updated(updated)); }
    return Some(AlreadyCurrent);
  }

  /** Running the script again on what it wrote reports that nothing changed, and what
      stands between the markers is the table. */
  lemma RerunIsCurrent(text: string, rows: seq<Row>)
    requires Ready(MATRIX, text) && forall row <- rows :: Plain(row)
    ensures Distinctive(MATRIX)
    ensures var u := Splice(MATRIX, text, Table(rows)).text;
      && Splice(MATRIX, u, Table(rows)) == Spliced(u)
      && Ready(MATRIX, u) && Between(MATRIX, u) == "\n" + Table(rows) + "\n"
      && Before(MATRIX, u) == Before(MATRIX, text) && After(MATRIX, u) == After(MATRIX, text)
  {
    hide *;
    MatrixDistinctive();
    TableHasNoMarker(MATRIX, rows);
    SecondRunIsCurrent(MATRIX, text, Table(rows));
    RegionReplaced(MATRIX, text, Table(rows));
  }

  // ---- a table that brings the closing marker ----

  lemma ContainsMiddle(before: string, part: string, after: string)
    ensures Contains(before + part + after, part)
  {
    var text := before + part + after;
    assert text[|before|..|before| + |part|] == part;
    assert Occurs(text, part, |before|);
  }

  lemma OwnerInLine(row: Row) returns (before: string, after: string)
    ensures RowLine(row) == before + row.tlsOwner + after
  {
    var cells := row.cells + YesNo(row.flags) + [row.tlsOwner];
    var a, b := PartOfJoin(cells, " | ", |cells| - 1);
    before, after := "| `" + row.target + "` | " + a, b + " |";
  }

  lemma LineInJoin(head: string, lines: seq<string>, i: nat, before: string, marker: string, after: string)
    requires i < |lines| && lines[i] == before + marker + after
    ensures Contains(head + Join(lines, "\n"), marker)
  {
    hide Join, Contains;
    var c, d := PartOfJoin(lines, "\n", i);
    assert head + Join(lines, "\n") == (head + c + before) + marker + (after + d);
    ContainsMiddle(head + c + before, marker, after + d);
  }

  /** A cell that is the closing marker gets into the table as it is. */
  lemma CellInTable(rows: seq<Row>, i: nat)
    requires i < |rows|
    ensures Contains(Table(rows), rows[i].tlsOwner)
  {
    hide Contains, RowLine;
    var before, after := OwnerInLine(rows[i]);
    LineInJoin(NAMES + RULE + "\n", RowLines(rows), i, before, rows[i].tlsOwner, after);
  }

  /** On such a table a rerun does not find its own output current, on any text. */
  lemma CellBreaksRerun(text: string, rows: seq<Row>, i: nat)
    requires Ready(MATRIX, text) && i < |rows| && rows[i].tlsOwner == MATRIX.closing
    ensures var u := Splice(MATRIX, text, Table(rows)).text;
      Splice(MATRIX, u, Table(rows)) != Spliced(u)
  {
    hide *;
    MatrixDistinctive();
    CellInTable(rows, i);
    SecondRunIsCurrent(MATRIX, text, Table(rows));
  }

  /** The smallest document and one row show it. */
  lemma RerunCounterexample()
    ensures var text := MATRIX.opening + MATRIX.closing;
      var rows := [Row("native", ["yes"], [true], MATRIX.closing)];
      && Ready(MATRIX, text)
      && var u := Splice(MATRIX, text, Table(rows)).text; Splice(MATRIX, u, Table(rows)) != Spliced(u)
  {
    hide Find, Table;
    var text := MATRIX.opening + MATRIX.closing;
    TwoMarkersReady(MATRIX);
    CellBreaksRerun(text, [Row("native", ["yes"], [true], MATRIX.closing)], 0);
  }

  lemma TwoMarkersReady(m: Markers)
    ensures Ready(m, m.opening + m.closing)
  {
    hide Find;
    var text := m.opening + m.closing;
    assert text[0..0 + |m.opening|] == m.opening;
    FindIs(text, m.opening, 0);
    assert text[|m.opening|..|m.opening| + |m.closing|] == m.closing;
    assert Occurs(text, m.closing, |m.opening|);
  }
}
