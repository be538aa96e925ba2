/** Reading the extension metadata in description.yml: a flat subset of YAML with
    `key: value` lines, and `key:` lines followed by indented `- item` lines
    (load_root_description in function_catalog/generate_function_catalog.py). */
module Metadata {
  import opened Options

  datatype Result<T> = Ok(value: T) | Err(problem: Problem)
  datatype Problem = BadIndentation | BadItem | BadLine | BadKey | NoVersion | NoDescription

  // ---- Python's string operations ----

  /** The characters `str.strip` removes. */
  predicate Blank(c: char) {
    var u := c as int;
    || 9 <= u <= 13 || 28 <= u <= 32 || u == 0x85 || u == 0xA0 || u == 0x1680 || 0x2000 <= u <= 0x200A
    || u == 0x2028 || u == 0x2029 || u == 0x202F || u == 0x205F || u == 0x3000
  }

  function StripLeft(s: string): (r: string)
    ensures r == "" || !Blank(r[0])
  {
    if s != "" && Blank(s[0]) then StripLeft(s[1..]) else s
  }

  function StripRight(s: string): (r: string)
    ensures r <= s && (r == "" || !Blank(r[|r| - 1]))
  {
    if s != "" && Blank(s[|s| - 1]) then StripRight(s[..|s| - 1]) else s
  }

  function Strip(s: string): (r: string)
    ensures Trimmed(r)
  {
    StripRight(StripLeft(s))
  }

  predicate Trimmed(s: string) {
    s != "" ==> !Blank(s[0]) && !Blank(s[|s| - 1])
  }

  /** The index of the first colon, or the length when there is none. */
  function Colon(s: string): (i: nat)
    ensures i <= |s| && ':' !in s[..i] && (i < |s| ==> s[i] == ':')
  {
    if s == "" || s[0] == ':' then 0 else
    var i := 1 + Colon(s[1..]);
    assert s[..i] == [s[0]] + s[1..][..i - 1];
    i
  }

  // ---- the parser, on values ----

  datatype Entry = Text(text: string) | Items(items: seq<string>)

  /** What has been read, and the key whose list is still open. */
  datatype State = State(entries: map<string, Entry>, open: Option<string>)

  const EMPTY: State := State(map[], None)

  /** Blank lines and comments. */
  predicate Noise(line: string) {
    var s := Strip(line);
    s == "" || s[0] == '#'
  }

  predicate Indented(line: string) {
    line != "" && (line[0] == ' ' || line[0] == '\t')
  }

  function AppendItem(s: State, item: string): Result<State> {
    if s.open.None? || s.open.value !in s.entries || s.entries[s.open.value].Text? then Err(BadIndentation)
    else if !("- " <= item) then Err(BadItem)
    else
      var key := s.open.value;
      Ok(s.(entries := s.entries[key := Items(s.entries[key].items + [Strip(item[2..])])]))
  }

  function ReadPair(s: State, line: string): Result<State> {
    var i := Colon(line);
    if i == |line| then Err(BadLine) else
    var key, value := Strip(line[..i]), Strip(line[i + 1..]);
    if key == "" then Err(BadKey)
    else if value != "" then Ok(State(s.entries[key := Text(value)], None))
    else Ok(State(s.entries[key := Items([])], Some(key)))
  }

  function Step(s: State, line: string): Result<State> {
    if Noise(line) then Ok(s)
    else if Indented(line) then AppendItem(s, Strip(line))
    else ReadPair(s, line)
  }

  function Run(s: State, lines: seq<string>): Result<State>
    decreases |lines|
  {
    if lines == [] then Ok(s) else
    match Step(s, lines[0])
    case Ok(t) => Run(t, lines[1..])
    case Err(p) => Err(p)
  }

  predicate HasText(m: map<string, Entry>, key: string) {
    key in m && m[key].Text? && m[key].text != ""
  }

  function Finish(m: map<string, Entry>): Result<map<string, Entry>> {
    if !HasText(m, "version") then Err(NoVersion)
    else if !HasText(m, "description") then Err(NoDescription)
    else Ok(m)
  }

  function Parse(lines: seq<string>): Result<map<string, Entry>> {
    match Run(EMPTY, lines)
    case Ok(s) => Finish(s.entries)
    case Err(p) => Err(p)
  }

  // ---- the parser, on the heap ----

  /** A Python list of strings. */
  class StringList {
    var items: seq<string>

    constructor ()
      ensures items == []
    {
      items := [];
    }
  }

  datatype Value = Scalar(text: string) | Listed(list: StringList)

  datatype Loaded = Failed(problem: Problem) | Loaded(metadata: map<string, Value>)

  ghost function Lists(m: map<string, Value>): set<StringList> {
    set key | key in m && m[key].Listed? :: m[key].list
  }

  ghost function View(v: Value): Entry
    reads if v.Listed? then {v.list} else {}
  {
    match v
    case Scalar(text) => Text(text)
    case Listed(list) => Items(list.items)
  }

  ghost function Snapshot(m: map<string, Value>): map<string, Entry>
    reads Lists(m)
  {
    map key | key in m :: View(m[key])
  }

  /** No two keys share a list. */
  ghost predicate Separate(m: map<string, Value>) {
    forall a, b | a in m && b in m && a != b && m[a].Listed? && m[b].Listed? :: m[a].list != m[b].list
  }

  /** The open list is the very object stored under the open key. */
  ghost predicate Aliased(m: map<string, Value>, open: Option<string>, list: StringList?) {
    match open
    case None => list == null
    case Some(key) => list != null && key in m && m[key] == Listed(list)
  }

  /** An indented line: appends to the open list, and so to its entry only. */
  method AppendLine(m: map<string, Value>, open: Option<string>, list: StringList?, item: string)
    returns (problem: Option<Problem>)
    requires Separate(m) && Aliased(m, open, list)
    modifies if list == null then {} else {list}
    ensures var r := AppendItem(State(old(Snapshot(m)), open), item);
      match problem
      case Some(p) => r == Err(p) && Snapshot(m) == old(Snapshot(m))
      case None => r == Ok(State(Snapshot(m), open))
  {
    hide Strip;
    if open.None? || list == null { return Some(BadIndentation); }
    if !("- " <= item) { return Some(BadItem); }
    list.items := list.items + [Strip(item[2..])];
    problem := None;
    ghost var key := open.value;
    assert Snapshot(m) == old(Snapshot(m))[key := Items(list.items)];
  }

  /** A `key: value` or `key:` line: replaces one entry, and opens its list when there is no value. */
  method PairLine(m: map<string, Value>, ghost before: Option<string>, line: string)
    returns (problem: Option<Problem>, m': map<string, Value>, open: Option<string>, list: StringList?)
    requires Separate(m)
    ensures Separate(m') && Aliased(m', open, list) && fresh(Lists(m') - Lists(m))
    ensures ReadPair(State(Snapshot(m), before), line)
      == match problem case Some(p) => Err(p) case None => Ok(State(Snapshot(m'), open))
  {
    hide Strip, Colon;
    m', open, list := m, None, null;
    var i := Colon(line);
    if i == |line| { return Some(BadLine), m', open, list; }
    var key, value := Strip(line[..i]), Strip(line[i + 1..]);
    if key == "" { return Some(BadKey), m', open, list; }
    problem := None;
    if value != "" {
      m' := m[key := Scalar(value)];
      assert Snapshot(m') == Snapshot(m)[key := Text(value)];
    } else {
      list := new StringList();
      m', open := m[key := Listed(list)], Some(key);
      assert Snapshot(m') == Snapshot(m)[key := Items([])];
    }
  }

  /** load_root_description: the lists it hands out are its own, no two keys share
      one, and their contents are what the parser on values gives. */
  method LoadRootDescription(lines: seq<string>) returns (r: Loaded)
    ensures match Parse(lines)
      case Err(p) => r == Failed(p)
      case Ok(m) => r.Loaded? && Separate(r.metadata) && fresh(Lists(r.metadata)) && Snapshot(r.metadata) == m
  {
    hide Strip, AppendItem, ReadPair;
    var metadata: map<string, Value> := map[];
    var open: Option<string>, list: StringList? := None, null;
    for n := 0 to |lines|
      invariant Separate(metadata) && Aliased(metadata, open, list) && fresh(Lists(metadata))
      invariant Run(State(Snapshot(metadata), open), lines[n..]) == Run(EMPTY, lines)
    {
      var line := lines[n];
      assert lines[n..][0] == line && lines[n..][1..] == lines[n + 1..];
      var stripped := Strip(line);
      if stripped == "" || stripped[0] == '#' { continue; }
      if Indented(line) {
        assert list != null ==> list in Lists(metadata);
        var problem := AppendLine(metadata, open, list, stripped);
        if problem.Some? { return Failed(problem.value); }
      } else {
        var problem, m', open', list' := PairLine(metadata, open, line);
        if problem.Some? { return Failed(problem.value); }
        metadata, open, list := m', open', list';
      }
    }
    ghost var entries := Snapshot(metadata);
    if !("version" in metadata && metadata["version"].Scalar? && metadata["version"].text != "") {
      return Failed(NoVersion);
    }
    if !("description" in metadata && metadata["description"].Scalar? && metadata["description"].text != "") {
      return Failed(NoDescription);
    }
    r := Loaded(metadata);
  }

  // ---- blank lines and comments ----

  function Significant(lines: seq<string>): seq<string> {
    if lines == [] then []
    else if Noise(lines[0]) then Significant(lines[1..])
    else [lines[0]] + Significant(lines[1..])
  }

  /** Blank lines and comments change nothing from any state, the middle of a list included. */
  lemma {:induction false} RunIgnoresNoise(s: State, lines: seq<string>)
    ensures Run(s, lines) == Run(s, Significant(lines))
    decreases |lines|
  {
    hide Noise, AppendItem, ReadPair;
    if lines != [] {
      if Noise(lines[0]) {
        RunIgnoresNoise(s, lines[1..]);
      } else {
        var kept := Significant(lines);
        assert kept[1..] == Significant(lines[1..]);
        if Step(s, lines[0]).Ok? { RunIgnoresNoise(Step(s, lines[0]).value, lines[1..]); }
      }
    }
  }

  /** Two files with the same significant lines give the same metadata, or fail alike. */
  lemma NoiseIgnored(a: seq<string>, b: seq<string>)
    requires Significant(a) == Significant(b)
    ensures Parse(a) == Parse(b)
  {
    RunIgnoresNoise(EMPTY, a);
    RunIgnoresNoise(EMPTY, b);
  }

  lemma {:induction false} SignificantConcat(a: seq<string>, b: seq<string>)
    ensures Significant(a + b) == Significant(a) + Significant(b)
  {
    hide Noise;
    if a == [] {
      assert a + b == b;
    } else {
      SignificantConcat(a[1..], b);
      assert (a + b)[1..] == a[1..] + b;
    }
  }

  lemma {:induction false} AllNoise(lines: seq<string>)
    requires forall line <- lines :: Noise(line)
    ensures Significant(lines) == []
  {
    hide Noise;
    if lines != [] { AllNoise(lines[1..]); }
  }

  /** Inserting noise at any point changes neither the metadata nor the failure. */
  lemma InsertNoise(before: seq<string>, noise: seq<string>, after: seq<string>)
    requires forall line <- noise :: Noise(line)
    ensures Parse(before + noise + after) == Parse(before + after)
  {
    hide *;
    AllNoise(noise);
    SignificantConcat(before + noise, after);
    SignificantConcat(before, noise);
    SignificantConcat(before, after);
    assert Significant(before) + [] == Significant(before);
    NoiseIgnored(before + noise + after, before + after);
  }

  // ---- what can come out ----

  predicate GoodKey(key: string) {
    key != "" && Trimmed(key) && ':' !in key && key[0] != '#'
  }

  predicate GoodText(text: string) {
    text != "" && Trimmed(text)
  }

  predicate GoodEntry(e: Entry) {
    match e
    case Text(text) => GoodText(text)
    case Items(items) => forall item <- items :: GoodText(item)
  }

  predicate GoodEntries(m: map<string, Entry>) {
    forall key <- m :: GoodKey(key) && GoodEntry(m[key])
  }

  predicate GoodMetadata(m: map<string, Entry>) {
    GoodEntries(m) && HasText(m, "version") && HasText(m, "description")
  }

  lemma {:induction false} StripLeftAppend(a: string, b: string)
    requires StripLeft(a) != ""
    ensures StripLeft(a + b) == StripLeft(a) + b
  {
    hide Blank;
    if Blank(a[0]) {
      StripLeftAppend(a[1..], b);
      assert (a + b)[1..] == a[1..] + b;
    }
  }

  lemma {:induction false} StripRightKeepsFirst(s: string)
    requires s != "" && !Blank(s[0])
    ensures StripRight(s) != "" && StripRight(s)[0] == s[0]
  {
    hide Blank;
    if Blank(s[|s| - 1]) { StripRightKeepsFirst(s[..|s| - 1]); }
  }

  /** The first character that is not blank survives stripping. */
  lemma StripFirst(a: string, b: string)
    requires Strip(a) != ""
    ensures Strip(a + b) != "" && Strip(a + b)[0] == Strip(a)[0]
  {
    hide Blank, StripRight, StripLeft;
    StripLeftAppend(a, b);
    StripRightKeepsFirst(StripLeft(a));
    StripRightKeepsFirst(StripLeft(a + b));
  }

  lemma {:induction false} StripLeftSubset(s: string, c: char)
    requires c !in s
    ensures c !in StripLeft(s)
  {
    hide Blank;
    if s != "" && Blank(s[0]) { StripLeftSubset(s[1..], c); }
  }

  lemma StripSubset(s: string, c: char)
    requires c !in s
    ensures c !in Strip(s)
  {
    hide Blank, StripLeft;
    StripLeftSubset(s, c);
  }

  /** A key's first character is its line's, so a line that is no comment has a good key. */
  lemma KeyGood(line: string, i: nat)
    requires !Noise(line) && i <= |line| && ':' !in line[..i] && Strip(line[..i]) != ""
    ensures GoodKey(Strip(line[..i]))
  {
    hide Blank, StripLeft, StripRight;
    StripSubset(line[..i], ':');
    StripFirst(line[..i], line[i..]);
    assert line[..i] + line[i..] == line;
  }

  lemma PairGood(s: State, line: string)
    requires !Noise(line) && GoodEntries(s.entries) && ReadPair(s, line).Ok?
    ensures GoodEntries(ReadPair(s, line).value.entries)
  {
    hide Strip, Colon, Trimmed, Noise, GoodKey;
    KeyGood(line, Colon(line));
  }

  /** An item that starts with a dash and a blank goes on to something else. */
  lemma ItemGood(item: string)
    requires Trimmed(item) && "- " <= item
    ensures GoodText(Strip(item[2..]))
  {
    assert Blank(item[1]);
    StripSomething(item[2..]);
  }

  lemma {:induction false} StripSomething(s: string)
    requires s != "" && !Blank(s[|s| - 1])
    ensures Strip(s) != ""
  {
    hide Blank, StripRight;
    StripLeftSomething(s);
    StripRightKeepsFirst(StripLeft(s));
  }

  lemma {:induction false} StripLeftSomething(s: string)
    requires s != "" && !Blank(s[|s| - 1])
    ensures StripLeft(s) != ""
  {
    hide Blank;
    if Blank(s[0]) { StripLeftSomething(s[1..]); }
  }

  lemma StepGood(s: State, line: string)
    requires GoodEntries(s.entries) && Step(s, line).Ok?
    ensures GoodEntries(Step(s, line).value.entries)
  {
    hide Strip, ReadPair, GoodKey, GoodText, Trimmed;
    if !Noise(line) {
      if Indented(line) {
        ItemGood(Strip(line));
      } else {
        PairGood(s, line);
      }
    }
  }

  lemma {:induction false} RunGood(s: State, lines: seq<string>)
    requires GoodEntries(s.entries) && Run(s, lines).Ok?
    ensures GoodEntries(Run(s, lines).value.entries)
    decreases |lines|
  {
    hide Step, GoodEntries;
    if lines != [] {
      StepGood(s, lines[0]);
      RunGood(Step(s, lines[0]).value, lines[1..]);
    }
  }

  /** Whatever the file, accepted metadata has trimmed, colon-free keys that do not read
      as comments, trimmed and non-empty scalars and items, and its two required fields. */
  lemma AcceptedIsGood(lines: seq<string>)
    requires Parse(lines).Ok?
    ensures GoodMetadata(Parse(lines).value)
  {
    hide Run;
    RunGood(EMPTY, lines);
  }

  // ---- printing, and reading it back ----

  function PrintItems(items: seq<string>): seq<string> {
    if items == [] then [] else ["  - " + items[0]] + PrintItems(items[1..])
  }

  function PrintEntry(key: string, e: Entry): seq<string> {
    match e
    case Text(text) => [key + ": " + text]
    case Items(items) => [key + ":"] + PrintItems(items)
  }

  /** A metadata file, its keys in the given order. */
  function Print(m: map<string, Entry>, order: seq<string>): seq<string>
    requires forall key <- order :: key in m
  {
    if order == [] then [] else PrintEntry(order[0], m[order[0]]) + Print(m, order[1..])
  }

  lemma StripBlank(s: string)
    ensures Strip(" " + s) == Strip(s)
  {
    hide StripRight;
    assert (" " + s)[1..] == s;
  }

  /** A trimmed text is left alone by stripping, with or without blanks in front. */
  lemma StripGood(s: string)
    requires GoodText(s)
    ensures Strip(s) == s && Strip(" " + s) == s && Strip("  " + s) == s
  {
    hide Blank;
    assert Strip(s) == s;
    StripBlank(s);
    assert "  " + s == " " + (" " + s);
    StripBlank(" " + s);
  }

  lemma BlankIsBlank()
    ensures Blank(' ') && Blank('\t') && !Blank('-') && !Blank(':')
  {
  }

  lemma StripNothing()
    ensures Strip("") == ""
  {
  }

  lemma FirstColon(key: string, rest: string)
    requires ':' !in key
    ensures Colon(key + ":" + rest) == |key|
  {
    var line := key + ":" + rest;
    var i := Colon(line);
    assert line[|key|] == ':';
  }

  /** A `key: value` line sets that entry and closes any list. */
  lemma ReadText(s: State, key: string, text: string)
    requires GoodKey(key) && GoodText(text)
    ensures Step(s, key + ": " + text) == Ok(State(s.entries[key := Text(text)], None))
  {
    hide Blank, Strip, Colon;
    var line := key + ": " + text;
    assert GoodText(line);
    StripGood(line);
    BlankIsBlank();
    assert line == key + ":" + (" " + text);
    FirstColon(key, " " + text);
    assert line[..|key|] == key && line[|key| + 1..] == " " + text;
    StripGood(key);
    StripGood(text);
  }

  /** A `key:` line starts an empty list and opens it. */
  lemma ReadHeader(s: State, key: string)
    requires GoodKey(key)
    ensures Step(s, key + ":") == Ok(State(s.entries[key := Items([])], Some(key)))
  {
    hide Blank, Strip, Colon;
    var line := key + ":";
    assert Strip("") == "" by { StripNothing(); }
    BlankIsBlank();
    assert GoodText(line);
    StripGood(line);
    assert line == key + ":" + "";
    FirstColon(key, "");
    assert line[..|key|] == key && line[|key| + 1..] == "";
    StripGood(key);
  }

  /** A printed item is appended to the open list. */
  lemma ReadItem(s: State, key: string, item: string)
    requires GoodText(item) && s.open == Some(key) && key in s.entries && s.entries[key].Items?
    ensures Step(s, "  - " + item) == Ok(s.(entries := s.entries[key := Items(s.entries[key].items + [item])]))
  {
    hide Blank, Strip;
    var line := "  - " + item;
    BlankIsBlank();
    var dashed := "- " + item;
    assert GoodText(dashed);
    StripGood(dashed);
    assert line == "  " + dashed;
    assert dashed[2..] == item;
    StripGood(item);
  }

  lemma {:induction false} RunConcat(s: State, a: seq<string>, b: seq<string>)
    requires Run(s, a).Ok?
    ensures Run(s, a + b) == Run(Run(s, a).value, b)
    decreases |a|
  {
    hide Step;
    if a == [] {
      assert a + b == b;
    } else {
      assert (a + b)[1..] == a[1..] + b;
      RunConcat(Step(s, a[0]).value, a[1..], b);
    }
  }

  lemma {:induction false} ReadItems(s: State, key: string, before: seq<string>, items: seq<string>)
    requires s.open == Some(key) && key in s.entries && s.entries[key] == Items(before)
    requires forall item <- items :: GoodText(item)
    ensures Run(s, PrintItems(items)) == Ok(s.(entries := s.entries[key := Items(before + items)]))
    decreases |items|
  {
    hide Step, GoodText;
    if items == [] {
      assert before + items == before && s.entries[key := Items(before)] == s.entries;
    } else {
      var t := s.(entries := s.entries[key := Items(before + [items[0]])]);
      ReadItem(s, key, items[0]);
      ReadItems(t, key, before + [items[0]], items[1..]);
      assert before + [items[0]] + items[1..] == before + items;
      assert t.entries[key := Items(before + items)] == s.entries[key := Items(before + items)];
      assert PrintItems(items)[1..] == PrintItems(items[1..]);
    }
  }

  /** The lines of one entry set that entry and no other. */
  lemma ReadEntry(s: State, key: string, e: Entry)
    requires GoodKey(key) && GoodEntry(e)
    ensures var r := Run(s, PrintEntry(key, e));
      r.Ok? && r.value.entries == s.entries[key := e]
  {
    hide Step, GoodText, GoodKey;
    match e
    case Text(text) =>
      ReadText(s, key, text);
      assert PrintEntry(key, e)[1..] == [];
    case Items(items) =>
      ReadHeader(s, key);
      var t := State(s.entries[key := Items([])], Some(key));
      ReadItems(t, key, [], items);
      assert PrintEntry(key, e)[1..] == PrintItems(items);
      assert [] + items == items && t.entries[key := e] == s.entries[key := e];
  }

  function Chosen(m: map<string, Entry>, order: seq<string>): map<string, Entry>
    requires forall key <- order :: key in m
  {
    map key | key in order :: m[key]
  }

  lemma PrintedNothing(s: State, m: map<string, Entry>)
    ensures Run(s, []) == Ok(s) && s.entries + Chosen(m, []) == s.entries
  {
  }

  lemma ChosenStep(entries: map<string, Entry>, m: map<string, Entry>, order: seq<string>)
    requires order != [] && forall key <- order :: key in m
    ensures entries[order[0] := m[order[0]]] + Chosen(m, order[1..]) == entries + Chosen(m, order)
  {
    assert order == [order[0]] + order[1..];
  }

  lemma {:induction false} ReadPrinted(s: State, m: map<string, Entry>, order: seq<string>)
    requires GoodEntries(m) && forall key <- order :: key in m
    ensures var r := Run(s, Print(m, order));
      r.Ok? && r.value.entries == s.entries + Chosen(m, order)
    decreases |order|
  {
    hide Step, Run, GoodKey, GoodEntry, PrintEntry, Chosen;
    if order == [] {
      PrintedNothing(s, m);
    } else {
      var key := order[0];
      var lines := PrintEntry(key, m[key]);
      assert GoodKey(key) && GoodEntry(m[key]);
      ReadEntry(s, key, m[key]);
      var t := Run(s, lines).value;
      ReadPrinted(t, m, order[1..]);
      RunConcat(s, lines, Print(m, order[1..]));
      ChosenStep(s.entries, m, order);
    }
  }

  /** Reading undoes printing: any good metadata, printed in any order of its keys,
      parses back to itself. */
  lemma ParseUndoesPrint(m: map<string, Entry>, order: seq<string>)
    requires GoodMetadata(m) && forall key :: key in order <==> key in m
    ensures Parse(Print(m, order)) == Ok(m)
  {
    hide Run, Print, GoodEntries;
    ReadPrinted(EMPTY, m, order);
    assert EMPTY.entries + Chosen(m, order) == m;
  }

  /** So rewriting a file from its own metadata changes no field, and what can be read
      at all is exactly the good metadata. */
  lemma RewritingKeepsMetadata(lines: seq<string>, order: seq<string>)
    requires Parse(lines).Ok? && forall key :: key in order <==> key in Parse(lines).value
    ensures Parse(Print(Parse(lines).value, order)) == Parse(lines)
  {
    hide Parse, Print;
    AcceptedIsGood(lines);
    ParseUndoesPrint(Parse(lines).value, order);
  }
}
