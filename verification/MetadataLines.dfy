/** Which metadata files are accepted, said of their lines
    (load_root_description in function_catalog/generate_function_catalog.py). */
module MetadataLines {
  import opened Metadata
  import opened Options

  /** What stands around the first colon. */
  function KeyOf(line: string): string {
    Strip(line[..Colon(line)])
  }

  function ValueOf(line: string): string
    requires ':' in line
  {
    Strip(line[Colon(line) + 1..])
  }

  /** An indented line. */
  predicate Inside(line: string) {
    line != "" && line[0] in {' ', '\t'}
  }

  /** A blank line or a comment. */
  predicate Passed(line: string) {
    || (forall i | 0 <= i < |line| :: Blank(line[i]))
    || exists k | 0 <= k < |line| :: line[k] == '#' && forall i | 0 <= i < k :: Blank(line[i])
  }

  /** The last unindented line opens a list: nothing follows its colon. */
  predicate ListOpen(lines: seq<string>) {
    lines != [] &&
    var last, init := lines[|lines| - 1], lines[..|lines| - 1];
    if Inside(last) then ListOpen(init) else ':' in last && ValueOf(last) == ""
  }

  /** A line that may follow the given ones: an item of an open list, or a key and a colon. */
  predicate MayFollow(before: seq<string>, line: string) {
    if Inside(line) then ListOpen(before) && "- " <= Strip(line) else ':' in line && KeyOf(line) != ""
  }

  predicate AllFollow(lines: seq<string>) {
    forall k | 0 <= k < |lines| :: MayFollow(lines[..k], lines[k])
  }

  /** The value on the last unindented line with the key. */
  function LastValue(lines: seq<string>, key: string): Option<string> {
    if lines == [] then None else
    var last := lines[|lines| - 1];
    if !Inside(last) && ':' in last && KeyOf(last) == key then Some(ValueOf(last))
    else LastValue(lines[..|lines| - 1], key)
  }

  predicate Gives(lines: seq<string>, key: string) {
    LastValue(lines, key).Some? && LastValue(lines, key).value != ""
  }

  /** What the parser's state says about the lines read. */
  ghost predicate Reflects(s: State, lines: seq<string>) {
    && (s.open.Some? <==> ListOpen(lines))
    && (s.open.Some? ==> s.open.value in s.entries && s.entries[s.open.value].Items?)
    && (forall key :: HasText(s.entries, key) <==> Gives(lines, key))
  }

  lemma ColonIn(line: string)
    ensures ':' in line <==> Colon(line) < |line|
  {
    hide Colon;
    var i := Colon(line);
    if i == |line| { assert line[..i] == line; }
  }

  /** What one more line changes. */
  lemma LastLine(before: seq<string>, line: string, key: string)
    ensures LastValue(before + [line], key)
      == if !Inside(line) && ':' in line && KeyOf(line) == key then Some(ValueOf(line)) else LastValue(before, key)
    ensures ListOpen(before + [line])
      <==> if Inside(line) then ListOpen(before) else ':' in line && ValueOf(line) == ""
  {
    hide KeyOf, ValueOf;
    var lines := before + [line];
    assert lines[..|lines| - 1] == before && lines[|lines| - 1] == line;
  }

  /** One significant line. */
  lemma StepReflects(s: State, before: seq<string>, line: string)
    requires Reflects(s, before) && !Noise(line)
    ensures Step(s, line).Ok? <==> MayFollow(before, line)
    ensures Step(s, line).Ok? ==> Reflects(Step(s, line).value, before + [line])
  {
    hide Strip, Colon, HasText, Noise;
    var lines := before + [line];
    assert lines[..|lines| - 1] == before && lines[|lines| - 1] == line;
    if Inside(line) {
      if MayFollow(before, line) { ItemReflects(s, before, line); }
    } else {
      ColonIn(line);
      if MayFollow(before, line) { PairReflects(s, before, line); }
    }
  }

  lemma ItemReflects(s: State, before: seq<string>, line: string)
    requires Reflects(s, before) && Inside(line) && MayFollow(before, line)
    ensures AppendItem(s, Strip(line)).Ok? && Reflects(AppendItem(s, Strip(line)).value, before + [line])
  {
    hide Strip, Colon, ListOpen, LastValue;
    LastLine(before, line, "");
    var s' := AppendItem(s, Strip(line)).value;
    forall key ensures HasText(s'.entries, key) <==> Gives(before + [line], key) {
      assert HasText(s.entries, key) <==> Gives(before, key);
      LastLine(before, line, key);
    }
  }

  lemma PairReflects(s: State, before: seq<string>, line: string)
    requires Reflects(s, before) && !Inside(line) && MayFollow(before, line)
    ensures ReadPair(s, line).Ok? && Reflects(ReadPair(s, line).value, before + [line])
  {
    hide Strip, Colon, ListOpen, LastValue;
    ColonIn(line);
    LastLine(before, line, "");
    var s' := ReadPair(s, line).value;
    forall key ensures HasText(s'.entries, key) <==> Gives(before + [line], key) {
      assert HasText(s.entries, key) <==> Gives(before, key);
      LastLine(before, line, key);
    }
  }

  lemma {:induction false} RunReflects(lines: seq<string>)
    requires forall line <- lines :: !Noise(line)
    ensures Run(EMPTY, lines).Ok? <==> AllFollow(lines)
    ensures Run(EMPTY, lines).Ok? ==> Reflects(Run(EMPTY, lines).value, lines)
    decreases |lines|
  {
    hide Noise, Step, MayFollow, Reflects;
    if lines == [] {
      NothingRead();
    } else {
      var n := |lines| - 1;
      var init, last := lines[..n], lines[n];
      assert lines == init + [last];
      RunReflects(init);
      AllFollowLast(init, last);
      if Run(EMPTY, init).Ok? {
        RunConcat(EMPTY, init, [last]);
        OneLine(Run(EMPTY, init).value, last);
        StepReflects(Run(EMPTY, init).value, init, last);
      } else {
        RunFails(EMPTY, init, [last]);
      }
    }
  }

  lemma NothingRead()
    ensures Run(EMPTY, []) == Ok(EMPTY) && Reflects(EMPTY, [])
  {
  }

  lemma OneLine(s: State, line: string)
    ensures Run(s, [line]) == Step(s, line)
  {
    hide Step;
    assert [line][1..] == [];
  }

  lemma {:induction false} RunFails(s: State, a: seq<string>, b: seq<string>)
    requires Run(s, a).Err?
    ensures Run(s, a + b).Err?
    decreases |a|
  {
    hide Step;
    assert (a + b)[1..] == a[1..] + b;
    if Step(s, a[0]).Ok? { RunFails(Step(s, a[0]).value, a[1..], b); }
  }

  lemma AllFollowLast(init: seq<string>, last: string)
    ensures AllFollow(init + [last]) <==> AllFollow(init) && MayFollow(init, last)
  {
    hide MayFollow;
    var lines := init + [last];
    assert lines[..|init|] == init && lines[|init|] == last;
    assert forall k | 0 <= k < |init| :: lines[..k] == init[..k] && lines[k] == init[k];
    if AllFollow(lines) {
      forall k | 0 <= k < |init| ensures MayFollow(init[..k], init[k]) { assert MayFollow(lines[..k], lines[k]); }
      assert MayFollow(lines[..|init|], lines[|init|]);
    }
    if AllFollow(init) && MayFollow(init, last) {
      forall k | 0 <= k < |lines| ensures MayFollow(lines[..k], lines[k]) {
        if k < |init| { assert MayFollow(init[..k], init[k]); }
      }
    }
  }

  lemma {:induction false} NoNoise(lines: seq<string>)
    ensures forall line <- Significant(lines) :: !Noise(line)
  {
    hide Noise;
    if lines != [] { NoNoise(lines[1..]); }
  }

  lemma {:induction false} StripLeftAt(s: string) returns (k: nat)
    ensures k <= |s| && StripLeft(s) == s[k..] && (forall i | 0 <= i < k :: Blank(s[i])) && (k < |s| ==> !Blank(s[k]))
  {
    hide Blank;
    if s != "" && Blank(s[0]) {
      k := StripLeftAt(s[1..]);
      k := k + 1;
    } else {
      k := 0;
    }
  }

  /** The lines that are passed over are the blank ones and those that start with a '#'. */
  lemma NoiseMeans(line: string)
    ensures Noise(line) <==> Passed(line)
  {
    hide Blank, StripLeft, StripRight;
    var k := StripLeftAt(line);
    HashNotBlank();
    if k < |line| {
      StripRightKeepsFirst(line[k..]);
    }
  }

  lemma HashNotBlank()
    ensures !Blank('#')
  {
  }

  /** A file is accepted if and only if, blank lines and comments aside, every unindented line
      has a key and a colon, every indented one is an item of an open list, and the last
      `version` and `description` lines have values. */
  lemma AcceptedIff(lines: seq<string>)
    ensures var kept := Significant(lines);
      Parse(lines).Ok? <==> AllFollow(kept) && Gives(kept, "version") && Gives(kept, "description")
  {
    hide Significant, AllFollow, Gives, Run;
    var kept := Significant(lines);
    NoNoise(lines);
    RunIgnoresNoise(EMPTY, lines);
    RunReflects(kept);
  }
}
