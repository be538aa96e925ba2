/** The Python string operations the generators use: replacing a character, joining and
    splitting. */
module Strings {
  /** `s.replace(c, replacement)` for a single character. */
  function Replace(s: string, c: char, replacement: string): string {
    if s == "" then "" else (if s[0] == c then replacement else [s[0]]) + Replace(s[1..], c, replacement)
  }

  lemma {:induction false} ReplaceConcat(a: string, b: string, c: char, replacement: string)
    ensures Replace(a + b, c, replacement) == Replace(a, c, replacement) + Replace(b, c, replacement)
  {
    if a == "" {
      assert a + b == b;
    } else {
      assert (a + b)[1..] == a[1..] + b;
      ReplaceConcat(a[1..], b, c, replacement);
    }
  }

  /** `separator.join(parts)`. */
  function Join(parts: seq<string>, separator: string): string {
    if parts == [] then "" else if |parts| == 1 then parts[0] else parts[0] + separator + Join(parts[1..], separator)
  }

  lemma {:induction false} JoinPlain(parts: seq<string>, separator: string, c: char)
    requires c !in separator && forall part <- parts :: c !in part
    ensures c !in Join(parts, separator)
  {
    if |parts| > 1 { JoinPlain(parts[1..], separator, c); }
  }

  /** Every part stands somewhere in the joined text. */
  lemma {:induction false} PartOfJoin(parts: seq<string>, separator: string, i: nat)
      returns (before: string, after: string)
    requires i < |parts|
    ensures Join(parts, separator) == before + parts[i] + after
  {
    if |parts| == 1 {
      before, after := "", "";
    } else if i == 0 {
      before, after := "", separator + Join(parts[1..], separator);
    } else {
      var inner, end := PartOfJoin(parts[1..], separator, i - 1);
      before, after := parts[0] + separator + inner, end;
    }
  }

  /** `s.split(c)`: always at least one part, and none holds the separator. */
  function Split(s: string, c: char): (parts: seq<string>)
    ensures parts != [] && forall i | 0 <= i < |parts| :: c !in parts[i]
  {
    if s == "" then [""]
    else if s[0] == c then [""] + Split(s[1..], c)
    else
      var parts := Split(s[1..], c);
      [[s[0]] + parts[0]] + parts[1..]
  }

  lemma {:induction false} SplitFirst(part: string, rest: string, c: char)
    requires c !in part
    ensures Split(part + [c] + rest, c) == [part] + Split(rest, c)
  {
    var s := part + [c] + rest;
    if part == "" {
      assert s[1..] == rest;
    } else {
      assert s[0] == part[0] && part[0] in part && s[1..] == part[1..] + [c] + rest;
      SplitFirst(part[1..], rest, c);
      assert [part[0]] + part[1..] == part;
    }
  }

  lemma {:induction false} SplitWhole(s: string, c: char)
    requires c !in s
    ensures Split(s, c) == [s]
  {
    if s != "" {
      assert s[0] in s && [s[0]] + s[1..] == s;
      SplitWhole(s[1..], c);
    }
  }

  /** Splitting undoes joining if and only if no part holds the separator. */
  lemma SplitUndoesJoin(parts: seq<string>, c: char)
    requires parts != []
    ensures Split(Join(parts, [c]), c) == parts <==> forall i | 0 <= i < |parts| :: c !in parts[i]
  {
    if forall i | 0 <= i < |parts| :: c !in parts[i] { SplitJoined(parts, c); }
  }

  lemma SplitJoined(parts: seq<string>, c: char)
    requires parts != [] && forall i | 0 <= i < |parts| :: c !in parts[i]
    ensures Split(Join(parts, [c]), c) == parts
  {
    hide Split;
    var init, last := parts[..|parts| - 1], parts[|parts| - 1];
    assert parts == init + [last];
    SplitPrefix(init, [last], c);
    assert Join([last], [c]) == last;
    SplitWhole(last, c);
  }

  lemma JoinFirst(part: string, parts: seq<string>, separator: string)
    requires parts != []
    ensures Join([part] + parts, separator) == part + separator + Join(parts, separator)
  {
    assert ([part] + parts)[1..] == parts;
  }

  /** Parts without the separator split off one by one, whatever follows. */
  lemma {:induction false} SplitPrefix(parts: seq<string>, rest: seq<string>, c: char)
    requires rest != [] && forall i | 0 <= i < |parts| :: c !in parts[i]
    ensures Split(Join(parts + rest, [c]), c) == parts + Split(Join(rest, [c]), c)
  {
    hide Split, Join;
    if parts == [] {
      assert parts + rest == rest;
    } else {
      var others := parts[1..] + rest;
      assert parts + rest == [parts[0]] + others;
      JoinFirst(parts[0], others, [c]);
      SplitFirst(parts[0], Join(others, [c]), c);
      SplitPrefix(parts[1..], rest, c);
      assert [parts[0]] + (parts[1..] + Split(Join(rest, [c]), c)) == parts + Split(Join(rest, [c]), c);
    }
  }

  /** A part that is itself a joined text may be taken apart without changing the whole. */
  lemma {:induction false} JoinNested(before: seq<string>, inner: seq<string>, after: seq<string>, separator: string)
    requires inner != []
    ensures Join(before + [Join(inner, separator)] + after, separator) == Join(before + inner + after, separator)
  {
    if before == [] {
      JoinInner(inner, after, separator);
      assert before + [Join(inner, separator)] + after == [Join(inner, separator)] + after;
      assert before + inner + after == inner + after;
    } else {
      JoinNested(before[1..], inner, after, separator);
      assert before + [Join(inner, separator)] + after
        == [before[0]] + (before[1..] + [Join(inner, separator)] + after);
      assert before + inner + after == [before[0]] + (before[1..] + inner + after);
      JoinFirst(before[0], before[1..] + [Join(inner, separator)] + after, separator);
      JoinFirst(before[0], before[1..] + inner + after, separator);
    }
  }

  lemma {:induction false} JoinInner(inner: seq<string>, after: seq<string>, separator: string)
    requires inner != []
    ensures Join([Join(inner, separator)] + after, separator) == Join(inner + after, separator)
  {
    if |inner| == 1 {
      assert [Join(inner, separator)] == inner;
    } else {
      var tail := inner[1..];
      JoinInner(tail, after, separator);
      assert inner + after == [inner[0]] + (tail + after);
      JoinFirst(inner[0], tail + after, separator);
      if after == [] {
        assert [Join(inner, separator)] + after == [Join(inner, separator)];
        assert [Join(tail, separator)] + after == [Join(tail, separator)];
      } else {
        JoinFirst(Join(inner, separator), after, separator);
        JoinFirst(Join(tail, separator), after, separator);
      }
    }
  }
}
