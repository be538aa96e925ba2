/** Quoting a scalar for the community-extension descriptor (quote_yaml_scalar in
    function_catalog/generate_function_catalog.py), against a scanner for
    double-quoted scalars written from section 7.3.1 of YAML 1.2.2. */
module YamlScalar {
  import opened Options
  import opened Strings

  function Quote(value: string): string {
    "\"" + Replace(Replace(value, '\\', "\\\\"), '"', "\\\"") + "\""
  }

  /** One character's escape. */
  function Escape(c: char): string {
    if c == '\\' then "\\\\" else if c == '"' then "\\\"" else [c]
  }

  function EscapeEach(value: string): string {
    if value == "" then "" else Escape(value[0]) + EscapeEach(value[1..])
  }

  /** The two replacements one after the other escape each character on its own: the
      backslashes the second one adds are not doubled, and no quote is missed. */
  lemma {:induction false} TwoReplacesAreOne(value: string)
    ensures Replace(Replace(value, '\\', "\\\\"), '"', "\\\"") == EscapeEach(value)
  {
    if value != "" {
      var head := if value[0] == '\\' then "\\\\" else [value[0]];
      var tail := Replace(value[1..], '\\', "\\\\");
      ReplaceConcat(head, tail, '"', "\\\"");
      TwoReplacesAreOne(value[1..]);
      EscapeOne(value[0]);
    }
  }

  lemma EscapeOne(c: char)
    ensures Replace(if c == '\\' then "\\\\" else [c], '"', "\\\"") == Escape(c)
  {
    assert "\\\\"[1..] == "\\" && "\\"[1..] == "";
    assert Replace("\\", '"', "\\\"") == "\\";
  }

  // ---- the scanner ----

  /** What may stand unescaped inside a double-quoted scalar on one line. */
  predicate Printable(c: char) {
    c == '\t' || c as int >= 0x20
  }

  /** The one-character escapes. */
  function Escaped(c: char): Option<char> {
    match c
    case '0' => Some(0 as char)
    case 'a' => Some(7 as char)
    case 'b' => Some(8 as char)
    case 't' => Some('\t')
    case '\t' => Some('\t')
    case 'n' => Some('\n')
    case 'v' => Some(11 as char)
    case 'f' => Some(12 as char)
    case 'r' => Some('\r')
    case 'e' => Some(27 as char)
    case ' ' => Some(' ')
    case '"' => Some('"')
    case '/' => Some('/')
    case '\\' => Some('\\')
    case 'N' => Some(0x85 as char)
    case '_' => Some(0xA0 as char)
    case 'L' => Some(0x2028 as char)
    case 'P' => Some(0x2029 as char)
    case _ => None
  }

  /** The scalar's text up to its closing quote, and what follows it. */
  function ScanText(s: string): Option<(string, string)> {
    if s == "" || !Printable(s[0]) then None
    else if s[0] == '"' then Some(("", s[1..]))
    else if s[0] != '\\' then Prepend(s[0], ScanText(s[1..]))
    else if |s| == 1 || Escaped(s[1]).None? then None
    else Prepend(Escaped(s[1]).value, ScanText(s[2..]))
  }

  function Prepend(c: char, scanned: Option<(string, string)>): Option<(string, string)> {
    match scanned
    case Some((text, rest)) => Some(([c] + text, rest))
    case None => None
  }

  function ScanQuoted(s: string): Option<(string, string)> {
    if s == "" || s[0] != '"' then None else ScanText(s[1..])
  }

  /** Scanning a quoted value stops exactly at its final quote and recovers the value
      if and only if the value has no line break or control character. */
  lemma QuoteScans(value: string, rest: string)
    ensures ScanQuoted(Quote(value) + rest) == Some((value, rest)) <==> forall c <- value :: Printable(c)
  {
    TwoReplacesAreOne(value);
    var s := Quote(value) + rest;
    assert s[1..] == EscapeEach(value) + ("\"" + rest);
    TextScans(value, rest);
  }

  /** A name with a line break in it is not read back. */
  lemma LineBreakNotScanned()
    ensures ScanQuoted(Quote("a\nb")) == None
  {
    TwoReplacesAreOne("a\nb");
    var s := Quote("a\nb");
    assert s[1..] == EscapeEach("a\nb") + ("\"" + "");
    assert "a\nb"[1] == '\n' && '\n' in "a\nb";
    TextScans("a\nb", "");
  }

  lemma {:induction false} TextScans(value: string, rest: string)
    ensures var r := ScanText(EscapeEach(value) + ("\"" + rest));
      if forall c <- value :: Printable(c) then r == Some((value, rest)) else r == None
  {
    hide Printable, Escaped;
    var s := EscapeEach(value) + ("\"" + rest);
    if value == "" {
      assert s == "\"" + rest && s[1..] == rest;
      Quotes();
    } else {
      var c, tail := value[0], EscapeEach(value[1..]) + ("\"" + rest);
      assert s == Escape(c) + tail;
      TextScans(value[1..], rest);
      OneScans(c, tail);
      assert value == [c] + value[1..];
    }
  }

  lemma Quotes()
    ensures Printable('"') && Printable('\\') && Escaped('"') == Some('"') && Escaped('\\') == Some('\\')
  {
  }

  lemma OneScans(c: char, tail: string)
    ensures ScanText(Escape(c) + tail) == if Printable(c) then Prepend(c, ScanText(tail)) else None
  {
    hide Printable, Escaped;
    Quotes();
    var s := Escape(c) + tail;
    if c == '\\' || c == '"' {
      assert s[2..] == tail;
    } else {
      assert s[1..] == tail;
    }
  }

  /** No quoted value starts another one's text: what is read off a line of quoted
      values is determined by the line, so quoting is injective. */
  lemma QuotesPrefixFree(a: string, b: string, afterA: string, afterB: string)
    requires Quote(a) + afterA == Quote(b) + afterB
    ensures a == b && afterA == afterB
  {
    hide Replace, EscapeEach;
    TwoReplacesAreOne(a);
    TwoReplacesAreOne(b);
    assert (Quote(a) + afterA)[1..] == EscapeEach(a) + ("\"" + afterA);
    assert (Quote(b) + afterB)[1..] == EscapeEach(b) + ("\"" + afterB);
    EscapesPrefixFree(a, b, afterA, afterB);
  }

  lemma {:induction false} EscapesPrefixFree(a: string, b: string, afterA: string, afterB: string)
    requires EscapeEach(a) + ("\"" + afterA) == EscapeEach(b) + ("\"" + afterB)
    ensures a == b && afterA == afterB
  {
    hide Escape;
    var s, t := EscapeEach(a) + ("\"" + afterA), EscapeEach(b) + ("\"" + afterB);
    if a != "" { EscapeFirst(a[0]); }
    if b != "" { EscapeFirst(b[0]); }
    assert s[0] == if a == "" then '"' else Escape(a[0])[0];
    assert t[0] == if b == "" then '"' else Escape(b[0])[0];
    if a == "" && b == "" {
      assert s[1..] == afterA && t[1..] == afterB;
    } else if a != "" && b != "" {
      var restA, restB := EscapeEach(a[1..]) + ("\"" + afterA), EscapeEach(b[1..]) + ("\"" + afterB);
      assert s == Escape(a[0]) + restA && t == Escape(b[0]) + restB;
      SameEscape(a[0], b[0], restA, restB);
      EscapesPrefixFree(a[1..], b[1..], afterA, afterB);
    }
  }

  lemma EscapeFirst(c: char)
    ensures Escape(c) != "" && Escape(c)[0] != '"'
  {
  }

  lemma SameEscape(c: char, d: char, restC: string, restD: string)
    requires Escape(c) + restC == Escape(d) + restD
    ensures c == d && restC == restD
  {
    var s, t := Escape(c) + restC, Escape(d) + restD;
    assert s[0] == t[0] && s[|Escape(c)|..] == restC && t[|Escape(d)|..] == restD;
    assert |Escape(c)| > 1 ==> s[1] == c;
    assert |Escape(d)| > 1 ==> t[1] == d;
  }
}
