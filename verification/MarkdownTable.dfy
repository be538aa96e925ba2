/** The table rows of the generated function catalog: the Markdown escape, the
    argument list cut out of a signature, and one row per function
    (function_catalog/generate_function_catalog.py). */
module MarkdownTable {
  import opened Strings

  /** A catalog entry, each field as `str` gives it. */
  datatype Entry = Entry(name: string, kind: string, category: string, signature: string, result: string,
    description: string)

  // ---- escape_md ----

  function EscapeMd(text: string): string {
    Replace(Replace(text, '|', "\\|"), '\n', " ")
  }

  function OneLine(text: string): string {
    Replace(text, '\n', " ")
  }

  /** One character at a time. */
  function EscapeCell(text: string): string {
    if text == "" then ""
    else (if text[0] == '|' then "\\|" else if text[0] == '\n' then " " else [text[0]]) + EscapeCell(text[1..])
  }

  lemma {:induction false} EscapeMdIsEscapeCell(text: string)
    ensures EscapeMd(text) == EscapeCell(text)
  {
    if text != "" {
      var head := if text[0] == '|' then "\\|" else [text[0]];
      ReplaceConcat(head, Replace(text[1..], '|', "\\|"), '\n', " ");
      EscapeMdIsEscapeCell(text[1..]);
      assert "\\|"[1..] == "|" && "|"[1..] == "";
      assert Replace("|", '\n', " ") == "|";
      assert Replace("\\|", '\n', " ") == "\\|";
    }
  }

  /** A reader of table cells: a backslash before a pipe is dropped. */
  function Unescape(cell: string): string {
    if |cell| >= 2 && cell[0] == '\\' && cell[1] == '|' then "|" + Unescape(cell[2..])
    else if cell == "" then ""
    else [cell[0]] + Unescape(cell[1..])
  }

  /** Escaping loses nothing but line breaks, which become blanks, whatever pipes and
      backslashes the text holds. */
  lemma UnescapeRecovers(text: string)
    ensures Unescape(EscapeMd(text)) == OneLine(text)
  {
    EscapeMdIsEscapeCell(text);
    UnescapeCell(text);
  }

  lemma {:induction false} UnescapeCell(text: string)
    ensures Unescape(EscapeCell(text)) == OneLine(text)
  {
    if text != "" {
      var tail := EscapeCell(text[1..]);
      UnescapeCell(text[1..]);
      NoPipeFirst(text[1..]);
      if text[0] == '|' {
        assert ("\\|" + tail)[2..] == tail;
      } else {
        assert EscapeCell(text)[1..] == tail;
      }
    }
  }

  lemma NoPipeFirst(text: string)
    ensures EscapeCell(text) == "" || EscapeCell(text)[0] != '|'
  {
  }

  // ---- reading a row ----

  /** How many pipes of `s` separate cells, `before` being the character in front of it:
      those not immediately preceded by a backslash. */
  function Separators(before: char, s: string): nat
    decreases |s|
  {
    if s == "" then 0 else (if s[0] == '|' && before != '\\' then 1 else 0) + Separators(s[0], s[1..])
  }

  /** The texts between those pipes. */
  function SplitCells(before: char, s: string): (parts: seq<string>)
    ensures |parts| == Separators(before, s) + 1
    decreases |s|
  {
    if s == "" then [""]
    else if s[0] == '|' && before != '\\' then [""] + SplitCells(s[0], s[1..])
    else var parts := SplitCells(s[0], s[1..]); [[s[0]] + parts[0]] + parts[1..]
  }

  function Last(before: char, s: string): char {
    if s == "" then before else s[|s| - 1]
  }

  lemma {:induction false} SeparatorsConcat(before: char, a: string, b: string)
    ensures Separators(before, a + b) == Separators(before, a) + Separators(Last(before, a), b)
    decreases |a|
  {
    if a == "" {
      assert a + b == b;
    } else {
      assert (a + b)[1..] == a[1..] + b;
      SeparatorsConcat(a[0], a[1..], b);
    }
  }

  /** A cell without separators, and not ending in a backslash, is read as one part. */
  lemma {:induction false} CellRead(before: char, cell: string, rest: string)
    requires Separators(before, cell) == 0 && Last(before, cell) != '\\'
    ensures SplitCells(before, cell + ("|" + rest)) == [cell] + SplitCells('|', rest)
    decreases |cell|
  {
    var s := cell + ("|" + rest);
    if cell == "" {
      assert s == "|" + rest && s[1..] == rest;
    } else {
      assert s[1..] == cell[1..] + ("|" + rest);
      CellRead(cell[0], cell[1..], rest);
      assert [cell[0]] + cell[1..] == cell;
    }
  }

  /** No pipe of an escaped text separates anything, whatever stands in front. */
  lemma {:induction false} EscapedHasNone(before: char, text: string)
    ensures Separators(before, EscapeCell(text)) == 0
    decreases |text|
  {
    if text != "" {
      var cell, tail := EscapeCell(text), EscapeCell(text[1..]);
      NoPipeFirst(text[1..]);
      if text[0] == '|' {
        EscapedHasNone('|', text[1..]);
        assert cell[1..] == "|" + tail && ("|" + tail)[1..] == tail;
        assert Separators('\\', "|" + tail) == Separators('|', tail);
      } else {
        EscapedHasNone(cell[0], text[1..]);
        assert cell[1..] == tail;
      }
    }
  }

  lemma {:induction false} EscapedOnOneLine(text: string)
    ensures '\n' !in EscapeCell(text)
  {
    if text != "" { EscapedOnOneLine(text[1..]); }
  }

  // ---- extract_arguments ----

  function FindChar(s: string, c: char): (i: int)
    ensures -1 <= i < |s| && (i == -1 <==> c !in s)
    ensures i >= 0 ==> s[i] == c && c !in s[..i]
  {
    if s == "" then -1 else if s[0] == c then 0 else
    var i := FindChar(s[1..], c);
    assert s == [s[0]] + s[1..];
    if i == -1 then -1 else
    assert s[..i + 1] == [s[0]] + s[1..][..i];
    i + 1
  }

  function RFindChar(s: string, c: char): (i: int)
    ensures -1 <= i < |s| && (i == -1 <==> c !in s)
    ensures i >= 0 ==> s[i] == c && c !in s[i + 1..]
  {
    if s == "" then -1 else if s[|s| - 1] == c then |s| - 1 else
    var init := s[..|s| - 1];
    var i := RFindChar(init, c);
    assert s == init + [s[|s| - 1]];
    if i == -1 then -1 else
    assert s[i + 1..] == init[i + 1..] + [s[|s| - 1]];
    i
  }

  function ExtractArguments(signature: string): string {
    var start, end := FindChar(signature, '('), RFindChar(signature, ')');
    if start == -1 || end == -1 || end < start then "" else signature[start + 1..end]
  }

  /** The arguments are what stands between the first opening and the last closing
      parenthesis, nested ones included; nothing, where these do not come in that order. */
  lemma ArgumentsBetween(before: string, arguments: string, after: string)
    requires '(' !in before && ')' !in after
    ensures ExtractArguments(before + "(" + arguments + ")" + after) == arguments
  {
    hide FindChar, RFindChar;
    var s := before + "(" + arguments + ")" + after;
    var start, end := |before|, |before| + 1 + |arguments|;
    Parenthesised(before, arguments, after);
    FindCharIs(s, '(', start);
    RFindCharIs(s, ')', end);
  }

  lemma Parenthesised(before: string, arguments: string, after: string)
    ensures var s := before + "(" + arguments + ")" + after;
      var start, end := |before|, |before| + 1 + |arguments|;
      && start < end < |s| && s[start] == '(' && s[end] == ')'
      && s[..start] == before && s[start + 1..end] == arguments && s[end + 1..] == after
  {
  }

  lemma FindCharIs(s: string, c: char, i: nat)
    requires i < |s| && s[i] == c && c !in s[..i]
    ensures FindChar(s, c) == i
  {
    var j := FindChar(s, c);
  }

  lemma RFindCharIs(s: string, c: char, i: nat)
    requires i < |s| && s[i] == c && c !in s[i + 1..]
    ensures RFindChar(s, c) == i
  {
    var j := RFindChar(s, c);
  }

  /** Conversely, arguments that are not empty come from such a signature. */
  lemma ArgumentsFrom(signature: string) returns (before: string, after: string)
    requires ExtractArguments(signature) != ""
    ensures '(' !in before && ')' !in after
    ensures signature == before + "(" + ExtractArguments(signature) + ")" + after
  {
    hide FindChar, RFindChar;
    var start, end := FindChar(signature, '('), RFindChar(signature, ')');
    before, after := signature[..start], signature[end + 1..];
  }

  // ---- a data row ----

  function ArgumentsCell(e: Entry): string {
    var arguments := EscapeMd(ExtractArguments(e.signature));
    if arguments != "" then "`" + arguments + "`" else ""
  }

  function DataRow(e: Entry): string {
    "| `" + EscapeMd(e.name) + "` | " + EscapeMd(e.kind) + " | " + ArgumentsCell(e) + " | `"
    + EscapeMd(e.result) + "` | " + EscapeMd(e.description) + " |"
  }

  /** The five cells a reader should find. */
  function Cells(e: Entry): seq<string> {
    [" `" + EscapeMd(e.name) + "` ", " " + EscapeMd(e.kind) + " ", " " + ArgumentsCell(e) + " ",
     " `" + EscapeMd(e.result) + "` ", " " + EscapeMd(e.description) + " "]
  }

  function Piped(cells: seq<string>): string {
    if cells == [] then "|" else "|" + (cells[0] + Piped(cells[1..]))
  }

  predicate PlainCell(cell: string) {
    Separators('|', cell) == 0 && Last('|', cell) != '\\' && '\n' !in cell
  }

  lemma {:induction false} PipedRead(cells: seq<string>)
    requires forall cell <- cells :: PlainCell(cell)
    ensures SplitCells(' ', Piped(cells)) == [""] + cells + [""] && '\n' !in Piped(cells)
  {
    var s := Piped(cells);
    if cells == [] {
      assert s[1..] == "" && SplitCells('|', "") == [""];
    } else {
      assert PlainCell(cells[0]);
      PipedRead(cells[1..]);
      var rest := Piped(cells[1..])[1..];
      assert Piped(cells[1..]) == "|" + rest && s[1..] == cells[0] + ("|" + rest);
      CellRead('|', cells[0], rest);
      assert SplitCells(' ', "|" + rest)[1..] == SplitCells('|', rest);
      assert SplitCells('|', rest) == cells[1..] + [""];
      assert [cells[0]] + (cells[1..] + [""]) == cells + [""];
    }
  }

  /** An escaped text framed by blanks, with or without backticks, is a plain cell. */
  lemma FramedIsPlain(opening: string, text: string, closing: string)
    requires opening in {" ", " `"} && closing in {" ", "` "}
    ensures PlainCell(opening + EscapeMd(text) + closing)
  {
    EscapeMdIsEscapeCell(text);
    var cell := EscapeCell(text);
    EscapedHasNone(Last('|', opening), text);
    EscapedOnOneLine(text);
    SeparatorsConcat('|', opening + cell, closing);
    SeparatorsConcat('|', opening, cell);
    FrameHasNone(opening, '|');
    FrameHasNone(closing, Last('|', opening + cell));
  }

  lemma FrameHasNone(frame: string, before: char)
    requires frame in {" ", " `", "` "}
    ensures Separators(before, frame) == 0 && '\n' !in frame
  {
    assert " `"[1..] == "`" && "` "[1..] == " ";
    assert Separators(' ', "`") == 0 && Separators('`', " ") == 0;
  }

  /** Every row has exactly six pipes not preceded by a backslash and no line break,
      and a reader that splits at those pipes finds the five cells of its entry. */
  lemma RowReadsBack(e: Entry)
    ensures '\n' !in DataRow(e) && Separators(' ', DataRow(e)) == 6
    ensures SplitCells(' ', DataRow(e)) == [""] + Cells(e) + [""]
  {
    hide EscapeMd, ExtractArguments, PlainCell, Piped;
    var cells := Cells(e);
    FramedIsPlain(" `", e.name, "` ");
    FramedIsPlain(" ", e.kind, " ");
    ArgumentsArePlain(e);
    FramedIsPlain(" `", e.result, "` ");
    FramedIsPlain(" ", e.description, " ");
    PipedRead(cells);
    RowIsPiped(e);
  }

  lemma ArgumentsArePlain(e: Entry)
    ensures PlainCell(" " + ArgumentsCell(e) + " ")
  {
    hide EscapeMd, ExtractArguments, PlainCell;
    var text := ExtractArguments(e.signature);
    if EscapeMd(text) != "" {
      FramedIsPlain(" `", text, "` ");
      assert " " + ("`" + EscapeMd(text) + "`") + " " == " `" + EscapeMd(text) + "` ";
    } else {
      FramedIsPlain(" ", text, " ");
      assert " " + "" + " " == " " + EscapeMd(text) + " ";
    }
  }

  /** The row template puts a pipe after each cell. */
  lemma AfterCell(row: string, opening: string, text: string, closing: string, next: string)
    ensures row + opening + text + (closing + "|" + next) == row + (opening + text + closing) + "|" + next
  {
  }

  lemma BeforeCell(row: string, cell: string, cells: seq<string>)
    ensures row + "|" + cell + Piped(cells) == row + Piped([cell] + cells)
  {
    assert ([cell] + cells)[1..] == cells;
  }

  lemma RowIsPiped(e: Entry)
    ensures DataRow(e) == Piped(Cells(e))
  {
    hide EscapeMd, ArgumentsCell, Piped;
    var c := Cells(e);
    TemplateIsCells(EscapeMd(e.name), EscapeMd(e.kind), ArgumentsCell(e), EscapeMd(e.result), EscapeMd(e.description));
    CellsArePiped(c[0], c[1], c[2], c[3], c[4]);
  }

  lemma CellsArePiped(a: string, b: string, c: string, d: string, e: string)
    ensures "|" + a + "|" + b + "|" + c + "|" + d + "|" + e + "|" == Piped([a, b, c, d, e])
  {
    var q := "|" + a + "|" + b + "|" + c + "|" + d;
    assert q + "|" + e + Piped([]) == q + "|" + e + "|";
    hide Piped;
    BeforeCell(q, e, []);
    BeforeCell("|" + a + "|" + b + "|" + c, d, [e]);
    BeforeCell("|" + a + "|" + b, c, [d, e]);
    BeforeCell("|" + a, b, [c, d, e]);
    BeforeCell("", a, [b, c, d, e]);
    assert [e] + [] == [e] && [d] + [e] == [d, e] && [c] + [d, e] == [c, d, e] && [b] + [c, d, e] == [b, c, d, e];
    assert [a] + [b, c, d, e] == [a, b, c, d, e];
    assert "" + "|" + a == "|" + a && "" + Piped([a, b, c, d, e]) == Piped([a, b, c, d, e]);
  }

  lemma TemplateIsCells(n: string, k: string, a: string, r: string, d: string)
    ensures "| `" + n + "` | " + k + " | " + a + " | `" + r + "` | " + d + " |"
         == "|" + (" `" + n + "` ") + "|" + (" " + k + " ") + "|" + (" " + a + " ") + "|" + (" `" + r + "` ") + "|"
           + (" " + d + " ") + "|"
  {
    assert "| `" == "|" + " `" && "` | " == "` " + "|" + " " && " | " == " " + "|" + " " && " | `" == " " + "|" + " `";
    assert " |" == " " + "|" + "";
    var p1 := "|" + (" `" + n + "` ") + "|";
    var p2 := p1 + (" " + k + " ") + "|";
    var p3 := p2 + (" " + a + " ") + "|";
    var p4 := p3 + (" `" + r + "` ") + "|";
    var p5 := p4 + (" " + d + " ") + "|";
    AfterCell("|", " `", n, "` ", " ");
    AfterCell(p1, " ", k, " ", " ");
    AfterCell(p2, " ", a, " ", " `");
    AfterCell(p3, " `", r, "` ", " ");
    AfterCell(p4, " ", d, " ", "");
    assert p5 + "" == p5;
  }
}
