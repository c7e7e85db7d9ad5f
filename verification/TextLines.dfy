/** Splitting a text into lines as `str.splitlines` does, and joining them again. */
module TextLines {

  /** The characters at which `str.splitlines` ends a line. */
  predicate IsBreak(c: char) {
    || '\U{a}' <= c <= '\U{d}' || '\U{1c}' <= c <= '\U{1e}' || c == '\U{85}' || c == '\U{2028}' || c == '\U{2029}'
  }

  /** Where the first line of a text ends; a carriage return takes a newline after it along. */
  function LineEnd(text: string): (n: nat)
    requires text != ""
    ensures 0 < n <= |text|
  {
    if text[0] == '\r' && |text| > 1 && text[1] == '\n' then 2
    else if IsBreak(text[0]) || |text| == 1 then 1
    else 1 + LineEnd(text[1..])
  }

  function SplitLines(text: string): seq<string> {
    if text == "" then [] else var n := LineEnd(text); [text[..n]] + SplitLines(text[n..])
  }

  function Join(lines: seq<string>): string {
    if lines == [] then "" else lines[0] + Join(lines[1..])
  }

  // ---- one line --------------------------------------------------------------------------

  /** One line, unbroken up to its end. */
  predicate IsLine(line: string) { line != "" && LineEnd(line) == |line| }

  /** `line` ends where `next` starts, whatever follows. */
  predicate Ends(line: string, next: string)
    requires line != "" && next != ""
  {
    var last := line[|line| - 1];
    IsBreak(last) && !(last == '\r' && next[0] == '\n')
  }

  /** Lines that a split can produce. */
  predicate AreLines(lines: seq<string>) {
    && (forall i :: 0 <= i < |lines| ==> IsLine(lines[i]))
    && (forall i :: 0 <= i < |lines| - 1 ==> Ends(lines[i], lines[i + 1]))
  }

  /** The first line of a text: unbroken, and ended by what follows it. */
  lemma {:induction false} FirstLine(text: string)
    requires text != ""
    ensures var n := LineEnd(text); IsLine(text[..n]) && (n < |text| ==> Ends(text[..n], text[n..]))
    decreases |text|
  {
    var n := LineEnd(text);
    if n >= 2 && !(text[0] == '\r' && text[1] == '\n') {
      FirstLine(text[1..]);
      assert text[1..][..n - 1] == text[..n][1..];
      assert text[1..][n - 1..] == text[n..];
      assert text[..n][1] == text[1];
    }
  }

  /** A line that what follows ends is the first line of the two together. */
  lemma {:induction false} LineThen(line: string, rest: string)
    requires IsLine(line) && rest != "" && Ends(line, rest)
    ensures LineEnd(line + rest) == |line|
    decreases |line|
  {
    var text := line + rest;
    if |line| == 1 {
    } else if line[0] == '\r' && line[1] == '\n' {
    } else {
      assert text[1..] == line[1..] + rest;
      LineThen(line[1..], rest);
    }
  }

  // ---- all lines -----------------------------------------------------------------------------

  lemma {:induction false} SplitIsLines(text: string)
    ensures AreLines(SplitLines(text)) && Join(SplitLines(text)) == text
    decreases |text|
  {
    hide AreLines, IsLine, Ends, LineEnd;
    if text == "" {
      assert AreLines([]) by { NoLines(); }
    } else {
      var n := LineEnd(text);
      FirstLine(text);
      SplitIsLines(text[n..]);
      var rest := SplitLines(text[n..]);
      assert SplitLines(text) == [text[..n]] + rest;
      MoreLines(text[..n], rest);
      assert ([text[..n]] + rest)[1..] == rest;
      assert text == text[..n] + text[n..];
    }
  }

  lemma NoLines()
    ensures AreLines([])
  {
  }

  lemma MoreLines(line: string, rest: seq<string>)
    requires IsLine(line) && AreLines(rest) && (Join(rest) != "" ==> line != "" && Ends(line, Join(rest)))
    ensures AreLines([line] + rest)
  {
    hide LineEnd;
    if rest != [] { FirstOfJoin(rest); }
  }

  lemma FirstOfJoin(lines: seq<string>)
    requires lines != [] && lines[0] != ""
    ensures Join(lines) != "" && Join(lines)[0] == lines[0][0]
  {
  }

  /** Splitting a joined text gives the lines back exactly when they are lines of a split. */
  lemma SplitJoins(lines: seq<string>)
    ensures SplitLines(Join(lines)) == lines <==> AreLines(lines)
  {
    SplitIsLines(Join(lines));
    if AreLines(lines) { JoinedSplits(lines); }
  }

  lemma {:induction false} JoinedSplits(lines: seq<string>)
    requires AreLines(lines)
    ensures SplitLines(Join(lines)) == lines
    decreases |lines|
  {
    hide IsLine, Ends, SplitLines;
    if lines == [] {
      assert SplitLines("") == [] by { NothingSplits(); }
    } else {
      var rest := lines[1..];
      assert lines == [lines[0]] + rest;
      JoinedSplits(rest);
      if rest == [] {
        assert Join(lines) == lines[0];
        OneSplits(lines[0]);
      } else {
        EndsJoined(lines);
        LineSplits(lines[0], Join(rest));
      }
    }
  }

  lemma NothingSplits()
    ensures SplitLines("") == []
  {
  }

  lemma OneSplits(line: string)
    requires IsLine(line)
    ensures SplitLines(line) == [line]
  {
    hide LineEnd;
    assert line[..|line|] == line && line[|line|..] == "";
    NothingSplits();
  }

  lemma EndsJoined(lines: seq<string>)
    requires |lines| > 1 && AreLines(lines)
    ensures Join(lines[1..]) != "" && lines[0] != "" && Ends(lines[0], Join(lines[1..]))
  {
    hide LineEnd, Join;
    var rest := lines[1..];
    assert rest[0] == lines[1] && IsLine(lines[1]) && Ends(lines[0], lines[1]);
    FirstOfJoin(rest);
  }

  lemma LineSplits(line: string, rest: string)
    requires IsLine(line) && rest != "" && Ends(line, rest)
    ensures SplitLines(line + rest) == [line] + SplitLines(rest)
  {
    hide LineEnd, Ends;
    LineThen(line, rest);
    var text := line + rest;
    assert text[..|line|] == line && text[|line|..] == rest;
  }

  /** The first of `n` characters that breaks ends the line there. */
  lemma {:induction false} LineEndIs(text: string, n: nat)
    requires n < |text| && forall i :: 0 <= i < n ==> !IsBreak(text[i])
    requires n + 1 == |text| || (IsBreak(text[n]) && n + 2 == |text| && text[n..] == "\r\n")
    ensures LineEnd(text) == |text|
    decreases n
  {
    if n > 0 {
      assert text[1..][n - 1..] == text[n..];
      LineEndIs(text[1..], n - 1);
    } else {
      assert text == text[0..];
    }
  }

  /** No character of a line but its last ones breaks. */
  lemma {:induction false} LineInner(line: string, i: nat)
    requires IsLine(line) && i < |line| - 1 && IsBreak(line[i])
    ensures i == |line| - 2 && line[i] == '\r' && line[i + 1] == '\n'
    decreases i
  {
    if i == 0 {
    } else {
      LineInner(line[1..], i - 1);
    }
  }
}
