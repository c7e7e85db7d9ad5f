/** The values file as text: splitting it into lines and joining the pinned lines again. */
module ValuesText {
  import opened Options
  import opened Texts
  import opened TextLines
  import opened ChartLines
  import opened ChartDigests
  import opened ChartPin

  // ---- the pinned text -------------------------------------------------------------------------

  /** Pin every image's digest in the text of a values file. */
  method Pin(text: string, digests: map<string, string>) returns (pinned: Option<string>)
    requires AllDigests(digests)
    ensures pinned.Some? <==> AllReady(SplitLines(text))
    ensures pinned.Some? ==> exists lines :: IsPinned(SplitLines(text), digests, lines) && pinned.value == Join(lines)
  {
    hide IsPinned;
    var lines := PinLines(SplitLines(text), digests);
    return if lines.None? then None else Some(Join(lines.value));
  }

  /** The digest line keeps what separates it from the next line: it ends in a newline, or
      its separator is part of its comment. */
  predicate KeepsSeparator(line: string)
    requires DigestLineOf(line).Some?
  {
    Eol(line) != "" || DigestLineOf(line).value.comment != ""
  }

  /** Every image's digest line keeps its separator, or has no line after it. */
  ghost predicate SeparatorsKept(lines: seq<string>)
    requires AllReady(lines)
  {
    forall i :: 0 <= i < |IMAGES| ==>
      DigestAt(lines, IMAGES[i]) == |lines| - 1 || KeepsSeparator(lines[DigestAt(lines, IMAGES[i])])
  }

  // ---- the lines of the pinned text ---------------------------------------------------------------

  /** In front of its ending, a line breaks nowhere; without a recognised ending, at most at its last character. */
  lemma BodyBreaks(line: string, i: nat)
    requires IsLine(line) && i < |Body(line)| && IsBreak(Body(line)[i])
    ensures Eol(line) == "" && i == |line| - 1
  {
    assert Body(line)[i] == line[i];
    if i < |line| - 1 { LineInner(line, i); }
  }

  /** The same of a pinned line: only the end of its comment can break. */
  lemma PinnedBreaks(line: string, d: string, i: nat)
    requires IsLine(line) && DigestLineOf(line).Some? && IsDigest(d)
    requires i < |PinnedBody(DigestLineOf(line).value, d)|
    requires IsBreak(PinnedBody(DigestLineOf(line).value, d)[i])
    ensures Eol(line) == "" && i == |PinnedBody(DigestLineOf(line).value, d)| - 1
  {
    hide DigestLineOf, IsDigest, Quoted, Body, Eol, IsComment;
    var m := DigestLineOf(line).value;
    QuotedChars(d);
    BreakIsSpace();
    var space := Spaces(if m.space == 0 then 1 else m.space);
    var head := Spaces(m.indent) + (DIGEST_KEY + (space + Quoted(d)));
    assert PinnedBody(m, d) == head + m.comment;
    assert |head| <= i;
    CommentSuffix(line);
    var body := Body(line);
    var k := i - |head| + |body| - |m.comment|;
    assert body[k] == m.comment[i - |head|];
    BodyBreaks(line, k);
    assert |line| == |body| by { EmptyEol(line); }
  }

  lemma EmptyEol(line: string)
    ensures Eol(line) == "" ==> Body(line) == line
  {
  }

  lemma BreakIsSpace()
    ensures forall c :: IsBreak(c) ==> IsSpace(c) && c != ' ' && c !in DIGEST_KEY
  {
  }

  lemma DigestLineEol(line: string)
    requires DigestLineOf(line).Some?
    ensures DigestLineOf(line).value.eol == Eol(line)
  {
  }

  lemma PinnedIsLine(line: string, d: string)
    requires IsLine(line) && DigestLineOf(line).Some? && IsDigest(d)
    ensures IsLine(PinnedLine(DigestLineOf(line).value, d))
  {
    var m := DigestLineOf(line).value;
    DigestLineShape(line);
    DigestLineEol(line);
    PinnedBodyOf(m, d);
    var body := PinnedBody(m, d);
    forall i | 0 <= i < |body| && IsBreak(body[i]) ensures m.eol == "" && i == |body| - 1 {
      PinnedBreaks(line, d, i);
    }
    assert body != "";
    hide PinnedLine, PinnedBody, DigestLineOf, IsDigest, IsComment, Body, Eol;
    if m.eol == "" {
      assert body + m.eol == body;
      LineEndIs(body, |body| - 1);
    } else {
      assert (body + m.eol)[|body|..] == m.eol;
      LineEndIs(body + m.eol, |body|);
    }
  }

  /** The last character of a pinned line: the one the line had, or the closing quote. */
  lemma PinnedLast(line: string, d: string)
    requires line != "" && DigestLineOf(line).Some?
    ensures var p := PinnedLine(DigestLineOf(line).value, d);
            p != "" && p[|p| - 1] == if KeepsSeparator(line) then line[|line| - 1] else '"'
  {
    hide DigestLineOf, Body, Eol, IsComment, DIGEST_KEY;
    var m := DigestLineOf(line).value;
    DigestLineShape(line);
    DigestLineEol(line);
    CommentSuffix(line);
    LastOfParts(line, m.comment, m.eol);
    var head := Spaces(m.indent) + DIGEST_KEY + Spaces(if m.space == 0 then 1 else m.space) + "\"" + d + "\"";
    assert PinnedLine(m, d) == head + m.comment + m.eol;
    assert head[|head| - 1] == '"';
  }

  lemma LastOfParts(line: string, comment: string, eol: string)
    requires line != "" && Eol(line) == eol && |comment| <= |Body(line)| && Body(line)[|Body(line)| - |comment|..] == comment
    ensures eol != "" ==> eol[|eol| - 1] == line[|line| - 1]
    ensures eol == "" && comment != "" ==> comment[|comment| - 1] == line[|line| - 1]
  {
    if eol == "" && comment != "" {
      assert Body(line) == line;
      assert line[|line| - |comment|..][|comment| - 1] == line[|line| - 1];
    }
  }

  /** A pinned line is ended by what follows exactly when its separator is kept. */
  lemma PinnedEnds(line: string, d: string, next: string)
    requires line != "" && DigestLineOf(line).Some? && next != "" && Ends(line, next)
    requires PinnedLine(DigestLineOf(line).value, d) != ""
    ensures Ends(PinnedLine(DigestLineOf(line).value, d), next) <==> KeepsSeparator(line)
  {
    hide DigestLineOf, KeepsSeparator, PinnedLine;
    PinnedLast(line, d);
  }

  lemma PinnedFirst(line: string, d: string)
    requires DigestLineOf(line).Some?
    ensures var p := PinnedLine(DigestLineOf(line).value, d);
            line != "" && line[0] != '\n' && p != "" && p[0] != '\n'
  {
    hide SplitValue, IndentOf, Eol;
    assert Body(line) != "" && Body(line)[0] in Body(line);
    var m := DigestLineOf(line).value;
    assert Spaces(m.indent) == "" || Spaces(m.indent)[0] == ' ';
  }

  /** A line of the pinned file, next to the line it comes from. */
  lemma PinnedLineKept(lines: seq<string>, digests: map<string, string>, pinned: seq<string>, k: nat)
    requires AreLines(lines) && IsPinned(lines, digests, pinned) && k < |lines|
    ensures IsLine(pinned[k]) && (pinned[k][0] == '\n' <==> lines[k][0] == '\n')
    ensures !IsDigestLine(lines, k) ==> pinned[k] == lines[k]
    ensures IsDigestLine(lines, k) ==> DigestLineOf(lines[k]).Some?
    ensures k + 1 < |lines| ==>
              (Ends(pinned[k], lines[k + 1]) <==> (IsDigestLine(lines, k) ==> KeepsSeparator(lines[k])))
  {
    hide DigestLineOf, IsDigest, PinnedLine, IsPinned, KeepsSeparator, Ends, IsDigestLine;
    PinnedParts(lines, digests, pinned);
    var d := PinnedAt(lines, digests, pinned, k);
    if IsDigestLine(lines, k) {
      PinnedIsLine(lines[k], d);
      PinnedFirst(lines[k], d);
      if k + 1 < |lines| { PinnedEnds(lines[k], d, lines[k + 1]); }
    }
  }

  lemma PinnedEndsKept(lines: seq<string>, digests: map<string, string>, pinned: seq<string>, k: nat)
    requires AreLines(lines) && IsPinned(lines, digests, pinned) && k + 1 < |lines|
    ensures IsDigestLine(lines, k) ==> DigestLineOf(lines[k]).Some?
    ensures pinned[k] != "" && pinned[k + 1] != ""
    ensures Ends(pinned[k], pinned[k + 1]) <==> (IsDigestLine(lines, k) ==> KeepsSeparator(lines[k]))
  {
    hide DigestLineOf, IsDigest, PinnedLine, IsPinned, KeepsSeparator, IsDigestLine;
    PinnedParts(lines, digests, pinned);
    PinnedLineKept(lines, digests, pinned, k);
    PinnedLineKept(lines, digests, pinned, k + 1);
  }

  /** Splitting the pinned text gives the pinned lines back exactly when every rewritten line
      keeps its separator; otherwise it runs into the line after it. */
  lemma PinnedTextSplits(text: string, digests: map<string, string>, pinned: seq<string>)
    requires IsPinned(SplitLines(text), digests, pinned)
    ensures SplitLines(Join(pinned)) == pinned <==> SeparatorsKept(SplitLines(text))
  {
    hide *;
    var lines := SplitLines(text);
    SplitIsLines(text);
    PinnedParts(lines, digests, pinned);
    PinnedAreLines(lines, digests, pinned);
    SplitJoins(pinned);
  }

  lemma PinnedAreLines(lines: seq<string>, digests: map<string, string>, pinned: seq<string>)
    requires AreLines(lines) && IsPinned(lines, digests, pinned)
    ensures AreLines(pinned) <==> SeparatorsKept(lines)
  {
    hide IsPinned, DigestLineOf, IsDigest, KeepsSeparator, IsLine, IsDigestLine, Ready, DigestAt, Ends, SeparatorsKept;
    PinnedParts(lines, digests, pinned);
    forall k | 0 <= k < |lines|
      ensures IsLine(pinned[k]) && pinned[k] != ""
      ensures IsDigestLine(lines, k) ==> DigestLineOf(lines[k]).Some?
    {
      PinnedLineKept(lines, digests, pinned, k);
      LineNotEmpty(pinned[k]);
    }
    forall k | 0 <= k < |lines| - 1
      ensures Ends(pinned[k], pinned[k + 1]) <==> (IsDigestLine(lines, k) ==> KeepsSeparator(lines[k]))
    {
      PinnedEndsKept(lines, digests, pinned, k);
    }
    SeparatorsByLine(lines);
    if SeparatorsKept(lines) {
      assert AreLines(pinned);
    } else {
      var k :| 0 <= k < |lines| - 1 && IsDigestLine(lines, k) && !KeepsSeparator(lines[k]);
      assert !Ends(pinned[k], pinned[k + 1]);
    }
  }

  lemma LineNotEmpty(line: string)
    ensures IsLine(line) ==> line != ""
  {
  }

  lemma SeparatorsByLine(lines: seq<string>)
    requires AllReady(lines)
    requires forall k :: 0 <= k < |lines| && IsDigestLine(lines, k) ==> DigestLineOf(lines[k]).Some?
    ensures SeparatorsKept(lines) <==>
            forall k :: 0 <= k < |lines| - 1 && IsDigestLine(lines, k) ==> KeepsSeparator(lines[k])
  {
    hide DigestLineOf, KeepsSeparator, Ready, DigestAt;
    if forall k :: 0 <= k < |lines| - 1 && IsDigestLine(lines, k) ==> KeepsSeparator(lines[k]) {
      forall i | 0 <= i < |IMAGES|
        ensures DigestAt(lines, IMAGES[i]) == |lines| - 1 || KeepsSeparator(lines[DigestAt(lines, IMAGES[i])])
      {
        assert IsDigestLine(lines, DigestAt(lines, IMAGES[i]));
      }
    }
  }

  // ---- files with ordinary line endings -------------------------------------------------------------

  /** Every line ends in a newline or in carriage return and newline. */
  ghost predicate OnlyNewlines(text: string) {
    forall i :: 0 <= i < |text| && IsBreak(text[i]) ==>
      text[i] == '\n' || (text[i] == '\r' && i + 1 < |text| && text[i + 1] == '\n')
  }

  lemma NewlinesAfter(text: string, n: nat)
    requires OnlyNewlines(text) && n <= |text|
    ensures OnlyNewlines(text[n..])
  {
    forall i | 0 <= i < |text[n..]| && IsBreak(text[n..][i])
      ensures text[n..][i] == '\n' || (text[n..][i] == '\r' && i + 1 < |text[n..]| && text[n..][i + 1] == '\n')
    {
      var j := n + i;
      assert text[n..][i] == text[j] && IsBreak(text[j]);
      assert text[j] == '\n' || (text[j] == '\r' && j + 1 < |text| && text[j + 1] == '\n');
      assert j + 1 < |text| ==> text[n..][i + 1] == text[j + 1];
    }
  }

  lemma {:induction false} NewlinesEndLines(text: string, k: nat)
    requires OnlyNewlines(text) && k + 1 < |SplitLines(text)|
    ensures Eol(SplitLines(text)[k]) != ""
    decreases |text|
  {
    var n := LineEnd(text);
    FirstLine(text);
    var rest := text[n..];
    assert SplitLines(text)[1..] == SplitLines(rest);
    if k > 0 {
      NewlinesAfter(text, n);
      NewlinesEndLines(rest, k - 1);
    } else {
      assert rest != "";
      assert text[..n][n - 1] == text[n - 1] && rest[0] == text[n];
    }
  }

  /** On a file with ordinary line endings the pinned text is read as the pinned lines, every
      image is located where it was, and a second pin refuses every image. */
  lemma PinnedTextReadsBack(text: string, digests: map<string, string>, pinned: seq<string>, image: Image)
    requires OnlyNewlines(text) && IsPinned(SplitLines(text), digests, pinned) && image in IMAGES
    ensures SplitLines(Join(pinned)) == pinned
    ensures LocatedIn(SplitLines(Join(pinned)), image) == LocatedIn(SplitLines(text), image)
    ensures !Ready(SplitLines(Join(pinned)), image) && !AllReady(SplitLines(Join(pinned)))
  {
    hide IsPinned, DigestLineOf, IsDigest, IsLine, IsBreak, SplitLines, Join, OnlyNewlines, LocatedIn, Ready;
    var lines := SplitLines(text);
    PinnedParts(lines, digests, pinned);
    assert SeparatorsKept(lines) by {
      forall i | 0 <= i < |IMAGES|
        ensures DigestAt(lines, IMAGES[i]) == |lines| - 1 || KeepsSeparator(lines[DigestAt(lines, IMAGES[i])])
      {
        var k := DigestAt(lines, IMAGES[i]);
        if k < |lines| - 1 { NewlinesEndLines(text, k); }
      }
    }
    PinnedTextSplits(text, digests, pinned);
    ReadsBack(lines, digests, pinned, image);
    SecondPinRefuses(lines, digests, pinned, image);
  }
}
