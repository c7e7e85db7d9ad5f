/** The lines of a chart values file as the pinner reads and rewrites them. */
module ChartLines {
  import opened Options
  import opened Texts

  // ---- blanks and indents ---------------------------------------------------------

  predicate IsContent(line: string) {
    var stripped := Strip(line);
    stripped != "" && stripped[0] != '#'
  }

  function IndentOf(line: string): (n: nat)
    ensures n <= |line| && (n < |line| ==> line[n] != ' ') && forall i :: 0 <= i < n ==> line[i] == ' '
  {
    if line == "" || line[0] != ' ' then 0 else 1 + IndentOf(line[1..])
  }

  // ---- line endings -----------------------------------------------------------------

  /** The line ending the patterns recognise: a newline, with a carriage return before it or not. */
  function Eol(line: string): (eol: string)
    ensures |eol| <= |line| && line[|line| - |eol|..] == eol
  {
    var n := |line|;
    if n >= 2 && line[n - 2] == '\r' && line[n - 1] == '\n' then "\r\n"
    else if n >= 1 && line[n - 1] == '\n' then "\n"
    else ""
  }

  function Body(line: string): string { line[..|line| - |Eol(line)|] }

  // ---- key lines ---------------------------------------------------------------------

  predicate IsKeyChar(c: char) {
    'A' <= c <= 'Z' || 'a' <= c <= 'z' || '0' <= c <= '9' || c == '_' || c == '-'
  }

  function KeySpan(s: string): (n: nat)
    ensures n <= |s| && (n < |s| ==> !IsKeyChar(s[n])) && forall i :: 0 <= i < n ==> IsKeyChar(s[i])
  {
    if s == "" || !IsKeyChar(s[0]) then 0 else 1 + KeySpan(s[1..])
  }

  datatype KeyLine = KeyLine(key: string, rest: string)

  /** `indent key: rest`, as the key pattern matches a line. */
  function KeyLineOf(line: string): Option<KeyLine> {
    var body := Body(line);
    var n := IndentOf(body);
    var m := KeySpan(body[n..]);
    if m == 0 || n + m == |body| || body[n + m] != ':' || '\n' in body then None
    else Some(KeyLine(body[n..n + m], body[n + m + 1..]))
  }

  // ---- scalars -------------------------------------------------------------------------

  /** The length of `s` in front of a comment: a `#` with a blank before it. */
  function CommentStart(s: string, from: nat): (n: nat)
    requires from <= |s|
    ensures from <= n <= |s|
    decreases |s| - from
  {
    if from == |s| then from
    else if from > 0 && s[from] == '#' && IsSpace(s[from - 1]) then from
    else CommentStart(s, from + 1)
  }

  predicate IsQuote(c: char) { c == '"' || c == '\'' }

  function ScalarOf(rest: string): string {
    var value := Strip(rest[..CommentStart(rest, 0)]);
    if |value| >= 2 && value[0] == value[|value| - 1] && IsQuote(value[0]) then value[1..|value| - 1] else value
  }

  // ---- digest lines -----------------------------------------------------------------------

  datatype DigestLine = DigestLine(indent: nat, space: nat, value: string, comment: string, eol: string)

  /** Where the run of spaces that ends at `n` starts. */
  function SpaceRun(s: string, n: nat): (start: nat)
    requires n <= |s|
    ensures start <= n && (forall i :: start <= i < n ==> s[i] == ' ') && (start > 0 ==> s[start - 1] != ' ')
  {
    if n > 0 && s[n - 1] == ' ' then SpaceRun(s, n - 1) else n
  }

  const DIGEST_KEY := "digest:"

  /** A value and its comment, after `space` spaces. The value stops at the spaces in front
      of the comment; a comment that follows the key's spaces directly keeps one of them. */
  datatype ValueSplit = ValueSplit(space: nat, value: string, comment: string)

  function SplitValue(after: string): Option<ValueSplit> {
    var space := IndentOf(after);
    var r := after[space..];
    var h := Find(r, '#');
    if h == |r| then Some(ValueSplit(space, r, ""))
    else if h == 0 then
      if space == 0 then None else Some(ValueSplit(space - 1, "", " " + r))
    else
      var start := SpaceRun(r, h);
      if start == h then None else Some(ValueSplit(space, r[..start], r[start..]))
  }

  /** `indent digest: value #comment`, as the digest pattern matches a line. */
  function DigestLineOf(line: string): Option<DigestLine> {
    var body := Body(line);
    var n := IndentOf(body);
    if !(DIGEST_KEY <= body[n..]) || '\r' in body || '\n' in body then None
    else
      var v := SplitValue(body[n + 7..]);
      if v.None? then None else Some(DigestLine(n, v.value.space, v.value.value, v.value.comment, Eol(line)))
  }

  function Spaces(n: nat): (s: string)
    ensures |s| == n && forall i :: 0 <= i < n ==> s[i] == ' '
  {
    if n == 0 then "" else " " + Spaces(n - 1)
  }

  /** The line with its value replaced by a quoted digest, everything else kept. */
  function PinnedLine(m: DigestLine, digest: string): string {
    Spaces(m.indent) + DIGEST_KEY + Spaces(if m.space == 0 then 1 else m.space) + "\"" + digest + "\"" + m.comment + m.eol
  }

  // ---- what a rewritten line reads as --------------------------------------------------------

  /** A comment as the digest pattern captures it: spaces, then a `#`. */
  predicate IsComment(c: string) {
    c == "" || (0 < IndentOf(c) < |c| && c[IndentOf(c)] == '#')
  }

  predicate IsEol(eol: string) { eol == "" || eol == "\n" || eol == "\r\n" }

  predicate NoBreaks(s: string) { '\r' !in s && '\n' !in s }

  lemma {:induction false} IndentOfConcat(n: nat, rest: string)
    requires rest == "" || rest[0] != ' '
    ensures IndentOf(Spaces(n) + rest) == n
    decreases n
  {
    if n > 0 {
      assert (Spaces(n) + rest)[1..] == Spaces(n - 1) + rest;
      IndentOfConcat(n - 1, rest);
    } else {
      assert Spaces(0) + rest == rest;
    }
  }

  lemma EolConcat(body: string, eol: string)
    requires IsEol(eol) && NoBreaks(body)
    ensures Eol(body + eol) == eol && Body(body + eol) == body
  {
    var line := body + eol;
    assert body != "" ==> body[|body| - 1] in body;
    assert |body| >= 2 ==> body[|body| - 2] in body;
    assert line[..|body|] == body;
  }

  lemma SplitValueShape(after: string)
    requires SplitValue(after).Some? && NoBreaks(after)
    ensures IsComment(SplitValue(after).value.comment) && NoBreaks(SplitValue(after).value.comment)
  {
    CommentEnds(after);
    var r := after[IndentOf(after)..];
    var h := Find(r, '#');
    var comment := SplitValue(after).value.comment;
    NoBreaksSlice(after, |after| - |comment|);
    hide NoBreaks, IndentOf, Find, SpaceRun, IsComment;
    if h == 0 && h < |r| {
      SpacesThenHash(1, r);
      assert Spaces(1) == " ";
    } else if h < |r| {
      RunThenHash(r, h);
    } else {
      assert IsComment("") by { NoComments(); }
    }
  }

  lemma NoComments()
    ensures IsComment("")
  {
  }

  lemma RunThenHash(r: string, h: nat)
    requires h < |r| && r[h] == '#' && SpaceRun(r, h) < h
    ensures IsComment(r[SpaceRun(r, h)..])
  {
    var start := SpaceRun(r, h);
    assert r[start..] == Spaces(h - start) + r[h..];
    hide SpaceRun, IsComment;
    SpacesThenHash(h - start, r[h..]);
  }

  lemma SpacesThenHash(n: nat, rest: string)
    requires n > 0 && rest != "" && rest[0] == '#'
    ensures IsComment(Spaces(n) + rest)
  {
    hide IndentOf;
    IndentOfConcat(n, rest);
  }

  lemma NoBreaksSlice(s: string, from: nat)
    requires from <= |s| && NoBreaks(s)
    ensures NoBreaks(s[from..])
  {
    assert forall c :: c in s[from..] ==> c in s;
  }

  lemma BodyIndent(line: string)
    requires IndentOf(Body(line)) < |Body(line)|
    ensures IndentOf(line) == IndentOf(Body(line))
  {
    var body := Body(line);
    assert forall i :: 0 <= i < |body| ==> line[i] == body[i];
    IndentIs(line, IndentOf(body));
  }

  /** A captured comment is the end of the line in front of its line ending. */
  lemma CommentSuffix(line: string)
    requires DigestLineOf(line).Some?
    ensures var body, comment := Body(line), DigestLineOf(line).value.comment;
            |comment| <= |body| && body[|body| - |comment|..] == comment
  {
    hide SplitValue, IndentOf, Body, Eol;
    var body := Body(line);
    var after := body[IndentOf(body) + 7..];
    CommentEnds(after);
    var comment := SplitValue(after).value.comment;
    assert body[|body| - |comment|..] == after[|after| - |comment|..];
  }

  lemma CommentEnds(after: string)
    requires SplitValue(after).Some?
    ensures var comment := SplitValue(after).value.comment;
            |comment| <= |after| && after[|after| - |comment|..] == comment
  {
    var space := IndentOf(after);
    var r := after[space..];
    var h := Find(r, '#');
    if h == |r| {
      assert after[|after|..] == "";
    } else if h == 0 {
      assert after[space - 1..] == " " + r;
    } else {
      var start := SpaceRun(r, h);
      assert after[space + start..] == r[start..];
    }
  }

  /** What the digest pattern captures: comments and line endings of the recognised shape. */
  lemma DigestLineShape(line: string)
    requires DigestLineOf(line).Some?
    ensures var m := DigestLineOf(line).value;
            IsComment(m.comment) && NoBreaks(m.comment) && IsEol(m.eol) && m.indent == IndentOf(line)
  {
    hide SplitValue, IsComment, IndentOf, Body;
    var body := Body(line);
    var n := IndentOf(body);
    NoBreaksSlice(body, n + 7);
    SplitValueShape(body[n + 7..]);
    BodyIndent(line);
  }

  lemma IndentIs(line: string, n: nat)
    requires n < |line| && line[n] != ' ' && forall i :: 0 <= i < n ==> line[i] == ' '
    ensures IndentOf(line) == n
  {
    var k := IndentOf(line);
    assert !(k < n) && !(n < k);
  }

  predicate IsDigest(d: string) {
    IsSha256(d)
  }

  lemma DigestChars(d: string)
    requires IsDigest(d)
    ensures forall i :: 0 <= i < |d| ==> !IsSpace(d[i]) && d[i] != '#' && d[i] != '"' && d[i] != '\'' && d[i] != ' '
    ensures '\r' !in d && '\n' !in d
  {
    assert d[..7] == "sha256:";
    forall i | 0 <= i < |d| ensures !IsSpace(d[i]) && d[i] != '#' && d[i] != '"' && d[i] != '\'' && d[i] != ' ' {
      if i < 7 { assert d[i] == "sha256:"[i]; }
    }
  }

  function Quoted(d: string): string { "\"" + d + "\"" }

  lemma QuotedChars(d: string)
    requires IsDigest(d)
    ensures forall i :: 0 <= i < |Quoted(d)| ==> !IsSpace(Quoted(d)[i]) && Quoted(d)[i] != '#'
    ensures NoBreaks(Quoted(d)) && |Quoted(d)| >= 2
  {
    DigestChars(d);
  }

  lemma HashIs(s: string, n: nat)
    requires n <= |s| && (n < |s| ==> s[n] == '#') && forall i :: 0 <= i < n ==> s[i] != '#'
    ensures Find(s, '#') == n
  {
    var k := Find(s, '#');
    assert !(k < n) && !(n < k);
  }

  lemma {:induction false} SpaceRunIs(s: string, n: nat, start: nat)
    requires start <= n <= |s| && (forall i :: start <= i < n ==> s[i] == ' ') && (start > 0 ==> s[start - 1] != ' ')
    ensures SpaceRun(s, n) == start
    decreases n
  {
    if start == n {
    } else {
      SpaceRunIs(s, n - 1, start);
    }
  }

  /** A quoted digest and a captured comment split again into the same two. */
  lemma SplitPinned(space: nat, d: string, comment: string)
    requires IsDigest(d) && IsComment(comment)
    ensures SplitValue(Spaces(space) + (Quoted(d) + comment)) == Some(ValueSplit(space, Quoted(d), comment))
  {
    QuotedChars(d);
    var q := Quoted(d);
    var r := q + comment;
    var after := Spaces(space) + r;
    hide Quoted, IsSpace, IsDigest;
    assert q[0] != ' ' by { assert Quoted(d)[0] == '"' by { QuoteFirst(d); } }
    IndentOfConcat(space, r);
    assert after[space..] == r;
    if comment == "" {
      assert r == q;
      HashIs(r, |r|);
    } else {
      var h := |q| + IndentOf(comment);
      HashIs(r, h);
      assert q[|q| - 1] != ' ' by { QuoteFirst(d); }
      SpaceRunIs(r, h, |q|);
      assert r[..|q|] == q && r[|q|..] == comment;
    }
  }

  lemma QuoteFirst(d: string)
    ensures Quoted(d)[0] == '"' && Quoted(d)[|Quoted(d)| - 1] == '"' && |Quoted(d)| == |d| + 2
  {
  }

  /** The body of a rewritten line and how far it is indented. */
  function PinnedBody(m: DigestLine, d: string): string {
    Spaces(m.indent) + (DIGEST_KEY + (Spaces(if m.space == 0 then 1 else m.space) + (Quoted(d) + m.comment)))
  }

  predicate Captured(m: DigestLine) { IsComment(m.comment) && NoBreaks(m.comment) && IsEol(m.eol) }

  lemma PinnedBodyOf(m: DigestLine, d: string)
    requires Captured(m) && IsDigest(d)
    ensures PinnedLine(m, d) == PinnedBody(m, d) + m.eol
    ensures Body(PinnedLine(m, d)) == PinnedBody(m, d) && Eol(PinnedLine(m, d)) == m.eol
    ensures NoBreaks(PinnedBody(m, d)) && IndentOf(PinnedBody(m, d)) == m.indent
  {
    hide IsComment, IsDigest, Body, Eol, IndentOf;
    QuotedChars(d);
    var space := Spaces(if m.space == 0 then 1 else m.space);
    assert NoBreaks(PinnedBody(m, d)) by { PinnedNoBreaks(m, d); }
    assert PinnedLine(m, d) == PinnedBody(m, d) + m.eol by { PinnedAsBody(m, d); }
    EolConcat(PinnedBody(m, d), m.eol);
    IndentOfConcat(m.indent, DIGEST_KEY + (space + (Quoted(d) + m.comment)));
  }

  lemma PinnedAsBody(m: DigestLine, d: string)
    ensures PinnedLine(m, d) == PinnedBody(m, d) + m.eol
  {
  }

  lemma PinnedNoBreaks(m: DigestLine, d: string)
    requires NoBreaks(m.comment) && NoBreaks(Quoted(d))
    ensures NoBreaks(PinnedBody(m, d))
  {
    hide Quoted;
  }

  /** A rewritten line reads back as the same line with the digest as its value. */
  lemma PinnedReadsBack(m: DigestLine, d: string)
    requires Captured(m) && IsDigest(d)
    ensures DigestLineOf(PinnedLine(m, d)) ==
            Some(DigestLine(m.indent, if m.space == 0 then 1 else m.space, Quoted(d), m.comment, m.eol))
  {
    hide SplitValue, Quoted, Body, Eol, IndentOf, IsComment, DigestLineOf, IsDigest, PinnedLine, NoBreaks;
    var space := if m.space == 0 then 1 else m.space;
    PinnedBodyOf(m, d);
    SplitPinned(space, d, m.comment);
    var body, rest := PinnedBody(m, d), Spaces(space) + (Quoted(d) + m.comment);
    assert body[m.indent..] == DIGEST_KEY + rest;
    ReadsAs(PinnedLine(m, d), m.indent, rest, ValueSplit(space, Quoted(d), m.comment));
  }

  lemma ReadsAs(line: string, n: nat, rest: string, v: ValueSplit)
    requires NoBreaks(Body(line)) && IndentOf(Body(line)) == n && Body(line)[n..] == DIGEST_KEY + rest
    requires SplitValue(rest) == Some(v)
    ensures DigestLineOf(line) == Some(DigestLine(n, v.space, v.value, v.comment, Eol(line)))
  {
    hide SplitValue, Body, Eol, IndentOf;
    assert Body(line)[n + 7..] == Body(line)[n..][7..] == rest;
  }

  lemma {:induction false} NoComment(s: string, from: nat)
    requires from <= |s| && forall i :: 0 <= i < |s| ==> s[i] != '#'
    ensures CommentStart(s, from) == |s|
    decreases |s| - from
  {
    if from == |s| {
    } else {
      NoComment(s, from + 1);
    }
  }

  lemma QuotedScalar(d: string)
    requires IsDigest(d)
    ensures ScalarOf(Quoted(d)) == d
  {
    QuotedChars(d);
    QuoteFirst(d);
    var q := Quoted(d);
    NoComment(q, 0);
    assert q[..|q|] == q;
    assert Strip(q) == q;
    assert q[1..|q| - 1] == d;
  }

  // ---- the shape of a line ---------------------------------------------------------------

  /** All that locating a field looks at in a line. */
  datatype Shape = Shape(content: bool, indent: nat, key: Option<string>)

  function ShapeOf(line: string): Shape {
    Shape(IsContent(line), IndentOf(line), if KeyLineOf(line).Some? then Some(KeyLineOf(line).value.key) else None)
  }

  /** Rewriting a digest line keeps its shape. */
  lemma PinnedKeepsShape(line: string, d: string)
    requires DigestLineOf(line).Some? && IsDigest(d)
    ensures ShapeOf(PinnedLine(DigestLineOf(line).value, d)) == ShapeOf(line)
    ensures ShapeOf(line) == Shape(true, DigestLineOf(line).value.indent, Some("digest"))
  {
    DigestLineShape(line);
    var m := DigestLineOf(line).value;
    PinnedReadsBack(m, d);
    DigestShape(line);
    DigestShape(PinnedLine(m, d));
  }

  /** Every line the digest pattern matches is content under the key `digest`. */
  lemma DigestShape(line: string)
    requires DigestLineOf(line).Some?
    ensures ShapeOf(line) == Shape(true, DigestLineOf(line).value.indent, Some("digest"))
  {
    hide SplitValue;
    var body := Body(line);
    var n := IndentOf(body);
    BodyIndent(line);
    DigestKeySpan(body[n..]);
    assert body[n..n + 6] == body[n..][..6];
    assert line[n] == body[n..][0];
    StripsTo(line, n);
  }

  lemma DigestKeySpan(s: string)
    requires DIGEST_KEY <= s
    ensures KeySpan(s) == 6 && s[..6] == "digest" && s[6] == ':'
  {
    assert s[..7] == DIGEST_KEY;
    assert forall i :: 0 <= i < 7 ==> s[i] == DIGEST_KEY[i];
    var k := KeySpan(s);
    assert !IsKeyChar(s[6]);
    assert !(k > 6) && !(k < 6);
    assert s[..6] == DIGEST_KEY[..6];
  }

  /** A line whose first character after its spaces is no blank and no `#` is content. */
  lemma {:induction false} StripsTo(line: string, n: nat)
    requires n < |line| && (forall i :: 0 <= i < n ==> line[i] == ' ') && !IsSpace(line[n]) && line[n] != '#'
    ensures IsContent(line)
    decreases |line|
  {
    if n > 0 {
      StripsTo(line[1..], n - 1);
    } else if IsSpace(line[|line| - 1]) {
      StripsTo(line[..|line| - 1], 0);
    }
  }
}
