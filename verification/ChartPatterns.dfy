/** The pinner's regular expressions as relations between a line and its captured groups.

    A pattern matches in the way its groups prefer: an indent and the spaces after a key take
    all they can, a value and a rest as little as they can. What the functions of `ChartLines`
    compute is shown to be that match.
 */
module ChartPatterns {
  import opened Options
  import opened Texts
  import opened ChartLines

  // ---- content and scalars ----------------------------------------------------------------

  /** The first character that is no blank. */
  predicate StartsAt(line: string, i: nat) {
    i < |line| && !IsSpace(line[i]) && forall j :: 0 <= j < i ==> IsSpace(line[j])
  }

  /** A line is content when it has a character that is no blank and the first one starts no comment. */
  lemma {:induction false} ContentIs(line: string)
    ensures IsContent(line) <==> exists i: nat :: StartsAt(line, i) && line[i] != '#'
    decreases |line|
  {
    if line == "" {
    } else if IsSpace(line[0]) {
      ContentIs(line[1..]);
      assert Strip(line) == Strip(line[1..]);
      forall i: nat | StartsAt(line, i) ensures i > 0 && StartsAt(line[1..], i - 1) && line[1..][i - 1] == line[i] {
        assert i > 0;
        assert forall j :: 0 <= j < i - 1 ==> line[1..][j] == line[j + 1];
      }
      if i: nat :| StartsAt(line[1..], i) && line[1..][i] != '#' {
        assert forall j :: 0 < j < i + 1 ==> line[j] == line[1..][j - 1];
        assert StartsAt(line, i + 1) && line[i + 1] == line[1..][i];
      }
    } else {
      assert StartsAt(line, 0);
      StripFirst(line);
      forall i: nat | StartsAt(line, i) ensures i == 0 { }
    }
  }

  /** Stripping a text that starts with no blank keeps its first character. */
  lemma {:induction false} StripFirst(s: string)
    requires s != "" && !IsSpace(s[0])
    ensures Strip(s) != "" && Strip(s)[0] == s[0]
    decreases |s|
  {
    if IsSpace(s[|s| - 1]) { StripFirst(s[..|s| - 1]); }
  }

  // ---- the digest pattern --------------------------------------------------------------------

  predicate IsValue(v: string) { '#' !in v && '\r' !in v && '\n' !in v }

  /** The groups cover the line in order. */
  ghost predicate Matches(line: string, m: DigestLine) {
    && line == Spaces(m.indent) + "digest:" + Spaces(m.space) + m.value + m.comment + m.eol
    && IsValue(m.value) && IsComment(m.comment) && NoBreaks(m.comment)
    && (m.eol == "" || m.eol == "\n" || m.eol == "\r\n")
  }

  /** `m` is preferred to `other`: it has more spaces after the key, or as many and a shorter value. */
  predicate Preferred(m: DigestLine, other: DigestLine) {
    m.space > other.space || (m.space == other.space && |m.value| < |other.value|)
  }

  /** The same for what follows the key. */
  ghost predicate Splits(after: string, v: ValueSplit) {
    after == Spaces(v.space) + v.value + v.comment && IsValue(v.value) && IsComment(v.comment) && NoBreaks(v.comment)
  }

  lemma SplitsBack(after: string)
    requires NoBreaks(after) && SplitValue(after).Some?
    ensures Splits(after, SplitValue(after).value)
  {
    SplitValueShape(after);
    SplitParts(after);
    hide SplitValue, IsComment;
    var v := SplitValue(after).value;
    forall c | c in v.value ensures c in after { assert c in Spaces(v.space) + v.value + v.comment; }
  }

  /** The parts cover what follows the key, and no comment begins inside the value. */
  lemma SplitParts(after: string)
    requires SplitValue(after).Some?
    ensures var v := SplitValue(after).value; after == Spaces(v.space) + v.value + v.comment && '#' !in v.value
  {
    var space := IndentOf(after);
    var r := after[space..];
    var h := Find(r, '#');
    HowSplit(after, space, r, h);
    IndentSpaces(after);
    hide *;
    if h == |r| {
      NoHash(r, h);
      assert r[..h] == r && r + "" == r;
    } else if h == 0 {
      MoreSpaces(space - 1);
      Regrouped(Spaces(space - 1), " ", r);
    } else {
      NoHash(r, SpaceRun(r, h));
      Rejoined(Spaces(space), r, SpaceRun(r, h));
    }
  }

  /** How what follows a key is split, from its indent and its first `#`. */
  lemma HowSplit(after: string, space: nat, r: string, h: nat)
    requires SplitValue(after).Some? && space == IndentOf(after) && r == after[space..] && h == Find(r, '#')
    ensures h <= |r| && SpaceRun(r, h) <= h
    ensures var v := SplitValue(after).value;
            if h == |r| then v == ValueSplit(space, r, "")
            else if h == 0 then space > 0 && v == ValueSplit(space - 1, "", " " + r)
            else v == ValueSplit(space, r[..SpaceRun(r, h)], r[SpaceRun(r, h)..])
  {
    hide IndentOf, Find;
  }

  lemma Regrouped(a: string, b: string, c: string)
    ensures a + "" + (b + c) == a + b + c
  {
  }

  lemma NoHash(r: string, n: nat)
    requires n <= Find(r, '#')
    ensures '#' !in r[..n]
  {
  }

  lemma SpacesThen(after: string, space: nat)
    requires space <= |after| && forall i :: 0 <= i < space ==> after[i] == ' '
    ensures after == Spaces(space) + after[space..]
  {
    IsSpaces(after, 0, space);
  }

  lemma Rejoined(a: string, r: string, n: nat)
    requires n <= |r|
    ensures a + r[..n] + r[n..] == a + r
  {
    assert r == r[..n] + r[n..];
  }

  lemma {:induction false} MoreSpaces(n: nat)
    ensures Spaces(n + 1) == Spaces(n) + " "
  {
    if n == 0 {
    } else {
      MoreSpaces(n - 1);
    }
  }

  lemma {:induction false} IsSpaces(s: string, from: nat, n: nat)
    requires from + n <= |s| && forall i :: from <= i < from + n ==> s[i] == ' '
    ensures s[from..from + n] == Spaces(n)
  {
  }

  /** Any other way to split is one the pattern prefers less. */
  lemma SplitsPreferred(after: string, v: ValueSplit)
    requires Splits(after, v)
    ensures SplitValue(after).Some?
    ensures var best := SplitValue(after).value;
            best == v || best.space > v.space || (best.space == v.space && |best.value| < |v.value|)
  {
    hide SplitValue;
    assert forall i :: 0 <= i < v.space ==> after[i] == ' ';
    if v.comment == "" { PlainPreferred(after, v); } else { CommentPreferred(after, v); }
  }

  lemma PlainPreferred(after: string, v: ValueSplit)
    requires Splits(after, v) && v.comment == ""
    ensures SplitValue(after).Some?
    ensures var best := SplitValue(after).value; best == v || best.space > v.space
  {
    var space := IndentOf(after);
    assert forall i :: 0 <= i < v.space ==> after[i] == ' ';
    assert v.space <= space;
    var r := after[space..];
    assert forall i :: v.space <= i < |after| ==> after[i] == v.value[i - v.space];
    FindNone(r, '#');
    if v.space == space { assert r == v.value; }
  }

  /** Where the comment's `#` stands, and what is in front of it. */
  lemma CommentAt(after: string, v: ValueSplit) returns (at: nat)
    requires Splits(after, v) && v.comment != ""
    ensures at == v.space + |v.value| + IndentOf(v.comment) && v.space + |v.value| < at < |after| && after[at] == '#'
    ensures forall i :: 0 <= i < at ==> after[i] != '#'
    ensures forall i :: v.space + |v.value| <= i < at ==> after[i] == ' '
  {
    at := v.space + |v.value| + IndentOf(v.comment);
    var front := v.space + |v.value|;
    assert forall i :: 0 <= i < |v.comment| ==> after[front + i] == v.comment[i];
    forall i | front <= i < at ensures after[i] == ' ' { assert after[i] == v.comment[i - front]; }
    forall i | v.space <= i < front ensures after[i] != '#' { assert after[i] == v.value[i - v.space]; }
  }

  lemma CommentPreferred(after: string, v: ValueSplit)
    requires Splits(after, v) && v.comment != ""
    ensures SplitValue(after).Some?
    ensures var best := SplitValue(after).value;
            best == v || best.space > v.space || (best.space == v.space && |best.value| < |v.value|)
  {
    var at := CommentAt(after, v);
    var space := IndentOf(after);
    assert forall i :: 0 <= i < v.space ==> after[i] == ' ';
    assert v.space <= space <= at;
    var r, h := after[space..], at - space;
    HashIs(r, h);
    hide IsComment, Find, IndentOf;
    if h == 0 {
      if v.space == space - 1 { OneSpace(after, v, space); }
    } else {
      var start := SpaceRun(r, h);
      assert r[h - 1] == after[at - 1] == ' ';
      assert start < h;
      if v.space == space { SameSpaces(after, v, r, h, start); }
    }
  }

  lemma OneSpace(after: string, v: ValueSplit, space: nat)
    requires Splits(after, v) && v.comment != "" && v.space + 1 == space < |after| && after[space] == '#'
    requires v.space + |v.value| + IndentOf(v.comment) == space && after[v.space] == ' '
    ensures v.value == "" && v.comment == " " + after[space..]
  {
    assert v.comment == after[v.space + |v.value|..];
    assert after[v.space..] == [after[v.space]] + after[space..];
  }

  lemma SameSpaces(after: string, v: ValueSplit, r: string, h: nat, start: nat)
    requires Splits(after, v) && r == after[v.space..] && h <= |r| && start == SpaceRun(r, h) && |v.value| < h
    requires forall i :: |v.value| <= i < h ==> r[i] == ' '
    ensures start <= |v.value|
    ensures start == |v.value| ==> r[..start] == v.value && r[start..] == v.comment
  {
    hide IsComment;
    assert r == v.value + v.comment;
  }

  /** What is read of a digest line covers it in the groups' order. */
  lemma DigestLineMatches(line: string)
    requires DigestLineOf(line).Some?
    ensures Matches(line, DigestLineOf(line).value)
  {
    hide *;
    var body := Body(line);
    var n := IndentOf(body);
    DigestLineRead(line, body, n);
    IndentSpaces(body);
    EolSplits(line);
    KeyFirst(body, n);
    var after, m := body[n + 7..], DigestLineOf(line).value;
    SplitsBack(after);
    SplitsAre(after, SplitValue(after).value);
    Covered(line, body, after, m);
    MatchesIs(line, m);
  }

  /** How a digest line is read, from its body and indent. */
  lemma DigestLineRead(line: string, body: string, n: nat)
    requires body == Body(line) && n == IndentOf(body)
    ensures DigestLineOf(line).Some? <==>
              NoBreaks(body) && DIGEST_KEY <= body[n..] && |body| >= n + 7 && SplitValue(body[n + 7..]).Some?
    ensures DigestLineOf(line).Some? ==>
              var v := SplitValue(body[n + 7..]).value;
              DigestLineOf(line).value == DigestLine(n, v.space, v.value, v.comment, Eol(line))
  {
    hide SplitValue, Body, Eol, IndentOf;
    assert |DIGEST_KEY| == 7;
  }

  lemma KeyFirst(body: string, n: nat)
    requires n + 7 <= |body| && DIGEST_KEY <= body[n..] && NoBreaks(body)
    ensures body[n..] == "digest:" + body[n + 7..] && NoBreaks(body[n + 7..])
  {
    assert DIGEST_KEY == "digest:";
    PrefixThen("digest:", body[n..]);
    assert body[n..][7..] == body[n + 7..];
    NoBreaksSlice(body, n + 7);
  }

  lemma SplitsAre(after: string, v: ValueSplit)
    requires Splits(after, v)
    ensures after == Spaces(v.space) + v.value + v.comment && IsValue(v.value) && IsComment(v.comment) && NoBreaks(v.comment)
  {
  }

  lemma MatchesIs(line: string, m: DigestLine)
    requires line == Spaces(m.indent) + "digest:" + Spaces(m.space) + m.value + m.comment + m.eol
    requires IsValue(m.value) && IsComment(m.comment) && NoBreaks(m.comment) && IsEol(m.eol)
    ensures Matches(line, m)
  {
  }

  lemma Covered(line: string, body: string, after: string, m: DigestLine)
    requires m.indent <= |body| && line == body + m.eol && body == Spaces(m.indent) + body[m.indent..]
    requires body[m.indent..] == "digest:" + after && after == Spaces(m.space) + m.value + m.comment
    ensures line == Spaces(m.indent) + "digest:" + Spaces(m.space) + m.value + m.comment + m.eol
  {
    hide Spaces;
    assert body == Spaces(m.indent) + "digest:" + Spaces(m.space) + m.value + m.comment;
  }

  lemma PrefixThen(a: string, text: string)
    requires a <= text
    ensures text == a + text[|a|..]
  {
  }

  /** A line that the pattern matches in any way is read, and as the way the pattern prefers. */
  lemma DigestLineIsPreferred(line: string, other: DigestLine)
    requires Matches(line, other)
    ensures DigestLineOf(line).Some?
    ensures var m := DigestLineOf(line).value;
            m == other || (m.indent == other.indent && m.eol == other.eol && Preferred(m, other))
  {
    var after := Spaces(other.space) + other.value + other.comment;
    var body := Spaces(other.indent) + ("digest:" + after);
    assert DIGEST_KEY == "digest:" && |"digest:"| == 7;
    hide *;
    MatchedParts(line, other, after, body);
    SplitsPreferred(after, ValueSplit(other.space, other.value, other.comment));
    PrefixLength("digest:", body[other.indent..]);
    DigestLineRead(line, body, other.indent);
    PreferredIs(DigestLineOf(line).value, other);
  }

  lemma PrefixLength(a: string, b: string)
    ensures a <= b ==> |a| <= |b|
  {
  }

  lemma PreferredIs(m: DigestLine, other: DigestLine)
    ensures m.space > other.space || (m.space == other.space && |m.value| < |other.value|) ==> Preferred(m, other)
  {
  }

  lemma MatchedParts(line: string, m: DigestLine, after: string, body: string)
    requires Matches(line, m) && after == Spaces(m.space) + m.value + m.comment && body == Spaces(m.indent) + ("digest:" + after)
    ensures Eol(line) == m.eol && Body(line) == body && NoBreaks(body)
    ensures IndentOf(body) == m.indent && "digest:" <= body[m.indent..] && body[m.indent + 7..] == after
    ensures Splits(after, ValueSplit(m.space, m.value, m.comment))
  {
    var key := "digest:";
    assert NoBreaks(m.value) && NoBreaks(key) && IsEol(m.eol);
    assert |key| == 7 && (key + after)[0] == 'd';
    hide *;
    Rearranged(Spaces(m.indent), key, Spaces(m.space), m.value, m.comment, m.eol);
    SpacesUnbroken(m.indent);
    SpacesUnbroken(m.space);
    UnbrokenConcat(Spaces(m.space), m.value);
    UnbrokenConcat(Spaces(m.space) + m.value, m.comment);
    UnbrokenConcat(key, after);
    UnbrokenConcat(Spaces(m.indent), key + after);
    EolConcat(body, m.eol);
    IndentOfConcat(m.indent, key + after);
    DropFront(Spaces(m.indent), key + after);
    DropFront(key, after);
    assert |Spaces(m.indent)| == m.indent;
    assert body[m.indent + 7..] == body[m.indent..][7..];
  }

  lemma Rearranged(a: string, b: string, c: string, d: string, e: string, f: string)
    ensures a + b + c + d + e + f == a + (b + (c + d + e)) + f
  {
  }

  lemma DropFront(a: string, b: string)
    ensures (a + b)[|a|..] == b && a <= a + b
  {
  }

  lemma SpacesUnbroken(n: nat)
    ensures NoBreaks(Spaces(n))
  {
  }

  lemma UnbrokenConcat(a: string, b: string)
    requires NoBreaks(a) && NoBreaks(b)
    ensures NoBreaks(a + b)
  {
  }

  // ---- the key pattern --------------------------------------------------------------------------

  predicate IsKey(key: string) {
    key != "" && forall i :: 0 <= i < |key| ==>
      'A' <= key[i] <= 'Z' || 'a' <= key[i] <= 'z' || '0' <= key[i] <= '9' || key[i] == '_' || key[i] == '-'
  }

  ghost predicate MatchesKey(line: string, indent: nat, k: KeyLine, eol: string) {
    && line == Spaces(indent) + k.key + ":" + k.rest + eol
    && IsKey(k.key) && '\n' !in k.rest && (eol == "" || eol == "\n" || eol == "\r\n")
  }

  /** What is read of a key line covers it, with nothing of the line ending in the rest. */
  lemma KeyLineMatches(line: string)
    requires KeyLineOf(line).Some?
    ensures MatchesKey(line, IndentOf(line), KeyLineOf(line).value, Eol(line))
    ensures Eol(line) == "" ==> line == "" || line[|line| - 1] != '\n'
    ensures Eol(line) == "\n" ==> |line| < 2 || line[|line| - 2] != '\r'
  {
    hide *;
    var body := Body(line);
    var n := IndentOf(body);
    var m := KeySpan(body[n..]);
    EolSplits(line);
    KeyLineRead(line, body, n, m);
    KeyChars(body[n..]);
    IndentSpaces(body);
    BodyIndent(line);
    KeyCovered(body, n, m);
    var key, rest := body[n..n + m], body[n + m + 1..];
    Parts(body, n, m);
    Associates(Spaces(n), key, ":", rest, Eol(line));
    MatchedKey(line, n, KeyLine(key, rest), Eol(line));
  }

  lemma Parts(body: string, n: nat, m: nat)
    requires n + m < |body|
    ensures body[n..][..m] == body[n..n + m]
    ensures '\n' !in body ==> '\n' !in body[n + m + 1..]
  {
  }

  lemma Associates(a: string, b: string, c: string, d: string, e: string)
    ensures a + b + c + d + e == a + (b + (c + d)) + e
  {
  }

  lemma IndentSpaces(body: string)
    ensures body == Spaces(IndentOf(body)) + body[IndentOf(body)..]
  {
    SpacesThen(body, IndentOf(body));
  }

  lemma MatchedKey(line: string, n: nat, k: KeyLine, eol: string)
    requires line == Spaces(n) + k.key + ":" + k.rest + eol && IsKey(k.key) && '\n' !in k.rest && IsEol(eol)
    ensures MatchesKey(line, n, k, eol)
  {
  }

  lemma EolSplits(line: string)
    ensures line == Body(line) + Eol(line) && IsEol(Eol(line))
    ensures Eol(line) == "" ==> line == "" || line[|line| - 1] != '\n'
    ensures Eol(line) == "\n" ==> |line| < 2 || line[|line| - 2] != '\r'
  {
  }

  /** How a key line is read, from its body, indent and key. */
  lemma KeyLineRead(line: string, body: string, n: nat, m: nat)
    requires body == Body(line) && n == IndentOf(body) && m == KeySpan(body[n..])
    ensures KeyLineOf(line).Some? <==> m > 0 && n + m < |body| && body[n + m] == ':' && '\n' !in body
    ensures KeyLineOf(line).Some? ==> KeyLineOf(line).value == KeyLine(body[n..n + m], body[n + m + 1..])
  {
    hide Body, IndentOf, KeySpan;
  }

  lemma KeyChars(s: string)
    requires KeySpan(s) > 0
    ensures IsKey(s[..KeySpan(s)])
  {
  }

  lemma KeyCovered(body: string, n: nat, m: nat)
    requires n + m < |body| && body[n + m] == ':'
    ensures body[n..] == body[n..n + m] + (":" + body[n + m + 1..])
  {
  }

  /** A line the pattern matches in any way is read with the same indent and key, and with no longer a rest. */
  lemma KeyLineIsPreferred(line: string, indent: nat, k: KeyLine, eol: string)
    requires MatchesKey(line, indent, k, eol)
    ensures KeyLineOf(line).Some? && KeyLineOf(line).value.key == k.key && IndentOf(line) == indent
    ensures KeyLineOf(line).value.rest == k.rest || |KeyLineOf(line).value.rest| < |k.rest|
  {
    assert k.key != "" && IsKeyChar(k.key[0]) && k.key[0] != ' ';
    KeyBody(line, indent, k, eol);
    var rest := if Eol(line) == eol then k.rest else k.rest[..|k.rest| - 1];
    assert '\n' !in rest by { assert forall c :: c in rest ==> c in k.rest; }
    KeyRead(line, indent, k.key, rest);
  }

  lemma KeyRead(line: string, indent: nat, key: string, rest: string)
    requires Body(line) == Spaces(indent) + (key + (":" + rest)) && IsKey(key) && '\n' !in rest
    ensures KeyLineOf(line) == Some(KeyLine(key, rest)) && IndentOf(line) == indent
  {
    hide *;
    var tail := key + (":" + rest);
    KeySpanOf(key, rest);
    IndentOfConcat(indent, tail);
    DropFront(Spaces(indent), tail);
    KeyBodyParts(Body(line), indent, key, rest);
    KeyLineRead(line, Body(line), indent, |key|);
    BodyIndent(line);
  }

  lemma KeySpanOf(key: string, rest: string)
    requires IsKey(key)
    ensures KeySpan(key + (":" + rest)) == |key| > 0 && (key + (":" + rest))[0] != ' ' && '\n' !in key
  {
    var tail := key + (":" + rest);
    assert forall i :: 0 <= i < |key| ==> tail[i] == key[i];
    assert tail[|key|] == ':';
    KeySpanIs(tail, |key|);
  }

  lemma KeyBodyParts(body: string, indent: nat, key: string, rest: string)
    requires body == Spaces(indent) + (key + (":" + rest)) && '\n' !in key && '\n' !in rest
    ensures |body| > indent + |key| && body[indent..indent + |key|] == key && body[indent + |key| + 1..] == rest
    ensures body[indent + |key|] == ':' && '\n' !in body
  {
    assert forall i :: 0 <= i < indent ==> body[i] == ' ';
    assert forall c :: c in body ==> c == ' ' || c in key || c == ':' || c in rest;
  }

  /** The body is the line's text, less a carriage return that belongs to its ending. */
  lemma KeyBody(line: string, indent: nat, k: KeyLine, eol: string)
    requires MatchesKey(line, indent, k, eol)
    ensures Eol(line) == eol || (eol == "\n" && Eol(line) == "\r\n" && k.rest != "")
    ensures Body(line) == Spaces(indent) + (k.key + (":" + if Eol(line) == eol then k.rest else k.rest[..|k.rest| - 1]))
  {
    var text := Spaces(indent) + k.key + ":" + k.rest;
    hide IsKey, Spaces;
    assert line == text + eol && text[|text| - |k.rest| - 1] == ':' && text[|text| - |k.rest|..] == k.rest;
    KeyEnding(line, text, k.rest, eol);
    if Eol(line) == eol {
      assert Body(line) == text;
      assert text == Spaces(indent) + (k.key + (":" + k.rest));
    } else {
      var short := k.rest[..|k.rest| - 1];
      assert k.rest == short + "\r";
      assert Body(line) == text[..|text| - 1];
      assert text[..|text| - 1] == Spaces(indent) + (k.key + (":" + short));
    }
  }

  lemma KeySpanIs(s: string, n: nat)
    requires n < |s| && !IsKeyChar(s[n]) && forall i :: 0 <= i < n ==> IsKeyChar(s[i])
    ensures KeySpan(s) == n
  {
    var k := KeySpan(s);
    assert !(k < n) && !(n < k);
  }

  /** The ending found is the one matched, or takes a carriage return from the rest. */
  lemma KeyEnding(line: string, text: string, rest: string, eol: string)
    requires line == text + eol && |text| > |rest| && text[|text| - |rest|..] == rest && text[|text| - |rest| - 1] == ':'
    requires '\n' !in rest && (eol == "" || eol == "\n" || eol == "\r\n")
    ensures Eol(line) == eol || (eol == "\n" && Eol(line) == "\r\n" && rest != "" && rest[|rest| - 1] == '\r')
  {
    var n := |line|;
    assert rest != "" ==> text[|text| - 1] == rest[|rest| - 1] && rest[|rest| - 1] in rest;
    if eol == "" {
      assert line[n - 1] == text[|text| - 1];
    } else if eol == "\n" {
      assert line[n - 1] == '\n' && line[n - 2] == text[|text| - 1];
    } else {
      assert line[n - 1] == '\n' && line[n - 2] == '\r';
    }
  }

  // ---- scalars ---------------------------------------------------------------------------------------

  predicate Blank(s: string) { forall i :: 0 <= i < |s| ==> IsSpace(s[i]) }

  /** A value with blanks around it and a comment behind a blank. */
  predicate HasValue(rest: string, front: string, v: string, back: string, comment: string) {
    && rest == front + v + back + comment && Blank(front) && Blank(back)
    && (v != "" ==> !IsSpace(v[0]) && !IsSpace(v[|v| - 1]))
    && (comment != "" ==> comment[0] == '#' && (front + v + back) != "" && IsSpace((front + v + back)[|front + v + back| - 1]))
    && forall i :: 0 < i < |front + v| ==> !((front + v)[i] == '#' && IsSpace((front + v)[i - 1]))
  }

  function Unquoted(v: string): string {
    if |v| >= 2 && v[0] == v[|v| - 1] && (v[0] == '"' || v[0] == '\'') then v[1..|v| - 1] else v
  }

  /** The scalar of a rest is its value, without the quotes around it. */
  lemma ScalarIs(rest: string, front: string, v: string, back: string, comment: string)
    requires HasValue(rest, front, v, back, comment)
    ensures ScalarOf(rest) == Unquoted(v)
  {
    var text := front + v + back;
    CommentStarts(rest, front, v, back, comment, 0);
    assert rest[..|text|] == text;
    StripBlanks(front, v, back);
  }

  lemma {:induction false} CommentStarts(rest: string, front: string, v: string, back: string, comment: string, from: nat)
    requires HasValue(rest, front, v, back, comment) && from <= |front + v + back|
    ensures CommentStart(rest, from) == |front + v + back|
    decreases |rest| - from
  {
    var text := front + v + back;
    if from == |text| {
      if comment != "" { assert rest[from] == '#' && rest[from - 1] == text[from - 1]; }
    } else {
      assert rest[from] == text[from];
      if from > 0 {
        assert rest[from - 1] == text[from - 1];
        if from < |front + v| {
          assert text[from] == (front + v)[from] && text[from - 1] == (front + v)[from - 1];
        } else {
          assert text[from] == back[from - |front + v|];
        }
      }
      CommentStarts(rest, front, v, back, comment, from + 1);
    }
  }

  lemma {:induction false} StripBlanks(front: string, v: string, back: string)
    requires Blank(front) && Blank(back) && (v != "" ==> !IsSpace(v[0]) && !IsSpace(v[|v| - 1]))
    ensures Strip(front + v + back) == v
    decreases |front| + |back|
  {
    var text := front + v + back;
    if front != "" {
      assert text[0] == front[0] && text[1..] == front[1..] + v + back;
      StripBlanks(front[1..], v, back);
    } else if back != "" {
      assert text[|text| - 1] == back[|back| - 1] && text[..|text| - 1] == front + v + back[..|back| - 1];
      if v == "" {
        assert text == back && text[1..] == front + v + back[1..];
        StripBlanks(front, v, back[1..]);
      } else {
        assert text[0] == v[0];
        StripBlanks(front, v, back[..|back| - 1]);
      }
    } else {
      assert text == v;
    }
  }
}
