/** A values file that can be pinned, with the separator its digest lines end in left open. */
module ChartFile {
  import opened Options
  import opened Texts
  import opened ChartLines
  import opened ChartDigests
  import opened TextLines
  import opened ValuesText

  // ---- the file -------------------------------------------------------------------------------

  /** Line `k`: four lines for each image, the last of them its empty digest. */
  function LineAt(separator: string, k: nat): string
    requires k < 24
  {
    var image := IMAGES[k / 4];
    if k % 4 == 0 then KeyLineText(0, image.top, "")
    else if k % 4 == 1 then KeyLineText(2, image.block, "")
    else if k % 4 == 2 then KeyLineText(4, image.repositoryKey, " " + Repository(image))
    else Spaces(4) + (DIGEST_KEY + (" \"\"" + separator))
  }

  function KeyLineText(indent: nat, key: string, rest: string): string { Spaces(indent) + (key + (":" + rest)) + "\n" }

  function FileLines(separator: string): (lines: seq<string>)
    ensures |lines| == 24 && forall k :: 0 <= k < 24 ==> lines[k] == LineAt(separator, k)
  {
    seq(24, k requires 0 <= k < 24 => LineAt(separator, k))
  }

  predicate IsSeparator(separator: string) { separator == "\n" || separator == "\U{b}" }

  // ---- its lines ---------------------------------------------------------------------------------

  predicate IsKey(key: string) { key != "" && forall i :: 0 <= i < |key| ==> IsKeyChar(key[i]) }

  /** Neither blank nor comment nor quote nor break in it. */
  predicate IsPlainText(text: string) {
    text != "" && forall i :: 0 <= i < |text| ==> !IsSpace(text[i]) && text[i] != '#' && !IsQuote(text[i])
  }

  lemma KeySpanIs(key: string, rest: string)
    requires forall i :: 0 <= i < |key| ==> IsKeyChar(key[i])
    ensures KeySpan(key + (":" + rest)) == |key|
  {
    var s := key + (":" + rest);
    var n := KeySpan(s);
    assert s[|key|] == ':' && forall i :: 0 <= i < |key| ==> s[i] == key[i];
    assert !(n < |key|) && !(n > |key|);
  }

  /** A key line is content at its indent, under its key. */
  lemma KeyLineRead(indent: nat, key: string, rest: string)
    requires IsKey(key) && NoBreaks(rest)
    ensures var line := KeyLineText(indent, key, rest);
            && KeyLineOf(line) == Some(KeyLine(key, rest)) && ShapeOf(line) == Shape(true, indent, Some(key))
            && Body(line) == Spaces(indent) + (key + (":" + rest)) && Eol(line) == "\n"
  {
    hide KeySpan, Eol, Body, IndentOf, IsContent, KeyLineOf, NoBreaks, IsKeyChar, IsSpace;
    var tail := key + (":" + rest);
    var body := Spaces(indent) + tail;
    KeyNoBreaks(key);
    BodyNoBreaks(indent, key, rest);
    EolConcat(body, "\n");
    KeyFirst(key);
    assert tail[0] == key[0];
    IndentOfConcat(indent, tail);
    BodyRead(body + "\n", indent, key, rest);
    var line := body + "\n";
    assert line[indent] == key[0];
    IndentIs(line, indent);
    StripsTo(line, indent);
  }

  lemma KeyFirst(key: string)
    requires IsKey(key)
    ensures key[0] != ' ' && key[0] != '#' && !IsSpace(key[0])
  {
    assert IsKeyChar(key[0]);
  }

  lemma BodyNoBreaks(indent: nat, key: string, rest: string)
    requires NoBreaks(key) && NoBreaks(rest)
    ensures NoBreaks(Spaces(indent) + (key + (":" + rest)))
  {
  }

  lemma BodyRead(line: string, indent: nat, key: string, rest: string)
    requires IsKey(key) && Body(line) == Spaces(indent) + (key + (":" + rest)) && NoBreaks(Body(line))
    requires IndentOf(Body(line)) == indent
    ensures KeyLineOf(line) == Some(KeyLine(key, rest))
  {
    hide KeySpan, Eol, Body, IndentOf, IsKeyChar;
    var body, tail := Body(line), key + (":" + rest);
    assert body[indent..] == tail;
    KeySpanIs(key, rest);
    assert body[indent..indent + |key|] == key && body[indent + |key|] == ':' && body[indent + |key| + 1..] == rest;
  }

  lemma KeyNoBreaks(key: string)
    requires IsKey(key)
    ensures NoBreaks(key)
  {
  }

  lemma ImageKeys(i: nat)
    requires i < |IMAGES|
    ensures IsKey(IMAGES[i].top) && IsKey(IMAGES[i].block) && IsKey(IMAGES[i].repositoryKey)
    ensures IMAGES[i].repositoryKey != "digest"
  {
    hide IsKey;
    TopKeys(i);
    BlockKeys();
  }

  lemma TopKeys(i: nat)
    requires i < |IMAGES|
    ensures IsKey(IMAGES[i].top)
  {
  }

  lemma BlockKeys()
    ensures IsKey("image") && IsKey("runner") && IsKey("repository")
  {
  }

  lemma ImageNames(i: nat)
    requires i < |IMAGES|
    ensures IsPlainText(IMAGES[i].name)
  {
    hide IsSpace, IsQuote;
    NameLetters(i);
    forall k | 0 <= k < |IMAGES[i].name|
      ensures !IsSpace(IMAGES[i].name[k]) && IMAGES[i].name[k] != '#' && !IsQuote(IMAGES[i].name[k])
    {
      LetterIsPlain(IMAGES[i].name[k]);
    }
  }

  predicate IsNameLetter(c: char) { 'a' <= c <= 'z' || '-' <= c <= '/' }

  lemma NameLetters(i: nat)
    requires i < |IMAGES|
    ensures IMAGES[i].name != "" && forall k :: 0 <= k < |IMAGES[i].name| ==> IsNameLetter(IMAGES[i].name[k])
  {
  }

  lemma LetterIsPlain(c: char)
    requires IsNameLetter(c)
    ensures !IsSpace(c) && c != '#' && !IsQuote(c)
  {
  }

  lemma RepositoryText(i: nat)
    requires i < |IMAGES|
    ensures IsPlainText(Repository(IMAGES[i])) && NoBreaks(" " + Repository(IMAGES[i]))
  {
    ImageNames(i);
    PrefixText();
    hide IsSpace, IsQuote;
    var r := PREFIX + IMAGES[i].name;
    assert forall k :: 0 <= k < |r| ==> r[k] == if k < |PREFIX| then PREFIX[k] else IMAGES[i].name[k - |PREFIX|];
    PlainNoBreaks(r);
  }

  lemma PrefixText()
    ensures IsPlainText(PREFIX)
  {
    hide IsSpace, IsQuote;
    assert forall k :: 0 <= k < |PREFIX| ==> IsNameLetter(PREFIX[k]);
    forall k | 0 <= k < |PREFIX| ensures !IsSpace(PREFIX[k]) && PREFIX[k] != '#' && !IsQuote(PREFIX[k]) {
      LetterIsPlain(PREFIX[k]);
    }
  }

  lemma PlainNoBreaks(text: string)
    requires IsPlainText(text)
    ensures NoBreaks(" " + text)
  {
    assert IsSpace('\r') && IsSpace('\n');
  }

  /** The scalar of a plain text after a blank is the text. */
  lemma PlainScalar(text: string)
    requires IsPlainText(text)
    ensures ScalarOf(" " + text) == text
  {
    var rest := " " + text;
    NoComment(rest, 0);
    assert rest[..|rest|] == rest && rest[1..] == text;
    assert Strip(rest) == Strip(text) == text;
  }

  // ---- digest lines -----------------------------------------------------------------------------

  lemma DigestLineRead(separator: string)
    requires IsSeparator(separator)
    ensures var line := Spaces(4) + (DIGEST_KEY + (" \"\"" + separator));
            && DigestLineOf(line).Some? && ScalarOf(DigestLineOf(line).value.value) == ""
            && (KeepsSeparator(line) <==> separator == "\n")
  {
    hide SplitValue, Body, Eol, IndentOf, ScalarOf, DigestLineOf;
    var line := Spaces(4) + (DIGEST_KEY + (" \"\"" + separator));
    var value, eol := if separator == "\n" then "\"\"" else "\"\"\U{b}", if separator == "\n" then "\n" else "";
    var rest := " " + value;
    var body := Spaces(4) + (DIGEST_KEY + rest);
    assert line == body + eol;
    assert NoBreaks(body);
    EolConcat(body, eol);
    IndentOfConcat(4, DIGEST_KEY + rest);
    assert body[4..] == DIGEST_KEY + rest;
    EmptyValue(value);
    ReadsAs(line, 4, rest, ValueSplit(1, value, ""));
  }

  lemma EmptyValue(value: string)
    requires value == "\"\"" || value == "\"\"\U{b}"
    ensures SplitValue(" " + value) == Some(ValueSplit(1, value, "")) && ScalarOf(value) == ""
  {
    hide SpaceRun, IndentOf, Find, CommentStart;
    var after := " " + value;
    IndentIs(after, 1);
    assert after[1..] == value;
    HashIs(value, |value|);
    NoComment(value, 0);
    assert value[..|value|] == value;
    if |value| == 3 {
      assert value[..2] == "\"\"";
      assert Strip(value) == Strip(value[..2]);
    }
    assert Strip("\"\"") == "\"\"";
  }

  // ---- shapes ------------------------------------------------------------------------------------

  function ShapeAt(k: nat): Shape
    requires k < 24
  {
    var image := IMAGES[k / 4];
    if k % 4 == 0 then Shape(true, 0, Some(image.top))
    else if k % 4 == 1 then Shape(true, 2, Some(image.block))
    else if k % 4 == 2 then Shape(true, 4, Some(image.repositoryKey))
    else Shape(true, 4, Some("digest"))
  }

  lemma LineShapes(separator: string, k: nat)
    requires IsSeparator(separator) && k < 24
    ensures ShapeOf(LineAt(separator, k)) == ShapeAt(k)
  {
    hide ShapeOf, KeyLineText, DigestLineOf, KeepsSeparator, IsKey, NoBreaks, IMAGES;
    var i := k / 4;
    SixImages();
    ImageKeys(i);
    RepositoryText(i);
    if k % 4 == 0 {
      NoBreaksEmpty();
      KeyLineRead(0, IMAGES[i].top, "");
    } else if k % 4 == 1 {
      NoBreaksEmpty();
      KeyLineRead(2, IMAGES[i].block, "");
    } else if k % 4 == 2 {
      KeyLineRead(4, IMAGES[i].repositoryKey, " " + Repository(IMAGES[i]));
    } else {
      DigestLineRead(separator);
      DigestShape(LineAt(separator, k));
      DigestIndent(separator);
    }
  }

  lemma NoBreaksEmpty()
    ensures NoBreaks("")
  {
  }

  lemma DigestIndent(separator: string)
    requires IsSeparator(separator) && DigestLineOf(Spaces(4) + (DIGEST_KEY + (" \"\"" + separator))).Some?
    ensures DigestLineOf(Spaces(4) + (DIGEST_KEY + (" \"\"" + separator))).value.indent == 4
  {
    hide DigestLineOf, IndentOf;
    var line := Spaces(4) + (DIGEST_KEY + (" \"\"" + separator));
    DigestLineShape(line);
    IndentOfConcat(4, DIGEST_KEY + (" \"\"" + separator));
  }

  /** A child whose key no other child has is found under it. */
  lemma ChildFound(shapes: seq<Shape>, start: nat, end: nat, i: nat)
    requires start <= end <= |shapes| && IsChild(shapes, start, end, i)
    requires forall j: nat, k: nat ::
               (IsChild(shapes, start, end, j) && IsChild(shapes, start, end, k) && shapes[j].key == shapes[k].key) ==> j == k
    ensures Child(shapes, start, end, shapes[i].key.value) == Some(i)
  {
    hide FirstContent;
    var c := map j: nat | start <= j < end && IsChild(shapes, start, end, j) :: shapes[j].key.value := j;
    assert IsChildMap(shapes, start, end, c);
    ChildMapUnique(shapes, start, end, c);
  }

  ghost predicate HasFileShapes(shapes: seq<Shape>) {
    |shapes| == 24 && forall k :: 0 <= k < 24 ==> shapes[k] == ShapeAt(k)
  }

  lemma FileShapes(separator: string)
    requires IsSeparator(separator)
    ensures HasFileShapes(ShapesOf(FileLines(separator)))
  {
    hide ShapeOf, LineAt, ShapeAt;
    forall k | 0 <= k < 24 ensures ShapeOf(FileLines(separator)[k]) == ShapeAt(k) { LineShapes(separator, k); }
  }

  lemma FirstIs(shapes: seq<Shape>, start: nat, end: nat)
    requires start < end <= |shapes| && shapes[start].content
    ensures FirstContent(shapes, start, end) == start
  {
  }

  /** The top lines are the children of the file, each with its own key. */
  lemma TopFound(shapes: seq<Shape>, i: nat)
    requires HasFileShapes(shapes) && i < 6
    ensures Child(shapes, 0, 24, IMAGES[i].top) == Some(4 * i)
  {
    hide FirstContent, Child, IMAGES;
    SixImages();
    FirstIs(shapes, 0, 24);
    forall k: nat ensures IsChild(shapes, 0, 24, k) <==> k < 24 && k % 4 == 0 {}
    forall j: nat, k: nat | IsChild(shapes, 0, 24, j) && IsChild(shapes, 0, 24, k) && shapes[j].key == shapes[k].key
      ensures j == k
    {
      if j / 4 < k / 4 { TopsDiffer(j / 4, k / 4); } else if k / 4 < j / 4 { TopsDiffer(k / 4, j / 4); }
    }
    ChildFound(shapes, 0, 24, 4 * i);
  }

  lemma {:induction false} ShallowIs(shapes: seq<Shape>, from: nat, end: nat, indent: nat)
    requires from <= end <= |shapes| && (end < |shapes| ==> shapes[end].content && shapes[end].indent <= indent)
    requires forall j :: from <= j < end ==> shapes[j].indent > indent
    ensures FirstShallow(shapes, from, indent) == end
    decreases end - from
  {
    if from == end {
    } else {
      ShallowIs(shapes, from + 1, end, indent);
    }
  }

  lemma BlockFound(shapes: seq<Shape>, i: nat)
    requires HasFileShapes(shapes) && i < 6
    ensures Header(shapes, IMAGES[i]) == Some(4 * i + 1)
  {
    hide FirstContent, Child, IMAGES, FirstShallow, BlockEndOf, ShapeAt;
    SixImages();
    TopFound(shapes, i);
    FourLines(shapes, i);
    var start, end := 4 * i + 1, 4 * i + 4;
    FirstIs(shapes, start, end);
    forall k: nat ensures IsChild(shapes, start, end, k) <==> k == start {
      if start < k < end { assert k == start + 1 || k == start + 2; }
    }
    ChildFound(shapes, start, end, start);
  }

  /** The lines of one image, and where its blocks end. */
  lemma FourLines(shapes: seq<Shape>, i: nat)
    requires HasFileShapes(shapes) && i < 6
    ensures shapes[4 * i] == Shape(true, 0, Some(IMAGES[i].top)) && shapes[4 * i + 1] == Shape(true, 2, Some(IMAGES[i].block))
    ensures shapes[4 * i + 2] == Shape(true, 4, Some(IMAGES[i].repositoryKey))
    ensures shapes[4 * i + 3] == Shape(true, 4, Some("digest"))
    ensures BlockEndOf(shapes, 4 * i) == 4 * i + 4 && BlockEndOf(shapes, 4 * i + 1) == 4 * i + 4
  {
    hide FirstShallow, IMAGES;
    SixImages();
    var n := 4 * i;
    assert n / 4 == i && (n + 1) / 4 == i && (n + 2) / 4 == i && (n + 3) / 4 == i;
    assert n % 4 == 0 && (n + 1) % 4 == 1 && (n + 2) % 4 == 2 && (n + 3) % 4 == 3;
    assert n + 4 < 24 ==> (n + 4) % 4 == 0 && shapes[n + 4].content && shapes[n + 4].indent == 0;
    ShallowIs(shapes, n + 1, n + 4, 0);
    ShallowIs(shapes, n + 2, n + 4, 2);
  }

  lemma FieldsFound(shapes: seq<Shape>, i: nat)
    requires HasFileShapes(shapes) && i < 6
    ensures Field(shapes, IMAGES[i], IMAGES[i].repositoryKey) == Some(4 * i + 2)
    ensures Field(shapes, IMAGES[i], "digest") == Some(4 * i + 3)
  {
    hide FirstContent, Child, IMAGES, Header, BlockEndOf, ShapeAt;
    SixImages();
    BlockFound(shapes, i);
    FourLines(shapes, i);
    ImageKeys(i);
    var start, end := 4 * i + 2, 4 * i + 4;
    FirstIs(shapes, start, end);
    forall k: nat ensures IsChild(shapes, start, end, k) <==> k == start || k == start + 1 {}
    ChildFound(shapes, start, end, start);
    ChildFound(shapes, start, end, start + 1);
  }

  // ---- the file can be pinned ----------------------------------------------------------------------

  lemma FileReady(separator: string, i: nat)
    requires IsSeparator(separator) && i < 6
    ensures Ready(FileLines(separator), IMAGES[i]) && DigestAt(FileLines(separator), IMAGES[i]) == 4 * i + 3
  {
    hide Field, ShapesOf, KeyLineOf, ScalarOf, DigestLineOf, KeepsSeparator, IMAGES, KeyLineText, IsPlainText, IsKey, ShapeOf, NoBreaks;
    SixImages();
    var lines := FileLines(separator);
    FileShapes(separator);
    FieldsFound(ShapesOf(lines), i);
    RepositoryText(i);
    ImageKeys(i);
    assert (4 * i + 2) / 4 == i && (4 * i + 2) % 4 == 2 && (4 * i + 3) / 4 == i && (4 * i + 3) % 4 == 3;
    assert lines[4 * i + 2] == KeyLineText(4, IMAGES[i].repositoryKey, " " + Repository(IMAGES[i]));
    KeyLineRead(4, IMAGES[i].repositoryKey, " " + Repository(IMAGES[i]));
    PlainScalar(Repository(IMAGES[i]));
    DigestLineRead(separator);
  }

  lemma FileAllReady(separator: string)
    requires IsSeparator(separator)
    ensures AllReady(FileLines(separator))
  {
    hide Ready, IMAGES;
    assert |IMAGES| == 6 by { SixImages(); }
    forall i | 0 <= i < |IMAGES| ensures Ready(FileLines(separator), IMAGES[i]) { FileReady(separator, i); }
  }

  lemma SixImages()
    ensures |IMAGES| == 6
  {
  }

  // ---- the file as text --------------------------------------------------------------------------------

  lemma SimpleLine(body: string, c: char)
    requires (forall i :: 0 <= i < |body| ==> !IsBreak(body[i])) && IsBreak(c) && c != '\r'
    ensures IsLine(body + [c]) && forall next: string :: next != "" ==> Ends(body + [c], next)
  {
    LineEndIs(body + [c], |body|);
  }

  lemma KeyLineIsLine(indent: nat, key: string, rest: string)
    requires IsKey(key) && forall i :: 0 <= i < |rest| ==> !IsBreak(rest[i])
    ensures IsLine(KeyLineText(indent, key, rest))
    ensures forall next: string :: next != "" ==> Ends(KeyLineText(indent, key, rest), next)
  {
    hide IsLine, Ends;
    var body := Spaces(indent) + (key + (":" + rest));
    forall i | 0 <= i < |body| ensures !IsBreak(body[i]) {
      assert body[i] == if i < indent then ' ' else if i < indent + |key| then key[i - indent]
                        else if i == indent + |key| then ':' else rest[i - indent - |key| - 1];
    }
    SimpleLine(body, '\n');
  }

  lemma PlainNoBreak(text: string)
    requires IsPlainText(text)
    ensures forall i :: 0 <= i < |" " + text| ==> !IsBreak((" " + text)[i])
  {
    BreakIsSpace();
    hide IsSpace, IsBreak;
  }

  lemma DigestIsLine(separator: string)
    requires IsSeparator(separator)
    ensures var line := Spaces(4) + (DIGEST_KEY + (" \"\"" + separator));
            IsLine(line) && forall next: string :: next != "" ==> Ends(line, next)
  {
    hide IsLine, Ends;
    var body := Spaces(4) + (DIGEST_KEY + " \"\"");
    assert Spaces(4) + (DIGEST_KEY + (" \"\"" + separator)) == body + [separator[0]];
    SimpleLine(body, separator[0]);
  }

  lemma FileIsLines(separator: string)
    requires IsSeparator(separator)
    ensures AreLines(FileLines(separator))
  {
    hide IsLine, Ends, IMAGES, KeyLineText, IsKey, IsPlainText, IsBreak;
    SixImages();
    forall k | 0 <= k < 24
      ensures IsLine(LineAt(separator, k)) && LineAt(separator, k) != ""
      ensures forall next: string :: next != "" ==> Ends(LineAt(separator, k), next)
    {
      var i := k / 4;
      ImageKeys(i);
      RepositoryText(i);
      PlainNoBreak(Repository(IMAGES[i]));
      if k % 4 == 0 { KeyLineIsLine(0, IMAGES[i].top, ""); }
      else if k % 4 == 1 { KeyLineIsLine(2, IMAGES[i].block, ""); }
      else if k % 4 == 2 { KeyLineIsLine(4, IMAGES[i].repositoryKey, " " + Repository(IMAGES[i])); }
      else { DigestIsLine(separator); }
      LineNotEmpty(LineAt(separator, k));
    }
  }

  /** The file can be pinned whether its digest lines end in newlines or in vertical tabs; the
      pinned text splits into the pinned lines with newlines, and not with vertical tabs. */
  lemma SeparatorDecides(separator: string, digests: map<string, string>, pinned: seq<string>)
    requires IsSeparator(separator) && AllDigests(digests)
    ensures var text := Join(FileLines(separator));
            && AllReady(SplitLines(text))
            && (IsPinned(SplitLines(text), digests, pinned) ==> (SplitLines(Join(pinned)) == pinned <==> separator == "\n"))
  {
    hide IsPinned, AreLines, SplitLines, Join, Ready, DigestAt, IMAGES, DigestLineOf, KeepsSeparator, LineAt;
    var lines := FileLines(separator);
    FileIsLines(separator);
    SplitJoins(lines);
    FileAllReady(separator);
    SixImages();
    forall i | 0 <= i < 6
      ensures Ready(lines, IMAGES[i]) && DigestAt(lines, IMAGES[i]) == 4 * i + 3 && DigestLineOf(lines[4 * i + 3]).Some?
      ensures KeepsSeparator(lines[4 * i + 3]) <==> separator == "\n"
    {
      FileReady(separator, i);
      DigestLineRead(separator);
      assert lines[4 * i + 3] == Spaces(4) + (DIGEST_KEY + (" \"\"" + separator)) by { DigestLineAt(separator, i); }
    }
    assert SeparatorsKept(lines) <==> separator == "\n" by {
      if SeparatorsKept(lines) { assert DigestAt(lines, IMAGES[0]) == 3; }
    }
    if IsPinned(lines, digests, pinned) { PinnedTextSplits(Join(lines), digests, pinned); }
  }

  lemma DigestLineAt(separator: string, i: nat)
    requires i < 6
    ensures FileLines(separator)[4 * i + 3] == Spaces(4) + (DIGEST_KEY + (" \"\"" + separator))
  {
    hide KeyLineText, IMAGES;
    SixImages();
    assert (4 * i + 3) % 4 == 3;
  }

  // ---- the file's text ----------------------------------------------------------------------------

  /** The block of an image: its place in the chart, its repository and an empty digest. */
  function BlockText(top: string, block: string, key: string, name: string, separator: string): seq<string> {
    [top + ":\n", "  " + block + ":\n", "    " + key + ": ghcr.io/curie-eng/curie-" + name + "\n", "    digest: \"\"" + separator]
  }

  /** The file, line by line. */
  lemma FileWritten(separator: string)
    ensures FileLines(separator) ==
            BlockText("api", "image", "repository", "api", separator)
            + BlockText("dispatcher", "image", "repository", "dispatcher", separator)
            + BlockText("mailAdapter", "image", "repository", "mail-adapter", separator)
            + BlockText("worker", "image", "repository", "worker", separator)
            + BlockText("ui", "image", "repository", "ui", separator)
            + BlockText("agentSandbox", "runner", "image", "runner", separator)
  {
    hide LineAt;
    var lines := FileLines(separator);
    SixImages();
    FirstBlocks(separator);
    LastBlocks(separator);
    assert lines == lines[..4] + lines[4..8] + lines[8..12] + lines[12..16] + lines[16..20] + lines[20..];
  }

  lemma FirstBlocks(separator: string)
    ensures var lines := FileLines(separator);
            && lines[..4] == BlockText("api", "image", "repository", "api", separator)
            && lines[4..8] == BlockText("dispatcher", "image", "repository", "dispatcher", separator)
            && lines[8..12] == BlockText("mailAdapter", "image", "repository", "mail-adapter", separator)
  {
    hide LineAt, BlockText;
    BlockWritten(separator, 0);
    BlockWritten(separator, 1);
    BlockWritten(separator, 2);
  }

  lemma LastBlocks(separator: string)
    ensures var lines := FileLines(separator);
            && lines[12..16] == BlockText("worker", "image", "repository", "worker", separator)
            && lines[16..20] == BlockText("ui", "image", "repository", "ui", separator)
            && lines[20..] == BlockText("agentSandbox", "runner", "image", "runner", separator)
  {
    hide LineAt, BlockText;
    BlockWritten(separator, 3);
    BlockWritten(separator, 4);
    BlockWritten(separator, 5);
    var lines := FileLines(separator);
    assert lines[20..] == lines[20..24];
  }

  lemma BlockWritten(separator: string, i: nat)
    requires i < 6 && |IMAGES| == 6
    ensures var image := IMAGES[i];
            FileLines(separator)[4 * i..4 * i + 4] == BlockText(image.top, image.block, image.repositoryKey, image.name, separator)
  {
    hide *;
    BlockLines(separator, i);
    BlockIs(IMAGES[i], separator);
    FourOf(FileLines(separator), 4 * i);
  }

  lemma FourOf(lines: seq<string>, at: nat)
    requires at + 4 <= |lines|
    ensures lines[at..at + 4] == [lines[at], lines[at + 1], lines[at + 2], lines[at + 3]]
  {
  }

  lemma BlockIs(image: Image, separator: string)
    ensures BlockText(image.top, image.block, image.repositoryKey, image.name, separator) ==
            [KeyLineText(0, image.top, ""), KeyLineText(2, image.block, ""),
             KeyLineText(4, image.repositoryKey, " " + Repository(image)), Spaces(4) + (DIGEST_KEY + (" \"\"" + separator))]
  {
    hide KeyLineText, Spaces, Repository, DIGEST_KEY;
    KeyTexts(image, separator);
  }

  lemma BlockLines(separator: string, i: nat)
    requires i < 6 && |IMAGES| == 6
    ensures var image, lines := IMAGES[i], FileLines(separator);
            && lines[4 * i] == KeyLineText(0, image.top, "")
            && lines[4 * i + 1] == KeyLineText(2, image.block, "")
            && lines[4 * i + 2] == KeyLineText(4, image.repositoryKey, " " + Repository(image))
            && lines[4 * i + 3] == Spaces(4) + (DIGEST_KEY + (" \"\"" + separator))
  {
    hide IMAGES, KeyLineText, Spaces, Repository, DIGEST_KEY;
    assert (4 * i) / 4 == i && (4 * i + 1) / 4 == i && (4 * i + 2) / 4 == i && (4 * i + 3) / 4 == i;
  }

  lemma KeyTexts(image: Image, separator: string)
    ensures KeyLineText(0, image.top, "") == image.top + ":\n"
    ensures KeyLineText(2, image.block, "") == "  " + image.block + ":\n"
    ensures KeyLineText(4, image.repositoryKey, " " + Repository(image)) ==
            "    " + image.repositoryKey + ": ghcr.io/curie-eng/curie-" + image.name + "\n"
    ensures Spaces(4) + (DIGEST_KEY + (" \"\"" + separator)) == "    digest: \"\"" + separator
  {
    assert Spaces(2) == " " + Spaces(1) && Spaces(1) == " " + Spaces(0);
    assert Spaces(4) == " " + Spaces(3) && Spaces(3) == " " + Spaces(2);
    assert PREFIX == "ghcr.io/curie-eng/curie-" && DIGEST_KEY == "digest:";
    hide *;
    assert Spaces(4) == "    " && Spaces(2) == "  " && Spaces(0) == "";
    Written(image.repositoryKey, PREFIX, image.name);
  }

  lemma Written(key: string, prefix: string, name: string)
    ensures "    " + (key + (":" + (" " + (prefix + name)))) + "\n" == "    " + key + (": " + prefix) + name + "\n"
  {
  }
}
