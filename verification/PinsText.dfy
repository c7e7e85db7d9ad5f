/** The emitted requirement lines as text, and how an installer takes them apart. */
module PinsText {
  import opened Options
  import opened Texts
  import opened TextLines
  import opened LockRecords
  import opened DependencyGraph
  import opened MarkerText
  import opened DependencyPins
  import opened PinsMeaning

  // ---- writing --------------------------------------------------------------------

  const HASH: string := " --hash="

  function HashText(hashes: seq<string>): string {
    if hashes == [] then "" else HASH + hashes[0] + HashText(hashes[1..])
  }

  function Spec(name: string, version: string): string { name + "==" + version }

  /** A line in front of its options. */
  function Arguments(name: string, version: string, marker: Option<string>): string {
    Spec(name, version) + if marker.None? then "" else " ; " + marker.value
  }

  function Front(r: Requirement): string { Arguments(r.name, r.version, r.marker) }

  function LineText(r: Requirement): string { Front(r) + HashText(r.hashes) }

  function PrintedLines(lines: seq<Requirement>): seq<string> {
    seq(|lines|, i requires 0 <= i < |lines| => LineText(lines[i]) + "\n")
  }

  /** What the exporter prints: its lines, each ended by a newline, or a newline alone. */
  function Printed(lines: seq<Requirement>): string {
    if lines == [] then "\n" else Join(PrintedLines(lines))
  }

  // ---- reading --------------------------------------------------------------------

  /** `mark` stands at the start of the text or after the blank at `i`; before a comment any
      blank counts, before an option a space. */
  predicate MarkAt(text: string, i: nat, mark: char)
    requires i < |text|
  {
    || (i == 0 && text[0] == mark)
    || ((text[i] == ' ' || (mark == '#' && IsSpace(text[i]))) && i + 1 < |text| && text[i + 1] == mark)
  }

  /** Where `mark` first stands so, or the end. */
  function MarkFrom(text: string, i: nat, mark: char): (n: nat)
    requires i <= |text|
    ensures i <= n <= |text| && (n < |text| ==> MarkAt(text, n, mark)) && forall k :: i <= k < n ==> !MarkAt(text, k, mark)
    decreases |text| - i
  {
    if i == |text| || MarkAt(text, i, mark) then i else MarkFrom(text, i + 1, mark)
  }

  /** The values of a row of `--hash` options. */
  function ReadHashes(text: string): Option<seq<string>>
    decreases |text|
  {
    if text == "" then Some([])
    else if HASH <= text then
      var rest := text[|HASH|..];
      var n := Find(rest, ' ');
      var more := ReadHashes(rest[n..]);
      if more.Some? then Some([rest[..n]] + more.value) else None
    else None
  }

  /** Name and version around `==`. */
  function ReadSpec(spec: string): Option<(string, string)> {
    var k := Find(spec, '=');
    if k + 1 < |spec| && spec[k + 1] == '=' && (k + 2 < |spec| ==> spec[k + 2] != '=')
    then Some((spec[..k], spec[k + 2..])) else None
  }

  /** Name, version and the marker after the first `;`. */
  function ReadArguments(text: string): Option<(string, string, Option<string>)> {
    var j := Find(text, ';');
    if j == |text| then
      var spec := ReadSpec(text);
      if spec.Some? then Some((spec.value.0, spec.value.1, None)) else None
    else if 0 < j && j + 1 < |text| && text[j - 1] == ' ' && text[j + 1] == ' ' then
      var spec := ReadSpec(text[..j - 1]);
      if spec.Some? then Some((spec.value.0, spec.value.1, Some(text[j + 2..]))) else None
    else None
  }

  function ReadFields(text: string): Option<Requirement> {
    var n := MarkFrom(text, 0, '-');
    var arguments, hashes := ReadArguments(text[..n]), ReadHashes(text[n..]);
    if arguments.Some? && hashes.Some?
    then Some(Requirement(arguments.value.0, arguments.value.1, arguments.value.2, hashes.value)) else None
  }

  /** A requirement with its marker and hashes, comments left out. */
  function ReadLine(text: string): Option<Requirement> { ReadFields(text[..MarkFrom(text, 0, '#')]) }

  /** A line without what separates it from the next. */
  function Chomp(line: string): string {
    if |line| >= 2 && line[|line| - 2..] == "\r\n" then line[..|line| - 2]
    else if line != "" && IsBreak(line[|line| - 1]) then line[..|line| - 1]
    else line
  }

  /** The requirements of the lines that are not empty. */
  function ReadLines(lines: seq<string>): Option<seq<Requirement>> {
    if lines == [] then Some([])
    else if Chomp(lines[0]) == "" then ReadLines(lines[1..])
    else
      var first, more := ReadLine(Chomp(lines[0])), ReadLines(lines[1..]);
      if first.Some? && more.Some? then Some([first.value] + more.value) else None
  }

  function ReadText(text: string): Option<seq<Requirement>> { ReadLines(SplitLines(text)) }

  // ---- what is read was written so ------------------------------------------------------

  lemma {:induction false} HashesReadFrom(text: string)
    requires ReadHashes(text).Some?
    ensures HashText(ReadHashes(text).value) == text
    ensures forall i :: 0 <= i < |ReadHashes(text).value| ==> ' ' !in ReadHashes(text).value[i]
    decreases |text|
  {
    if text == "" {
    } else {
      hide ReadHashes, HASH;
      var value, more := FirstHashOf(text);
      HashesReadFrom(more);
      var read := ReadHashes(text).value;
      assert read[0] == value && read[1..] == ReadHashes(more).value;
      forall i | 0 <= i < |read| ensures ' ' !in read[i] {
        if i > 0 { assert read[i] == read[1..][i - 1]; }
      }
    }
  }

  lemma {:induction false} FirstHashRead(text: string)
    requires ReadHashes(text).Some? && text != ""
    ensures HASH <= text
    ensures var rest := text[|HASH|..];
            var n := Find(rest, ' ');
            ReadHashes(rest[n..]).Some? && ReadHashes(text).value == [rest[..n]] + ReadHashes(rest[n..]).value
  {
    hide HASH, Find;
  }

  lemma {:induction false} FirstHashOf(text: string) returns (value: string, more: string)
    requires ReadHashes(text).Some? && text != ""
    ensures text == HASH + value + more && |more| < |text| && ' ' !in value
    ensures ReadHashes(more).Some? && ReadHashes(text).value == [value] + ReadHashes(more).value
  {
    assert |HASH| > 0;
    hide HASH, Find, ReadHashes;
    FirstHashRead(text);
    var rest := text[|HASH|..];
    var n := Find(rest, ' ');
    value, more := rest[..n], rest[n..];
    PrefixAnd(HASH, text);
    Rejoined(HASH, rest, n);
  }

  lemma Rejoined(a: string, b: string, n: nat)
    requires n <= |b|
    ensures a + b[..n] + b[n..] == a + b
  {
    assert b == b[..n] + b[n..];
  }

  lemma PrefixAnd(a: string, text: string)
    requires a <= text
    ensures text == a + text[|a|..]
  {
  }

  lemma SpecReadFrom(spec: string)
    requires ReadSpec(spec).Some?
    ensures Spec(ReadSpec(spec).value.0, ReadSpec(spec).value.1) == spec
  {
  }

  lemma ArgumentsReadFrom(text: string)
    requires ReadArguments(text).Some?
    ensures var (name, version, marker) := ReadArguments(text).value; Arguments(name, version, marker) == text
  {
    hide ReadSpec;
    var j := Find(text, ';');
    SpecReadFrom(if j == |text| then text else text[..j - 1]);
    if j < |text| { assert text == text[..j - 1] + " ; " + text[j + 2..]; }
  }

  lemma FieldsReadFrom(text: string)
    requires ReadFields(text).Some?
    ensures LineText(ReadFields(text).value) == text
  {
    hide ReadArguments, ReadHashes, Arguments, HashText, MarkFrom;
    var n := MarkFrom(text, 0, '-');
    ArgumentsReadFrom(text[..n]);
    HashesReadFrom(text[n..]);
    assert text == text[..n] + text[n..];
  }

  // ---- one line reads back ------------------------------------------------------------

  predicate NoMark(text: string, mark: char) { forall i :: 0 <= i < |text| ==> !MarkAt(text, i, mark) }

  /** Nothing in the fields is taken for what separates them. */
  predicate PlainFields(r: Requirement) {
    && ';' !in Spec(r.name, r.version) && '=' !in r.name && (r.version != "" ==> r.version[0] != '=')
    && NoMark(Front(r), '-') && NoMark(LineText(r), '#')
    && (forall i :: 0 <= i < |r.hashes| ==> ' ' !in r.hashes[i])
  }

  lemma {:induction false} HashesRead(hashes: seq<string>)
    requires forall i :: 0 <= i < |hashes| ==> ' ' !in hashes[i]
    ensures ReadHashes(HashText(hashes)) == Some(hashes)
  {
    if hashes == [] {
    } else {
      HashesRead(hashes[1..]);
      HashEnds(hashes[0], hashes[1..]);
      FirstHash(hashes[0], HashText(hashes[1..]));
      assert [hashes[0]] + hashes[1..] == hashes;
    }
  }

  lemma FirstHash(value: string, more: string)
    requires Find(value + more, ' ') == |value| && ReadHashes(more).Some?
    ensures ReadHashes(HASH + value + more) == Some([value] + ReadHashes(more).value)
  {
    assert |HASH| > 0;
    hide HASH, Find;
    var rest := value + more;
    assert rest[..|value|] == value && rest[|value|..] == more;
    assert HASH + value + more == HASH + rest;
    PrefixOf(HASH, rest);
  }

  lemma PrefixOf(a: string, b: string)
    ensures a <= a + b && (a + b)[|a|..] == b
  {
  }

  lemma HashEnds(value: string, more: seq<string>)
    requires ' ' !in value
    ensures Find(value + HashText(more), ' ') == |value|
  {
    if more == [] {
      assert value + HashText(more) == value;
      FindNone(value, ' ');
    } else {
      HashesStart(more);
      var after := HashText(more)[1..];
      assert value + HashText(more) == value + [' '] + after;
      hide *;
      FindIs(value, ' ', after);
    }
  }

  lemma HashesStart(hashes: seq<string>)
    requires hashes != []
    ensures |HashText(hashes)| >= 2 && HashText(hashes)[0] == ' ' && HashText(hashes)[1] == '-'
  {
    assert HashText(hashes)[0] == HASH[0] && HashText(hashes)[1] == HASH[1];
  }

  lemma SpecRead(name: string, version: string)
    ensures ReadSpec(Spec(name, version)) == Some((name, version)) <==>
            '=' !in name && (version != "" ==> version[0] != '=')
  {
    var spec := name + "==" + version;
    if '=' !in name {
      assert spec == name + ['='] + ("=" + version);
      FindIs(name, '=', "=" + version);
      assert spec[..|name|] == name && spec[|name| + 2..] == version;
    } else {
      var i :| 0 <= i < |name| && name[i] == '=';
      assert spec[i] == '=';
    }
  }

  lemma ArgumentsRead(name: string, version: string, marker: Option<string>)
    ensures ReadArguments(Arguments(name, version, marker)) == Some((name, version, marker)) <==>
            ';' !in Spec(name, version) && '=' !in name && (version != "" ==> version[0] != '=')
  {
    hide ReadSpec;
    var text, spec := Arguments(name, version, marker), Spec(name, version);
    if ';' !in spec {
      SpecRead(name, version);
      if marker.None? {
        assert text == spec;
        FindNone(spec, ';');
      } else {
        assert text == (spec + " ") + [';'] + (" " + marker.value);
        FindIs(spec + " ", ';', " " + marker.value);
        assert text[..|spec|] == spec && text[|spec| + 3..] == marker.value;
      }
    } else {
      var i :| 0 <= i < |spec| && spec[i] == ';';
      assert text[i] == ';';
      if ReadArguments(text).Some? { SpecReadFrom(text[..Find(text, ';') - 1]); }
    }
  }

  /** Options begin right after the front of a line exactly when none begins inside it. */
  lemma OptionsAfter(front: string, hashes: seq<string>)
    ensures MarkFrom(front + HashText(hashes), 0, '-') == |front| <==> NoMark(front, '-')
  {
    hide HashText;
    var text := front + HashText(hashes);
    if hashes == [] {
      assert HashText([]) == "" by { NoHashes(); }
      assert text == front;
    } else {
      HashesStart(hashes);
      assert text[|front|] == ' ' && text[|front| + 1] == '-';
      assert forall i :: 0 <= i < |front| ==> (MarkAt(text, i, '-') <==> MarkAt(front, i, '-'));
      assert MarkAt(text, |front|, '-');
    }
  }

  lemma NoHashes()
    ensures HashText([]) == ""
  {
  }

  lemma FieldsReadBack(r: Requirement)
    ensures ReadFields(LineText(r)) == Some(r) <==>
            && ';' !in Spec(r.name, r.version) && '=' !in r.name && (r.version != "" ==> r.version[0] != '=')
            && NoMark(Front(r), '-') && forall i :: 0 <= i < |r.hashes| ==> ' ' !in r.hashes[i]
  {
    hide ReadArguments, ReadHashes, MarkFrom, Arguments, HashText, MarkAt, Spec;
    var text, front := LineText(r), Front(r);
    var n := MarkFrom(text, 0, '-');
    OptionsAfter(front, r.hashes);
    ArgumentsRead(r.name, r.version, r.marker);
    assert text[..|front|] == front && text[|front|..] == HashText(r.hashes);
    if forall i :: 0 <= i < |r.hashes| ==> ' ' !in r.hashes[i] { HashesRead(r.hashes); }
    if ReadFields(text) == Some(r) {
      HashesReadFrom(text[n..]);
      assert |text| - n == |HashText(r.hashes)|;
    }
  }

  /** An emitted line reads back as its record exactly when its fields are plain. */
  lemma LineReadsBack(r: Requirement)
    ensures ReadLine(LineText(r)) == Some(r) <==> PlainFields(r)
  {
    hide ReadFields, LineText, Spec, Front, MarkAt;
    var text := LineText(r);
    var n := MarkFrom(text, 0, '#');
    FieldsReadBack(r);
    if n == |text| {
      assert text[..n] == text;
    } else if ReadLine(text) == Some(r) {
      FieldsReadFrom(text[..n]);
      assert false;
    }
  }

  // ---- the whole text reads back ----------------------------------------------------------

  predicate Unbroken(text: string) { forall i :: 0 <= i < |text| ==> !IsBreak(text[i]) }

  predicate PlainLines(lines: seq<Requirement>) {
    forall i :: 0 <= i < |lines| ==> PlainFields(lines[i]) && Unbroken(LineText(lines[i]))
  }

  lemma NewlineEnds(text: string)
    requires Unbroken(text)
    ensures IsLine(text + "\n") && Chomp(text + "\n") == text
  {
    var line := text + "\n";
    assert forall i :: 0 <= i < |text| ==> line[i] == text[i];
    LineEndIs(line, |text|);
    if |line| >= 2 { assert line[|line| - 2..][0] == text[|text| - 1]; }
  }

  lemma PrintedSplits(lines: seq<Requirement>)
    requires forall i :: 0 <= i < |lines| ==> Unbroken(LineText(lines[i]))
    ensures SplitLines(Join(PrintedLines(lines))) == PrintedLines(lines)
  {
    hide LineText, LineEnd, SplitLines, Join;
    var printed := PrintedLines(lines);
    forall i | 0 <= i < |printed| ensures IsLine(printed[i]) { NewlineEnds(LineText(lines[i])); }
    SplitJoins(printed);
  }

  lemma {:induction false} PrintedRead(lines: seq<Requirement>)
    requires forall i :: 0 <= i < |lines| ==> Unbroken(LineText(lines[i]))
    ensures ReadLines(PrintedLines(lines)) == Some(lines) <==> forall i :: 0 <= i < |lines| ==> PlainFields(lines[i])
    decreases |lines|
  {
    hide LineText, Chomp, ReadLine, PlainFields, Unbroken;
    if lines == [] {
    } else {
      assert PrintedLines(lines)[1..] == PrintedLines(lines[1..]);
      PrintedRead(lines[1..]);
      NewlineEnds(LineText(lines[0]));
      LineReadsBack(lines[0]);
      assert LineText(lines[0]) != "" by { LineNotEmpty(lines[0]); }
      assert lines == [lines[0]] + lines[1..];
    }
  }

  lemma LineNotEmpty(r: Requirement)
    ensures LineText(r) != ""
  {
    assert |LineText(r)| >= 2;
  }

  lemma ChompedUnbroken(line: string)
    requires IsLine(line)
    ensures Unbroken(Chomp(line))
  {
    hide IsLine;
    forall i | 0 <= i < |Chomp(line)| ensures !IsBreak(Chomp(line)[i]) {
      if IsBreak(line[i]) && i < |line| - 1 { LineInner(line, i); }
    }
  }

  /** Whatever is read from lines has no line break in it. */
  lemma {:induction false} ReadUnbroken(lines: seq<string>)
    requires (forall i :: 0 <= i < |lines| ==> IsLine(lines[i])) && ReadLines(lines).Some?
    ensures forall i :: 0 <= i < |ReadLines(lines).value| ==> Unbroken(LineText(ReadLines(lines).value[i]))
    decreases |lines|
  {
    hide LineText, Chomp, ReadFields, IsLine, MarkFrom;
    if lines == [] {
    } else {
      ReadUnbroken(lines[1..]);
      var text := Chomp(lines[0]);
      if text != "" {
        ChompedUnbroken(lines[0]);
        FieldsReadFrom(text[..MarkFrom(text, 0, '#')]);
      }
    }
  }

  /** The printed text reads back as the exported records exactly when their fields are plain
      and no field breaks a line. */
  lemma TextReadsBack(lines: seq<Requirement>)
    ensures ReadText(Printed(lines)) == Some(lines) <==> PlainLines(lines)
  {
    hide LineText, ReadLines, SplitLines, Join, PlainFields, Unbroken, IsLine;
    if lines == [] {
      NothingPrinted();
    } else {
      var text := Join(PrintedLines(lines));
      if ReadText(text) == Some(lines) {
        SplitIsLines(text);
        ReadUnbroken(SplitLines(text));
      }
      if forall i :: 0 <= i < |lines| ==> Unbroken(LineText(lines[i])) {
        PrintedSplits(lines);
        PrintedRead(lines);
      }
    }
  }

  lemma NothingPrinted()
    ensures ReadText("\n") == Some([])
  {
    assert LineEnd("\n") == 1;
    assert "\n"[..1] == "\n" && "\n"[1..] == "";
    assert SplitLines("\n") == ["\n"];
    assert Chomp("\n") == "";
  }

  /** What is installed from the printed text: in a lock whose markers are markers, with plain
      fields, a package has a line that applies exactly when it is a registry package other than
      the runner and some chain to it holds. */
  lemma PrintedMeaning(index: Index, lines: seq<Requirement>, env: Environment, name: string)
    requires Accepted(index) && IsExport(index, lines) && MarkersReadable(index) && PlainLines(lines)
    ensures ReadText(Printed(lines)).Some?
    ensures var read := ReadText(Printed(lines)).value;
            (exists i :: 0 <= i < |read| && read[i].name == name && Applies(read[i], env)) <==>
            (name != RUNNER && name in index && IsRegistry(index[name]) &&
             exists chain :: ChainTo(index, chain, name) && ChainHolds(chain, env))
  {
    hide *;
    TextReadsBack(lines);
    MinimalReadable(index, name);
    ExportMeaning(index, lines, env, name);
  }

  /** A version is only checked for being there. One that holds a `;` is accepted like any
      other, and the emitted line reads as a shorter version with a marker no chain gives. */
  lemma VersionAddsMarker(record: Record, name: string, version: string, marker: string, hashes: seq<string>)
    requires PlainFields(Requirement(name, version, Some(marker), hashes)) && ValidSource(record) && IsRegistry(record)
    ensures var text := version + " ; " + marker;
            && ValidSource(record["version" := Text(text)]) && Version(record["version" := Text(text)]) == text
            && ReadLine(LineText(Requirement(name, text, None, hashes))) == Some(Requirement(name, version, Some(marker), hashes))
  {
    VersionAccepted(record, version + " ; " + marker);
    var a, b := Requirement(name, version + " ; " + marker, None, hashes), Requirement(name, version, Some(marker), hashes);
    assert Front(a) == Front(b) by { MarkerInVersion(name, version, marker); }
    assert LineText(a) == LineText(b);
    hide *;
    LineReadsBack(b);
  }

  lemma VersionAccepted(record: Record, text: string)
    requires ValidSource(record) && IsRegistry(record) && text != ""
    ensures var changed := record["version" := Text(text)]; ValidSource(changed) && Version(changed) == text
  {
    var changed := record["version" := Text(text)];
    assert FieldOr(changed, "wheels", List([])) == FieldOr(record, "wheels", List([]));
    assert Artifacts(changed) == Artifacts(record);
    hide IsHashRecord;
  }

  lemma MarkerInVersion(name: string, version: string, marker: string)
    ensures Arguments(name, version + " ; " + marker, None) == Arguments(name, version, Some(marker))
  {
    assert name + "==" + (version + " ; " + marker) == name + "==" + version + (" ; " + marker);
  }

  /** A line as it is written. */
  lemma LineWritten(name: string, version: string, marker: string, a: string, b: string)
    ensures LineText(Requirement(name, version, None, [a])) == name + "==" + version + " --hash=" + a
    ensures LineText(Requirement(name, version, Some(marker), [a, b])) ==
            name + "==" + version + " ; " + marker + " --hash=" + a + " --hash=" + b
  {
    assert [a, b][1..] == [b] && [b][1..] == [] && [a][1..] == [];
    assert HashText([b]) == " --hash=" + b;
    assert HashText([a]) == " --hash=" + a;
    assert HashText([a, b]) == " --hash=" + a + HashText([b]);
  }

  /** A comment begins with a `#` at the start of a line or behind a blank of any kind, an option
      with a dash at the start or behind a space. */
  lemma MarksAre(text: string, i: nat)
    requires i < |text|
    ensures MarkAt(text, i, '#') <==> (i == 0 && text[0] == '#') || (IsSpace(text[i]) && i + 1 < |text| && text[i + 1] == '#')
    ensures MarkAt(text, i, '-') <==> (i == 0 && text[0] == '-') || (text[i] == ' ' && i + 1 < |text| && text[i + 1] == '-')
  {
    assert IsSpace(' ');
  }
}
