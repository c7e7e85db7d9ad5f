/** The parts of `uv.lock` that the pin exporter reads, with its own validity checks.

    TOML is untyped until a record is checked, so a record is a map from field
    names to arbitrary TOML values, and every check the exporter performs is a
    function or predicate here.
 */
module LockRecords {
  import opened Options
  import opened Texts

  /** A parsed TOML value; `Scalar` stands for numbers, booleans and dates. */
  datatype Value =
    | Text(text: string)
    | List(items: seq<Value>)
    | Table(fields: map<string, Value>)
    | Scalar(code: int)

  type Record = map<string, Value>

  /** One checked entry of a dependency list. */
  datatype Dependency = Dependency(name: string, marker: Option<string>, extras: set<string>)

  function FieldOr(record: Record, field: string, default: Value): Value {
    if field in record then record[field] else default
  }

  // ---- names ---------------------------------------------------------------

  predicate IsSeparator(c: char) { c == '-' || c == '_' || c == '.' }

  function Lower(c: char): char {
    if 'A' <= c <= 'Z' then (c as int + 32) as char else c
  }

  /** PEP 503: each run of separators becomes one dash, letters become lower case. */
  function Normalize(name: string): string {
    if name == "" then ""
    else if IsSeparator(name[0]) then
      if |name| > 1 && IsSeparator(name[1]) then Normalize(name[1..]) else "-" + Normalize(name[1..])
    else [Lower(name[0])] + Normalize(name[1..])
  }

  /** The normalized name a record declares, if it declares one. */
  function PackageName(record: Record): Option<string> {
    if "name" in record && record["name"].Text? && Normalize(record["name"].text) != ""
    then Some(Normalize(record["name"].text))
    else None
  }

  // ---- dependency entries ----------------------------------------------------

  predicate ValidMarker(marker: string) {
    && (exists i :: 0 <= i < |marker| && !IsSpace(marker[i]))
    && '\r' !in marker && '\n' !in marker && ';' !in marker
  }

  predicate ValidExtras(value: Value) {
    value.List? && forall i :: 0 <= i < |value.items| ==> value.items[i].Text? && value.items[i].text != ""
  }

  function ExtraNames(value: Value): set<string>
    requires ValidExtras(value)
  {
    set i | 0 <= i < |value.items| :: value.items[i].text
  }

  /** A dependency entry when it passes every check made on an entry by itself. */
  function ParseDependency(value: Value): Option<Dependency> {
    if !value.Table? || PackageName(value.fields).None? then None
    else
      var record := value.fields;
      var extras := FieldOr(record, "extra", List([]));
      if !ValidExtras(extras) then None
      else if "marker" !in record then
        Some(Dependency(PackageName(record).value, None, ExtraNames(extras)))
      else if record["marker"].Text? && ValidMarker(record["marker"].text) then
        Some(Dependency(PackageName(record).value, Some(record["marker"].text), ExtraNames(extras)))
      else None
  }

  /** What an entry says, field by field: it is a table with a name, a marker that is a text
      with something in it and nothing that ends it, and a list of names as extras, the last
      two if it has them. */
  ghost predicate Says(entry: Record, d: Dependency) {
    && "name" in entry && entry["name"].Text? && d.name == Normalize(entry["name"].text) && d.name != ""
    && (if "marker" in entry
        then d.marker.Some? && entry["marker"] == Text(d.marker.value)
             && (exists c :: c in d.marker.value && !IsSpace(c))
             && (forall c :: c in d.marker.value ==> c != '\r' && c != '\n' && c != ';')
        else d.marker == None)
    && (if "extra" in entry
        then entry["extra"].List?
             && (forall v :: v in entry["extra"].items ==> v.Text? && v.text != "")
             && (forall x :: x in d.extras <==> Text(x) in entry["extra"].items)
        else d.extras == {})
  }

  lemma EntryReads(value: Value, d: Dependency)
    ensures ParseDependency(value) == Some(d) <==> value.Table? && Says(value.fields, d)
  {
    if value.Table? {
      var entry := value.fields;
      if "extra" in entry { ExtrasAre(entry["extra"]); }
      if "marker" in entry && entry["marker"].Text? { MarkerChars(entry["marker"].text); }
      assert ValidExtras(List([])) && ExtraNames(List([])) == {};
      hide ValidMarker, ValidExtras, ExtraNames, Normalize;
      if Says(entry, d) && "extra" in entry { assert d.extras == ExtraNames(entry["extra"]); }
    }
  }

  lemma ExtrasAre(value: Value)
    ensures ValidExtras(value) <==> value.List? && forall v :: v in value.items ==> v.Text? && v.text != ""
    ensures ValidExtras(value) ==> forall x :: x in ExtraNames(value) <==> Text(x) in value.items
  {
    if ValidExtras(value) {
      forall x ensures x in ExtraNames(value) <==> Text(x) in value.items {
        if Text(x) in value.items {
          var i :| 0 <= i < |value.items| && value.items[i] == Text(x);
          assert value.items[i].text in ExtraNames(value);
        }
      }
    }
  }

  lemma MarkerChars(marker: string)
    ensures ValidMarker(marker) <==>
            && (exists c :: c in marker && !IsSpace(c))
            && (forall c :: c in marker ==> c != '\r' && c != '\n' && c != ';')
  {
    if c :| c in marker && !IsSpace(c) {
      var i :| 0 <= i < |marker| && marker[i] == c;
    }
    if i :| 0 <= i < |marker| && !IsSpace(marker[i]) { assert marker[i] in marker; }
  }

  /** Some entry of the list `value` is the dependency `d`. */
  ghost predicate Lists(value: Value, d: Dependency) {
    value.List? && exists w :: w in value.items && ParseDependency(w) == Some(d)
  }

  /** A list every entry of which is valid, resolved by `names`, and listed once. */
  ghost predicate ValidList(names: set<string>, value: Value) {
    && value.List?
    && (forall i :: 0 <= i < |value.items| ==>
          ParseDependency(value.items[i]).Some? && ParseDependency(value.items[i]).value.name in names)
    && (forall i, j :: 0 <= i < j < |value.items| ==>
          ParseDependency(value.items[i]).value.name != ParseDependency(value.items[j]).value.name)
  }

  // ---- package records -------------------------------------------------------

  function Dependencies(record: Record): Value { FieldOr(record, "dependencies", List([])) }

  function Optional(record: Record): Value { FieldOr(record, "optional-dependencies", Table(map[])) }

  predicate IsRegistry(record: Record) {
    "source" in record && record["source"].Table? && "registry" in record["source"].fields
  }

  predicate IsHashRecord(value: Value) {
    && value.Table? && "hash" in value.fields
    && value.fields["hash"].Text? && IsSha256(value.fields["hash"].text)
  }

  /** The wheel records followed by the source distribution, if there is one. */
  function Artifacts(record: Record): seq<Value>
    requires FieldOr(record, "wheels", List([])).List?
  {
    FieldOr(record, "wheels", List([])).items + if "sdist" in record then [record["sdist"]] else []
  }

  predicate ValidHashes(record: Record) {
    && FieldOr(record, "wheels", List([])).List?
    && Artifacts(record) != []
    && forall i :: 0 <= i < |Artifacts(record)| ==> IsHashRecord(Artifacts(record)[i])
  }

  function Hashes(record: Record): set<string>
    requires ValidHashes(record)
  {
    set i | 0 <= i < |Artifacts(record)| :: Artifacts(record)[i].fields["hash"].text
  }

  predicate ValidVersion(record: Record) {
    "version" in record && record["version"].Text? && record["version"].text != ""
  }

  function Version(record: Record): string
    requires ValidVersion(record)
  {
    record["version"].text
  }

  predicate ValidSource(record: Record) {
    && "source" in record && record["source"].Table?
    && (IsRegistry(record) ==> ValidVersion(record) && ValidHashes(record))
  }

  // ---- what a package record says, field by field ----------------------------------------

  /** `w` is a wheel of the package or its source distribution. */
  ghost predicate IsArtifact(record: Record, w: Value) {
    || ("wheels" in record && record["wheels"].List? && w in record["wheels"].items)
    || ("sdist" in record && w == record["sdist"])
  }

  /** `w` records the hash `h`: the text `sha256:` and 64 lower-case hexadecimal digits. */
  ghost predicate Records(w: Value, h: string) {
    && w.Table? && "hash" in w.fields && w.fields["hash"] == Text(h)
    && |h| == 71 && "sha256:" <= h && forall c :: c in h[7..] ==> c in "0123456789abcdef"
  }

  /** A package declares its source; one from a registry has a version, wheels that are a list
      if it has them, and an artifact, every one with a hash. */
  ghost predicate SourceSays(record: Record) {
    && "source" in record && record["source"].Table?
    && ("registry" in record["source"].fields ==>
          && "version" in record && record["version"].Text? && record["version"].text != ""
          && ("wheels" in record ==> record["wheels"].List?)
          && (exists w :: IsArtifact(record, w))
          && (forall w :: IsArtifact(record, w) ==> exists h :: Records(w, h)))
  }

  lemma SourceReads(record: Record)
    ensures ValidSource(record) <==> SourceSays(record)
    ensures ValidSource(record) && "registry" in record["source"].fields ==>
              && IsRegistry(record) && record["version"] == Text(Version(record))
              && forall h :: h in Hashes(record) <==> exists w :: IsArtifact(record, w) && Records(w, h)
  {
    hide IsSha256;
    if FieldOr(record, "wheels", List([])).List? {
      ArtifactsAre(record);
      if ValidHashes(record) { HashesAre(record); }
    }
  }

  lemma ArtifactsAre(record: Record)
    requires FieldOr(record, "wheels", List([])).List?
    ensures forall w :: w in Artifacts(record) <==> IsArtifact(record, w)
    ensures Artifacts(record) != [] <==> exists w :: IsArtifact(record, w)
    ensures (forall i :: 0 <= i < |Artifacts(record)| ==> IsHashRecord(Artifacts(record)[i])) <==>
            forall w :: IsArtifact(record, w) ==> exists h :: Records(w, h)
  {
    var all := Artifacts(record);
    assert forall w :: w in all <==> IsArtifact(record, w);
    hide IsArtifact, Artifacts;
    if all != [] { assert all[0] in all; }
    forall w ensures IsHashRecord(w) <==> exists h :: Records(w, h) { HashRecordIs(w); }
    hide IsHashRecord, Records;
    if forall w :: IsArtifact(record, w) ==> exists h :: Records(w, h) {
      forall i | 0 <= i < |all| ensures IsHashRecord(all[i]) { assert all[i] in all; }
    }
  }

  lemma HashRecordIs(w: Value)
    ensures IsHashRecord(w) <==> exists h :: Records(w, h)
    ensures forall h :: Records(w, h) ==> w.fields["hash"].text == h
    ensures IsHashRecord(w) ==> Records(w, w.fields["hash"].text)
  {
    forall h ensures IsSha256(h) <==> |h| == 71 && "sha256:" <= h && forall c :: c in h[7..] ==> c in "0123456789abcdef" {
      Sha256Text(h);
    }
    hide IsSha256;
    if IsHashRecord(w) { assert Records(w, w.fields["hash"].text); }
  }

  lemma HashesAre(record: Record)
    requires ValidHashes(record)
    ensures forall h :: h in Hashes(record) <==> exists w :: IsArtifact(record, w) && Records(w, h)
  {
    var all := Artifacts(record);
    ArtifactsAre(record);
    forall w ensures IsHashRecord(w) ==> Records(w, w.fields["hash"].text)
             ensures forall h :: Records(w, h) ==> w.fields["hash"].text == h
    {
      HashRecordIs(w);
    }
    hide IsArtifact, Records, IsHashRecord;
    forall h ensures h in Hashes(record) <==> exists w :: IsArtifact(record, w) && Records(w, h) {
      if h in Hashes(record) {
        var i :| 0 <= i < |all| && all[i].fields["hash"].text == h;
        assert all[i] in all && Records(all[i], h);
      }
      if w :| IsArtifact(record, w) && Records(w, h) {
        var i :| 0 <= i < |all| && all[i] == w;
        assert all[i].fields["hash"].text in Hashes(record);
      }
    }
  }

  // ---- names in PEP 503's terms -------------------------------------------------------------

  /** A run of separators becomes one dash. */
  lemma {:induction false} SeparatorsNormalize(run: string)
    requires run != "" && forall i :: 0 <= i < |run| ==> run[i] == '-' || run[i] == '_' || run[i] == '.'
    ensures Normalize(run) == "-"
  {
    if |run| == 1 {
      assert Normalize(run[1..]) == "";
    } else {
      SeparatorsNormalize(run[1..]);
    }
  }

  /** Everything else stands as it is, letters in lower case. */
  lemma {:induction false} WordNormalizes(word: string)
    requires forall i :: 0 <= i < |word| ==> word[i] != '-' && word[i] != '_' && word[i] != '.'
    ensures |Normalize(word)| == |word|
    ensures forall i :: 0 <= i < |word| ==>
              Normalize(word)[i] == if 'A' <= word[i] <= 'Z' then word[i] - 'A' + 'a' else word[i]
  {
    if word == "" {
    } else {
      WordNormalizes(word[1..]);
    }
  }

  /** The parts of a name are normalized each by itself, unless the cut is inside a run. */
  lemma {:induction false} PartsNormalize(a: string, b: string)
    requires a == "" || b == "" || !IsSeparator(a[|a| - 1]) || !IsSeparator(b[0])
    ensures Normalize(a + b) == Normalize(a) + Normalize(b)
    decreases |a|
  {
    if a == "" {
      assert a + b == b;
    } else if b == "" {
      assert a + b == a;
    } else {
      assert (a + b)[1..] == a[1..] + b;
      PartsNormalize(a[1..], b);
      if |a| == 1 {
        assert a[1..] == "";
      } else {
        assert a[1..][|a| - 2] == a[|a| - 1];
      }
    }
  }
}
