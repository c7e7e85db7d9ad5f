/** The exporter as a whole: from a parsed lock to the sorted requirement lines. */
module DependencyPins {
  import opened Options
  import opened LockRecords
  import opened DependencyGraph
  import opened DependencyWalk
  import opened MarkerText
  import opened Orders

  /** One emitted line: `name==version [; marker] --hash=...`. */
  datatype Requirement = Requirement(name: string, version: string, marker: Option<string>, hashes: seq<string>)

  // ---- the package index ----------------------------------------------------------

  predicate NamedTable(value: Value) { value.Table? && PackageName(value.fields).Some? }

  function NameOf(value: Value): string
    requires NamedTable(value)
  {
    PackageName(value.fields).value
  }

  /** Records by normalized name, when every record is a named table and no name repeats. */
  function IndexOf(packages: seq<Value>): Option<Index> {
    if packages == [] then Some(map[])
    else
      var last := packages[|packages| - 1];
      var before := IndexOf(packages[..|packages| - 1]);
      if before.Some? && NamedTable(last) && NameOf(last) !in before.value
      then Some(before.value[NameOf(last) := last.fields])
      else None
  }

  ghost predicate NamedOnce(packages: seq<Value>) {
    && (forall i :: 0 <= i < |packages| ==> NamedTable(packages[i]))
    && (forall i, j :: 0 <= i < j < |packages| ==> NameOf(packages[i]) != NameOf(packages[j]))
  }

  lemma {:induction false} IndexOfRecords(packages: seq<Value>)
    ensures IndexOf(packages).Some? <==> NamedOnce(packages)
    ensures IndexOf(packages).Some? ==>
              forall i :: 0 <= i < |packages| ==>
                && NameOf(packages[i]) in IndexOf(packages).value
                && IndexOf(packages).value[NameOf(packages[i])] == packages[i].fields
    ensures IndexOf(packages).Some? ==>
              IndexOf(packages).value.Keys == set i | 0 <= i < |packages| :: NameOf(packages[i])
  {
    hide NamedTable, NameOf;
    if packages == [] {
    } else {
      var n := |packages| - 1;
      var before := packages[..n];
      IndexOfRecords(before);
      assert forall i :: 0 <= i < n ==> before[i] == packages[i];
      if IndexOf(before).Some? && NamedTable(packages[n]) {
        assert NameOf(packages[n]) in IndexOf(before).value <==>
               exists i :: 0 <= i < n && NameOf(packages[i]) == NameOf(packages[n]);
      }
    }
  }

  method BuildIndex(packages: seq<Value>) returns (index: Option<Index>)
    ensures index == IndexOf(packages)
  {
    var built: Index := map[];
    for i := 0 to |packages|
      invariant IndexOf(packages[..i]) == Some(built)
    {
      var package := packages[i];
      assert packages[..i + 1][..i] == packages[..i];
      if !NamedTable(package) || NameOf(package) in built {
        IndexPrefix(packages, i + 1);
        return None;
      }
      built := built[NameOf(package) := package.fields];
    }
    assert packages[..|packages|] == packages;
    return Some(built);
  }

  lemma {:induction false} IndexPrefix(packages: seq<Value>, n: nat)
    requires n <= |packages| && IndexOf(packages[..n]).None?
    ensures IndexOf(packages).None?
    decreases |packages| - n
  {
    if n < |packages| {
      assert packages[..n + 1][..n] == packages[..n];
      IndexPrefix(packages, n + 1);
    } else {
      assert packages[..n] == packages;
    }
  }

  // ---- what the export must be -----------------------------------------------------

  predicate HasDependencyList(record: Record) {
    "dependencies" in record && record["dependencies"].List?
  }

  /** The lock resolves the runner, and every state any chain reaches is sound. */
  ghost predicate Accepted(index: Index) {
    && RUNNER in index
    && HasDependencyList(index[RUNNER])
    && forall s :: Reachable(index, s) ==> Sound(index, s)
  }

  /** Packages that need a line: reachable registry packages other than the runner. */
  ghost predicate Needed(index: Index, name: string) {
    name != RUNNER && name in index && IsRegistry(index[name]) && exists c :: Arrives(index, name, c)
  }

  function PathMarkers(paths: seq<seq<string>>): (texts: seq<string>)
    requires forall i :: 0 <= i < |paths| ==> paths[i] != []
    ensures |texts| == |paths| && forall i :: 0 <= i < |paths| ==> texts[i] == PathMarker(paths[i])
  {
    if paths == [] then [] else [PathMarker(paths[0])] + PathMarkers(paths[1..])
  }

  /** The sorted marker lists of some condition sets, themselves sorted. */
  ghost predicate SortedPaths(paths: seq<seq<string>>, conditions: set<set<string>>) {
    && Ascending(TextsLe, paths)
    && (forall p :: p in paths ==> Ascending(TextLe, p))
    && forall c :: c in conditions <==> exists p :: p in paths && Elements(p) == c
  }

  /** No marker when some path has none; otherwise the sorted paths rendered. */
  ghost predicate Renders(conditions: set<set<string>>, marker: Option<string>) {
    if {} in conditions then marker == None
    else exists paths :: SortedPaths(paths, conditions) && RendersPaths(paths, marker)
  }

  ghost predicate RendersPaths(paths: seq<seq<string>>, marker: Option<string>) {
    && paths != [] && (forall i :: 0 <= i < |paths| ==> paths[i] != [])
    && marker == Some(CombinedMarker(PathMarkers(paths)))
  }

  /** `r` is the line of package `name`: rendered from its minimal condition sets. */
  ghost predicate LineFor(index: Index, name: string, r: Requirement) {
    && r.name == name && name in index && ValidSource(index[name]) && IsRegistry(index[name])
    && r.version == Version(index[name])
    && Listing(TextLe, r.hashes, Hashes(index[name]))
    && exists conditions :: IsMinimalSets(index, name, conditions) && Renders(conditions, r.marker)
  }

  ghost predicate IsMinimalSets(index: Index, name: string, conditions: set<set<string>>) {
    forall c :: c in conditions <==> Minimal(index, name, c)
  }

  /** One line per needed package, in name order. */
  ghost predicate IsExport(index: Index, lines: seq<Requirement>) {
    && (forall i, j :: 0 <= i < j < |lines| ==> TextLe(lines[i].name, lines[j].name) && lines[i].name != lines[j].name)
    && (forall i :: 0 <= i < |lines| ==> LineFor(index, lines[i].name, lines[i]))
    && (forall n :: Needed(index, n) <==> exists i :: 0 <= i < |lines| && lines[i].name == n)
  }

  // ---- what a completed walk has found -----------------------------------------------

  /** The walk's condition sets are exactly the inclusion-minimal ones, it has traversed
      every reachable package, and every reachable state is sound. */
  lemma WalkComplete(index: Index, traversed: Traversal, conditions: Conditions)
    requires Consistent(index, traversed, conditions)
    requires SettledSince(index, iset{}, States(traversed)) && Covered(States(traversed), ROOT)
    ensures forall s :: Reachable(index, s) ==> Sound(index, s) && Covered(States(traversed), s)
    ensures forall n, c :: (n in conditions && c in conditions[n]) <==> Minimal(index, n, c)
  {
    hide *;
    AllCovered(index, traversed);
    forall s | Reachable(index, s)
      ensures Sound(index, s) && Covered(States(traversed), s) && Dominated(conditions, s)
    {
      FromSubsuming(index, traversed, conditions, s);
    }
    ConsistentSets(index, traversed, conditions);
    forall n, c ensures (n in conditions && c in conditions[n]) <==> Minimal(index, n, c) {
      MinimalIsKnown(index, conditions, n, c);
    }
  }

  lemma ConsistentSets(index: Index, traversed: Traversal, conditions: Conditions)
    requires Consistent(index, traversed, conditions)
    ensures forall n, c :: n in conditions && c in conditions[n] ==> Arrives(index, n, c)
    ensures forall n :: n in conditions ==> Antichain(conditions[n])
  {
  }

  lemma FromSubsuming(index: Index, traversed: Traversal, conditions: Conditions, s: State)
    requires Consistent(index, traversed, conditions)
    requires exists t :: t in States(traversed) && Subsumes(t, s) && Sound(index, t)
    ensures Sound(index, s) && Covered(States(traversed), s) && Dominated(conditions, s)
  {
    hide Reachable, Universe, States, Arrives, Antichain, Sound;
    var t :| t in States(traversed) && Subsumes(t, s) && Sound(index, t);
    SoundSubsumed(index, t, s);
  }

  lemma AllCovered(index: Index, traversed: Traversal)
    requires SettledSince(index, iset{}, States(traversed)) && Covered(States(traversed), ROOT)
    ensures forall s :: Reachable(index, s) ==> exists t :: t in States(traversed) && Subsumes(t, s) && Sound(index, t)
  {
    hide Sound, Edge, States, Subsumes, Follow;
    var states := States(traversed);
    assert ClosedCover(index, states);
    forall s | Reachable(index, s) ensures exists t :: t in states && Subsumes(t, s) && Sound(index, t) {
      var chain :| ReachedBy(index, s, chain);
      ClosedCoverReaches(index, states, ROOT, chain);
      var t :| t in states && Subsumes(t, s);
      assert Settled(index, states, t);
    }
  }

  lemma MinimalIsKnown(index: Index, conditions: Conditions, n: string, c: set<string>)
    requires forall s :: Reachable(index, s) ==> Dominated(conditions, s)
    requires forall n, c :: n in conditions && c in conditions[n] ==> Arrives(index, n, c)
    requires forall n :: n in conditions ==> Antichain(conditions[n])
    ensures (n in conditions && c in conditions[n]) <==> Minimal(index, n, c)
  {
    hide Reachable;
    if n in conditions && c in conditions[n] {
      forall b | Arrives(index, n, b) && b <= c ensures b == c {
        var s :| Reachable(index, s) && s.name == n && s.conditions == b;
        var k :| k in conditions[n] && k <= b;
        assert k == c;
      }
    }
    if Minimal(index, n, c) {
      var s :| Reachable(index, s) && s.name == n && s.conditions == c;
      var k :| k in conditions[n] && k <= c;
      assert Arrives(index, n, k);
    }
  }

  // ---- the export ---------------------------------------------------------------------

  ghost predicate LockAccepted(lock: Record) {
    && "package" in lock && lock["package"].List?
    && IndexOf(lock["package"].items).Some?
    && Accepted(IndexOf(lock["package"].items).value)
  }

  /** Sort the markers of each path, sort the paths, and render them. */
  method RenderConditions(conditions: set<set<string>>) returns (marker: Option<string>)
    requires conditions != {}
    ensures Renders(conditions, marker)
  {
    if {} in conditions { return None; }
    TextOrders();
    var rest := conditions;
    var keys: set<seq<string>> := {};
    while rest != {}
      invariant rest <= conditions
      invariant forall k :: k in keys ==> Ascending(TextLe, k) && Elements(k) in conditions - rest
      invariant forall c :: c in conditions - rest ==> exists k :: k in keys && Elements(k) == c
      decreases rest
    {
      var c :| c in rest;
      var key := Sort(TextLe, c);
      ghost var before := keys;
      keys := keys + {key};
      assert key in keys && Elements(key) == c;
      forall d | d in conditions - (rest - {c}) ensures exists k :: k in keys && Elements(k) == d {
        if d != c {
          assert d in conditions - rest;
          var k :| k in before && Elements(k) == d;
          assert k in keys;
        }
      }
      rest := rest - {c};
    }
    var paths := Sort(TextsLe, keys);
    assert conditions - rest == conditions;
    PathsOfKeys(conditions, keys, paths);
    assert SortedPaths(paths, conditions) && RendersPaths(paths, Some(CombinedMarker(PathMarkers(paths))));
    return Some(CombinedMarker(PathMarkers(paths)));
  }

  lemma PathsOfKeys(conditions: set<set<string>>, keys: set<seq<string>>, paths: seq<seq<string>>)
    requires conditions != {} && {} !in conditions && Listing(TextsLe, paths, keys)
    requires forall k :: k in keys ==> Ascending(TextLe, k) && Elements(k) in conditions
    requires forall c :: c in conditions ==> exists k :: k in keys && Elements(k) == c
    ensures SortedPaths(paths, conditions) && paths != [] && forall i :: 0 <= i < |paths| ==> paths[i] != []
  {
    hide TextLe, TextsLe;
    assert forall p :: p in paths <==> p in keys;
    var c :| c in conditions;
    var k :| k in keys && Elements(k) == c;
    assert k in paths;
    forall i | 0 <= i < |paths| ensures paths[i] != [] {
      assert paths[i] in keys;
      assert Elements(paths[i]) != {};
    }
  }

  /** What a successful walk recorded about one pinned package. */
  lemma PinnedLine(index: Index, traversed: Traversal, conditions: Conditions, name: string)
    requires Consistent(index, traversed, conditions)
    requires forall n, c :: (n in conditions && c in conditions[n]) <==> Minimal(index, n, c)
    requires name in Registered(index, traversed)
    ensures name in conditions && conditions[name] != {} && IsMinimalSets(index, name, conditions[name])
    ensures exists c :: Arrives(index, name, c)
  {
    hide Reachable, Universe, IsRegistry, Minimal;
    var k :| k in traversed[name];
    var s := State(name, k.conditions, k.extras);
    assert s in States(traversed);
    assert Dominated(conditions, s);
    assert Arrives(index, name, s.conditions);
  }

  lemma NeededIsPinned(index: Index, traversed: Traversal, name: string)
    requires forall s :: Reachable(index, s) ==> Covered(States(traversed), s)
    requires Needed(index, name)
    ensures name in Registered(index, traversed)
  {
    hide Reachable, IsRegistry;
    var c :| Arrives(index, name, c);
    var s :| Reachable(index, s) && s.name == name && s.conditions == c;
    var t :| t in States(traversed) && Subsumes(t, s);
  }

  /** A package record has a name that is a text and normalizes to something. */
  predicate NamesPackage(item: Value) {
    item.Table? && "name" in item.fields && item.fields["name"].Text? && Normalize(item.fields["name"].text) != ""
  }

  /** A lock is accepted when every package record names a package, each another one, one of them
      is `curie-runner` and lists dependencies, and what chains from it reach passes its checks. */
  lemma LockReads(lock: Record)
    ensures LockAccepted(lock) <==>
            && "package" in lock && lock["package"].List?
            && var items := lock["package"].items;
               && (forall i :: 0 <= i < |items| ==> NamesPackage(items[i]))
               && (forall i, j :: 0 <= i < j < |items| ==>
                     Normalize(items[i].fields["name"].text) != Normalize(items[j].fields["name"].text))
               && (exists i :: 0 <= i < |items| && Normalize(items[i].fields["name"].text) == "curie-runner"
                     && "dependencies" in items[i].fields && items[i].fields["dependencies"].List?)
               && IndexOf(items).Some? && forall s :: Reachable(IndexOf(items).value, s) ==> Sound(IndexOf(items).value, s)
  {
    if "package" in lock && lock["package"].List? {
      var items := lock["package"].items;
      IndexOfRecords(items);
      hide Normalize, Reachable, Sound, IndexOf;
      if LockAccepted(lock) {
        var i :| 0 <= i < |items| && NameOf(items[i]) == RUNNER;
        assert Normalize(items[i].fields["name"].text) == "curie-runner";
      }
    }
  }

  /** Accept exactly the sound locks and export one line per needed package. */
  method RunnerDependencyPins(lock: Record) returns (lines: Option<seq<Requirement>>)
    ensures lines.Some? <==> LockAccepted(lock)
    ensures lines.Some? ==> IsExport(IndexOf(lock["package"].items).value, lines.value)
  {
    if "package" !in lock || !lock["package"].List? { return None; }
    var built := BuildIndex(lock["package"].items);
    if built.None? || RUNNER !in built.value { return None; }
    var index := built.value;
    if !HasDependencyList(index[RUNNER]) { return None; }
    var exported := ExportIndex(index);
    return exported;
  }

  method ExportIndex(index: Index) returns (lines: Option<seq<Requirement>>)
    requires RUNNER in index && HasDependencyList(index[RUNNER])
    ensures lines.Some? <==> Accepted(index)
    ensures lines.Some? ==> IsExport(index, lines.value)
  {
    hide Reachable, Sound, Universe, Settled, SettledSince, Covered, States, Consistent, Minimal, Registered, IsExport;
    var walk := new Walk(index);
    RootReachable(index);
    RootInUniverse(index);
    var ok := walk.Visit(ROOT);
    if !ok { return None; }
    WalkComplete(index, walk.traversed, walk.conditions);
    var exported := ExportPins(index, walk.pins - {RUNNER}, walk.pinHashes, walk.conditions, walk.traversed);
    return Some(exported);
  }

  /** The lines of the packages a complete walk pinned, in name order. */
  method ExportPins(index: Index, pins: map<string, string>, pinHashes: map<string, set<string>>,
                    conditions: Conditions, ghost traversed: Traversal) returns (result: seq<Requirement>)
    requires Consistent(index, traversed, conditions)
    requires forall s :: Reachable(index, s) ==> Covered(States(traversed), s)
    requires forall n, c :: (n in conditions && c in conditions[n]) <==> Minimal(index, n, c)
    requires pins.Keys == Registered(index, traversed) - {RUNNER} && pinHashes.Keys == Registered(index, traversed)
    requires forall n :: n in pins ==>
               ValidSource(index[n]) && pins[n] == Version(index[n]) && pinHashes[n] == Hashes(index[n])
    ensures IsExport(index, result)
  {
    hide Reachable, Sound, Universe, Settled, Covered, States, Consistent, Minimal, LineFor, IsExport;
    hide Needed, Arrives, TextLe, IsMinimalSets, ValidSource, IsRegistry, Hashes, Version;
    TextOrders();
    var names := Sort(TextLe, pins.Keys);
    result := [];
    for i := 0 to |names|
      invariant |result| == i
      invariant forall j :: 0 <= j < i ==> result[j].name == names[j] && LineFor(index, names[j], result[j])
    {
      var name := names[i];
      assert name in pins;
      PinnedLine(index, traversed, conditions, name);
      var marker := RenderConditions(conditions[name]);
      var hashes := Sort(TextLe, pinHashes[name]);
      var line := Requirement(name, pins[name], marker, hashes);
      IsPinLine(index, name, line, conditions[name]);
      result := result + [line];
    }
    Exported(index, pins, traversed, conditions, names, result);
  }

  /** Lines for the names of the pins, in order, are the export. */
  lemma Exported(index: Index, pins: map<string, string>, traversed: Traversal, conditions: Conditions,
                 names: seq<string>, lines: seq<Requirement>)
    requires Consistent(index, traversed, conditions)
    requires forall s :: Reachable(index, s) ==> Covered(States(traversed), s)
    requires forall n, c :: (n in conditions && c in conditions[n]) <==> Minimal(index, n, c)
    requires pins.Keys == Registered(index, traversed) - {RUNNER} && Listing(TextLe, names, pins.Keys) && |lines| == |names|
    requires forall j :: 0 <= j < |names| ==> lines[j].name == names[j] && LineFor(index, names[j], lines[j])
    ensures IsExport(index, lines)
  {
    hide Reachable, Covered, States, Consistent, LineFor, Needed, TextLe, Registered, Minimal;
    forall n ensures Needed(index, n) <==> exists i :: 0 <= i < |lines| && lines[i].name == n {
      NeededNames(index, traversed, conditions, n, names);
    }
  }

  lemma IsPinLine(index: Index, name: string, line: Requirement, conditions: set<set<string>>)
    requires name in index && ValidSource(index[name]) && IsRegistry(index[name])
    requires line.name == name && line.version == Version(index[name])
    requires Listing(TextLe, line.hashes, Hashes(index[name]))
    requires IsMinimalSets(index, name, conditions) && Renders(conditions, line.marker)
    ensures LineFor(index, name, line)
  {
    hide ValidSource, IsRegistry, Version, Hashes, Listing, IsMinimalSets, Renders;
  }

  lemma NeededNames(index: Index, traversed: Traversal, conditions: Conditions, n: string, names: seq<string>)
    requires Consistent(index, traversed, conditions)
    requires forall s :: Reachable(index, s) ==> Covered(States(traversed), s)
    requires forall n, c :: (n in conditions && c in conditions[n]) <==> Minimal(index, n, c)
    requires Listing(TextLe, names, Registered(index, traversed) - {RUNNER})
    ensures Needed(index, n) <==> exists i :: 0 <= i < |names| && names[i] == n
  {
    hide Consistent, Reachable, Covered, States, Minimal, Arrives, IsRegistry;
    if Needed(index, n) {
      NeededIsPinned(index, traversed, n);
      assert n in Elements(names);
    }
    if n in names {
      assert n in Elements(names);
      PinnedLine(index, traversed, conditions, n);
    }
  }
}
