/** What the exported lines mean, and what they do not depend on. */
module PinsMeaning {
  import opened Options
  import opened LockRecords
  import opened DependencyGraph
  import opened MarkerText
  import opened Orders
  import opened DependencyPins

  // ---- a line holds exactly when some chain holds -------------------------------------

  /** A chain from the runner that ends at `name`. */
  ghost predicate ChainTo(index: Index, chain: seq<Dependency>, name: string) {
    && Chain(index, RUNNER, {}, chain)
    && if chain == [] then name == RUNNER else chain[|chain| - 1].name == name
  }

  ghost predicate ChainHolds(chain: seq<Dependency>, env: Environment) {
    forall i :: 0 <= i < |chain| && chain[i].marker.Some? ==> Holds(chain[i].marker.value, env)
  }

  /** Every marker on a reachable edge is a marker by itself. */
  ghost predicate MarkersReadable(index: Index) {
    forall s, d :: Reachable(index, s) && Edge(index, s.name, s.extras, d) && d.marker.Some? ==>
                     Readable(d.marker.value)
  }

  /** The markers that decide when `name` is needed are markers by themselves. */
  ghost predicate ReadableFor(index: Index, name: string) {
    forall c, m :: Minimal(index, name, c) && m in c ==> Readable(m)
  }

  /** `pip` installs the line's package under `env`. */
  ghost predicate Applies(line: Requirement, env: Environment) {
    line.marker.None? || Holds(line.marker.value, env)
  }

  ghost predicate SetHolds(markers: set<string>, env: Environment) {
    forall m :: m in markers ==> Holds(m, env)
  }

  lemma ChainArrives(index: Index, chain: seq<Dependency>, name: string)
    requires ChainTo(index, chain, name)
    ensures Arrives(index, name, Markers(chain))
  {
    EndConditions(ROOT, chain);
    assert ReachedBy(index, End(ROOT, chain), chain);
  }

  lemma ArrivesByChain(index: Index, name: string, c: set<string>) returns (chain: seq<Dependency>)
    requires Arrives(index, name, c)
    ensures ChainTo(index, chain, name) && Markers(chain) == c
  {
    var s :| Reachable(index, s) && s.name == name && s.conditions == c;
    chain :| ReachedBy(index, s, chain);
    EndConditions(ROOT, chain);
  }

  lemma ChainHoldsMarkers(chain: seq<Dependency>, env: Environment)
    ensures ChainHolds(chain, env) <==> SetHolds(Markers(chain), env)
  {
    if SetHolds(Markers(chain), env) {
      forall i | 0 <= i < |chain| && chain[i].marker.Some? ensures Holds(chain[i].marker.value, env) {
        assert chain[i].marker.value in Markers(chain);
      }
    }
  }

  /** Below every arriving condition set there is a minimal one. */
  lemma {:induction false} MinimalBelow(index: Index, name: string, c: set<string>) returns (m: set<string>)
    requires Arrives(index, name, c)
    ensures Minimal(index, name, m) && m <= c
    decreases c
  {
    if Minimal(index, name, c) { return c; }
    var b :| Arrives(index, name, b) && b <= c && b != c;
    m := MinimalBelow(index, name, b);
  }

  /** The markers of an arriving set all come from reachable edges. */
  lemma {:induction false} ArrivingReadable(index: Index, s: State, chain: seq<Dependency>)
    requires MarkersReadable(index) && Reachable(index, s) && Chain(index, s.name, s.extras, chain)
    ensures forall m :: m in Markers(chain) ==> Readable(m)
    decreases |chain|
  {
    if chain == [] {
    } else {
      ReachableFollow(index, s, chain[0]);
      ArrivingReadable(index, Follow(s, chain[0]), chain[1..]);
      forall m | m in Markers(chain) ensures Readable(m) {
        var i :| 0 <= i < |chain| && chain[i].marker.Some? && chain[i].marker.value == m;
        if i > 0 {
          assert chain[1..][i - 1] == chain[i];
          assert m in Markers(chain[1..]);
        }
      }
    }
  }

  /** A rendered marker holds exactly when all markers of some path hold. */
  lemma RenderedMeaning(conditions: set<set<string>>, marker: Option<string>, env: Environment)
    requires Renders(conditions, marker)
    requires forall c, m :: c in conditions && m in c ==> Readable(m)
    ensures (marker.None? || Holds(marker.value, env)) <==> exists c :: c in conditions && SetHolds(c, env)
  {
    hide Readable, Holds;
    if {} in conditions {
      assert SetHolds({}, env);
    } else {
      var paths :| SortedPaths(paths, conditions) && RendersPaths(paths, marker);
      var texts := PathMarkers(paths);
      forall i | 0 <= i < |paths|
        ensures Readable(texts[i]) && (Holds(texts[i], env) <==> SetHolds(Elements(paths[i]), env))
      {
        assert paths[i] in paths && Elements(paths[i]) in conditions;
        PathSetMeaning(paths[i], env);
      }
      CombinedMarkerMeaning(texts, env);
      SomePathHolds(paths, texts, conditions, env);
    }
  }

  lemma PathSetMeaning(path: seq<string>, env: Environment)
    requires path != [] && forall m :: m in Elements(path) ==> Readable(m)
    ensures Readable(PathMarker(path)) && (Holds(PathMarker(path), env) <==> SetHolds(Elements(path), env))
  {
    hide Readable, Holds, PathMarker;
    assert forall j :: 0 <= j < |path| ==> path[j] in Elements(path);
    PathMarkerMeaning(path, env);
  }

  lemma SomePathHolds(paths: seq<seq<string>>, texts: seq<string>, conditions: set<set<string>>, env: Environment)
    requires SortedPaths(paths, conditions) && |texts| == |paths|
    requires forall i :: 0 <= i < |paths| ==> (Holds(texts[i], env) <==> SetHolds(Elements(paths[i]), env))
    ensures SomeHolds(texts, env) <==> exists c :: c in conditions && SetHolds(c, env)
  {
    hide Holds, SetHolds;
    if SomeHolds(texts, env) {
      var i :| 0 <= i < |texts| && Holds(texts[i], env);
      assert paths[i] in paths && Elements(paths[i]) in conditions;
    }
    if c :| c in conditions && SetHolds(c, env) {
      var p :| p in paths && Elements(p) == c;
      var i :| 0 <= i < |paths| && paths[i] == p;
      assert Holds(texts[i], env);
    }
  }

  /** Under every assignment of truth values to comparisons, a package has a line that
      applies exactly when it is a registry package other than the runner and every
      marker of some dependency chain from the runner to it holds. */
  lemma ExportMeaning(index: Index, lines: seq<Requirement>, env: Environment, name: string)
    requires Accepted(index) && IsExport(index, lines) && ReadableFor(index, name)
    ensures (exists i :: 0 <= i < |lines| && lines[i].name == name && Applies(lines[i], env)) <==>
            (name != RUNNER && name in index && IsRegistry(index[name]) &&
             exists chain :: ChainTo(index, chain, name) && ChainHolds(chain, env))
  {
    hide TextLe, Listing, Reachable, Sound, Minimal, Renders, Arrives, ChainTo, Holds, ValidSource, IsRegistry;
    if i :| 0 <= i < |lines| && lines[i].name == name && Applies(lines[i], env) {
      assert LineFor(index, name, lines[i]) && Needed(index, name);
      LineMeaning(index, name, lines[i], env);
    }
    if chain :| name != RUNNER && name in index && IsRegistry(index[name])
                && ChainTo(index, chain, name) && ChainHolds(chain, env) {
      ChainArrives(index, chain, name);
      assert Needed(index, name);
      var i :| 0 <= i < |lines| && lines[i].name == name;
      LineMeaning(index, name, lines[i], env);
    }
  }

  lemma LineMeaning(index: Index, name: string, line: Requirement, env: Environment)
    requires LineFor(index, name, line) && ReadableFor(index, name)
    ensures Applies(line, env) <==> exists chain :: ChainTo(index, chain, name) && ChainHolds(chain, env)
  {
    hide TextLe, Listing, Reachable, Minimal, Renders, Arrives, ChainTo, ChainHolds, Holds, ValidSource, Readable;
    var conditions :| IsMinimalSets(index, name, conditions) && Renders(conditions, line.marker);
    RenderedMeaning(conditions, line.marker, env);
    if c :| c in conditions && SetHolds(c, env) {
      MinimalArrives(index, name, c);
      var chain := ArrivesByChain(index, name, c);
      ChainHoldsMarkers(chain, env);
    }
    if chain :| ChainTo(index, chain, name) && ChainHolds(chain, env) {
      ChainArrives(index, chain, name);
      ChainHoldsMarkers(chain, env);
      var m := MinimalBelow(index, name, Markers(chain));
      assert SetHolds(m, env);
    }
  }

  lemma MinimalArrives(index: Index, name: string, c: set<string>)
    requires Minimal(index, name, c)
    ensures Arrives(index, name, c)
  {
  }

  /** When every reachable marker is readable, those of every package are. */
  lemma MinimalReadable(index: Index, name: string)
    requires MarkersReadable(index)
    ensures ReadableFor(index, name)
  {
    hide Readable;
    forall c, m | Minimal(index, name, c) && m in c ensures Readable(m) {
      var chain := ArrivesByChain(index, name, c);
      RootReachable(index);
      ArrivingReadable(index, ROOT, chain);
    }
  }

  // ---- the export is a function of the graph --------------------------------------------

  lemma SortedPathsUnique(a: seq<seq<string>>, b: seq<seq<string>>, conditions: set<set<string>>)
    requires SortedPaths(a, conditions) && SortedPaths(b, conditions)
    ensures a == b
  {
    TextOrders();
    hide TextLe, TextsLe;
    SortedPathsInclude(a, b, conditions);
    SortedPathsInclude(b, a, conditions);
    assert Elements(a) == Elements(b);
    ListingUnique(TextsLe, a, b, Elements(a));
  }

  lemma SortedPathsInclude(a: seq<seq<string>>, b: seq<seq<string>>, conditions: set<set<string>>)
    requires SortedPaths(a, conditions) && SortedPaths(b, conditions)
    ensures forall p :: p in a ==> p in b
  {
    TextOrders();
    hide TextLe, TextsLe, TotalOrder;
    forall p | p in a ensures p in b {
      assert Elements(p) in conditions;
      var q :| q in b && Elements(q) == Elements(p);
      ListingUnique(TextLe, p, q, Elements(p));
    }
  }

  lemma RendersUnique(conditions: set<set<string>>, a: Option<string>, b: Option<string>)
    requires Renders(conditions, a) && Renders(conditions, b)
    ensures a == b
  {
    if {} !in conditions {
      var p :| SortedPaths(p, conditions) && RendersPaths(p, a);
      var q :| SortedPaths(q, conditions) && RendersPaths(q, b);
      SortedPathsUnique(p, q, conditions);
    }
  }

  lemma LineUnique(index: Index, name: string, a: Requirement, b: Requirement)
    requires LineFor(index, name, a) && LineFor(index, name, b)
    ensures a == b
  {
    hide TextLe, Minimal, Renders, Hashes, ValidHashes;
    TextOrders();
    ListingUnique(TextLe, a.hashes, b.hashes, Hashes(index[name]));
    var c :| IsMinimalSets(index, name, c) && Renders(c, a.marker);
    var d :| IsMinimalSets(index, name, d) && Renders(d, b.marker);
    assert c == d;
    RendersUnique(c, a.marker, b.marker);
  }

  function Names(lines: seq<Requirement>): (names: seq<string>)
    ensures |names| == |lines| && forall i :: 0 <= i < |lines| ==> names[i] == lines[i].name
  {
    if lines == [] then [] else [lines[0].name] + Names(lines[1..])
  }

  /** A lock has one export: neither the order of records nor that of the walk shows. */
  lemma ExportUnique(index: Index, a: seq<Requirement>, b: seq<Requirement>)
    requires IsExport(index, a) && IsExport(index, b)
    ensures a == b
  {
    hide TextLe, LineFor, Needed;
    TextOrders();
    var p, q := Names(a), Names(b);
    forall n ensures n in Elements(p) <==> n in Elements(q) {
      assert n in p <==> exists i :: 0 <= i < |a| && a[i].name == n;
      assert n in q <==> exists i :: 0 <= i < |b| && b[i].name == n;
      assert n in p <==> Needed(index, n);
    }
    assert Elements(p) == Elements(q);
    ListingUnique(TextLe, p, q, Elements(p));
    forall i | 0 <= i < |a| ensures a[i] == b[i] {
      assert p[i] == q[i];
      LineUnique(index, a[i].name, a[i], b[i]);
    }
  }

  // ---- the order of dependency records does not matter -------------------------------------

  ghost predicate Permuted(a: Value, b: Value) {
    a == b || (a.List? && b.List? && multiset(a.items) == multiset(b.items))
  }

  /** The same record, with its dependency lists possibly in another order. */
  ghost predicate Reordered(a: Record, b: Record) {
    && (forall f :: f in {"source", "version", "wheels", "sdist"} ==>
          (f in a <==> f in b) && (f in a && f in b ==> a[f] == b[f]))
    && ("dependencies" in a <==> "dependencies" in b)
    && Permuted(Dependencies(a), Dependencies(b))
    && (Optional(a).Table? <==> Optional(b).Table?)
    && (Optional(a).Table? && Optional(b).Table? ==>
          && Optional(a).fields.Keys == Optional(b).fields.Keys
          && forall x :: x in Optional(a).fields ==> Permuted(Optional(a).fields[x], Optional(b).fields[x]))
  }

  ghost predicate ReorderedIndex(a: Index, b: Index) {
    a.Keys == b.Keys && forall n :: n in a ==> Reordered(a[n], b[n])
  }

  lemma PermutedLists(a: Value, b: Value, d: Dependency)
    requires Permuted(a, b)
    ensures Lists(a, d) <==> Lists(b, d)
  {
    hide ParseDependency;
    if a.List? && b.List? {
      assert forall w :: w in a.items <==> w in multiset(a.items);
      assert forall w :: w in b.items <==> w in multiset(b.items);
    }
  }

  /** A value that occurs twice in a sequence has two positions in it. */
  lemma {:induction false} TwoPositions<T>(s: seq<T>, x: T) returns (i: nat, j: nat)
    requires multiset(s)[x] >= 2
    ensures i < j < |s| && s[i] == s[j] == x
    decreases |s|
  {
    assert s == [s[0]] + s[1..];
    if s[0] == x {
      assert x in multiset(s[1..]);
      var k :| 0 <= k < |s[1..]| && s[1..][k] == x;
      return 0, k + 1;
    }
    i, j := TwoPositions(s[1..], x);
    i, j := i + 1, j + 1;
  }

  lemma TwicePresent<T>(s: seq<T>, i: nat, j: nat)
    requires i < j < |s| && s[i] == s[j]
    ensures multiset(s)[s[i]] >= 2
  {
    assert s == s[..j] + [s[j]] + s[j + 1..];
    assert s[..j][i] == s[i];
    assert s[i] in multiset(s[..j]);
  }

  lemma PermutedValid(names: set<string>, a: Value, b: Value)
    requires Permuted(a, b) && ValidList(names, a)
    ensures ValidList(names, b)
  {
    hide ParseDependency;
    if a.List? && b.List? {
      forall i | 0 <= i < |b.items| ensures b.items[i] in a.items {
        assert b.items[i] in multiset(b.items);
        assert b.items[i] in multiset(a.items);
      }
      forall i, j | 0 <= i < j < |b.items|
        ensures ParseDependency(b.items[i]).value.name != ParseDependency(b.items[j]).value.name
      {
        var x, y := b.items[i], b.items[j];
        var p, q: nat;
        if x == y {
          TwicePresent(b.items, i, j);
          p, q := TwoPositions(a.items, x);
        } else {
          p :| 0 <= p < |a.items| && a.items[p] == x;
          q :| 0 <= q < |a.items| && a.items[q] == y;
        }
        assert ParseDependency(a.items[p]).value.name != ParseDependency(a.items[q]).value.name;
      }
    }
  }

  lemma ReorderedSymmetric(a: Index, b: Index)
    requires ReorderedIndex(a, b)
    ensures ReorderedIndex(b, a)
  {
    hide Dependencies, Optional;
  }

  lemma ReorderedEdge(a: Index, b: Index, name: string, extras: set<string>, d: Dependency)
    requires ReorderedIndex(a, b) && Edge(a, name, extras, d)
    ensures Edge(b, name, extras, d)
  {
    hide Lists, Dependencies, Optional, Permuted;
    PermutedLists(Dependencies(a[name]), Dependencies(b[name]), d);
    if !Lists(Dependencies(a[name]), d) {
      var x :| x in extras && x in Optional(a[name]).fields && Lists(Optional(a[name]).fields[x], d);
      PermutedLists(Optional(a[name]).fields[x], Optional(b[name]).fields[x], d);
    }
  }

  lemma {:induction false} ReorderedChain(a: Index, b: Index, name: string, extras: set<string>, chain: seq<Dependency>)
    requires ReorderedIndex(a, b) && Chain(a, name, extras, chain)
    ensures Chain(b, name, extras, chain)
    decreases |chain|
  {
    hide ReorderedIndex, Edge;
    if chain == [] {
    } else {
      ReorderedEdge(a, b, name, extras, chain[0]);
      ReorderedChain(a, b, chain[0].name, chain[0].extras, chain[1..]);
    }
  }

  lemma ReorderedReachable(a: Index, b: Index, s: State)
    requires ReorderedIndex(a, b) && Reachable(a, s)
    ensures Reachable(b, s)
  {
    hide ReorderedIndex;
    var chain :| ReachedBy(a, s, chain);
    ReorderedChain(a, b, ROOT.name, ROOT.extras, chain);
    assert ReachedBy(b, s, chain);
  }

  lemma ReorderedSound(a: Index, b: Index, s: State)
    requires ReorderedIndex(a, b) && Sound(a, s)
    ensures Sound(b, s)
  {
    hide ValidList, Permuted, Dependencies, Optional;
    var n := s.name;
    PermutedValid(a.Keys, Dependencies(a[n]), Dependencies(b[n]));
    forall x | x in s.extras
      ensures x in Optional(b[n]).fields && ValidList(b.Keys, Optional(b[n]).fields[x])
    {
      PermutedValid(a.Keys, Optional(a[n]).fields[x], Optional(b[n]).fields[x]);
    }
    SameSource(a[n], b[n]);
  }

  lemma SameSource(a: Record, b: Record)
    requires Reordered(a, b)
    ensures (ValidSource(a) <==> ValidSource(b)) && (IsRegistry(a) <==> IsRegistry(b))
    ensures ValidSource(a) && IsRegistry(a) ==> Version(a) == Version(b) && Hashes(a) == Hashes(b)
  {
    hide IsHashRecord, Permuted, Dependencies, Optional;
    var fields := {"source", "version", "wheels", "sdist"};
    assert "source" in fields && "version" in fields && "wheels" in fields && "sdist" in fields;
    assert FieldOr(a, "wheels", List([])) == FieldOr(b, "wheels", List([]));
    if FieldOr(a, "wheels", List([])).List? { assert Artifacts(a) == Artifacts(b); }
  }

  lemma ReorderedMinimal(a: Index, b: Index)
    requires ReorderedIndex(a, b)
    ensures forall n, c :: Arrives(a, n, c) <==> Arrives(b, n, c)
    ensures forall n, c :: Minimal(a, n, c) <==> Minimal(b, n, c)
  {
    ReorderedSymmetric(a, b);
    hide ReorderedIndex, Reachable;
    forall s ensures Reachable(a, s) <==> Reachable(b, s) {
      if Reachable(a, s) { ReorderedReachable(a, b, s); }
      if Reachable(b, s) { ReorderedReachable(b, a, s); }
    }
    assert forall n, c :: Arrives(a, n, c) <==> Arrives(b, n, c);
  }

  lemma ReorderedAccepted(a: Index, b: Index)
    requires ReorderedIndex(a, b) && Accepted(a)
    ensures Accepted(b)
  {
    ReorderedSymmetric(a, b);
    assert HasDependencyList(b[RUNNER]) by {
      assert Dependencies(a[RUNNER]) == a[RUNNER]["dependencies"];
      assert Dependencies(b[RUNNER]) == b[RUNNER]["dependencies"];
    }
    hide ReorderedIndex, Reachable, Sound;
    forall s | Reachable(b, s) ensures Sound(b, s) {
      ReorderedReachable(b, a, s);
      ReorderedSound(a, b, s);
    }
  }

  lemma ReorderedExport(a: Index, b: Index, lines: seq<Requirement>)
    requires ReorderedIndex(a, b) && IsExport(a, lines)
    ensures IsExport(b, lines)
  {
    ReorderedMinimal(a, b);
    forall n | n in a ensures Reordered(a[n], b[n]) {}
    hide Reordered, TextLe, Minimal, Arrives, ValidSource, IsRegistry, Version, ValidHashes, Hashes, Renders, Listing;
    forall n ensures Needed(a, n) <==> Needed(b, n) {
      if n in a { SameSource(a[n], b[n]); }
    }
    forall i | 0 <= i < |lines| ensures LineFor(b, lines[i].name, lines[i]) {
      var n, line := lines[i].name, lines[i];
      assert LineFor(a, n, line);
      SameSource(a[n], b[n]);
      var conditions :| IsMinimalSets(a, n, conditions) && Renders(conditions, line.marker);
      assert IsMinimalSets(b, n, conditions);
    }
  }

  /** Two locks that differ only in the order of dependency records are accepted
      together and, when accepted, export the same lines. */
  lemma OrderOfRecordsIrrelevant(a: Index, b: Index, linesA: seq<Requirement>, linesB: seq<Requirement>)
    requires ReorderedIndex(a, b)
    ensures Accepted(a) <==> Accepted(b)
    ensures IsExport(a, linesA) && IsExport(b, linesB) ==> linesA == linesB
  {
    ReorderedSymmetric(a, b);
    if Accepted(a) { ReorderedAccepted(a, b); }
    if Accepted(b) { ReorderedAccepted(b, a); }
    if IsExport(a, linesA) && IsExport(b, linesB) {
      ReorderedExport(a, b, linesA);
      ExportUnique(b, linesA, linesB);
    }
  }

  /** Lists are permuted when they hold the same entries as often, in whatever order. */
  lemma PermutedIs(a: seq<Value>, b: seq<Value>)
    ensures Permuted(List(a), List(b)) <==> multiset(a) == multiset(b)
  {
  }
}
