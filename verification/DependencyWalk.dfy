/** The pruned recursive walk over the dependency graph, as the exporter runs it.

    `Walk.Visit` mutates four dictionaries while it recurses. A state is recorded
    before its dependencies are visited, so on a cyclic lock a recorded state may
    prune another while its own dependencies are still being visited.
 */
module DependencyWalk {
  import opened LockRecords
  import opened DependencyGraph

  // ---- the two subsumption rules, as functions of what is known -------------------

  ghost predicate Antichain(sets: set<set<string>>) {
    forall a, b :: a in sets && b in sets && a <= b ==> a == b
  }

  /** Keep `c` unless a subset of it is known, and drop the supersets it replaces. */
  function KeepMinimal(known: set<set<string>>, c: set<string>): (kept: set<set<string>>)
    ensures kept <= known + {c}
    ensures forall k :: k in known + {c} ==> exists m :: m in kept && m <= k
    ensures Antichain(known) ==> Antichain(kept)
  {
    if exists k :: k in known && k <= c then known
    else
      var kept := (set k | k in known && !(c <= k)) + {c};
      assert forall k :: k in known + {c} ==> (k in kept || (c in kept && c <= k));
      kept
  }

  /** The markers and extras a package was traversed with. */
  datatype Trail = Trail(conditions: set<string>, extras: set<string>)

  predicate Prunes(a: Trail, b: Trail) { a.conditions <= b.conditions && b.extras <= a.extras }

  type Traversal = map<string, set<Trail>>

  function TrailsOf(traversed: Traversal, name: string): set<Trail> {
    if name in traversed then traversed[name] else {}
  }

  /** Every state recorded as traversed. */
  ghost function States(traversed: Traversal): iset<State> {
    iset s: State | s.name in traversed && Trail(s.conditions, s.extras) in traversed[s.name]
  }

  ghost predicate Dominated(conditions: Conditions, s: State) {
    s.name in conditions && exists c :: c in conditions[s.name] && c <= s.conditions
  }

  /** `s` has been expanded: its record is sound and its dependencies are covered. */
  ghost predicate Settled(index: Index, states: iset<State>, s: State) {
    Sound(index, s) && forall d :: Edge(index, s.name, s.extras, d) ==> Covered(states, Follow(s, d))
  }

  ghost predicate CoversAtLeast(later: iset<State>, earlier: iset<State>) {
    forall s :: Covered(earlier, s) ==> Covered(later, s)
  }

  /** States of the universe that a visit would still expand. */
  ghost function Uncovered(index: Index, states: iset<State>): set<State> {
    set s | s in Universe(index) && !Covered(states, s)
  }

  lemma UncoveredShrinks(index: Index, earlier: iset<State>, later: iset<State>)
    requires CoversAtLeast(later, earlier)
    ensures Uncovered(index, later) <= Uncovered(index, earlier)
  {
  }

  lemma SettledStays(index: Index, earlier: iset<State>, later: iset<State>, s: State)
    requires CoversAtLeast(later, earlier) && Settled(index, earlier, s)
    ensures Settled(index, later, s)
  {
  }

  /** Every state of `later` was in `earlier` or has been settled since. */
  ghost predicate SettledSince(index: Index, earlier: iset<State>, later: iset<State>) {
    CoversAtLeast(later, earlier) && forall s :: s in later ==> s in earlier || Settled(index, later, s)
  }

  lemma SettledSinceTransitive(index: Index, a: iset<State>, b: iset<State>, c: iset<State>)
    requires SettledSince(index, a, b) && SettledSince(index, b, c)
    ensures SettledSince(index, a, c)
  {
    forall s | s in c ensures s in a || Settled(index, c, s) {
      if s in b && s !in a { SettledStays(index, b, c, s); }
    }
  }

  /** The registry packages among the traversed ones. */
  ghost function Registered(index: Index, traversed: Traversal): set<string> {
    set n | n in traversed && traversed[n] != {} && n in index && IsRegistry(index[n])
  }

  lemma RegisteredMore(index: Index, before: Traversal, traversed: Traversal, name: string)
    requires name in index && name in traversed && traversed[name] != {}
    requires traversed == before[name := traversed[name]]
    ensures Registered(index, traversed) == Registered(index, before) + if IsRegistry(index[name]) then {name} else {}
    ensures forall n :: n in Registered(index, before) ==> n in index && IsRegistry(index[n])
  {
    hide IsRegistry;
  }

  /** Exactly the traversed registry packages are pinned, each to its own record. */
  ghost predicate PinsMatch(index: Index, traversed: Traversal,
                            pins: map<string, string>, hashes: map<string, set<string>>) {
    && pins.Keys == hashes.Keys == Registered(index, traversed)
    && forall n :: n in pins ==> ValidSource(index[n]) && pins[n] == Version(index[n]) && hashes[n] == Hashes(index[n])
  }

  /** Pinning a registry package, or leaving another one alone, keeps the pins matching. */
  lemma PinsMore(index: Index, before: Traversal, traversed: Traversal, name: string,
                 pins: map<string, string>, hashes: map<string, set<string>>)
    requires name in index && name in traversed && traversed[name] != {} && ValidSource(index[name])
    requires traversed == before[name := traversed[name]] && PinsMatch(index, before, pins, hashes)
    ensures if IsRegistry(index[name])
            then PinsMatch(index, traversed, pins[name := Version(index[name])], hashes[name := Hashes(index[name])])
            else PinsMatch(index, traversed, pins, hashes)
  {
    hide ValidHashes, ValidVersion, IsRegistry, Version, Hashes, Registered;
    RegisteredMore(index, before, traversed, name);
  }

  type Conditions = map<string, set<set<string>>>

  /** Every traversed state is reachable and dominated; every condition set is a chain's. */
  ghost predicate Consistent(index: Index, traversed: Traversal, conditions: Conditions) {
    && (forall s :: s in States(traversed) ==>
          s in Universe(index) && Reachable(index, s) && Dominated(conditions, s))
    && (forall n, c :: n in conditions && c in conditions[n] ==> Arrives(index, n, c))
    && (forall n :: n in conditions ==> Antichain(conditions[n]))
  }

  ghost predicate SomeUnsound(index: Index) {
    exists s :: Reachable(index, s) && !Sound(index, s)
  }

  class Walk {
    const index: Index
    var pins: map<string, string>
    var pinHashes: map<string, set<string>>
    var conditions: Conditions
    var traversed: Traversal

    constructor (index: Index)
      ensures this.index == index && Invariant() && States(traversed) == iset{}
    {
      this.index := index;
      pins, pinHashes, conditions, traversed := map[], map[], map[], map[];
    }

    ghost predicate Invariant()
      reads this
    {
      Consistent(index, traversed, conditions) && PinsMatch(index, traversed, pins, pinHashes)
    }

    /** Record the markers of this path among the package's minimal condition sets. */
    method Note(s: State)
      requires Invariant() && Reachable(index, s)
      modifies this`conditions
      ensures Invariant() && Dominated(conditions, s)
    {
      var known := if s.name in conditions then conditions[s.name] else {};
      var kept := KeepMinimal(known, s.conditions);
      ghost var before := conditions;
      conditions := conditions[s.name := kept];
      assert s.conditions in known + {s.conditions};
      assert Dominated(conditions, s);
      forall t | t in States(traversed) ensures Dominated(conditions, t) {
        assert Dominated(before, t);
        if t.name == s.name {
          var c :| c in known && c <= t.conditions;
          assert c in known + {s.conditions};
        }
      }
      forall n, c | n in conditions && c in conditions[n] ensures Arrives(index, n, c) {
        if n == s.name && c !in known { assert c == s.conditions; }
      }
    }

    /** Record `s`, unless a recorded state prunes it; drop the states `s` prunes. */
    method Enter(s: State) returns (expand: bool)
      requires Consistent(index, traversed, conditions) && Reachable(index, s) && s in Universe(index) && Dominated(conditions, s)
      modifies this`traversed
      ensures expand <==> !Covered(old(States(traversed)), s)
      ensures !expand ==> traversed == old(traversed)
      ensures expand ==> s in States(traversed) && traversed == old(traversed)[s.name := traversed[s.name]]
      ensures Consistent(index, traversed, conditions)
      ensures forall t :: t in States(traversed) ==> t == s || t in old(States(traversed))
      ensures CoversAtLeast(States(traversed), old(States(traversed)))
    {
      hide Reachable, Universe, Arrives, Antichain;
      var known := TrailsOf(traversed, s.name);
      var trail := Trail(s.conditions, s.extras);
      ghost var before := States(traversed);
      if k :| k in known && Prunes(k, trail) {
        assert State(s.name, k.conditions, k.extras) in before;
        return false;
      }
      assert forall t :: t in before && t.name == s.name ==> Trail(t.conditions, t.extras) in known;
      traversed := traversed[s.name := (set k | k in known && !Prunes(trail, k)) + {trail}];
      EnterCovers(before, States(traversed), s);
      return true;
    }

    /** Check the source of a package and pin it when it comes from a registry. */
    method Pin(name: string, ghost before: Traversal) returns (ok: bool)
      requires name in index && name in traversed && traversed[name] != {}
      requires traversed == before[name := traversed[name]]
      requires PinsMatch(index, before, pins, pinHashes)
      modifies this`pins, this`pinHashes
      ensures ok <==> ValidSource(index[name])
      ensures ok ==> PinsMatch(index, traversed, pins, pinHashes)
    {
      hide ValidHashes, ValidVersion, IsRegistry, Version, Hashes, PinsMatch;
      var record := index[name];
      if !ValidSource(record) { return false; }
      PinsMore(index, before, traversed, name, pins, pinHashes);
      if IsRegistry(record) {
        pins := pins[name := Version(record)];
        pinHashes := pinHashes[name := Hashes(record)];
      }
      return true;
    }

    method Visit(s: State) returns (ok: bool)
      requires Invariant() && Reachable(index, s) && s in Universe(index) && s.name in index
      modifies this
      decreases Uncovered(index, States(traversed)), 0
      ensures ok ==> Invariant() && Covered(States(traversed), s)
      ensures ok ==> SettledSince(index, old(States(traversed)), States(traversed))
      ensures !ok ==> SomeUnsound(index)
    {
      hide Reachable, Universe, Uncovered, Covered, Consistent, PinsMatch, Dominated, Settled;
      hide Lists, ValidList, ValidSource, Optional, Dependencies;
      ghost var before := States(traversed);
      Note(s);
      var expand := Enter(s);
      ghost var entered := States(traversed);
      if !expand { return true; }
      EnterShrinks(index, before, entered, s);
      ok := Pin(s.name, old(traversed));
      if !ok { return false; }
      ok := VisitDependencies(s, Dependencies(index[s.name]));
      if !ok { return false; }
      ghost var plain := States(traversed);
      if s.extras != {} {
        var optional := Optional(index[s.name]);
        if !optional.Table? { return false; }
        var rest := s.extras;
        while rest != {}
          invariant rest <= s.extras && Invariant()
          invariant SettledSince(index, entered, States(traversed))
          invariant CoversAtLeast(States(traversed), plain)
          invariant forall x :: x in s.extras - rest ==>
                      x in optional.fields && ValidList(index.Keys, optional.fields[x])
          invariant forall x, d :: x in s.extras - rest && x in optional.fields && Lists(optional.fields[x], d) ==>
                      Covered(States(traversed), Follow(s, d))
          decreases rest
        {
          var x :| x in rest;
          if x !in optional.fields { return false; }
          ghost var middle := States(traversed);
          UncoveredShrinks(index, entered, middle);
          ok := VisitDependencies(s, optional.fields[x]);
          if !ok { return false; }
          SettledSinceTransitive(index, entered, middle, States(traversed));
          rest := rest - {x};
        }
      }
      ghost var after := States(traversed);
      SettledByLists(index, after, s);
      SettledSinceEnter(index, before, entered, after, s);
      return true;
    }

    /** Check and visit the entries of one dependency list of `s`, in order. */
    method VisitDependencies(s: State, list: Value) returns (ok: bool)
      requires Invariant() && Reachable(index, s) && s in Universe(index) && s.name in index
      requires Sound(index, s) ==> ValidList(index.Keys, list)
      requires forall d :: Lists(list, d) ==> Declares(index[s.name], s.extras, d)
      modifies this
      decreases Uncovered(index, States(traversed)), 1
      ensures ok ==> Invariant() && ValidList(index.Keys, list)
      ensures ok ==> forall d :: Lists(list, d) ==> Covered(States(traversed), Follow(s, d))
      ensures ok ==> SettledSince(index, old(States(traversed)), States(traversed))
      ensures !ok ==> SomeUnsound(index)
    {
      hide Reachable, Universe, Uncovered, Covered, Invariant, Sound, Settled, Declares;
      hide ParseDependency, States;
      if !list.List? { return false; }
      ghost var before := States(traversed);
      var names: set<string> := {};
      for i := 0 to |list.items|
        invariant Invariant() && SettledSince(index, before, States(traversed))
        invariant forall j :: 0 <= j < i ==>
                    && ParseDependency(list.items[j]).Some?
                    && ParseDependency(list.items[j]).value.name in index
                    && Covered(States(traversed), Follow(s, ParseDependency(list.items[j]).value))
        invariant forall j, k :: 0 <= j < k < i ==>
                    ParseDependency(list.items[j]).value.name != ParseDependency(list.items[k]).value.name
        invariant names == set j | 0 <= j < i :: ParseDependency(list.items[j]).value.name
      {
        var entry := ParseDependency(list.items[i]);
        if entry.None? { return false; }
        var d := entry.value;
        if d.name in names || d.name !in index { return false; }
        names := names + {d.name};
        ghost var middle := States(traversed);
        UncoveredShrinks(index, before, middle);
        assert list.items[i] in list.items && Lists(list, d);
        assert Edge(index, s.name, s.extras, d);
        ReachableFollow(index, s, d);
        UniverseClosed(index, s, d);
        ok := Visit(Follow(s, d));
        if !ok { return false; }
        SettledSinceTransitive(index, before, middle, States(traversed));
      }
      return true;
    }
  }

  lemma SettledByLists(index: Index, states: iset<State>, s: State)
    requires Sound(index, s)
    requires forall d :: Lists(Dependencies(index[s.name]), d) ==> Covered(states, Follow(s, d))
    requires forall x, d :: x in s.extras && Lists(Optional(index[s.name]).fields[x], d) ==> Covered(states, Follow(s, d))
    ensures Settled(index, states, s)
  {
    hide Lists, ValidList, ValidSource, Covered;
  }

  lemma EnterCovers(before: iset<State>, entered: iset<State>, s: State)
    requires forall t :: t in before ==> t in entered || (t.name == s.name && Subsumes(s, t) && s in entered)
    ensures CoversAtLeast(entered, before)
  {
    forall u | Covered(before, u) ensures Covered(entered, u) {
      var t :| t in before && Subsumes(t, u);
      if t !in entered { assert Subsumes(s, u); }
    }
  }

  lemma EnterShrinks(index: Index, before: iset<State>, entered: iset<State>, s: State)
    requires CoversAtLeast(entered, before) && s in entered && s in Universe(index) && !Covered(before, s)
    ensures Uncovered(index, entered) < Uncovered(index, before) && Covered(entered, s)
  {
    UncoveredShrinks(index, before, entered);
    assert Subsumes(s, s);
    assert s in Uncovered(index, before) && s !in Uncovered(index, entered);
  }

  lemma SettledSinceEnter(index: Index, before: iset<State>, entered: iset<State>, after: iset<State>, s: State)
    requires CoversAtLeast(entered, before)
    requires forall t :: t in entered ==> t == s || t in before
    requires SettledSince(index, entered, after) && Settled(index, after, s)
    ensures SettledSince(index, before, after)
  {
  }
}
