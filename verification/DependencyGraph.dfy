/** The dependency graph of a lock and the chains that reach a package.

    This is the reference the pruned walk is compared with: a chain follows one
    dependency record after another, each declared by the package the previous
    record names, under the extras that record asks for. Nothing is pruned.
 */
module DependencyGraph {
  import opened Options
  import opened LockRecords

  type Index = map<string, Record>

  const RUNNER := "curie-runner"

  /** What the walk carries: a package, the markers met so far, the extras asked for. */
  datatype State = State(name: string, conditions: set<string>, extras: set<string>)

  const ROOT := State(RUNNER, {}, {})

  function MarkerSet(d: Dependency): set<string> {
    if d.marker.Some? then {d.marker.value} else {}
  }

  function Follow(s: State, d: Dependency): State {
    State(d.name, s.conditions + MarkerSet(d), d.extras)
  }

  /** `record` declares `d`, plainly or under one of `extras`. */
  ghost predicate Declares(record: Record, extras: set<string>, d: Dependency) {
    || Lists(Dependencies(record), d)
    || (Optional(record).Table? &&
        exists x :: x in extras && x in Optional(record).fields && Lists(Optional(record).fields[x], d))
  }

  /** An edge of the graph: a declared dependency the lock resolves. */
  ghost predicate Edge(index: Index, name: string, extras: set<string>, d: Dependency) {
    name in index && Declares(index[name], extras, d) && d.name in index
  }

  /** Every dependency in `chain` is declared by the package the one before it names. */
  ghost predicate Chain(index: Index, name: string, extras: set<string>, chain: seq<Dependency>)
    decreases |chain|
  {
    chain == [] ||
    (Edge(index, name, extras, chain[0]) && Chain(index, chain[0].name, chain[0].extras, chain[1..]))
  }

  ghost function End(s: State, chain: seq<Dependency>): State
    decreases |chain|
  {
    if chain == [] then s else End(Follow(s, chain[0]), chain[1..])
  }

  ghost predicate ReachedBy(index: Index, s: State, chain: seq<Dependency>) {
    Chain(index, ROOT.name, ROOT.extras, chain) && End(ROOT, chain) == s
  }

  ghost predicate Reachable(index: Index, s: State) {
    exists chain :: ReachedBy(index, s, chain)
  }

  /** The record of `s` passes every check that expanding `s` performs. */
  ghost predicate Sound(index: Index, s: State) {
    && s.name in index
    && ValidSource(index[s.name])
    && ValidList(index.Keys, Dependencies(index[s.name]))
    && (s.extras != {} ==> Optional(index[s.name]).Table?)
    && forall x :: x in s.extras ==>
         x in Optional(index[s.name]).fields && ValidList(index.Keys, Optional(index[s.name]).fields[x])
  }

  /** `s` was reached with no more markers and no fewer extras than `t`. */
  predicate Subsumes(s: State, t: State) {
    s.name == t.name && s.conditions <= t.conditions && t.extras <= s.extras
  }

  /** A chain reaches `name` through exactly the markers `conditions`. */
  ghost predicate Arrives(index: Index, name: string, conditions: set<string>) {
    exists s :: Reachable(index, s) && s.name == name && s.conditions == conditions
  }

  /** No chain reaches `name` through a proper subset of `conditions`. */
  ghost predicate Minimal(index: Index, name: string, conditions: set<string>) {
    && Arrives(index, name, conditions)
    && forall c :: Arrives(index, name, c) && c <= conditions ==> c == conditions
  }

  // ---- what declarations and checks say, field by field ------------------------------------

  /** Some entry of a list says `d`. */
  ghost predicate ListSays(list: Value, d: Dependency) {
    list.List? && exists entry: Record :: Table(entry) in list.items && Says(entry, d)
  }

  /** A list of entries that say something, each of another package the lock resolves. */
  ghost predicate ListIsChecked(names: set<string>, list: Value) {
    && list.List?
    && (forall i :: 0 <= i < |list.items| ==> EntryIsChecked(names, list.items[i]))
    && (forall i, j, d, e :: 0 <= i < j < |list.items| && Says(list.items[i].fields, d) && Says(list.items[j].fields, e) ==>
          d.name != e.name)
  }

  ghost predicate EntryIsChecked(names: set<string>, entry: Value) {
    entry.Table? && exists d :: Says(entry.fields, d) && d.name in names
  }

  lemma EntryChecked(names: set<string>, entry: Value)
    ensures EntryIsChecked(names, entry) <==> ParseDependency(entry).Some? && ParseDependency(entry).value.name in names
  {
    hide ParseDependency, Says;
    forall d ensures ParseDependency(entry) == Some(d) <==> entry.Table? && Says(entry.fields, d) { EntryReads(entry, d); }
    if ParseDependency(entry).Some? { assert ParseDependency(entry) == Some(ParseDependency(entry).value); }
    if EntryIsChecked(names, entry) {
      var d :| Says(entry.fields, d) && d.name in names;
      assert ParseDependency(entry) == Some(d);
    }
  }

  lemma ListReads(list: Value, d: Dependency)
    ensures Lists(list, d) <==> ListSays(list, d)
  {
    hide ParseDependency, Says;
    if list.List? {
      forall w ensures ParseDependency(w) == Some(d) <==> w.Table? && Says(w.fields, d) { EntryReads(w, d); }
      if w :| w in list.items && ParseDependency(w) == Some(d) { assert Table(w.fields) in list.items; }
    }
  }

  lemma CheckedReads(names: set<string>, list: Value)
    ensures ValidList(names, list) <==> ListIsChecked(names, list)
  {
    hide ParseDependency, Says, EntryIsChecked;
    forall w, d ensures ParseDependency(w) == Some(d) <==> w.Table? && Says(w.fields, d) { EntryReads(w, d); }
    if list.List? {
      forall i | 0 <= i < |list.items|
        ensures EntryIsChecked(names, list.items[i]) <==>
                ParseDependency(list.items[i]).Some? && ParseDependency(list.items[i]).value.name in names
      {
        EntryChecked(names, list.items[i]);
      }
    }
    if ListIsChecked(names, list) {
      forall i, j | 0 <= i < j < |list.items|
        ensures ParseDependency(list.items[i]).value.name != ParseDependency(list.items[j]).value.name
      {
        var d, e := ParseDependency(list.items[i]).value, ParseDependency(list.items[j]).value;
        assert EntryIsChecked(names, list.items[i]) && EntryIsChecked(names, list.items[j]);
        assert Says(list.items[i].fields, d) && Says(list.items[j].fields, e);
      }
    }
    if ValidList(names, list) {
      forall i, j, d, e | 0 <= i < j < |list.items| && Says(list.items[i].fields, d) && Says(list.items[j].fields, e)
        ensures d.name != e.name
      {
        assert list.items[i].Table? && list.items[j].Table?;
        assert ParseDependency(list.items[i]) == Some(d) && ParseDependency(list.items[j]) == Some(e);
      }
    }
  }

  /** A package declares what its `dependencies` say, and what the `optional-dependencies` of the
      extras asked for say. */
  lemma DeclaresReads(record: Record, extras: set<string>, d: Dependency)
    ensures Declares(record, extras, d) <==>
            || ("dependencies" in record && ListSays(record["dependencies"], d))
            || ("optional-dependencies" in record && record["optional-dependencies"].Table?
                && exists x :: x in extras && x in record["optional-dependencies"].fields
                               && ListSays(record["optional-dependencies"].fields[x], d))
  {
    hide Lists, ListSays;
    forall list: Value ensures Lists(list, d) <==> ListSays(list, d) { ListReads(list, d); }
    assert !ListSays(List([]), d) by { NothingSays(d); }
  }

  lemma NothingSays(d: Dependency)
    ensures !ListSays(List([]), d)
  {
  }

  /** The checks of a state: its source, its dependencies if it has any, and a table with a
      checked list for every extra asked for. */
  lemma SoundReads(index: Index, s: State)
    ensures Sound(index, s) <==>
            && s.name in index && SourceSays(index[s.name])
            && ("dependencies" in index[s.name] ==> ListIsChecked(index.Keys, index[s.name]["dependencies"]))
            && (s.extras != {} ==>
                  && "optional-dependencies" in index[s.name] && index[s.name]["optional-dependencies"].Table?
                  && forall x :: x in s.extras ==>
                       && x in index[s.name]["optional-dependencies"].fields
                       && ListIsChecked(index.Keys, index[s.name]["optional-dependencies"].fields[x]))
  {
    hide ValidSource, SourceSays, ValidList, ListIsChecked;
    forall list: Value ensures ValidList(index.Keys, list) <==> ListIsChecked(index.Keys, list) {
      CheckedReads(index.Keys, list);
    }
    assert ListIsChecked(index.Keys, List([])) by { NothingChecked(index.Keys); }
    if s.name in index { SourceReads(index[s.name]); }
    if s.extras != {} { var x :| x in s.extras; }
  }

  lemma NothingChecked(names: set<string>)
    ensures ListIsChecked(names, List([]))
  {
  }

  // ---- chains ------------------------------------------------------------------

  lemma RootReachable(index: Index)
    ensures Reachable(index, ROOT)
  {
    assert ReachedBy(index, ROOT, []);
  }

  lemma {:induction false} ChainSnoc(index: Index, s: State, chain: seq<Dependency>, d: Dependency)
    requires Chain(index, s.name, s.extras, chain)
    requires Edge(index, End(s, chain).name, End(s, chain).extras, d)
    ensures Chain(index, s.name, s.extras, chain + [d])
    ensures End(s, chain + [d]) == Follow(End(s, chain), d)
    decreases |chain|
  {
    if chain == [] {
      assert (chain + [d])[1..] == [];
    } else {
      assert (chain + [d])[1..] == chain[1..] + [d];
      ChainSnoc(index, Follow(s, chain[0]), chain[1..], d);
    }
  }

  lemma ReachableFollow(index: Index, s: State, d: Dependency)
    requires Reachable(index, s) && Edge(index, s.name, s.extras, d)
    ensures Reachable(index, Follow(s, d))
  {
    var chain :| ReachedBy(index, s, chain);
    ChainSnoc(index, ROOT, chain, d);
    assert ReachedBy(index, Follow(s, d), chain + [d]);
  }

  ghost function Markers(chain: seq<Dependency>): set<string> {
    set i | 0 <= i < |chain| && chain[i].marker.Some? :: chain[i].marker.value
  }

  /** The conditions at the end of a chain are the markers along it. */
  lemma {:induction false} EndConditions(s: State, chain: seq<Dependency>)
    ensures End(s, chain).conditions == s.conditions + Markers(chain)
    ensures chain != [] ==> End(s, chain).name == chain[|chain| - 1].name
    decreases |chain|
  {
    if chain == [] {
    } else {
      var rest := chain[1..];
      EndConditions(Follow(s, chain[0]), rest);
      assert Markers(chain) == MarkerSet(chain[0]) + Markers(rest) by {
        forall m | m in Markers(chain) ensures m in MarkerSet(chain[0]) + Markers(rest) {
          var i :| 0 <= i < |chain| && chain[i].marker.Some? && chain[i].marker.value == m;
          if i > 0 { assert rest[i - 1] == chain[i]; }
        }
        forall m | m in Markers(rest) ensures m in Markers(chain) {
          var i :| 0 <= i < |rest| && rest[i].marker.Some? && rest[i].marker.value == m;
          assert chain[i + 1] == rest[i];
        }
      }
    }
  }

  // ---- subsumption ---------------------------------------------------------------

  /** Fewer markers and more extras keep every edge. */
  lemma SubsumesFollow(index: Index, s: State, t: State, d: Dependency)
    requires Subsumes(s, t) && Edge(index, t.name, t.extras, d)
    ensures Edge(index, s.name, s.extras, d) && Subsumes(Follow(s, d), Follow(t, d))
  {
  }

  /** A family of states that contains the root's cover and covers its own successors. */
  ghost predicate ClosedCover(index: Index, states: iset<State>) {
    forall s, d :: s in states && Edge(index, s.name, s.extras, d) ==> Covered(states, Follow(s, d))
  }

  ghost predicate Covered(states: iset<State>, t: State) {
    exists s :: s in states && Subsumes(s, t)
  }

  /** A closed cover covers everything reachable, however much was pruned to build it. */
  lemma {:induction false} ClosedCoverReaches(index: Index, states: iset<State>, t: State, chain: seq<Dependency>)
    requires ClosedCover(index, states) && Covered(states, t) && Chain(index, t.name, t.extras, chain)
    ensures Covered(states, End(t, chain))
    decreases |chain|
  {
    if chain == [] {
    } else {
      var s :| s in states && Subsumes(s, t);
      SubsumesFollow(index, s, t, chain[0]);
      var u :| u in states && Subsumes(u, Follow(s, chain[0]));
      assert Subsumes(u, Follow(t, chain[0]));
      ClosedCoverReaches(index, states, Follow(t, chain[0]), chain[1..]);
    }
  }

  /** Pruning hides no error: a state is sound when a state subsuming it is. */
  lemma SoundSubsumed(index: Index, s: State, t: State)
    requires Subsumes(s, t) && Sound(index, s)
    ensures Sound(index, t)
  {
  }

  // ---- a finite universe of states ---------------------------------------------------

  /** Every dependency some record of the lock declares under some extra. */
  ghost function DependencyLists(record: Record): set<Value> {
    {Dependencies(record)} +
    (if Optional(record).Table? then set x | x in Optional(record).fields :: Optional(record).fields[x] else {})
  }

  ghost function AllDependencies(index: Index): set<Dependency> {
    set n, v, w | n in index && v in DependencyLists(index[n]) && v.List? && w in v.items
                  && ParseDependency(w).Some? :: ParseDependency(w).value
  }

  ghost function Universe(index: Index): set<State> {
    var all := AllDependencies(index);
    var markers := set d | d in all && d.marker.Some? :: d.marker.value;
    var extras := set d, x | d in all && x in d.extras :: x;
    set n, c, e | n in index && c <= markers && e <= extras :: State(n, c, e)
  }

  lemma UniverseClosed(index: Index, s: State, d: Dependency)
    requires s in Universe(index) && Edge(index, s.name, s.extras, d)
    ensures Follow(s, d) in Universe(index)
  {
    var all := AllDependencies(index);
    assert d in all by {
      var record := index[s.name];
      var v: Value;
      if Lists(Dependencies(record), d) {
        v := Dependencies(record);
      } else {
        var x :| x in s.extras && x in Optional(record).fields && Lists(Optional(record).fields[x], d);
        v := Optional(record).fields[x];
      }
      assert v in DependencyLists(record);
      var w :| w in v.items && ParseDependency(w) == Some(d);
    }
    var markers := set d | d in all && d.marker.Some? :: d.marker.value;
    var extras := set d, x | d in all && x in d.extras :: x;
    assert MarkerSet(d) <= markers && d.extras <= extras;
  }

  lemma RootInUniverse(index: Index)
    requires RUNNER in index
    ensures ROOT in Universe(index)
  {
  }
}
