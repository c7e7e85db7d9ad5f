/** The shard split of the test suite: `assign_shards` and the collection hook.

    Placement order, tie-breaks and tier limits are those of the root `conftest.py`.
    Shards are numbered from 1 in results and from 0 in `GreedyLoads`.
 */
module Shards {
  import opened Options
  import opened Orders
  import opened GreedyLoads
  import opened LptBound

  datatype Group = Group(name: string, size: nat)

  /** STORAGE and FULL: how many shards boot each restricted tier. */
  datatype TierLimits = TierLimits(storage: nat, full: nat)

  type Tiers = map<string, nat>

  function TierOf(tiers: Tiers, name: string): nat { if name in tiers then tiers[name] else 0 }

  /** How many shards a group of `tier` may use. */
  function TierLimit(tier: nat, count: nat, limits: TierLimits): nat {
    var limit := if tier == 0 then count else if tier == 1 then limits.storage else limits.full;
    if limit < count then limit else count
  }

  /** What the options say of a group's shards, which are numbered from 1: all of them, but the
      first STORAGE for tier 1 and the first FULL for tier 2. */
  predicate MayUse(tiers: Tiers, count: nat, limits: TierLimits, name: string, shard: nat) {
    && 1 <= shard <= count
    && (name in tiers && tiers[name] == 1 ==> shard <= limits.storage)
    && (name in tiers && tiers[name] >= 2 ==> shard <= limits.full)
  }

  /** A group that needs a tier no shard boots. */
  predicate IsHomeless(tiers: Tiers, limits: TierLimits, name: string) {
    name in tiers && ((tiers[name] == 1 && limits.storage == 0) || (tiers[name] == 2 && limits.full == 0))
  }

  lemma TierLimitIs(tiers: Tiers, count: nat, limits: TierLimits, name: string)
    ensures forall shard: nat :: MayUse(tiers, count, limits, name, shard) <==> 1 <= shard <= TierLimit(TierOf(tiers, name), count, limits)
    ensures count > 0 && (name in tiers ==> tiers[name] <= 2) ==>
              (TierLimit(TierOf(tiers, name), count, limits) == 0 <==> IsHomeless(tiers, limits, name))
  {
  }

  predicate PlainBefore(a: Group, b: Group) {
    a.size > b.size || (a.size == b.size && TextLe(a.name, b.name))
  }

  /** Largest group first, then by name. */
  const PlainLe: (Group, Group) -> bool := (a, b) => PlainBefore(a, b)

  predicate TieredBefore(tiers: Tiers, a: Group, b: Group) {
    || TierOf(tiers, a.name) > TierOf(tiers, b.name)
    || (TierOf(tiers, a.name) == TierOf(tiers, b.name) && PlainBefore(a, b))
  }

  /** Most restricted tier first, then as in the plain split. */
  function TieredLe(tiers: Tiers): (Group, Group) -> bool {
    (a, b) => TieredBefore(tiers, a, b)
  }

  lemma GroupOrders(tiers: Tiers)
    ensures TotalOrder(PlainLe) && TotalOrder(TieredLe(tiers))
  {
    TextOrders();
    hide TextLe;
  }

  function Groups(sizes: map<string, nat>): set<Group> { set n | n in sizes :: Group(n, sizes[n]) }

  function Sizes(groups: seq<Group>): (p: seq<nat>)
    ensures |p| == |groups| && forall i :: 0 <= i < |p| ==> p[i] == groups[i].size
  {
    seq(|groups|, i requires 0 <= i < |groups| => groups[i].size)
  }

  function Limits(groups: seq<Group>, tiers: Tiers, count: nat, limits: TierLimits): (l: seq<nat>)
    ensures |l| == |groups|
    ensures forall i :: 0 <= i < |l| ==> l[i] == TierLimit(TierOf(tiers, groups[i].name), count, limits)
  {
    seq(|groups|, i requires 0 <= i < |groups| => TierLimit(TierOf(tiers, groups[i].name), count, limits))
  }

  /** `owner` places group `i` on shard `f[i]`. */
  ghost predicate Assigned(groups: seq<Group>, f: seq<nat>, owner: map<string, nat>) {
    && |groups| == |f|
    && (forall n :: n in owner ==> exists i :: 0 <= i < |groups| && groups[i].name == n)
    && forall i :: 0 <= i < |groups| ==> groups[i].name in owner && owner[groups[i].name] == f[i] + 1
  }

  /** `owner` is the greedy assignment of the groups in this order. */
  ghost predicate Follows(groups: seq<Group>, limits: seq<nat>, owner: map<string, nat>) {
    && |groups| == |limits| && (forall i :: 0 <= i < |limits| ==> limits[i] > 0)
    && Assigned(groups, Greedy(Sizes(groups), limits), owner)
  }

  /** The first least entry among the first `limit`, as `min` with a (load, shard) key finds it. */
  method FirstLeast(loads: array<nat>, limit: nat) returns (least: nat)
    requires 0 < limit <= loads.Length
    ensures least < limit
    ensures forall s :: 0 <= s < limit ==> loads[least] <= loads[s]
    ensures forall s :: 0 <= s < least ==> loads[least] < loads[s]
  {
    least := 0;
    for shard := 1 to limit
      invariant least < shard
      invariant forall s :: 0 <= s < shard ==> loads[least] <= loads[s]
      invariant forall s :: 0 <= s < least ==> loads[least] < loads[s]
    {
      if loads[shard] < loads[least] { least := shard; }
    }
  }

  /** Place sorted groups one by one, updating the loads in place. */
  method Place(groups: seq<Group>, limits: seq<nat>, count: nat) returns (owner: Option<map<string, nat>>)
    requires |groups| == |limits| && forall i :: 0 <= i < |limits| ==> limits[i] <= count
    requires forall i, j :: 0 <= i < j < |groups| ==> groups[i].name != groups[j].name
    ensures owner.None? <==> exists i :: 0 <= i < |limits| && limits[i] == 0
    ensures owner.Some? ==> Follows(groups, limits, owner.value)
  {
    hide Greedy, LeastLoaded, Assigned;
    var loads := new nat[count](_ => 0);
    var placed: map<string, nat> := map[];
    ghost var p, f := Sizes(groups), [];
    NothingPlaced(count);
    for k := 0 to |groups|
      invariant forall i :: 0 <= i < k ==> limits[i] > 0
      invariant f == Greedy(p[..k], limits[..k]) && Assigned(groups[..k], f, placed)
      invariant forall s: nat :: s < count ==> loads[s] == Load(p[..k], f, s)
    {
      if limits[k] == 0 { return None; }
      var target := FirstLeast(loads, limits[k]);
      ghost var least := LeastLoaded(p[..k], f, limits[k]);
      forall s: nat | s < limits[k] ensures Load(p[..k], f, target) <= Load(p[..k], f, s) {
        assert loads[target] <= loads[s];
      }
      forall s: nat | s < target ensures Load(p[..k], f, target) < Load(p[..k], f, s) {
        assert loads[target] < loads[s];
      }
      assert target == least by { IsLeastLoaded(p[..k], f, limits[k], target); }
      GreedyStep(p, limits, k);
      AssignOne(groups, f, k, target, placed);
      LoadsAfter(p, f, k, target);
      loads[target] := loads[target] + groups[k].size;
      placed := placed[groups[k].name := target + 1];
      f := f + [target];
    }
    assert groups[..|groups|] == groups && limits[..|groups|] == limits && p[..|groups|] == p;
    return Some(placed);
  }

  lemma NothingPlaced(count: nat)
    ensures Greedy([], []) == [] && Assigned([], [], map[])
    ensures forall s: nat :: Load([], [], s) == 0
  {
  }

  lemma GreedyStep(p: seq<nat>, limits: seq<nat>, k: nat)
    requires k < |p| == |limits| && forall i :: 0 <= i <= k ==> limits[i] > 0
    ensures var before := Greedy(p[..k], limits[..k]);
            Greedy(p[..k + 1], limits[..k + 1]) == before + [LeastLoaded(p[..k], before, limits[k])]
  {
    var q, l := p[..k + 1], limits[..k + 1];
    assert q[..k] == p[..k] && l[..k] == limits[..k];
  }

  lemma LoadsAfter(p: seq<nat>, f: seq<nat>, k: nat, target: nat)
    requires k < |p| && |f| == k
    ensures forall s: nat ::
              Load(p[..k + 1], f + [target], s) == Load(p[..k], f, s) + if s == target then p[k] else 0
  {
    assert p[..k + 1] == p[..k] + [p[k]];
    forall s: nat { LoadSnoc(p[..k], f, p[k], target, s); }
  }

  /** Placing one more group under its own name. */
  lemma AssignOne(groups: seq<Group>, f: seq<nat>, k: nat, target: nat, placed: map<string, nat>)
    requires k < |groups| && Assigned(groups[..k], f, placed)
    requires forall i, j :: 0 <= i < j < |groups| ==> groups[i].name != groups[j].name
    ensures Assigned(groups[..k + 1], f + [target], placed[groups[k].name := target + 1])
  {
    var next, more := placed[groups[k].name := target + 1], groups[..k + 1];
    forall i | 0 <= i < k + 1 ensures more[i].name in next && next[more[i].name] == (f + [target])[i] + 1 {
      if i < k { assert groups[..k][i] == more[i]; }
    }
    forall n | n in next ensures exists i :: 0 <= i < k + 1 && more[i].name == n {
      if n == groups[k].name {
        assert more[k].name == n;
      } else {
        var i :| 0 <= i < k && groups[..k][i].name == n;
        assert more[i].name == n;
      }
    }
  }

  /** Groups placed in the order of their key, as `assign_shards` places them. */
  method AssignShards(sizes: map<string, nat>, count: nat, tiers: Tiers, limits: Option<TierLimits>)
    returns (owner: Option<map<string, nat>>, ghost groups: seq<Group>)
    requires count > 0 && forall n :: n in tiers ==> tiers[n] <= 2
    ensures limits.None? ==> Listing(PlainLe, groups, Groups(sizes)) && owner.Some?
                             && Follows(groups, Same(|groups|, count), owner.value)
    ensures limits.Some? ==> Listing(TieredLe(tiers), groups, Groups(sizes))
    ensures limits.Some? ==>
              (owner.None? <==> exists n :: n in sizes && IsHomeless(tiers, limits.value, n))
    ensures limits.Some? && owner.Some? ==>
              Follows(groups, Limits(groups, tiers, count, limits.value), owner.value)
  {
    GroupOrders(tiers);
    var order := if limits.None? then PlainLe else TieredLe(tiers);
    var sorted := Sort(order, Groups(sizes));
    groups := sorted;
    NamesDiffer(order, sorted, sizes);
    hide TieredLe, PlainLe, Follows, TierOf, TierLimit, IsHomeless;
    if limits.Some? {
      forall n ensures TierLimit(TierOf(tiers, n), count, limits.value) == 0 <==> IsHomeless(tiers, limits.value, n) {
        TierLimitIs(tiers, count, limits.value, n);
      }
    }
    if limits.None? {
      owner := Place(sorted, Same(|sorted|, count), count);
    } else {
      owner := Place(sorted, Limits(sorted, tiers, count, limits.value), count);
      forall n | n in sizes ensures exists i :: 0 <= i < |sorted| && sorted[i].name == n {
        assert Group(n, sizes[n]) in Elements(sorted);
      }
      forall i | 0 <= i < |sorted| ensures sorted[i].name in sizes {
        assert sorted[i] in Elements(sorted);
      }
    }
  }

  lemma NamesDiffer(order: (Group, Group) -> bool, groups: seq<Group>, sizes: map<string, nat>)
    requires Listing(order, groups, Groups(sizes))
    ensures forall i :: 0 <= i < |groups| ==> groups[i].name in sizes && sizes[groups[i].name] == groups[i].size
    ensures forall i, j :: 0 <= i < j < |groups| ==> groups[i].name != groups[j].name
  {
    forall i | 0 <= i < |groups| ensures groups[i].name in sizes && sizes[groups[i].name] == groups[i].size {
      assert groups[i] in Elements(groups);
    }
  }

  // ---- the orders, key by key ------------------------------------------------------------

  /** Larger groups come first, and equally large ones by name. */
  lemma PlainOrder(groups: seq<Group>, i: nat, j: nat)
    requires Ascending(PlainLe, groups) && i < j < |groups|
    ensures groups[i].size >= groups[j].size
    ensures groups[i].size == groups[j].size ==> groups[i].name != groups[j].name && TextLe(groups[i].name, groups[j].name)
  {
    hide TextLe;
  }

  /** Higher tiers come first, then larger groups, then by name. An unlisted group has tier 0. */
  lemma TieredOrder(tiers: Tiers, groups: seq<Group>, i: nat, j: nat)
    requires Ascending(TieredLe(tiers), groups) && i < j < |groups|
    ensures var a, b := groups[i], groups[j];
            var s, t := (if a.name in tiers then tiers[a.name] else 0), (if b.name in tiers then tiers[b.name] else 0);
            && s >= t
            && (s == t ==> a.size >= b.size)
            && (s == t && a.size == b.size ==> a.name != b.name && TextLe(a.name, b.name))
  {
    hide TextLe;
  }
}
