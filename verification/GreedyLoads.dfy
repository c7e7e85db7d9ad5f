/** Loads of an assignment of sized groups to shards, and the greedy assignment.

    Groups are numbered in placement order: `p[i]` is the size of group `i`,
    `f[i]` the shard it is placed on, counted from 0.
 */
module GreedyLoads {

  /** Total size placed on `shard`. */
  function Load(p: seq<nat>, f: seq<nat>, shard: nat): nat
    requires |p| == |f|
  {
    if p == [] then 0
    else
      var n := |p| - 1;
      Load(p[..n], f[..n], shard) + if f[n] == shard then p[n] else 0
  }

  function Total(p: seq<nat>): nat {
    if p == [] then 0 else Total(p[..|p| - 1]) + p[|p| - 1]
  }

  /** Sum of the loads of the shards below `m`. */
  function LoadsBelow(p: seq<nat>, f: seq<nat>, m: nat): nat
    requires |p| == |f|
  {
    if m == 0 then 0 else LoadsBelow(p, f, m - 1) + Load(p, f, m - 1)
  }

  predicate Within(f: seq<nat>, limits: seq<nat>) {
    |f| == |limits| && forall i :: 0 <= i < |f| ==> f[i] < limits[i]
  }

  /** No shard carries more than `bound`. */
  ghost predicate Bounded(p: seq<nat>, f: seq<nat>, bound: nat)
    requires |p| == |f|
  {
    forall s: nat :: Load(p, f, s) <= bound
  }

  /** The first shard below `limit` whose load is least. */
  function LeastLoaded(p: seq<nat>, f: seq<nat>, limit: nat): (least: nat)
    requires |p| == |f| && limit > 0
    ensures least < limit
    ensures forall s: nat :: s < limit ==> Load(p, f, least) <= Load(p, f, s)
    ensures forall s: nat :: s < least ==> Load(p, f, least) < Load(p, f, s)
  {
    if limit == 1 then 0
    else
      var best := LeastLoaded(p, f, limit - 1);
      if Load(p, f, limit - 1) < Load(p, f, best) then limit - 1 else best
  }

  /** Nothing else is the first shard whose load is least. */
  lemma IsLeastLoaded(p: seq<nat>, f: seq<nat>, limit: nat, target: nat)
    requires |p| == |f| && target < limit
    requires forall s: nat :: s < limit ==> Load(p, f, target) <= Load(p, f, s)
    requires forall s: nat :: s < target ==> Load(p, f, target) < Load(p, f, s)
    ensures target == LeastLoaded(p, f, limit)
  {
    hide Load;
    var least := LeastLoaded(p, f, limit);
    assert Load(p, f, least) <= Load(p, f, target);
  }

  /** Each group in turn goes to the least loaded shard it may use. */
  function Greedy(p: seq<nat>, limits: seq<nat>): (f: seq<nat>)
    requires |p| == |limits| && forall i :: 0 <= i < |limits| ==> limits[i] > 0
    ensures Within(f, limits)
  {
    if p == [] then []
    else
      var n := |p| - 1;
      var before := Greedy(p[..n], limits[..n]);
      before + [LeastLoaded(p[..n], before, limits[n])]
  }

  lemma {:induction false} GreedyPrefix(p: seq<nat>, limits: seq<nat>, n: nat)
    requires |p| == |limits| && n <= |p| && forall i :: 0 <= i < |limits| ==> limits[i] > 0
    ensures Greedy(p, limits)[..n] == Greedy(p[..n], limits[..n])
    decreases |p|
  {
    var k := |p| - 1;
    if n == |p| {
      assert p[..n] == p && limits[..n] == limits;
      assert Greedy(p, limits)[..n] == Greedy(p, limits);
    } else {
      GreedyPrefix(p[..k], limits[..k], n);
      assert p[..k][..n] == p[..n] && limits[..k][..n] == limits[..n];
      assert Greedy(p, limits)[..n] == Greedy(p[..k], limits[..k])[..n];
    }
  }

  // ---- sums of loads -----------------------------------------------------------------

  lemma {:induction false} LoadsBelowSnoc(p: seq<nat>, f: seq<nat>, m: nat)
    requires |p| == |f| && p != []
    ensures var n := |p| - 1;
            LoadsBelow(p, f, m) == LoadsBelow(p[..n], f[..n], m) + if f[n] < m then p[n] else 0
    decreases m
  {
    if m == 0 {
    } else {
      LoadsBelowSnoc(p, f, m - 1);
    }
  }

  /** Loads below `m` add up to the sizes when every group lies below `m`. */
  lemma {:induction false} LoadsAddUp(p: seq<nat>, f: seq<nat>, m: nat)
    requires |p| == |f| && forall i :: 0 <= i < |f| ==> f[i] < m
    ensures LoadsBelow(p, f, m) == Total(p)
    decreases |p|
  {
    if p == [] {
      EmptyLoads(m);
    } else {
      LoadsBelowSnoc(p, f, m);
      LoadsAddUp(p[..|p| - 1], f[..|p| - 1], m);
    }
  }

  lemma {:induction false} EmptyLoads(m: nat)
    ensures LoadsBelow([], [], m) == 0
  {
    if m == 0 {
    } else {
      EmptyLoads(m - 1);
    }
  }

  /** The least load times the number of shards is at most their sum. */
  lemma {:induction false} LeastTimes(p: seq<nat>, f: seq<nat>, m: nat, least: nat)
    requires |p| == |f| && forall s: nat :: s < m ==> least <= Load(p, f, s)
    ensures m * least <= LoadsBelow(p, f, m)
    decreases m
  {
    if m == 0 {
    } else {
      LeastTimes(p, f, m - 1, least);
      assert m * least == (m - 1) * least + least;
    }
  }

  lemma {:induction false} BoundedTimes(p: seq<nat>, f: seq<nat>, m: nat, bound: nat)
    requires |p| == |f| && Bounded(p, f, bound)
    ensures LoadsBelow(p, f, m) <= m * bound
    decreases m
  {
    if m == 0 {
    } else {
      BoundedTimes(p, f, m - 1, bound);
      assert m * bound == (m - 1) * bound + bound;
    }
  }

  /** A group is no larger than the load of its shard. */
  lemma {:induction false} SizeWithinLoad(p: seq<nat>, f: seq<nat>, i: nat)
    requires |p| == |f| && i < |p|
    ensures p[i] <= Load(p, f, f[i])
    decreases |p|
  {
    var n := |p| - 1;
    if i == n {
    } else {
      SizeWithinLoad(p[..n], f[..n], i);
    }
  }

  /** Two groups on one shard are together no larger than its load. */
  lemma {:induction false} PairWithinLoad(p: seq<nat>, f: seq<nat>, i: nat, j: nat)
    requires |p| == |f| && i < |p| && j < |p| && i != j && f[i] == f[j]
    ensures p[i] + p[j] <= Load(p, f, f[i])
    decreases |p|
  {
    var n := |p| - 1;
    if i < n && j < n {
      PairWithinLoad(p[..n], f[..n], i, j);
    } else if i < n {
      SizeWithinLoad(p[..n], f[..n], i);
    } else {
      SizeWithinLoad(p[..n], f[..n], j);
    }
  }

  /** Leaving out later groups only lowers loads. */
  lemma {:induction false} PrefixLoad(p: seq<nat>, f: seq<nat>, n: nat, s: nat)
    requires |p| == |f| && n <= |p|
    ensures Load(p[..n], f[..n], s) <= Load(p, f, s)
    ensures (forall i :: n <= i < |f| ==> f[i] != s) ==> Load(p[..n], f[..n], s) == Load(p, f, s)
    decreases |p|
  {
    var k := |p| - 1;
    if n == |p| {
      assert p[..n] == p && f[..n] == f;
    } else {
      PrefixLoad(p[..k], f[..k], n, s);
      assert p[..k][..n] == p[..n] && f[..k][..n] == f[..n];
    }
  }

  lemma PrefixBounded(p: seq<nat>, f: seq<nat>, n: nat, bound: nat)
    requires |p| == |f| && n <= |p| && Bounded(p, f, bound)
    ensures Bounded(p[..n], f[..n], bound)
  {
    forall s: nat ensures Load(p[..n], f[..n], s) <= bound { PrefixLoad(p, f, n, s); }
  }

  /** The last group placed on a shard that carries anything. */
  lemma {:induction false} LastOn(p: seq<nat>, f: seq<nat>, s: nat) returns (k: nat)
    requires |p| == |f| && Load(p, f, s) > 0
    ensures k < |p| && f[k] == s && forall i :: k < i < |f| ==> f[i] != s
    decreases |p|
  {
    k := |p| - 1;
    if f[k] != s { k := LastOn(p[..k], f[..k], s); }
  }

  // ---- the last group placed on a shard ---------------------------------------------------

  lemma LastIsLeast(p: seq<nat>, limits: seq<nat>)
    requires p != [] && |p| == |limits| && forall i :: 0 <= i < |limits| ==> limits[i] > 0
    ensures var f, n := Greedy(p, limits), |p| - 1; f[n] == LeastLoaded(p[..n], f[..n], limits[n])
  {
    hide LeastLoaded;
    var n := |p| - 1;
    assert Greedy(p, limits)[..n] == Greedy(p[..n], limits[..n]);
  }

  lemma LoadLast(p: seq<nat>, f: seq<nat>, s: nat)
    requires p != [] && |p| == |f|
    ensures var n := |p| - 1; Load(p, f, s) == Load(p[..n], f[..n], s) + if f[n] == s then p[n] else 0
  {
  }

  /** The last group goes on a shard whose load is least among those it may use. */
  lemma LastPlacement(p: seq<nat>, limits: seq<nat>)
    requires p != [] && |p| == |limits| && forall i :: 0 <= i < |limits| ==> limits[i] > 0
    ensures var f, n := Greedy(p, limits), |p| - 1;
            && f[..n] == Greedy(p[..n], limits[..n])
            && Load(p, f, f[n]) == Load(p[..n], f[..n], f[n]) + p[n]
            && forall s: nat :: s < limits[n] ==> Load(p[..n], f[..n], f[n]) <= Load(p[..n], f[..n], s)
  {
    hide Greedy, LeastLoaded, Load;
    var f, n := Greedy(p, limits), |p| - 1;
    GreedyPrefix(p, limits, n);
    LastIsLeast(p, limits);
    LoadLast(p, f, f[n]);
  }

  /** All sizes together fit below `m` times the largest load of any assignment below `m`. */
  lemma TotalBounded(p: seq<nat>, f: seq<nat>, m: nat, bound: nat)
    requires |p| == |f| && (forall i :: 0 <= i < |f| ==> f[i] < m) && Bounded(p, f, bound)
    ensures Total(p) <= m * bound
  {
    LoadsAddUp(p, f, m);
    BoundedTimes(p, f, m, bound);
  }

  lemma LeastTotal(p: seq<nat>, f: seq<nat>, m: nat, least: nat)
    requires |p| == |f| && (forall i :: 0 <= i < |f| ==> f[i] < m)
    requires forall s: nat :: s < m ==> least <= Load(p, f, s)
    ensures m * least <= Total(p)
  {
    LoadsAddUp(p, f, m);
    LeastTimes(p, f, m, least);
  }

  /** Where the last group is placed, a least load `before` was waiting for it. */
  lemma LastLoad(p: seq<nat>, limits: seq<nat>) returns (before: nat)
    requires p != [] && |p| == |limits| && forall i :: 0 <= i < |limits| ==> 0 < limits[i] <= limits[|p| - 1]
    ensures var f, n := Greedy(p, limits), |p| - 1;
            && Load(p, f, f[n]) == before + p[n]
            && limits[n] * before + p[n] <= Total(p)
  {
    var f, n := Greedy(p, limits), |p| - 1;
    LastPlacement(p, limits);
    before := Load(p[..n], f[..n], f[n]);
    assert forall i :: 0 <= i < n ==> f[..n][i] < limits[n];
    LeastTotal(p[..n], f[..n], limits[n], before);
  }

  /** The list-scheduling bound: if earlier groups may use no more shards than the last
      one, its shard's load exceeds any admissible maximum by less than its own size. */
  lemma LastGroupBound(p: seq<nat>, limits: seq<nat>, other: seq<nat>, bound: nat)
    requires p != [] && |p| == |limits| && forall i :: 0 <= i < |limits| ==> 0 < limits[i] <= limits[|p| - 1]
    requires Within(other, limits) && Bounded(p, other, bound)
    ensures var f, n := Greedy(p, limits), |p| - 1;
            limits[n] * Load(p, f, f[n]) <= limits[n] * bound + (limits[n] - 1) * p[n]
    ensures p[|p| - 1] <= bound
  {
    hide Load, Bounded, Total, Greedy;
    LastSize(p, other, bound);
    var before := LastLoad(p, limits);
    OtherTotal(p, limits, other, bound);
    Distribute(limits[|p| - 1], before, p[|p| - 1], bound, Total(p));
  }

  lemma LastSize(p: seq<nat>, f: seq<nat>, bound: nat)
    requires p != [] && |p| == |f| && Bounded(p, f, bound)
    ensures p[|p| - 1] <= bound
  {
    SizeWithinLoad(p, f, |p| - 1);
    assert Load(p, f, f[|p| - 1]) <= bound;
  }

  lemma OtherTotal(p: seq<nat>, limits: seq<nat>, other: seq<nat>, bound: nat)
    requires p != [] && |p| == |limits| && forall i :: 0 <= i < |limits| ==> 0 < limits[i] <= limits[|p| - 1]
    requires Within(other, limits) && Bounded(p, other, bound)
    ensures Total(p) <= limits[|p| - 1] * bound
  {
    assert forall i :: 0 <= i < |p| ==> other[i] < limits[|p| - 1];
    hide Bounded, Load, Total;
    TotalBounded(p, other, limits[|p| - 1], bound);
  }

  lemma Distribute(m: nat, before: nat, size: nat, bound: nat, total: nat)
    requires m > 0 && m * before + size <= total <= m * bound
    ensures m * (before + size) <= m * bound + (m - 1) * size
  {
    assert m * (before + size) == m * before + size + (m - 1) * size;
  }
}
