/** Graham's bound for longest-first scheduling: 3m * load <= (4m - 1) * L.

    Sizes are in descending order and every group may use all `m` shards. `L` is
    the largest load of any other assignment to `m` shards.
 */
module LptBound {
  import opened GreedyLoads
  import opened Sets

  predicate Descending(p: seq<nat>) {
    forall i, j :: 0 <= i < j < |p| ==> p[j] <= p[i]
  }

  function Same(n: nat, m: nat): (limits: seq<nat>)
    ensures |limits| == n && forall i :: 0 <= i < n ==> limits[i] == m
  {
    seq(n, _ => m)
  }

  // ---- counting groups per shard ----------------------------------------------------

  function Count(f: seq<nat>, shard: nat): nat {
    if f == [] then 0 else Count(f[..|f| - 1], shard) + if f[|f| - 1] == shard then 1 else 0
  }

  function CountsBelow(f: seq<nat>, m: nat): nat {
    if m == 0 then 0 else CountsBelow(f, m - 1) + Count(f, m - 1)
  }

  lemma {:induction false} CountsBelowSnoc(f: seq<nat>, m: nat)
    requires f != []
    ensures CountsBelow(f, m) == CountsBelow(f[..|f| - 1], m) + if f[|f| - 1] < m then 1 else 0
    decreases m
  {
    if m == 0 {
    } else {
      CountsBelowSnoc(f, m - 1);
    }
  }

  /** The counts of all shards add up to the number of groups. */
  lemma {:induction false} CountsAddUp(f: seq<nat>, m: nat)
    requires forall i :: 0 <= i < |f| ==> f[i] < m
    ensures CountsBelow(f, m) == |f|
    decreases |f|
  {
    if f == [] {
      EmptyCounts(m);
    } else {
      CountsBelowSnoc(f, m);
      CountsAddUp(f[..|f| - 1], m);
    }
  }

  lemma {:induction false} EmptyCounts(m: nat)
    ensures CountsBelow([], m) == 0
  {
    if m == 0 {
    } else {
      EmptyCounts(m - 1);
    }
  }

  /** Groups no smaller than `x` weigh at least `x` each. */
  lemma {:induction false} CountTimes(p: seq<nat>, f: seq<nat>, s: nat, x: nat)
    requires |p| == |f| && forall i :: 0 <= i < |p| ==> x <= p[i]
    ensures x * Count(f, s) <= Load(p, f, s)
    decreases |p|
  {
    if p == [] {
    } else {
      var n := |p| - 1;
      CountTimes(p[..n], f[..n], s, x);
      assert x * (Count(f[..n], s) + 1) == x * Count(f[..n], s) + x;
    }
  }

  /** A shard holding two groups holds, with any group on it, another one. */
  lemma {:induction false} AnotherOn(f: seq<nat>, i: nat) returns (j: nat)
    requires i < |f| && Count(f, f[i]) >= 2
    ensures j < |f| && j != i && f[j] == f[i]
    decreases |f|
  {
    var n := |f| - 1;
    if i == n {
      j := SomeOn(f[..n], f[n]);
    } else if f[n] == f[i] {
      j := n;
    } else {
      j := AnotherOn(f[..n], i);
    }
  }

  lemma {:induction false} SomeOn(f: seq<nat>, s: nat) returns (j: nat)
    requires Count(f, s) > 0
    ensures j < |f| && f[j] == s
    decreases |f|
  {
    j := |f| - 1;
    if f[j] != s { j := SomeOn(f[..j], s); }
  }

  /** With at most two groups a shard, and at most one on each shard of `few`, the shards
      below `m` hold at most 2m - |few| groups. */
  lemma {:induction false} FewOnSome(f: seq<nat>, m: nat, few: set<nat>)
    requires forall s: nat :: s < m ==> Count(f, s) <= 2
    requires forall s :: s in few ==> s < m && Count(f, s) <= 1
    ensures CountsBelow(f, m) + |few| <= 2 * m
    decreases m
  {
    if m == 0 {
      assert few == {};
    } else {
      var rest := few - {m - 1};
      FewOnSome(f, m - 1, rest);
      if m - 1 in few { assert |rest| == |few| - 1; } else { assert rest == few; }
    }
  }

  // ---- pigeonholes ----------------------------------------------------------------------

  function Range(a: nat, b: nat): (r: set<nat>)
    requires a <= b
    ensures forall i: nat :: i in r <==> a <= i < b
    ensures |r| == b - a
  {
    if a == b then {} else Range(a, b - 1) + {b - 1}
  }

  /** The shards used by groups `a` up to `b`. */
  function Used(f: seq<nat>, a: nat, b: nat): set<nat>
    requires b <= |f|
  {
    set i | a <= i < b :: f[i]
  }

  lemma {:induction false} UsedSize(f: seq<nat>, a: nat, b: nat)
    requires a <= b <= |f|
    ensures |Used(f, a, b)| <= b - a
    ensures (forall i, j :: a <= i < j < b ==> f[i] != f[j]) ==> |Used(f, a, b)| == b - a
    decreases b
  {
    if a == b {
    } else {
      UsedSize(f, a, b - 1);
      assert Used(f, a, b) == Used(f, a, b - 1) + {f[b - 1]};
    }
  }

  /** More shards than groups leave some shard unused. */
  lemma SomeUnused(f: seq<nat>, a: nat, b: nat, lo: nat, hi: nat) returns (s: nat)
    requires a <= b <= |f| && lo <= hi && b - a < hi - lo
    ensures lo <= s < hi && forall i :: a <= i < b ==> f[i] != s
  {
    UsedSize(f, a, b);
    if Range(lo, hi) <= Used(f, a, b) {
      SubsetSize(Range(lo, hi), Used(f, a, b));
    }
    s :| s in Range(lo, hi) && s !in Used(f, a, b);
  }

  // ---- the first m groups take one shard each ----------------------------------------------

  /** While shards are empty, positive groups go to them in order. */
  lemma {:induction false} FirstGroups(p: seq<nat>, m: nat, i: nat)
    requires i < |p| && i < m && forall j :: 0 <= j < |p| ==> p[j] > 0
    ensures Greedy(p, Same(|p|, m))[i] == i
    decreases i
  {
    hide Greedy, Load, LeastLoaded;
    var limits, q := Same(|p|, m), p[..i + 1];
    GreedyPrefix(p, limits, i + 1);
    assert limits[..i + 1] == Same(i + 1, m);
    var f := Greedy(q, Same(i + 1, m));
    LastPlacement(q, Same(i + 1, m));
    assert Same(i + 1, m)[..i] == Same(i, m);
    forall j | 0 <= j < i ensures f[j] == j && Load(q[..i], f[..i], j) > 0 {
      FirstGroups(p, m, j);
      assert f[j] == Greedy(p, limits)[j];
      SizeWithinLoad(q[..i], f[..i], j);
    }
    NothingOn(q[..i], f[..i], i);
    assert Load(q[..i], f[..i], f[i]) <= 0;
    assert f[i] == LeastLoaded(q[..i], f[..i], m) by { LastIsLeast(q, Same(i + 1, m)); }
  }

  lemma {:induction false} NothingOn(p: seq<nat>, f: seq<nat>, s: nat)
    requires |p| == |f| && forall i :: 0 <= i < |f| ==> f[i] != s
    ensures Load(p, f, s) == 0
    decreases |p|
  {
    if p == [] {
    } else {
      NothingOn(p[..|p| - 1], f[..|p| - 1], s);
    }
  }

  lemma {:induction false} OnlyOn(p: seq<nat>, f: seq<nat>, i: nat)
    requires |p| == |f| && i < |p| && forall j :: 0 <= j < |f| && j != i ==> f[j] != f[i]
    ensures Load(p, f, f[i]) == p[i]
    decreases |p|
  {
    var n := |p| - 1;
    if i == n {
      NothingOn(p[..n], f[..n], f[n]);
    } else {
      OnlyOn(p[..n], f[..n], i);
    }
  }

  // ---- large groups: greedy is no worse than any assignment ------------------------------------

  /** With more groups than shards, all larger than a third of `bound`, some group up to
      number 2m - n shares a shard of any assignment within `bound`. */
  lemma SharedShard(p: seq<nat>, m: nat, other: seq<nat>, bound: nat) returns (i: nat, j: nat)
    requires |p| == |other| && m < |p| && (forall k :: 0 <= k < |p| ==> other[k] < m && bound < 3 * p[k])
    requires Bounded(p, other, bound)
    ensures |p| <= 2 * m && i <= 2 * m - |p| && i != j && j < |p| && other[i] == other[j]
  {
    var n := |p|;
    var least := bound / 3 + 1;
    forall s: nat ensures Count(other, s) <= 2 {
      CountTimes(p, other, s, least);
      assert least * Count(other, s) <= bound;
    }
    CountsAddUp(other, m);
    FewOnSome(other, m, {});
    var h := 2 * m - n;
    if forall k :: 0 <= k <= h ==> Count(other, other[k]) <= 1 {
      forall a, b | 0 <= a < b < h + 1 ensures other[a] != other[b] {
        if other[a] == other[b] { TwoCounted(other, a, b); }
      }
      UsedSize(other, 0, h + 1);
      FewOnSome(other, m, Used(other, 0, h + 1));
      assert false;
    }
    i :| 0 <= i <= h && Count(other, other[i]) >= 2;
    j := AnotherOn(other, i);
  }

  lemma {:induction false} TwoCounted(f: seq<nat>, a: nat, b: nat)
    requires a < b < |f| && f[a] == f[b]
    ensures Count(f, f[a]) >= 2
    decreases |f|
  {
    var n := |f| - 1;
    if b < n { TwoCounted(f[..n], a, b); } else { OneCounted(f[..n], a); }
  }

  lemma {:induction false} OneCounted(f: seq<nat>, a: nat)
    requires a < |f|
    ensures Count(f, f[a]) >= 1
    decreases |f|
  {
    var n := |f| - 1;
    if a == n {
    } else {
      OneCounted(f[..n], a);
    }
  }

  /** Before the last of more than m groups is placed, some shard still holds one group only,
      no larger than group 2m - n. */
  lemma LightShard(p: seq<nat>, m: nat) returns (s: nat)
    requires m < |p| <= 2 * m && Descending(p) && forall i :: 0 <= i < |p| ==> p[i] > 0
    ensures s < m
    ensures var f, n := Greedy(p, Same(|p|, m)), |p| - 1;
            Load(p[..n], f[..n], s) <= p[2 * m - |p|]
  {
    hide Greedy, Load;
    var f, n := Greedy(p, Same(|p|, m)), |p| - 1;
    s := SomeUnused(f, m, n, 2 * m - |p|, m);
    forall i | 0 <= i < m ensures f[i] == i { FirstGroups(p, m, i); }
    OnlyOn(p[..n], f[..n], s);
  }

  /** When the last group is larger than a third of `bound`, its shard stays within `bound`. */
  lemma LargeLastGroup(p: seq<nat>, m: nat, other: seq<nat>, bound: nat)
    requires p != [] && |p| == |other| && m > 0 && Descending(p)
    requires (forall k :: 0 <= k < |p| ==> other[k] < m) && Bounded(p, other, bound)
    requires bound < 3 * p[|p| - 1]
    ensures var f := Greedy(p, Same(|p|, m)); Load(p, f, f[|p| - 1]) <= bound
  {
    hide Load, Greedy, Bounded;
    var n := |p| - 1;
    LastPlacement(p, Same(|p|, m));
    if |p| <= m {
      EmptyShard(p, m);
      SizeWithinLoad(p, other, n);
      BoundedAt(p, other, bound, other[n]);
    } else {
      var i, j := SharedShard(p, m, other, bound);
      PairWithinLoad(p, other, i, j);
      BoundedAt(p, other, bound, other[i]);
      var s := LightShard(p, m);
      assert p[2 * m - |p|] <= p[i] && p[n] <= p[j];
    }
  }

  lemma BoundedAt(p: seq<nat>, f: seq<nat>, bound: nat, s: nat)
    requires |p| == |f| && Bounded(p, f, bound)
    ensures Load(p, f, s) <= bound
  {
  }

  /** While there are no more groups than shards, the last one finds an empty shard. */
  lemma EmptyShard(p: seq<nat>, m: nat)
    requires 0 < |p| <= m && forall i :: 0 <= i < |p| ==> p[i] > 0
    ensures var f, n := Greedy(p, Same(|p|, m)), |p| - 1; Load(p[..n], f[..n], n) == 0
  {
    hide Greedy, Load;
    var f, n := Greedy(p, Same(|p|, m)), |p| - 1;
    forall i | 0 <= i < n ensures f[..n][i] != n { FirstGroups(p, m, i); }
    NothingOn(p[..n], f[..n], n);
  }

  // ---- the bound ------------------------------------------------------------------------------

  /** `load` is within (4m-1)/(3m) of `bound`. */
  predicate WithinFourThirds(m: nat, load: nat, bound: nat) {
    3 * m * load <= (4 * m - 1) * bound
  }

  lemma LastGroupFourThirds(p: seq<nat>, m: nat, other: seq<nat>, bound: nat)
    requires p != [] && |p| == |other| && m > 0 && Descending(p)
    requires (forall k :: 0 <= k < |p| ==> other[k] < m) && Bounded(p, other, bound)
    ensures var f := Greedy(p, Same(|p|, m)); WithinFourThirds(m, Load(p, f, f[|p| - 1]), bound)
  {
    var n := |p| - 1;
    var f := Greedy(p, Same(|p|, m));
    var load := Load(p, f, f[n]);
    if bound < 3 * p[n] {
      LargeLastGroup(p, m, other, bound);
      hide *;
      SmallEnough(m, load, bound);
    } else {
      LastGroupBound(p, Same(|p|, m), other, bound);
      hide *;
      AddThird(m, load, bound, p[n]);
    }
  }

  lemma SmallEnough(m: nat, load: nat, bound: nat)
    requires m > 0 && load <= bound
    ensures WithinFourThirds(m, load, bound)
  {
    assert 3 * m * load <= 3 * m * bound;
    assert (4 * m - 1) * bound == 3 * m * bound + (m - 1) * bound;
  }

  lemma AddThird(m: nat, load: nat, bound: nat, last: nat)
    requires m > 0 && 3 * last <= bound && m * load <= m * bound + (m - 1) * last
    ensures WithinFourThirds(m, load, bound)
  {
    var a, b, t := m * load, m * bound, (m - 1) * last;
    ThirdTimes(m - 1, last, bound);
    FourTimes(m, load, bound);
    assert 3 * a <= 3 * b + 3 * t;
  }

  lemma ThirdTimes(n: nat, last: nat, bound: nat)
    requires 3 * last <= bound
    ensures 3 * (n * last) <= n * bound
  {
    assert n * bound == n * (3 * last) + n * (bound - 3 * last);
  }

  lemma FourTimes(m: nat, load: nat, bound: nat)
    requires m > 0
    ensures 3 * m * load == 3 * (m * load) && (4 * m - 1) * bound == 3 * (m * bound) + (m - 1) * bound
  {
  }

  /** Every shard of the greedy longest-first assignment is within (4m-1)/(3m) of the
      largest load of any other assignment to m shards. */
  lemma FourThirds(p: seq<nat>, m: nat, other: seq<nat>, bound: nat, shard: nat)
    requires |p| == |other| && m > 0 && Descending(p)
    requires (forall k :: 0 <= k < |p| ==> other[k] < m) && Bounded(p, other, bound)
    ensures WithinFourThirds(m, Load(p, Greedy(p, Same(|p|, m)), shard), bound)
  {
    hide Load, Greedy, Bounded, Descending, WithinFourThirds;
    if Load(p, Greedy(p, Same(|p|, m)), shard) > 0 {
      var k := LastOnGreedy(p, m, shard);
      PrefixBounded(p, other, k + 1, bound);
      DescendingPrefix(p, k + 1);
      LastGroupFourThirds(p[..k + 1], m, other[..k + 1], bound);
    } else {
      SmallEnough(m, 0, bound);
    }
  }

  lemma DescendingPrefix(p: seq<nat>, n: nat)
    requires n <= |p| && Descending(p)
    ensures Descending(p[..n])
  {
  }

  /** The last group on a shard is the last one of a greedy run that gives the shard the same load. */
  lemma LastOnGreedy(p: seq<nat>, m: nat, shard: nat) returns (k: nat)
    requires m > 0 && Load(p, Greedy(p, Same(|p|, m)), shard) > 0
    ensures k < |p|
    ensures var f := Greedy(p[..k + 1], Same(k + 1, m));
            f[k] == shard && Load(p[..k + 1], f, shard) == Load(p, Greedy(p, Same(|p|, m)), shard)
  {
    hide Load, Greedy;
    var limits := Same(|p|, m);
    var f := Greedy(p, limits);
    k := LastOn(p, f, shard);
    GreedyPrefix(p, limits, k + 1);
    assert limits[..k + 1] == Same(k + 1, m);
    PrefixLoad(p, f, k + 1, shard);
    assert f[..k + 1][k] == shard;
  }

  lemma GreedySnoc(p: seq<nat>, m: nat, x: nat)
    requires m > 0
    ensures var f := Greedy(p, Same(|p|, m));
            Greedy(p + [x], Same(|p| + 1, m)) == f + [LeastLoaded(p, f, m)]
  {
    assert (p + [x])[..|p|] == p && Same(|p| + 1, m)[..|p|] == Same(|p|, m);
  }

  lemma LoadSnoc(p: seq<nat>, f: seq<nat>, x: nat, s: nat, shard: nat)
    requires |p| == |f|
    ensures Load(p + [x], f + [s], shard) == Load(p, f, shard) + if s == shard then x else 0
  {
    assert (p + [x])[..|p|] == p && (f + [s])[..|f|] == f;
  }
}
