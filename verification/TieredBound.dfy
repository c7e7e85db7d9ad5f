/** Greedy placement of groups that may use only the first shards, most restricted first.

    Group `i` may use the shards below `limits[i]`, and limits widen along the placement order.
 */
module TieredBound {
  import opened GreedyLoads
  import opened LptBound

  // ---- any sizes: 2 - 1/m ----------------------------------------------------------------

  predicate WithinTwice(m: nat, load: nat, bound: nat) { m * load <= (2 * m - 1) * bound }

  lemma TwiceByLimit(m: nat, limit: nat, load: nat, bound: nat, last: nat)
    requires 0 < limit <= m && last <= bound && limit * load <= limit * bound + (limit - 1) * last
    ensures WithinTwice(m, load, bound)
  {
    hide WithinTwice;
    MulLe(limit - 1, last, bound);
    if load <= bound {
      SmallIsWithinTwice(m, load, bound);
    } else {
      var x := load - bound;
      MulMinus(limit, load, bound);
      MulPred(limit, bound);
      ExcessWithinTwice(m, limit, x, bound);
    }
  }

  lemma MulLe(a: nat, b: nat, c: nat)
    requires b <= c
    ensures a * b <= a * c
  {
    assert a * c == a * b + a * (c - b);
  }

  lemma MulMinus(a: nat, b: nat, c: nat)
    requires c <= b
    ensures a * (b - c) == a * b - a * c
  {
  }

  lemma MulPred(a: nat, b: nat)
    requires a > 0
    ensures (a - 1) * b == a * b - b
  {
  }

  lemma SmallIsWithinTwice(m: nat, load: nat, bound: nat)
    requires m > 0 && load <= bound
    ensures WithinTwice(m, load, bound)
  {
    assert m * load <= m * bound;
    assert (2 * m - 1) * bound == m * bound + (m - 1) * bound;
  }

  lemma ExcessWithinTwice(m: nat, limit: nat, x: nat, bound: nat)
    requires 0 < limit <= m && limit * x <= limit * bound - bound
    ensures WithinTwice(m, bound + x, bound)
  {
    assert x > bound ==> limit * x >= limit * bound;
    assert (m - limit) * x <= (m - limit) * bound;
    assert m * (bound + x) == m * bound + limit * x + (m - limit) * x;
    assert (2 * m - 1) * bound == m * bound + (limit * bound - bound) + (m - limit) * bound;
  }

  /** Greedy placement in order of widening limits is within 2 - 1/m of any admissible one. */
  lemma WideningBound(p: seq<nat>, limits: seq<nat>, m: nat, other: seq<nat>, bound: nat, shard: nat)
    requires |p| == |limits| && m > 0
    requires forall i :: 0 <= i < |limits| ==> 0 < limits[i] <= m
    requires forall i, j :: 0 <= i < j < |limits| ==> limits[i] <= limits[j]
    requires Within(other, limits) && Bounded(p, other, bound)
    ensures WithinTwice(m, Load(p, Greedy(p, limits), shard), bound)
  {
    hide Load, Greedy, Bounded;
    var f := Greedy(p, limits);
    if Load(p, f, shard) > 0 {
      var k := LastOn(p, f, shard);
      GreedyPrefix(p, limits, k + 1);
      PrefixLoad(p, f, k + 1, shard);
      PrefixBounded(p, other, k + 1, bound);
      var q, l, g := p[..k + 1], limits[..k + 1], f[..k + 1];
      assert g[k] == shard && Load(q, g, shard) == Load(p, f, shard);
      LastGroupBound(q, l, other[..k + 1], bound);
      TwiceByLimit(m, l[k], Load(q, g, shard), bound, q[k]);
    } else {
      assert m * 0 == 0;
    }
  }

  // ---- unrestricted groups by size: 2 - 1/(m-1) -------------------------------------------

  /** Limits widen, and the groups that may use all `m` shards come by falling size. */
  predicate Widening(p: seq<nat>, limits: seq<nat>, m: nat) {
    && |p| == |limits|
    && (forall i :: 0 <= i < |limits| ==> 0 < limits[i] <= m)
    && (forall i, j :: 0 <= i < j < |limits| ==> limits[i] <= limits[j])
    && (forall i, j :: 0 <= i < j < |limits| && limits[i] == m ==> p[i] >= p[j])
  }

  /** The first group that may use all shards. */
  function FirstFree(limits: seq<nat>, m: nat): (a: nat)
    ensures a <= |limits| && (forall i :: 0 <= i < a ==> limits[i] != m) && (a < |limits| ==> limits[a] == m)
  {
    if limits == [] || limits[0] == m then 0 else 1 + FirstFree(limits[1..], m)
  }

  /** When the last group is larger than the least load, the earlier unrestricted ones lie apart. */
  lemma FreeApart(p: seq<nat>, limits: seq<nat>, m: nat, i: nat, j: nat)
    requires Widening(p, limits, m) && p != [] && i < j < |p| - 1 && limits[i] == m
    requires var f, n := Greedy(p, limits), |p| - 1; Load(p[..n], f[..n], f[n]) < p[n]
    ensures Greedy(p, limits)[i] != Greedy(p, limits)[j]
  {
    hide Greedy, Load;
    var f, n := Greedy(p, limits), |p| - 1;
    var q, l := p[..j + 1], limits[..j + 1];
    GreedyPrefix(p, limits, j + 1);
    LastPlacement(q, l);
    var g := f[..j + 1];
    assert q[..j] == p[..j] && g[..j] == f[..j];
    assert Load(p[..j], f[..j], f[j]) <= Load(p[..j], f[..j], f[n]);
    assert p[..n][..j] == p[..j] && f[..n][..j] == f[..j];
    PrefixLoad(p[..n], f[..n], j, f[n]);
    SizeWithinLoad(p[..j], f[..j], i);
    assert p[i] <= Load(p[..j], f[..j], f[i]);
  }

  // ---- loads of which some are larger ---------------------------------------------------------

  /** The least sum of the loads below `m`, those of `large` being at least `t` and the others `b`. */
  function LeastSum(large: set<nat>, m: nat, t: nat, b: nat): nat {
    if m == 0 then 0 else LeastSum(large, m - 1, t, b) + if m - 1 in large then t else b
  }

  lemma {:induction false} LeastSumBelow(p: seq<nat>, f: seq<nat>, large: set<nat>, m: nat, t: nat, b: nat)
    requires |p| == |f| && forall s: nat :: s < m ==> (if s in large then t else b) <= Load(p, f, s)
    ensures LeastSum(large, m, t, b) <= LoadsBelow(p, f, m)
  {
    if m == 0 {
    } else {
      LeastSumBelow(p, f, large, m - 1, t, b);
    }
  }

  lemma {:induction false} LeastSumIs(large: set<nat>, m: nat, t: nat, b: nat)
    requires forall s :: s in large ==> s < m
    ensures |large| <= m && LeastSum(large, m, t, b) == |large| * t + (m - |large|) * b
    decreases m
  {
    if m == 0 {
      assert large == {};
    } else {
      var below := large - {m - 1};
      LeastSumIs(below, m - 1, t, b);
      LeastSumSame(large, below, m - 1, t, b);
      if m - 1 in large {
        assert |large| == |below| + 1;
        OneTimes(|below|, t);
      } else {
        assert large == below;
        OneTimes(m - 1 - |large|, b);
      }
    }
  }

  lemma OneTimes(n: nat, x: nat)
    ensures (n + 1) * x == n * x + x
  {
  }

  lemma {:induction false} LeastSumSame(a: set<nat>, b: set<nat>, m: nat, t: nat, x: nat)
    requires forall s :: s < m ==> (s in a <==> s in b)
    ensures LeastSum(a, m, t, x) == LeastSum(b, m, t, x)
  {
    if m == 0 {
    } else {
      LeastSumSame(a, b, m - 1, t, x);
    }
  }

  // ---- the last group -------------------------------------------------------------------------

  /** The shards that hold an unrestricted group before the last one, whose load is at least its size. */
  lemma FreeShards(p: seq<nat>, limits: seq<nat>, m: nat) returns (large: set<nat>)
    requires Widening(p, limits, m) && p != [] && limits[|p| - 1] == m
    requires var f, n := Greedy(p, limits), |p| - 1; Load(p[..n], f[..n], f[n]) < p[n]
    ensures |large| == |p| - 1 - FirstFree(limits, m) && forall s :: s in large ==> s < m
    ensures var f, n := Greedy(p, limits), |p| - 1;
            f[n] !in large && forall s: nat :: s < m ==> (if s in large then p[n] else Load(p[..n], f[..n], f[n])) <= Load(p[..n], f[..n], s)
  {
    hide Greedy, Load;
    var f, n, a := Greedy(p, limits), |p| - 1, FirstFree(limits, m);
    assert forall i :: a <= i < n ==> limits[i] == m;
    large := Used(f[..n], a, n);
    forall i, j | a <= i < j < n ensures f[..n][i] != f[..n][j] { FreeApart(p, limits, m, i, j); }
    UsedSize(f[..n], a, n);
    LastPlacement(p, limits);
    forall s | s in large ensures p[n] <= Load(p[..n], f[..n], s) {
      var i :| a <= i < n && f[..n][i] == s;
      SizeWithinLoad(p[..n], f[..n], i);
    }
  }

  /** The first unrestricted group finds the last shard empty. */
  lemma FirstFreeAlone(p: seq<nat>, limits: seq<nat>, m: nat)
    requires Widening(p, limits, m) && p != [] && limits[|p| - 1] == m && FirstFree(limits, m) == |p| - 1
    ensures var f, n := Greedy(p, limits), |p| - 1; Load(p[..n], f[..n], f[n]) == 0
  {
    hide Greedy, Load;
    var f, n := Greedy(p, limits), |p| - 1;
    forall i | 0 <= i < n ensures f[..n][i] != m - 1 {
      assert f[i] < limits[i] && limits[i] != m;
    }
    NothingOn(p[..n], f[..n], m - 1);
    LastPlacement(p, limits);
  }

  lemma LeavesOne(large: set<nat>, m: nat, s: nat)
    requires (forall x :: x in large ==> x < m) && s < m && s !in large
    ensures |large| + 1 <= m
  {
    LeastSumIs(large + {s}, m, 0, 0);
  }

  lemma LargeTotal(p: seq<nat>, f: seq<nat>, large: set<nat>, m: nat, t: nat, b: nat)
    requires |p| == |f| && (forall i :: 0 <= i < |f| ==> f[i] < m) && (forall s :: s in large ==> s < m)
    requires forall s: nat :: s < m ==> (if s in large then t else b) <= Load(p, f, s)
    ensures |large| <= m && |large| * t + (m - |large|) * b <= Total(p)
  {
    hide Load, Total;
    LoadsAddUp(p, f, m);
    LeastSumBelow(p, f, large, m, t, b);
    LeastSumIs(large, m, t, b);
  }

  /** Before the last group, unrestricted ones fill whole shards: with `u` of them, itself
      included, the sizes add up to at least `u` of its own and the least load elsewhere. */
  lemma FreeTotal(p: seq<nat>, limits: seq<nat>, m: nat) returns (u: nat)
    requires Widening(p, limits, m) && p != [] && limits[|p| - 1] == m
    requires var f, n := Greedy(p, limits), |p| - 1; 0 < Load(p[..n], f[..n], f[n]) < p[n]
    ensures 2 <= u <= m
    ensures var f, n := Greedy(p, limits), |p| - 1; (m + 1 - u) * Load(p[..n], f[..n], f[n]) + u * p[n] <= Total(p)
  {
    var f, n := Greedy(p, limits), |p| - 1;
    assert Total(p) == Total(p[..n]) + p[n];
    assert f[n] < m && forall i :: 0 <= i < n ==> f[..n][i] < m;
    hide Greedy, Load, Total, FirstFree;
    if FirstFree(limits, m) == n { FirstFreeAlone(p, limits, m); }
    var large := FreeShards(p, limits, m);
    hide Widening;
    LeavesOne(large, m, f[n]);
    u := |large| + 1;
    LargeTotal(p[..n], f[..n], large, m, p[n], Load(p[..n], f[..n], f[n]));
    OneTimes(|large|, p[n]);
  }

  // ---- arithmetic of the bound; `k` is one less than the number of shards -----------------------

  lemma MulLeInt(a: nat, b: int, c: int)
    requires b <= c
    ensures a * b <= a * c
  {
    var d: nat := c - b;
    assert a * (b + d) == a * b + a * d && a * d >= 0;
  }

  lemma MulAssoc(a: int, b: int, c: int)
    ensures a * (b * c) == (a * b) * c && a * (b * c) == b * (a * c)
  {
  }

  /** `p` and `s` times quantities that exceed multiples of `bound` exceed their combination. */
  lemma Exceeds(p: nat, x: int, r: int, s: nat, y: int, v: int, q: int, bound: nat)
    requires p > 0 && x > r * bound && y >= v * bound && p * r + s * v >= q
    ensures p * x + s * y > q * bound
  {
    ExceedsOne(p, x, r, bound);
    MulLeInt(s, v * bound, y);
    MulAssoc(s, v, bound);
    MulLeInt(bound, q, p * r + s * v);
    Distributes(p * r, s * v, bound);
  }

  lemma ExceedsOne(p: nat, x: int, r: int, bound: nat)
    requires p > 0 && x > r * bound
    ensures p * x > (p * r) * bound
  {
    MulLeInt(p, r * bound + 1, x);
    MulAssoc(p, r, bound);
    assert p * (r * bound + 1) == p * (r * bound) + p;
  }

  lemma Distributes(a: int, b: int, c: int)
    ensures (a + b) * c == a * c + b * c && (a - b) * c == a * c - b * c
  {
  }

  /** A load beyond the bound needs a last group nearly as large as the compared maximum. */
  lemma LastIsLarge(k: nat, load: nat, t: nat, bound: nat)
    requires k >= 2 && t <= load && (k + 1) * (load - t) + t <= (k + 1) * bound && k * load > (2 * k - 1) * bound
    ensures k * k * t > (k * k - 1) * bound
  {
    LastTimes(k, load, t, bound);
    ExceedsOne(k + 1, k * load, 2 * k - 1, bound);
    LastIdentity(k);
    Distributes((k + 1) * (2 * k - 1), k * (k + 1), bound);
  }

  lemma LastIdentity(k: nat)
    ensures (k + 1) * (2 * k - 1) - k * (k + 1) == k * k - 1
  {
  }

  lemma LastTimes(k: nat, load: nat, t: nat, bound: nat)
    requires t <= load && (k + 1) * (load - t) + t <= (k + 1) * bound
    ensures (k + 1) * (k * load) - k * k * t <= k * (k + 1) * bound
  {
    assert (k + 1) * (load - t) + t == (k + 1) * load - k * t;
    MulLeInt(k, (k + 1) * load - k * t, (k + 1) * bound);
    MulAssoc(k, k + 1, bound);
    MulAssoc(k, k + 1, load);
    MulAssoc(k, k, t);
    assert k * ((k + 1) * load - k * t) == k * ((k + 1) * load) - k * (k * t);
  }

  lemma LeastIsSmaller(k: nat, b: nat, t: nat, bound: nat)
    requires k >= 2 && (k + 1) * b + t <= (k + 1) * bound && k * (b + t) > (2 * k - 1) * bound
    ensures b < t
  {
    LastIsLarge(k, b + t, t, bound);
    if b >= t { LeastTooLarge(k, b, t, bound); }
  }

  lemma LeastTooLarge(k: nat, b: nat, t: nat, bound: nat)
    requires k >= 2 && t <= b && (k + 1) * b + t <= (k + 1) * bound
    ensures k * k * t <= (k * k - 1) * bound
  {
    MulLeInt(k + 1, t, b);
    assert (k + 2) * t == (k + 1) * t + t;
    MulLeInt(k * k, (k + 2) * t, (k + 1) * bound);
    MulAssoc(k * k, k + 2, t);
    MulAssoc(k * k, k + 1, bound);
    LeastIdentity(k);
    if k * k * t > (k * k - 1) * bound {
      Exceeds(k + 2, k * k * t, k * k - 1, 0, 0, 0, k * k * (k + 1), bound);
    }
  }

  lemma LeastIdentity(k: nat)
    requires k >= 2
    ensures (k + 2) * (k * k - 1) >= k * k * (k + 1)
  {
    assert (k + 2) * (k * k - 1) == k * k * (k + 1) + (k + 1) * (k - 2);
  }

  /** Many large groups: their sizes, nearly the compared maximum each, leave no room. */
  lemma ManyLarge(k: nat, u: nat, load: nat, t: nat, bound: nat)
    requires k >= 2 && 2 <= u <= k + 1 && k + 2 <= 2 * u
    requires (k + 2 - u) * load + (2 * u - k - 2) * t <= (k + 1) * bound
    requires k * k * t > (k * k - 1) * bound
    ensures k * load <= (2 * k - 1) * bound
  {
    var few, more := k + 2 - u, 2 * u - k - 2;
    ManyTimes(k, few, load, more, t, bound);
    if k * load > (2 * k - 1) * bound {
      ManyIdentity(k, u);
      assert k * few > 0;
      Exceeds(k * few, k * load, 2 * k - 1, more, k * k * t, k * k - 1, k * k * (k + 1), bound);
    }
  }

  lemma ManyTimes(k: nat, few: nat, load: nat, more: nat, t: nat, bound: nat)
    requires few * load + more * t <= (k + 1) * bound
    ensures k * few * (k * load) + more * (k * k * t) <= k * k * (k + 1) * bound
  {
    MulLeInt(k * k, few * load + more * t, (k + 1) * bound);
    SquareTimes(k, few, load, more, t);
    MulAssoc(k * k, k + 1, bound);
  }

  lemma SquareTimes(k: nat, a: nat, x: nat, b: nat, y: nat)
    ensures k * k * (a * x + b * y) == k * a * (k * x) + b * (k * k * y)
  {
    SquareOne(k, a, x);
    MulAssoc(k * k, b, y);
    assert k * k * (a * x + b * y) == k * k * (a * x) + k * k * (b * y);
  }

  lemma SquareOne(k: nat, a: nat, x: nat)
    ensures k * a * (k * x) == k * k * (a * x)
  {
    MulAssoc(k * a, k, x);
    MulAssoc(k, a, k);
    MulAssoc(k * k, a, x);
    assert k * a * k == k * k * a;
  }

  lemma ManyIdentity(k: nat, u: nat)
    requires k >= 2 && 2 <= u
    ensures k * (k + 2 - u) * (2 * k - 1) + (2 * u - k - 2) * (k * k - 1) >= k * k * (k + 1)
  {
    assert k * (k + 2 - u) * (2 * k - 1) + (2 * u - k - 2) * (k * k - 1) == k * k * (k + 1) + (u - 1) * (k - 2);
  }

  /** Few large groups: the shards without one hold too much. */
  lemma FewLarge(k: nat, u: nat, load: nat, t: nat, bound: nat)
    requires k >= 2 && 2 <= u && 2 * u < k + 2 && t <= bound
    requires (k + 2 - u) * load <= (k + 1) * bound + (k + 2 - 2 * u) * t
    ensures k * load <= (2 * k - 1) * bound
  {
    var rest, less := k + 2 - u, k + 2 - 2 * u;
    MulLeInt(less, t, bound);
    FewTimes(k, rest, load, k + 1, less, bound);
    if k * load > (2 * k - 1) * bound {
      FewIdentity(k, u);
      Exceeds(rest, k * load, 2 * k - 1, 0, 0, 0, k * (k + 1 + less), bound);
    }
  }

  lemma FewTimes(k: nat, rest: nat, load: nat, a: nat, b: nat, bound: nat)
    requires rest * load <= a * bound + b * bound
    ensures rest * (k * load) <= k * (a + b) * bound
  {
    Distributes(a, b, bound);
    MulLeInt(k, rest * load, (a + b) * bound);
    MulAssoc(k, rest, load);
    MulAssoc(k, a + b, bound);
  }

  lemma FewIdentity(k: nat, u: nat)
    requires 2 <= u
    ensures (k + 2 - u) * (2 * k - 1) >= k * (k + 1 + (k + 2 - 2 * u))
  {
    assert (k + 2 - u) * (2 * k - 1) == k * (k + 1 + (k + 2 - 2 * u)) + (u - 2);
  }

  lemma LargeBound(m: nat, u: nat, b: nat, t: nat, bound: nat)
    requires m >= 3 && 2 <= u <= m && t <= bound
    requires (m + 1 - u) * b + u * t <= m * bound && m * b + t <= m * bound
    ensures WithinTwice(m - 1, b + t, bound)
  {
    var k := m - 1;
    LargeSplit(k + 2 - u, u, b, t);
    if 2 * u < k + 2 {
      assert u * t == (k + 2 - u) * t - (k + 2 - 2 * u) * t by { Distributes(k + 2 - u, k + 2 - 2 * u, t); }
      FewLarge(k, u, b + t, t, bound);
    } else if k * (b + t) > (2 * k - 1) * bound {
      LastIsLarge(k, b + t, t, bound);
      ManyLarge(k, u, b + t, t, bound);
    }
  }

  lemma LargeSplit(rest: nat, u: nat, b: nat, t: nat)
    ensures rest * b + u * t == rest * (b + t) + (u - rest) * t
  {
    Distributes(u, rest, t);
    assert rest * (b + t) == rest * b + rest * t;
  }

  /** The last group is no larger than the least load. */
  lemma SmallLast(m: nat, b: nat, t: nat, bound: nat)
    requires m >= 3 && t <= b && m * b + t <= m * bound
    ensures WithinTwice(m - 1, b + t, bound)
  {
    if !WithinTwice(m - 1, b + t, bound) { LeastIsSmaller(m - 1, b, t, bound); }
  }

  // ---- the bound for every shard ------------------------------------------------------------------

  /** An unrestricted last group on at least three shards. */
  lemma LastFreeBound(p: seq<nat>, limits: seq<nat>, m: nat, other: seq<nat>, bound: nat)
    requires Widening(p, limits, m) && p != [] && limits[|p| - 1] == m && m >= 3
    requires Within(other, limits) && Bounded(p, other, bound)
    ensures var f, n := Greedy(p, limits), |p| - 1; WithinTwice(m - 1, Load(p, f, f[n]), bound)
  {
    hide Greedy, Load, Total, Bounded, WithinTwice;
    var f, n := Greedy(p, limits), |p| - 1;
    LastPlacement(p, limits);
    FreeCases(p, limits, m, other, bound, Load(p[..n], f[..n], f[n]));
  }

  lemma FreeCases(p: seq<nat>, limits: seq<nat>, m: nat, other: seq<nat>, bound: nat, b: nat)
    requires Widening(p, limits, m) && p != [] && limits[|p| - 1] == m && m >= 3
    requires Within(other, limits) && Bounded(p, other, bound)
    requires var f, n := Greedy(p, limits), |p| - 1; b == Load(p[..n], f[..n], f[n])
    ensures WithinTwice(m - 1, b + p[|p| - 1], bound)
  {
    hide *;
    var t := p[|p| - 1];
    LastWithin(p, limits, m, other, bound);
    if b == 0 {
      SmallIsWithinTwice(m - 1, t, bound);
    } else if b >= t {
      LastRoom(p, limits, m, other, bound);
      SmallLast(m, b, t, bound);
    } else {
      LastRoom(p, limits, m, other, bound);
      var u := FreeRoom(p, limits, m, other, bound, b);
      LargeBound(m, u, b, t, bound);
    }
  }

  lemma LastWithin(p: seq<nat>, limits: seq<nat>, m: nat, other: seq<nat>, bound: nat)
    requires Widening(p, limits, m) && p != [] && Within(other, limits) && Bounded(p, other, bound)
    ensures p[|p| - 1] <= bound
  {
    hide Bounded;
    LastSize(p, other, bound);
  }

  lemma FreeRoom(p: seq<nat>, limits: seq<nat>, m: nat, other: seq<nat>, bound: nat, b: nat) returns (u: nat)
    requires Widening(p, limits, m) && p != [] && limits[|p| - 1] == m
    requires Within(other, limits) && Bounded(p, other, bound)
    requires var f, n := Greedy(p, limits), |p| - 1; b == Load(p[..n], f[..n], f[n]) && 0 < b < p[n]
    ensures 2 <= u <= m && (m + 1 - u) * b + u * p[|p| - 1] <= m * bound
  {
    hide Greedy, Load, Total, Bounded;
    OtherTotal(p, limits, other, bound);
    hide Widening;
    u := FreeTotal(p, limits, m);
  }

  lemma LastRoom(p: seq<nat>, limits: seq<nat>, m: nat, other: seq<nat>, bound: nat)
    requires Widening(p, limits, m) && p != [] && limits[|p| - 1] == m
    requires Within(other, limits) && Bounded(p, other, bound)
    ensures var f, n := Greedy(p, limits), |p| - 1; m * Load(p[..n], f[..n], f[n]) + p[n] <= m * bound
  {
    hide Greedy, Load, Total, Bounded;
    var before := LastLoad(p, limits);
    LastPlacement(p, limits);
    OtherTotal(p, limits, other, bound);
  }

  /** The sharper of the two bounds on `m` shards. */
  predicate WithinSeparate(m: nat, load: nat, bound: nat) {
    if m == 2 then 4 * load <= 5 * bound else WithinTwice(if m < 2 then m else m - 1, load, bound)
  }

  // ---- two shards: 5/4 --------------------------------------------------------------------------------

  /** Three unrestricted groups larger than half of the compared maximum do not fit two shards. */
  lemma TwoLarge(p: seq<nat>, limits: seq<nat>, other: seq<nat>, bound: nat)
    requires Widening(p, limits, 2) && |p| >= 3 && limits[|p| - 3] == 2
    requires Within(other, limits) && Bounded(p, other, bound)
    ensures 2 * p[|p| - 1] <= bound
  {
    var n := |p| - 1;
    var i, j := if other[n - 2] == other[n - 1] then n - 2 else n, if other[n - 2] == other[n - 1] then n - 1
                else if other[n - 2] == other[n] then n - 2 else n - 1;
    assert other[i] == other[j] && i != j;
    hide Load, Bounded;
    PairWithinLoad(p, other, i, j);
    BoundedAt(p, other, bound, other[i]);
    assert p[i] >= p[n] && p[j] >= p[n];
  }

  /** All groups on the first shard are its load. */
  lemma {:induction false} AllFirst(p: seq<nat>, f: seq<nat>)
    requires |p| == |f| && forall i :: 0 <= i < |f| ==> f[i] == 0
    ensures Load(p, f, 0) == Total(p)
    decreases |p|
  {
    if p == [] {
    } else {
      AllFirst(p[..|p| - 1], f[..|p| - 1]);
    }
  }

  /** Two unrestricted groups, the last included: one of them shares the first shard with the
      restricted ones wherever they are put. */
  lemma RestrictedFit(p: seq<nat>, limits: seq<nat>, other: seq<nat>, bound: nat)
    requires Widening(p, limits, 2) && |p| >= 2 && FirstFree(limits, 2) == |p| - 2
    requires Within(other, limits) && Bounded(p, other, bound) && 2 * p[|p| - 1] > bound
    ensures Total(p[..|p| - 2]) + p[|p| - 1] <= bound
  {
    var n := |p| - 1;
    var r, o := p[..n - 1], other[..n - 1];
    assert forall i :: 0 <= i < n - 1 ==> o[i] == 0 by {
      forall i | 0 <= i < n - 1 ensures other[i] == 0 { assert limits[i] != 2; }
    }
    AllFirst(r, o);
    hide FirstFree;
    if other[n] == other[n - 1] {
      PairWithinLoad(p, other, n - 1, n);
      BoundedAt(p, other, bound, other[n]);
      assert false;
    }
    LoadLast(p, other, 0);
    LoadLast(p[..n], other[..n], 0);
    assert p[..n][..n - 1] == r && other[..n][..n - 1] == o;
    BoundedAt(p, other, bound, 0);
  }

  lemma RestrictedFirst(p: seq<nat>, limits: seq<nat>)
    requires Widening(p, limits, 2) && |p| >= 2 && FirstFree(limits, 2) == |p| - 2
    ensures forall i :: 0 <= i < |p| - 2 ==> Greedy(p, limits)[i] == 0
  {
    hide Greedy;
    forall i | 0 <= i < |p| - 2 ensures Greedy(p, limits)[i] == 0 {
      assert limits[i] != 2 && Greedy(p, limits)[i] < limits[i];
    }
  }

  /** Of two shards, one holds the groups before the last alone, or one is empty. */
  lemma FirstOrEmpty(p: seq<nat>, f: seq<nat>)
    requires p != [] && |p| == |f| && f[|p| - 1] < 2 && forall i :: 0 <= i < |p| - 1 ==> f[i] == 0
    ensures Load(p, f, 0) <= Total(p[..|p| - 1]) || Load(p, f, 1) == 0
  {
    hide Load, Total;
    var n := |p| - 1;
    AllFirst(p[..n], f[..n]);
    LoadLast(p, f, 0);
    if f[n] == 0 { NothingOn(p, f, 1); }
  }

  /** Greedy finds a shard with the restricted groups alone, or an empty one. */
  lemma LeastOfTwo(p: seq<nat>, limits: seq<nat>)
    requires Widening(p, limits, 2) && |p| >= 2 && FirstFree(limits, 2) == |p| - 2
    ensures var f, n := Greedy(p, limits), |p| - 1; Load(p[..n], f[..n], f[n]) <= Total(p[..n - 1])
  {
    hide Greedy, Load, Total, FirstFree;
    var f, n := Greedy(p, limits), |p| - 1;
    assert limits[n] == 2 by { LastFree(limits); }
    RestrictedFirst(p, limits);
    LastPlacement(p, limits);
    assert p[..n][..n - 1] == p[..n - 1];
    FirstOrEmpty(p[..n], f[..n]);
  }

  lemma LastFree(limits: seq<nat>)
    requires |limits| >= 2 && FirstFree(limits, 2) == |limits| - 2
    requires (forall i :: 0 <= i < |limits| ==> limits[i] <= 2) && limits[|limits| - 2] <= limits[|limits| - 1]
    ensures limits[|limits| - 1] == 2
  {
  }

  lemma LastOfTwoBound(p: seq<nat>, limits: seq<nat>, other: seq<nat>, bound: nat)
    requires Widening(p, limits, 2) && p != [] && limits[|p| - 1] == 2
    requires Within(other, limits) && Bounded(p, other, bound)
    ensures var f, n := Greedy(p, limits), |p| - 1; 4 * Load(p, f, f[n]) <= 5 * bound
  {
    hide Greedy, Load, Bounded;
    var f, n := Greedy(p, limits), |p| - 1;
    LastPlacement(p, limits);
    TwoCases(p, limits, other, bound, Load(p[..n], f[..n], f[n]));
  }

  lemma TwoCases(p: seq<nat>, limits: seq<nat>, other: seq<nat>, bound: nat, b: nat)
    requires Widening(p, limits, 2) && p != [] && limits[|p| - 1] == 2
    requires Within(other, limits) && Bounded(p, other, bound)
    requires var f, n := Greedy(p, limits), |p| - 1; b == Load(p[..n], f[..n], f[n])
    ensures 4 * (b + p[|p| - 1]) <= 5 * bound
  {
    hide *;
    var n, a := |p| - 1, FirstFree(limits, 2);
    LastRoom(p, limits, 2, other, bound);
    LastWithin(p, limits, 2, other, bound);
    if 2 * p[n] > bound {
      FreeFrom(p, limits);
      if a == n {
        FirstFreeAlone(p, limits, 2);
      } else if a == n - 1 {
        RestrictedFit(p, limits, other, bound);
        LeastOfTwo(p, limits);
      } else {
        TwoLarge(p, limits, other, bound);
      }
    }
  }

  /** From the first unrestricted group on, all are. */
  lemma FreeFrom(p: seq<nat>, limits: seq<nat>)
    requires Widening(p, limits, 2) && p != [] && limits[|p| - 1] == 2
    ensures |p| == |limits| && FirstFree(limits, 2) < |p|
    ensures forall i :: FirstFree(limits, 2) <= i < |p| ==> limits[i] == 2
  {
  }

  // ---- every shard ----------------------------------------------------------------------------------------

  lemma WideningPrefix(p: seq<nat>, limits: seq<nat>, m: nat, n: nat)
    requires Widening(p, limits, m) && n <= |p|
    ensures Widening(p[..n], limits[..n], m)
  {
  }

  lemma LastSeparate(p: seq<nat>, limits: seq<nat>, m: nat, other: seq<nat>, bound: nat)
    requires Widening(p, limits, m) && p != [] && Within(other, limits) && Bounded(p, other, bound)
    ensures var f, n := Greedy(p, limits), |p| - 1; WithinSeparate(m, Load(p, f, f[n]), bound)
  {
    hide Greedy, Load, Bounded, WithinTwice;
    var f, n := Greedy(p, limits), |p| - 1;
    if limits[n] < m || m == 1 {
      LastGroupBound(p, limits, other, bound);
      var k := if m == 1 then 1 else m - 1;
      TwiceByLimit(k, limits[n], Load(p, f, f[n]), bound, p[n]);
      if m == 2 { OneShard(Load(p, f, f[n]), bound); }
    } else if m == 2 {
      LastOfTwoBound(p, limits, other, bound);
    } else {
      LastFreeBound(p, limits, m, other, bound);
    }
  }

  lemma OneShard(load: nat, bound: nat)
    requires WithinTwice(1, load, bound)
    ensures load <= bound
  {
  }

  /** When the unrestricted groups come by falling size, every shard is within 5/4 of any
      admissible assignment for two shards, and within 2 - 1/(m-1) for more. */
  lemma SeparateBound(p: seq<nat>, limits: seq<nat>, m: nat, other: seq<nat>, bound: nat, shard: nat)
    requires Widening(p, limits, m) && m > 0 && Within(other, limits) && Bounded(p, other, bound)
    ensures WithinSeparate(m, Load(p, Greedy(p, limits), shard), bound)
  {
    hide Load, Greedy, Bounded, Widening, WithinSeparate;
    assert |p| == |limits| == |other| && forall i :: 0 <= i < |limits| ==> limits[i] > 0 by { Lengths(p, limits, m, other); }
    var f := Greedy(p, limits);
    if Load(p, f, shard) > 0 {
      var k := LastOn(p, f, shard);
      GreedyPrefix(p, limits, k + 1);
      PrefixLoad(p, f, k + 1, shard);
      PrefixBounded(p, other, k + 1, bound);
      WideningPrefix(p, limits, m, k + 1);
      assert Within(other[..k + 1], limits[..k + 1]) by { WithinPrefix(other, limits, k + 1); }
      LastSeparate(p[..k + 1], limits[..k + 1], m, other[..k + 1], bound);
      assert f[..k + 1][k] == shard;
    } else {
      NothingSeparate(m, bound);
    }
  }

  lemma Lengths(p: seq<nat>, limits: seq<nat>, m: nat, other: seq<nat>)
    requires Widening(p, limits, m) && Within(other, limits)
    ensures |p| == |limits| == |other| && forall i :: 0 <= i < |limits| ==> limits[i] > 0
  {
  }

  lemma WithinPrefix(f: seq<nat>, limits: seq<nat>, n: nat)
    requires Within(f, limits) && n <= |f|
    ensures Within(f[..n], limits[..n])
  {
  }

  lemma NothingSeparate(m: nat, bound: nat)
    requires m > 0
    ensures WithinSeparate(m, 0, bound)
  {
  }
}
