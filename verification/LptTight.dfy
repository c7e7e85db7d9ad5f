/** Sizes on which longest-first greedy attains its bound, for every number of shards. */
module LptTight {
  import opened GreedyLoads
  import opened LptBound

  /** 2m-1, 2m-1, 2m-2, 2m-2, ..., m+1, m+1, m, m and one m more. */
  function SizeAt(m: nat, i: nat): nat
    requires m > 0
  {
    if i >= 2 * m then m else 2 * m - 1 - i / 2
  }

  function SizesTo(m: nat, n: nat): (p: seq<nat>)
    requires m > 0
    ensures |p| == n && forall i :: 0 <= i < n ==> p[i] == SizeAt(m, i)
  {
    if n == 0 then [] else SizesTo(m, n - 1) + [SizeAt(m, n - 1)]
  }

  // ---- what greedy does ---------------------------------------------------------------------

  /** With `r` groups of the second round left, shard `s` still holds one group. Of two equally
      loaded shards the lower one is filled first. */
  predicate Single(m: nat, r: nat, s: nat) {
    if r % 2 == 0 then s < r else s + 1 < r || s + 1 == (if r < m then r + 1 else r)
  }

  function LoadAfter(m: nat, n: nat, s: nat): nat
    requires m > 0 && n <= 2 * m
  {
    if n <= m then if s < n then SizeAt(m, s) else 0
    else if Single(m, 2 * m - n, s) then SizeAt(m, s) else 3 * m - 1
  }

  /** The shard of group `n`: the shards in order, then back, then the first again. */
  function Choice(m: nat, n: nat): (s: nat)
    requires m > 0 && n <= 2 * m
    ensures s < m
  {
    if n < m then n
    else if n == 2 * m then 0
    else
      var r := 2 * m - n;
      if r % 2 == 0 then r - 2 else if r < m then r else r - 1
  }

  lemma ChoiceIsLeast(m: nat, n: nat, s: nat)
    requires m > 0 && n <= 2 * m && s < m
    ensures LoadAfter(m, n, Choice(m, n)) <= LoadAfter(m, n, s)
    ensures s < Choice(m, n) ==> LoadAfter(m, n, Choice(m, n)) < LoadAfter(m, n, s)
  {
  }

  lemma LoadStep(m: nat, n: nat, s: nat)
    requires m > 0 && n < 2 * m && s < m
    ensures LoadAfter(m, n + 1, s) == LoadAfter(m, n, s) + if s == Choice(m, n) then SizeAt(m, n) else 0
  {
    if n >= m {
      SecondRound(m, 2 * m - n, s);
      assert LoadAfter(m, n, s) == if Single(m, 2 * m - n, s) then SizeAt(m, s) else 3 * m - 1;
      hide Single, Choice, SizeAt;
    }
  }

  /** The group of the second round that leaves `r` falls on the one shard it fills up. */
  lemma SecondRound(m: nat, r: nat, s: nat)
    requires 0 < r <= m && s < m
    ensures var n := 2 * m - r;
            && (Single(m, r - 1, s) <==> Single(m, r, s) && s != Choice(m, n))
            && Single(m, r, Choice(m, n)) && SizeAt(m, Choice(m, n)) + SizeAt(m, n) == 3 * m - 1
            && (r == m ==> Single(m, r, s))
  {
    var k := r / 2;
    if r % 2 == 0 {
      assert r == 2 * k && (2 * m - r) / 2 == m - k && (r - 2) / 2 == k - 1;
    } else {
      assert r == 2 * k + 1 && (2 * m - r) / 2 == m - k - 1 && r / 2 == k && (r - 1) / 2 == k;
    }
  }

  lemma {:induction false} GreedyLoadsAre(m: nat, n: nat)
    requires m > 0 && n <= 2 * m
    ensures var p := SizesTo(m, n);
            forall s: nat :: s < m ==> Load(p, Greedy(p, Same(n, m)), s) == LoadAfter(m, n, s)
    decreases n
  {
    hide Load, Greedy, LoadAfter, SizeAt, Choice, SizesTo, LeastLoaded;
    if n == 0 {
      forall s: nat | s < m ensures Load(SizesTo(m, 0), Greedy(SizesTo(m, 0), Same(0, m)), s) == LoadAfter(m, 0, s) {
        NothingYet(m, s);
      }
    } else {
      var p, x := SizesTo(m, n - 1), SizeAt(m, n - 1);
      var f := Greedy(p, Same(n - 1, m));
      GreedyLoadsAre(m, n - 1);
      GreedySnoc(p, m, x);
      ChosenNext(m, n - 1, f);
      SizesSnoc(m, n - 1);
      forall s: nat | s < m ensures Load(p + [x], f + [Choice(m, n - 1)], s) == LoadAfter(m, n, s) {
        LoadSnoc(p, f, x, Choice(m, n - 1), s);
        LoadStep(m, n - 1, s);
      }
    }
  }

  lemma NothingYet(m: nat, s: nat)
    requires m > 0 && s < m
    ensures Load(SizesTo(m, 0), Greedy(SizesTo(m, 0), Same(0, m)), s) == LoadAfter(m, 0, s)
  {
  }

  lemma SizesSnoc(m: nat, n: nat)
    requires m > 0
    ensures SizesTo(m, n + 1) == SizesTo(m, n) + [SizeAt(m, n)] && OtherTo(m, n + 1) == OtherTo(m, n) + [OtherAt(m, n)]
  {
  }

  lemma ChosenNext(m: nat, n: nat, f: seq<nat>)
    requires m > 0 && n <= 2 * m && |f| == n
    requires forall s: nat :: s < m ==> Load(SizesTo(m, n), f, s) == LoadAfter(m, n, s)
    ensures LeastLoaded(SizesTo(m, n), f, m) == Choice(m, n)
  {
    hide Load, LoadAfter, LeastLoaded, SizesTo;
    var p, target := SizesTo(m, n), Choice(m, n);
    forall s: nat | s < m ensures Load(p, f, target) <= Load(p, f, s) { ChoiceIsLeast(m, n, s); }
    forall s: nat | s < target ensures Load(p, f, target) < Load(p, f, s) { ChoiceIsLeast(m, n, s); }
    IsLeastLoaded(p, f, m, target);
  }

  // ---- a better assignment -----------------------------------------------------------------------

  /** The largest with the smallest, and the three of size m together. */
  function OtherAt(m: nat, i: nat): (s: nat)
    requires m > 0
    ensures i <= 2 * m ==> s < m
  {
    if i < m - 1 then i else if i < 2 * m - 2 then 2 * m - 3 - i else m - 1
  }

  function OtherTo(m: nat, n: nat): (f: seq<nat>)
    requires m > 0
    ensures |f| == n && forall i :: 0 <= i < n ==> f[i] == OtherAt(m, i)
  {
    if n == 0 then [] else OtherTo(m, n - 1) + [OtherAt(m, n - 1)]
  }

  function OtherLoad(m: nat, n: nat, s: nat): nat
    requires m > 0 && n <= 2 * m + 1
  {
    if s < m - 1 then (if s < n then SizeAt(m, s) else 0) + if 2 * m - 3 - s < n then SizeAt(m, 2 * m - 3 - s) else 0
    else if s > m - 1 || n <= 2 * m - 2 then 0
    else if n == 2 * m - 1 then m
    else if n == 2 * m then 2 * m
    else 3 * m
  }

  lemma OtherStep(m: nat, n: nat, s: nat)
    requires m > 0 && n <= 2 * m
    ensures OtherLoad(m, n + 1, s) == OtherLoad(m, n, s) + if s == OtherAt(m, n) then SizeAt(m, n) else 0
  {
  }

  lemma {:induction false} OtherLoadsAre(m: nat, n: nat, s: nat)
    requires m > 0 && n <= 2 * m + 1
    ensures Load(SizesTo(m, n), OtherTo(m, n), s) == OtherLoad(m, n, s)
    decreases n
  {
    hide Load, SizeAt, OtherAt, OtherLoad, SizesTo, OtherTo;
    if n == 0 {
      assert Load(SizesTo(m, 0), OtherTo(m, 0), s) == OtherLoad(m, 0, s) by { NoOtherYet(m, s); }
    } else {
      SizesSnoc(m, n - 1);
      OtherLoadsAre(m, n - 1, s);
      LoadSnoc(SizesTo(m, n - 1), OtherTo(m, n - 1), SizeAt(m, n - 1), OtherAt(m, n - 1), s);
      OtherStep(m, n - 1, s);
    }
  }

  lemma NoOtherYet(m: nat, s: nat)
    requires m > 0
    ensures Load(SizesTo(m, 0), OtherTo(m, 0), s) == OtherLoad(m, 0, s)
  {
  }

  // ---- the bound is attained ------------------------------------------------------------------------

  /** For every number of shards, greedy puts 4m-1 on the first shard where 3m would do. */
  lemma FourThirdsTight(m: nat)
    requires m > 0
    ensures var p, other := SizesTo(m, 2 * m + 1), OtherTo(m, 2 * m + 1);
            && Descending(p) && (forall i :: 0 <= i < |other| ==> other[i] < m) && Bounded(p, other, 3 * m)
            && Load(p, Greedy(p, Same(|p|, m)), 0) == 4 * m - 1
            && 3 * m * Load(p, Greedy(p, Same(|p|, m)), 0) == (4 * m - 1) * (3 * m)
  {
    hide Load, Greedy, LoadAfter, OtherLoad, SizesTo, OtherTo, LeastLoaded, OtherAt;
    var p, other := SizesTo(m, 2 * m + 1), OtherTo(m, 2 * m + 1);
    forall s: nat ensures Load(p, other, s) <= 3 * m {
      OtherLoadsAre(m, 2 * m + 1, s);
      OtherWithin(m, s);
    }
    var q := SizesTo(m, 2 * m);
    var f := Greedy(q, Same(2 * m, m));
    GreedyLoadsAre(m, 2 * m);
    GreedySnoc(q, m, m);
    ChosenNext(m, 2 * m, f);
    LoadSnoc(q, f, m, 0, 0);
    SizesSnoc(m, 2 * m);
    assert LoadAfter(m, 2 * m, 0) == 3 * m - 1 by { RoundsOver(m); }
    Swap(3 * m, 4 * m - 1);
  }

  lemma OtherWithin(m: nat, s: nat)
    requires m > 0
    ensures OtherLoad(m, 2 * m + 1, s) <= 3 * m
  {
  }

  lemma RoundsOver(m: nat)
    requires m > 0
    ensures LoadAfter(m, 2 * m, 0) == 3 * m - 1
  {
  }

  lemma Swap(a: nat, b: nat)
    ensures a * b == b * a
  {
  }
}
