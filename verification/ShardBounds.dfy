/** How good the shard split is, and what the collection hook keeps of it. */
module ShardBounds {
  import opened Orders
  import opened GreedyLoads
  import opened LptBound
  import opened TieredBound
  import opened Shards

  // ---- loads of an owner map ----------------------------------------------------------

  function Share(sizes: map<string, nat>, owner: map<string, nat>, n: string, shard: nat): nat
    requires n in sizes && n in owner
  {
    if owner[n] == shard then sizes[n] else 0
  }

  /** Total size of the groups `owner` puts on `shard`. */
  ghost function MapLoad(sizes: map<string, nat>, owner: map<string, nat>, shard: nat): nat
    requires sizes.Keys <= owner.Keys
    decreases sizes.Keys
  {
    if sizes == map[] then 0
    else
      var n :| n in sizes;
      MapLoad(sizes - {n}, owner, shard) + Share(sizes, owner, n, shard)
  }

  lemma {:induction false} MapLoadRemove(sizes: map<string, nat>, owner: map<string, nat>, shard: nat, n: string)
    requires sizes.Keys <= owner.Keys && n in sizes
    ensures MapLoad(sizes, owner, shard) == MapLoad(sizes - {n}, owner, shard) + Share(sizes, owner, n, shard)
    decreases sizes.Keys
  {
    var k :| k in sizes && MapLoad(sizes, owner, shard) ==
                           MapLoad(sizes - {k}, owner, shard) + Share(sizes, owner, k, shard);
    if k == n {
    } else {
      var a, b := sizes - {k}, sizes - {n};
      MapLoadRemove(a, owner, shard, n);
      MapLoadRemove(b, owner, shard, k);
      assert a - {n} == b - {k};
      assert Share(a, owner, n, shard) == Share(sizes, owner, n, shard);
      assert Share(b, owner, k, shard) == Share(sizes, owner, k, shard);
    }
  }

  /** Every group of `sizes` is listed once, with its size. */
  ghost predicate ListsGroups(groups: seq<Group>, sizes: map<string, nat>) {
    && (forall i :: 0 <= i < |groups| ==> groups[i].name in sizes && sizes[groups[i].name] == groups[i].size)
    && (forall i, j :: 0 <= i < j < |groups| ==> groups[i].name != groups[j].name)
    && (forall n :: n in sizes ==> exists i :: 0 <= i < |groups| && groups[i].name == n)
  }

  lemma ListedGroups(order: (Group, Group) -> bool, groups: seq<Group>, sizes: map<string, nat>)
    requires Listing(order, groups, Groups(sizes))
    ensures ListsGroups(groups, sizes)
  {
    NamesDiffer(order, groups, sizes);
    forall n | n in sizes ensures exists i :: 0 <= i < |groups| && groups[i].name == n {
      assert Group(n, sizes[n]) in Elements(groups);
    }
  }

  /** The map's loads are the sequence's loads, shard numbers shifted by one. */
  lemma {:induction false} MapLoadIs(groups: seq<Group>, f: seq<nat>, sizes: map<string, nat>,
                                     owner: map<string, nat>, shard: nat)
    requires ListsGroups(groups, sizes) && |f| == |groups| && sizes.Keys <= owner.Keys
    requires forall i :: 0 <= i < |groups| ==> owner[groups[i].name] == f[i] + 1
    ensures MapLoad(sizes, owner, shard + 1) == Load(Sizes(groups), f, shard)
    decreases |groups|
  {
    hide Load, MapLoad;
    if groups == [] {
      assert sizes == map[];
      NoLoads(owner, shard);
    } else {
      var k := |groups| - 1;
      var p, last := Sizes(groups), groups[k].name;
      LoadLast(p, f, shard);
      assert p[..k] == Sizes(groups[..k]);
      assert last in sizes && sizes[last] == p[k];
      hide ListsGroups;
      MapLoadRemove(sizes, owner, shard + 1, last);
      ListsRest(groups, sizes);
      MapLoadIs(groups[..k], f[..k], sizes - {last}, owner, shard);
    }
  }

  lemma NoLoads(owner: map<string, nat>, shard: nat)
    ensures MapLoad(map[], owner, shard + 1) == 0 && Load([], [], shard) == 0
  {
  }

  lemma ListsRest(groups: seq<Group>, sizes: map<string, nat>)
    requires groups != [] && ListsGroups(groups, sizes)
    ensures var k := |groups| - 1; ListsGroups(groups[..k], sizes - {groups[k].name})
  {
    var k := |groups| - 1;
    forall n | n in sizes - {groups[k].name} ensures exists i :: 0 <= i < k && groups[..k][i].name == n {
      var i :| 0 <= i < |groups| && groups[i].name == n;
      assert groups[..k][i].name == n;
    }
  }

  /** The other assignment as a sequence in placement order. */
  function Placement(groups: seq<Group>, other: map<string, nat>): (f: seq<nat>)
    requires forall i :: 0 <= i < |groups| ==> groups[i].name in other && other[groups[i].name] > 0
    ensures |f| == |groups| && forall i :: 0 <= i < |f| ==> f[i] == other[groups[i].name] - 1
  {
    seq(|groups|, i requires 0 <= i < |groups| => other[groups[i].name] - 1)
  }

  /** `other` puts every group on one of `count` shards. */
  ghost predicate Admissible(sizes: map<string, nat>, other: map<string, nat>, count: nat) {
    other.Keys == sizes.Keys && forall n :: n in other ==> 1 <= other[n] <= count
  }

  /** `other` puts every group on a shard that boots its tier. */
  ghost predicate RespectsTiers(sizes: map<string, nat>, other: map<string, nat>,
                                tiers: Tiers, count: nat, limits: TierLimits) {
    other.Keys == sizes.Keys && forall n :: n in other ==> MayUse(tiers, count, limits, n, other[n])
  }

  ghost predicate MapBounded(sizes: map<string, nat>, other: map<string, nat>, bound: nat)
    requires sizes.Keys <= other.Keys
  {
    forall s :: MapLoad(sizes, other, s) <= bound
  }

  lemma PlacementBounded(groups: seq<Group>, sizes: map<string, nat>, other: map<string, nat>, bound: nat)
    requires ListsGroups(groups, sizes) && sizes.Keys <= other.Keys && forall n :: n in other ==> other[n] > 0
    requires MapBounded(sizes, other, bound)
    ensures Bounded(Sizes(groups), Placement(groups, other), bound)
  {
    forall s: nat ensures Load(Sizes(groups), Placement(groups, other), s) <= bound {
      MapLoadIs(groups, Placement(groups, other), sizes, other, s);
    }
  }

  /** The owner map that follows the greedy order has the greedy loads. */
  lemma FollowedLoad(groups: seq<Group>, limits: seq<nat>, sizes: map<string, nat>, owner: map<string, nat>, shard: nat)
    requires ListsGroups(groups, sizes) && Follows(groups, limits, owner)
    ensures owner.Keys == sizes.Keys
    ensures MapLoad(sizes, owner, shard + 1) == Load(Sizes(groups), Greedy(Sizes(groups), limits), shard)
    ensures forall i :: 0 <= i < |groups| ==> owner[groups[i].name] == Greedy(Sizes(groups), limits)[i] + 1
  {
    hide Greedy, Load, MapLoad;
    forall n ensures n in owner <==> n in sizes {
      if n in sizes { var i :| 0 <= i < |groups| && groups[i].name == n; }
    }
    MapLoadIs(groups, Greedy(Sizes(groups), limits), sizes, owner, shard);
  }

  // ---- the plain split --------------------------------------------------------------------

  lemma PlainDescending(groups: seq<Group>)
    requires Ascending(PlainLe, groups)
    ensures Descending(Sizes(groups))
  {
    hide TextLe;
  }

  /** The plain split is within (4m-1)/(3m) of every assignment to the same m shards. */
  lemma PlainSplitBound(sizes: map<string, nat>, count: nat, groups: seq<Group>, owner: map<string, nat>,
                        other: map<string, nat>, bound: nat, shard: nat)
    requires count > 0 && shard > 0
    requires Listing(PlainLe, groups, Groups(sizes)) && Follows(groups, Same(|groups|, count), owner)
    requires Admissible(sizes, other, count) && MapBounded(sizes, other, bound)
    ensures sizes.Keys <= owner.Keys
    ensures WithinFourThirds(count, MapLoad(sizes, owner, shard), bound)
  {
    hide PlainLe, Load, MapLoad, Greedy, Bounded, MapBounded, WithinFourThirds, Follows, Descending, ListsGroups;
    ListedGroups(PlainLe, groups, sizes);
    PlainDescending(groups);
    var p, limits := Sizes(groups), Same(|groups|, count);
    FollowedLoad(groups, limits, sizes, owner, shard - 1);
    var f := AdmissiblePlacement(groups, sizes, count, other, bound);
    FourThirds(p, count, f, bound, shard - 1);
  }

  lemma AdmissiblePlacement(groups: seq<Group>, sizes: map<string, nat>, count: nat, other: map<string, nat>, bound: nat)
    returns (f: seq<nat>)
    requires ListsGroups(groups, sizes) && Admissible(sizes, other, count) && MapBounded(sizes, other, bound)
    ensures |f| == |groups| && (forall i :: 0 <= i < |f| ==> f[i] < count) && Bounded(Sizes(groups), f, bound)
  {
    hide Bounded, MapBounded;
    f := Placement(groups, other);
    PlacementBounded(groups, sizes, other, bound);
  }

  // ---- the tiered split --------------------------------------------------------------------

  predicate Nested(limits: TierLimits, count: nat) { limits.full <= limits.storage <= count }

  lemma TieredWidening(groups: seq<Group>, tiers: Tiers, count: nat, limits: TierLimits)
    requires Ascending(TieredLe(tiers), groups) && Nested(limits, count)
    ensures var l := Limits(groups, tiers, count, limits);
            forall i, j :: 0 <= i < j < |l| ==> l[i] <= l[j]
  {
    hide PlainBefore;
  }

  /** When no restricted tier is booted on every shard, the unrestricted groups come by falling size. */
  lemma SeparateWidening(groups: seq<Group>, tiers: Tiers, count: nat, limits: TierLimits)
    requires Ascending(TieredLe(tiers), groups) && Nested(limits, count) && limits.storage < count
    requires forall i :: 0 <= i < |groups| ==> Limits(groups, tiers, count, limits)[i] > 0
    ensures Widening(Sizes(groups), Limits(groups, tiers, count, limits), count)
  {
    hide TextLe;
    TieredWidening(groups, tiers, count, limits);
    var p, l := Sizes(groups), Limits(groups, tiers, count, limits);
    forall i, j | 0 <= i < j < |l| && l[i] == count ensures p[i] >= p[j] {
      assert TierOf(tiers, groups[i].name) == 0;
      assert TieredBefore(tiers, groups[i], groups[j]);
    }
  }

  /** The tiered split is within 2 - 1/m of every assignment that respects the tiers. When no
      restricted tier is booted on every shard, it is within 5/4 for two shards and within
      2 - 1/(m-1) for more. */
  lemma TieredSplitBound(sizes: map<string, nat>, count: nat, tiers: Tiers, limits: TierLimits, groups: seq<Group>,
                         owner: map<string, nat>, other: map<string, nat>, bound: nat, shard: nat)
    requires count > 0 && shard > 0 && Nested(limits, count)
    requires Listing(TieredLe(tiers), groups, Groups(sizes))
    requires Follows(groups, Limits(groups, tiers, count, limits), owner)
    requires RespectsTiers(sizes, other, tiers, count, limits)
    requires MapBounded(sizes, other, bound)
    ensures sizes.Keys <= owner.Keys
    ensures WithinTwice(count, MapLoad(sizes, owner, shard), bound)
    ensures limits.storage < count ==> WithinSeparate(count, MapLoad(sizes, owner, shard), bound)
  {
    hide TieredLe, Load, MapLoad, Greedy, Bounded, MapBounded, WithinTwice, WithinSeparate, TierLimit, Follows, ListsGroups, Ascending, Widening;
    ListedGroups(TieredLe(tiers), groups, sizes);
    TieredWidening(groups, tiers, count, limits);
    var p, l := Sizes(groups), Limits(groups, tiers, count, limits);
    FollowedLoad(groups, l, sizes, owner, shard - 1);
    FollowedLimits(groups, l, owner);
    LimitsWithin(groups, tiers, count, limits);
    var f := TieredPlacement(groups, sizes, tiers, count, limits, other, bound);
    WideningBound(p, l, count, f, bound, shard - 1);
    if limits.storage < count {
      SeparateWidening(groups, tiers, count, limits);
      SeparateBound(p, l, count, f, bound, shard - 1);
    }
  }

  lemma FollowedLimits(groups: seq<Group>, limits: seq<nat>, owner: map<string, nat>)
    requires Follows(groups, limits, owner)
    ensures |groups| == |limits| && forall i :: 0 <= i < |limits| ==> limits[i] > 0
  {
  }

  lemma LimitsWithin(groups: seq<Group>, tiers: Tiers, count: nat, limits: TierLimits)
    ensures forall i :: 0 <= i < |groups| ==> Limits(groups, tiers, count, limits)[i] <= count
  {
  }

  lemma TieredPlacement(groups: seq<Group>, sizes: map<string, nat>, tiers: Tiers, count: nat, limits: TierLimits,
                        other: map<string, nat>, bound: nat) returns (f: seq<nat>)
    requires ListsGroups(groups, sizes) && RespectsTiers(sizes, other, tiers, count, limits)
    requires MapBounded(sizes, other, bound)
    ensures Within(f, Limits(groups, tiers, count, limits)) && Bounded(Sizes(groups), f, bound)
  {
    hide Bounded, MapBounded, TierLimit, TierOf;
    forall n | n in other ensures 1 <= other[n] <= TierLimit(TierOf(tiers, n), count, limits) {
      assert MayUse(tiers, count, limits, n, other[n]);
      TierLimitIs(tiers, count, limits, n);
    }
    f := Placement(groups, other);
    PlacementBounded(groups, sizes, other, bound);
  }

  /** Every group lands on a shard that boots its tier. */
  lemma GroupsOnTheirTier(sizes: map<string, nat>, count: nat, tiers: Tiers, limits: TierLimits,
                          groups: seq<Group>, owner: map<string, nat>)
    requires Listing(TieredLe(tiers), groups, Groups(sizes))
    requires Follows(groups, Limits(groups, tiers, count, limits), owner)
    ensures RespectsTiers(sizes, owner, tiers, count, limits)
    ensures forall n :: n in owner && n in tiers ==>
              (tiers[n] == 1 ==> owner[n] <= limits.storage) && (tiers[n] == 2 ==> owner[n] <= limits.full)
  {
    hide TieredLe, Greedy, TierLimit, Load, MapLoad, Follows;
    ListedGroups(TieredLe(tiers), groups, sizes);
    var l := Limits(groups, tiers, count, limits);
    FollowedLoad(groups, l, sizes, owner, 0);
    FollowedLimits(groups, l, owner);
    var f := Greedy(Sizes(groups), l);
    forall n | n in owner ensures MayUse(tiers, count, limits, n, owner[n]) {
      var i :| 0 <= i < |groups| && groups[i].name == n;
      assert f[i] < l[i];
      TierLimitIs(tiers, count, limits, n);
    }
  }

  /** When no group is restricted, the tiered split is the plain split. */
  lemma UnrestrictedIsPlain(sizes: map<string, nat>, count: nat, tiers: Tiers, limits: TierLimits,
                            tiered: seq<Group>, plain: seq<Group>, a: map<string, nat>, b: map<string, nat>)
    requires forall n :: n in tiers ==> tiers[n] == 0
    requires Listing(TieredLe(tiers), tiered, Groups(sizes)) && Listing(PlainLe, plain, Groups(sizes))
    requires Follows(tiered, Limits(tiered, tiers, count, limits), a)
    requires Follows(plain, Same(|plain|, count), b)
    ensures tiered == plain && a == b
  {
    hide PlainLe, TieredLe, Greedy, Listing, Follows;
    assert Listing(PlainLe, tiered, Groups(sizes)) by { UnrestrictedListing(sizes, tiers, tiered); }
    GroupOrders(tiers);
    ListingUnique(PlainLe, tiered, plain, Groups(sizes));
    assert Limits(tiered, tiers, count, limits) == Same(|plain|, count);
    FollowedOnce(plain, Same(|plain|, count), a, b);
  }

  lemma UnrestrictedListing(sizes: map<string, nat>, tiers: Tiers, tiered: seq<Group>)
    requires (forall n :: TierOf(tiers, n) == 0) && Listing(TieredLe(tiers), tiered, Groups(sizes))
    ensures Listing(PlainLe, tiered, Groups(sizes))
  {
    assert Ascending(PlainLe, tiered);
  }

  /** Only one owner map follows an order. */
  lemma FollowedOnce(groups: seq<Group>, limits: seq<nat>, a: map<string, nat>, b: map<string, nat>)
    requires Follows(groups, limits, a) && Follows(groups, limits, b)
    ensures a == b
  {
    hide Greedy;
    assert a.Keys == b.Keys;
    forall n | n in a ensures a[n] == b[n] {
      var i :| 0 <= i < |groups| && groups[i].name == n;
    }
  }

  /** A single group is its shard's load, and no more than its size is needed to bound it. */
  lemma OneGroupLoad(name: string, size: nat, shard: nat, bound: nat)
    ensures MapLoad(map[name := size], map[name := shard], shard) == size
    ensures MapBounded(map[name := size], map[name := shard], bound) <==> size <= bound
    ensures forall count: nat :: Admissible(map[name := size], map[name := shard], count) <==> 1 <= shard <= count
  {
    var sizes, owner := map[name := size], map[name := shard];
    assert sizes - {name} == map[];
    forall s ensures MapLoad(sizes, owner, s) == if s == shard then size else 0 { MapLoadRemove(sizes, owner, s, name); }
    hide MapLoad;
  }
}
