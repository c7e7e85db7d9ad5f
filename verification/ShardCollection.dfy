/** The collection hook: which tests a shard runs. */
module ShardCollection {
  import opened Options
  import opened Orders
  import opened GreedyLoads
  import opened LptBound
  import opened Shards
  import opened ShardBounds

  /** A collected test; `ownGroups` are the xdist groups its own markers already name. */
  datatype Item = Item(path: string, nodeid: string, independent: bool, ownGroups: seq<string>)

  datatype Files = Files(shared: set<string>, protected: set<string>)

  const SHARED_GROUP := "shared-live-state"
  const PROTECTED_GROUP := "protected-source-runner-port"

  /** The group the hook marks a test with. */
  function GroupFor(files: Files, item: Item): string {
    if item.path in files.protected then PROTECTED_GROUP
    else if item.path in files.shared then SHARED_GROUP
    else if item.independent then item.nodeid
    else item.path
  }

  /** The group read back from the test: a marker of its own comes before the hook's. */
  function GroupOf(files: Files, item: Item): string {
    if item.ownGroups != [] then item.ownGroups[0] else GroupFor(files, item)
  }

  function Add(sizes: map<string, nat>, group: string): map<string, nat> {
    sizes[group := (if group in sizes then sizes[group] else 0) + 1]
  }

  /** How many tests each group has. */
  function GroupSizes(files: Files, items: seq<Item>): map<string, nat> {
    if items == [] then map[] else Add(GroupSizes(files, items[..|items| - 1]), GroupFor(files, items[|items| - 1]))
  }

  /** The tests `owner` gives to shard `index`, in collection order. */
  function Kept(files: Files, items: seq<Item>, owner: map<string, nat>, index: nat): seq<Item>
    requires forall i :: 0 <= i < |items| ==> GroupOf(files, items[i]) in owner
  {
    if items == [] then []
    else
      var n := |items| - 1;
      Kept(files, items[..n], owner, index) +
      if owner[GroupOf(files, items[n])] == index then [items[n]] else []
  }

  ghost predicate Owns(files: Files, items: seq<Item>, owner: map<string, nat>, count: nat) {
    && (forall i :: 0 <= i < |items| ==> GroupOf(files, items[i]) in owner)
    && forall n :: n in owner ==> 1 <= owner[n] <= count
  }

  method CountGroups(files: Files, items: seq<Item>) returns (sizes: map<string, nat>)
    ensures sizes == GroupSizes(files, items)
  {
    sizes := map[];
    for i := 0 to |items|
      invariant sizes == GroupSizes(files, items[..i])
    {
      assert items[..i + 1][..i] == items[..i];
      sizes := Add(sizes, GroupFor(files, items[i]));
    }
    assert items[..|items|] == items;
  }

  predicate UsesPlain(count: nat, limits: Option<TierLimits>) {
    limits.None? || limits.value == TierLimits(count, count)
  }

  /** The split that the options ask for, in its placement order. */
  ghost predicate IsSplit(sizes: map<string, nat>, count: nat, tiers: Tiers, limits: Option<TierLimits>,
                          groups: seq<Group>, owner: map<string, nat>) {
    if limits.None? || limits.value == TierLimits(count, count) then
      Listing(PlainLe, groups, Groups(sizes)) && Follows(groups, Same(|groups|, count), owner)
    else
      && limits.value.full <= limits.value.storage <= count && Listing(TieredLe(tiers), groups, Groups(sizes))
      && Follows(groups, Limits(groups, tiers, count, limits.value), owner)
  }

  /** The options fit the suite: the limits are nested and no needed tier is without a shard. */
  ghost predicate Splittable(sizes: map<string, nat>, count: nat, tiers: Tiers, limits: Option<TierLimits>) {
    limits.None? || limits.value == TierLimits(count, count) ||
    (limits.value.full <= limits.value.storage <= count && forall n :: n in sizes ==> !IsHomeless(tiers, limits.value, n))
  }

  method SplitGroups(sizes: map<string, nat>, count: nat, tiers: Tiers, limits: Option<TierLimits>)
    returns (owner: Option<map<string, nat>>, ghost groups: seq<Group>)
    requires count > 0 && forall n :: n in tiers ==> tiers[n] <= 2
    ensures owner.Some? <==> Splittable(sizes, count, tiers, limits)
    ensures owner.Some? ==> IsSplit(sizes, count, tiers, limits, groups, owner.value)
  {
    hide Listing, Follows, PlainLe, TieredLe, TierLimit;
    if UsesPlain(count, limits) {
      owner, groups := AssignShards(sizes, count, tiers, None);
    } else {
      if !Nested(limits.value, count) { return None, []; }
      owner, groups := AssignShards(sizes, count, tiers, limits);
    }
  }

  method KeepOwned(files: Files, items: seq<Item>, owner: map<string, nat>, index: nat) returns (keep: Option<seq<Item>>)
    ensures keep.Some? <==> forall i :: 0 <= i < |items| ==> GroupOf(files, items[i]) in owner
    ensures keep.Some? ==> keep.value == Kept(files, items, owner, index)
  {
    var kept: seq<Item> := [];
    for i := 0 to |items|
      invariant forall j :: 0 <= j < i ==> GroupOf(files, items[j]) in owner
      invariant kept == Kept(files, items[..i], owner, index)
    {
      var group := GroupOf(files, items[i]);
      if group !in owner { return None; }
      assert items[..i + 1][..i] == items[..i];
      if owner[group] == index { kept := kept + [items[i]]; }
    }
    assert items[..|items|] == items;
    return Some(kept);
  }

  /** Group the tests, split the groups, and keep this shard's tests. */
  method ModifyItems(files: Files, items: seq<Item>, index: nat, count: nat, tiers: Tiers, limits: Option<TierLimits>)
    returns (keep: Option<seq<Item>>, ghost groups: seq<Group>, ghost owner: map<string, nat>)
    requires 1 <= index <= count && forall n :: n in tiers ==> tiers[n] <= 2
    ensures keep.Some? <==>
              Splittable(GroupSizes(files, items), count, tiers, limits) &&
              forall i :: 0 <= i < |items| ==> GroupOf(files, items[i]) in GroupSizes(files, items)
    ensures keep.Some? ==>
              && IsSplit(GroupSizes(files, items), count, tiers, limits, groups, owner)
              && Owns(files, items, owner, count)
              && keep.value == Kept(files, items, owner, index)
  {
    hide IsSplit, Splittable, GroupSizes, Kept;
    var sizes := CountGroups(files, items);
    var split;
    split, groups := SplitGroups(sizes, count, tiers, limits);
    owner := map[];
    if split.None? { return None, groups, owner; }
    owner := split.value;
    SplitOwns(sizes, groups, count, tiers, limits, split.value);
    keep := KeepOwned(files, items, split.value, index);
  }

  /** An owner map from either split owns exactly the groups, within the shard count. */
  lemma SplitOwns(sizes: map<string, nat>, groups: seq<Group>, count: nat, tiers: Tiers,
                  limits: Option<TierLimits>, owner: map<string, nat>)
    requires IsSplit(sizes, count, tiers, limits, groups, owner)
    ensures owner.Keys == sizes.Keys && forall n :: n in owner ==> 1 <= owner[n] <= count
  {
    hide PlainLe, TieredLe, Follows, Greedy, Listing, ListsGroups, MapLoad, Load;
    if UsesPlain(count, limits) {
      ListedGroups(PlainLe, groups, sizes);
      OwnersWithin(groups, Same(|groups|, count), sizes, owner, count);
    } else {
      ListedGroups(TieredLe(tiers), groups, sizes);
      LimitsWithin(groups, tiers, count, limits.value);
      OwnersWithin(groups, Limits(groups, tiers, count, limits.value), sizes, owner, count);
    }
  }

  lemma OwnersWithin(groups: seq<Group>, limits: seq<nat>, sizes: map<string, nat>, owner: map<string, nat>, count: nat)
    requires ListsGroups(groups, sizes) && Follows(groups, limits, owner)
    requires forall i :: 0 <= i < |limits| ==> limits[i] <= count
    ensures owner.Keys == sizes.Keys && forall n :: n in owner ==> 1 <= owner[n] <= count
  {
    hide Greedy, MapLoad, Load, Follows;
    FollowedLoad(groups, limits, sizes, owner, 0);
    FollowedLimits(groups, limits, owner);
    var f := Greedy(Sizes(groups), limits);
    forall n | n in owner ensures 1 <= owner[n] <= count {
      var i :| 0 <= i < |groups| && groups[i].name == n;
      assert f[i] < limits[i];
    }
  }

  // ---- nothing is lost and nothing runs twice ------------------------------------------

  /** The tests of the first `m` shards together. */
  ghost function KeptUpTo(files: Files, items: seq<Item>, owner: map<string, nat>, m: nat): multiset<Item>
    requires forall i :: 0 <= i < |items| ==> GroupOf(files, items[i]) in owner
  {
    if m == 0 then multiset{} else KeptUpTo(files, items, owner, m - 1) + multiset(Kept(files, items, owner, m))
  }

  lemma {:induction false} KeptUpToSnoc(files: Files, items: seq<Item>, owner: map<string, nat>, m: nat)
    requires items != [] && forall i :: 0 <= i < |items| ==> GroupOf(files, items[i]) in owner
    ensures var n := |items| - 1;
            KeptUpTo(files, items, owner, m) ==
            KeptUpTo(files, items[..n], owner, m) +
            if 1 <= owner[GroupOf(files, items[n])] <= m then multiset{items[n]} else multiset{}
    decreases m
  {
    hide Kept, GroupOf;
    if m == 0 {
    } else {
      KeptUpToSnoc(files, items, owner, m - 1);
      KeptSnoc(files, items, owner, m);
    }
  }

  lemma KeptSnoc(files: Files, items: seq<Item>, owner: map<string, nat>, m: nat)
    requires items != [] && forall i :: 0 <= i < |items| ==> GroupOf(files, items[i]) in owner
    ensures var n := |items| - 1;
            multiset(Kept(files, items, owner, m)) ==
            multiset(Kept(files, items[..n], owner, m)) +
            if owner[GroupOf(files, items[n])] == m then multiset{items[n]} else multiset{}
  {
    hide GroupOf;
  }

  /** The shards partition the suite: each test is kept by one shard and by no other. */
  lemma {:induction false} ShardsPartition(files: Files, items: seq<Item>, owner: map<string, nat>, count: nat)
    requires Owns(files, items, owner, count)
    ensures KeptUpTo(files, items, owner, count) == multiset(items)
    decreases |items|
  {
    hide KeptUpTo, GroupOf, Owns;
    if items == [] {
      NothingKept(files, owner, count);
    } else {
      var n := |items| - 1;
      OwnsLast(files, items, owner, count);
      KeptUpToSnoc(files, items, owner, count);
      ShardsPartition(files, items[..n], owner, count);
      assert items == items[..n] + [items[n]];
    }
  }

  lemma OwnsLast(files: Files, items: seq<Item>, owner: map<string, nat>, count: nat)
    requires items != [] && Owns(files, items, owner, count)
    ensures (forall i :: 0 <= i < |items| ==> GroupOf(files, items[i]) in owner)
    ensures Owns(files, items[..|items| - 1], owner, count)
    ensures 1 <= owner[GroupOf(files, items[|items| - 1])] <= count
  {
    hide GroupOf;
  }

  lemma {:induction false} NothingKept(files: Files, owner: map<string, nat>, m: nat)
    ensures KeptUpTo(files, [], owner, m) == multiset{}
  {
    if m == 0 {
    } else {
      NothingKept(files, owner, m - 1);
    }
  }

  /** Whether the shard runs the test, and whether the test counts in the shard's load. */
  predicate Runs(files: Files, item: Item, owner: map<string, nat>, index: nat) {
    GroupOf(files, item) in owner && owner[GroupOf(files, item)] == index
  }

  predicate Counts(files: Files, item: Item, owner: map<string, nat>, index: nat) {
    GroupFor(files, item) in owner && owner[GroupFor(files, item)] == index
  }

  /** Tests the shard runs that count elsewhere, and tests that count here but run elsewhere:
      only tests with an xdist group of their own are among either. */
  function RunUncounted(files: Files, items: seq<Item>, owner: map<string, nat>, index: nat): nat {
    if items == [] then 0
    else
      var n := |items| - 1;
      RunUncounted(files, items[..n], owner, index) +
      if Runs(files, items[n], owner, index) && !Counts(files, items[n], owner, index) then 1 else 0
  }

  function CountedUnrun(files: Files, items: seq<Item>, owner: map<string, nat>, index: nat): nat {
    if items == [] then 0
    else
      var n := |items| - 1;
      CountedUnrun(files, items[..n], owner, index) +
      if Counts(files, items[n], owner, index) && !Runs(files, items[n], owner, index) then 1 else 0
  }

  /** The load that the split balances is the number of tests the shard runs exactly when as many
      tests stray into the shard as out of it; none does without groups of its own. */
  lemma {:induction false} LoadIsTestCount(files: Files, items: seq<Item>, owner: map<string, nat>, index: nat)
    requires GroupSizes(files, items).Keys <= owner.Keys
    requires forall i :: 0 <= i < |items| ==> GroupOf(files, items[i]) in owner
    ensures MapLoad(GroupSizes(files, items), owner, index) + RunUncounted(files, items, owner, index)
            == |Kept(files, items, owner, index)| + CountedUnrun(files, items, owner, index)
    ensures (forall i :: 0 <= i < |items| ==> items[i].ownGroups == []) ==>
              MapLoad(GroupSizes(files, items), owner, index) == |Kept(files, items, owner, index)|
    decreases |items|
  {
    hide GroupFor;
    if items == [] {
    } else {
      var n := |items| - 1;
      var before, group := GroupSizes(files, items[..n]), GroupFor(files, items[n]);
      LoadIsTestCount(files, items[..n], owner, index);
      AddLoad(before, owner, group, index);
      assert items[n].ownGroups == [] ==> GroupOf(files, items[n]) == group;
      assert (forall i :: 0 <= i < |items| ==> items[i].ownGroups == []) ==>
             forall i :: 0 <= i < n ==> items[..n][i].ownGroups == [];
    }
  }

  lemma AddLoad(sizes: map<string, nat>, owner: map<string, nat>, group: string, index: nat)
    requires sizes.Keys <= owner.Keys && group in owner
    ensures MapLoad(Add(sizes, group), owner, index) ==
            MapLoad(sizes, owner, index) + if owner[group] == index then 1 else 0
  {
    var more := Add(sizes, group);
    MapLoadRemove(more, owner, index, group);
    assert more - {group} == sizes - {group};
    if group in sizes {
      MapLoadRemove(sizes, owner, index, group);
    } else {
      assert sizes - {group} == sizes;
    }
  }

  // ---- which tests a shard keeps ---------------------------------------------------------

  /** A shard keeps exactly the tests whose group it owns. The group is the first xdist group the
      test names itself; else one group for all protected files, one for all shared files, the
      test's own for an independent test, and the file's. */
  lemma {:induction false} KeptIs(files: Files, items: seq<Item>, owner: map<string, nat>, index: nat, item: Item)
    requires forall i :: 0 <= i < |items| ==> GroupOf(files, items[i]) in owner
    ensures item in Kept(files, items, owner, index) <==>
            && item in items
            && (if item.ownGroups != [] then owner[item.ownGroups[0]]
                else if item.path in files.protected then owner["protected-source-runner-port"]
                else if item.path in files.shared then owner["shared-live-state"]
                else if item.independent then owner[item.nodeid]
                else owner[item.path]) == index
    decreases |items|
  {
    if items == [] {
    } else {
      var n := |items| - 1;
      KeptIs(files, items[..n], owner, index, item);
      assert items == items[..n] + [items[n]];
    }
  }

  /** The kept tests stand in collection order. */
  lemma {:induction false} KeptInOrder(files: Files, a: seq<Item>, b: seq<Item>, owner: map<string, nat>, index: nat)
    requires forall i :: 0 <= i < |a + b| ==> GroupOf(files, (a + b)[i]) in owner
    ensures (forall i :: 0 <= i < |a| ==> GroupOf(files, a[i]) in owner) && (forall i :: 0 <= i < |b| ==> GroupOf(files, b[i]) in owner)
    ensures Kept(files, a + b, owner, index) == Kept(files, a, owner, index) + Kept(files, b, owner, index)
    decreases |b|
  {
    hide GroupOf;
    assert forall i :: 0 <= i < |a| ==> (a + b)[i] == a[i];
    assert forall i :: 0 <= i < |b| ==> (a + b)[|a| + i] == b[i];
    if b == [] {
      assert a + b == a;
    } else {
      var n := |b| - 1;
      var all := a + b;
      assert all[..|all| - 1] == a + b[..n];
      KeptInOrder(files, a, b[..n], owner, index);
    }
  }
}
