/** Sizes on which the tiered split attains 2 - 1/m.

    A restricted tier that is booted on every shard comes first all the same. Its m(m-1) groups
    of one test fill every shard with m-1 of them, and the unrestricted group of m tests finds
    no room, although it would fit a shard of its own.
 */
module TieredTight {
  import opened GreedyLoads
  import opened LptBound

  /** `rounds` times `m` groups of one test, and `more`. */
  function Ones(m: nat, rounds: nat, more: nat): seq<nat>
    decreases rounds, more
  {
    if more > 0 then Ones(m, rounds, more - 1) + [1]
    else if rounds > 0 then Ones(m, rounds - 1, m)
    else []
  }

  /** Another way to place them: `m` on each shard in turn. */
  function Blocks(m: nat, rounds: nat, more: nat): (f: seq<nat>)
    ensures |f| == |Ones(m, rounds, more)|
    decreases rounds, more
  {
    if more > 0 then Blocks(m, rounds, more - 1) + [rounds]
    else if rounds > 0 then Blocks(m, rounds - 1, m)
    else []
  }

  ghost predicate Even(m: nat, rounds: nat, more: nat) {
    var p := Ones(m, rounds, more);
    m > 0 && forall s: nat :: s < m ==>
      Load(p, Greedy(p, Same(|p|, m)), s) == rounds + if s < more then 1 else 0
  }

  /** Greedy fills the shards evenly, the first ones first. */
  lemma {:induction false} GreedyEven(m: nat, rounds: nat, more: nat)
    requires m > 0 && more <= m
    ensures Even(m, rounds, more)
    decreases rounds, more
  {
    hide Load, Greedy, LeastLoaded;
    if more > 0 {
      GreedyEven(m, rounds, more - 1);
      NextEven(m, rounds, more);
    } else if rounds > 0 {
      GreedyEven(m, rounds - 1, m);
      assert Ones(m, rounds, 0) == Ones(m, rounds - 1, m);
    } else {
      NoGroups(m);
    }
  }

  lemma NoGroups(m: nat)
    requires m > 0
    ensures Even(m, 0, 0)
  {
  }

  lemma NextEven(m: nat, rounds: nat, more: nat)
    requires 0 < more <= m && Even(m, rounds, more - 1)
    ensures Even(m, rounds, more)
  {
    hide Load, Greedy, LeastLoaded;
    var p := Ones(m, rounds, more - 1);
    var f := Greedy(p, Same(|p|, m));
    GreedySnoc(p, m, 1);
    IsLeastLoaded(p, f, m, more - 1);
    var longer, placed := p + [1], f + [more - 1];
    forall s: nat | s < m ensures Load(longer, placed, s) == rounds + if s < more then 1 else 0 {
      LoadSnoc(p, f, 1, more - 1, s);
    }
  }

  lemma {:induction false} BlocksLoads(m: nat, rounds: nat, more: nat, s: nat)
    requires more <= m
    ensures Load(Ones(m, rounds, more), Blocks(m, rounds, more), s) == if s < rounds then m else if s == rounds then more else 0
    ensures forall i :: 0 <= i < |Blocks(m, rounds, more)| ==> Blocks(m, rounds, more)[i] <= rounds
    decreases rounds, more
  {
    hide Load;
    if more > 0 {
      BlocksLoads(m, rounds, more - 1, s);
      LoadSnoc(Ones(m, rounds, more - 1), Blocks(m, rounds, more - 1), 1, rounds, s);
    } else if rounds > 0 {
      BlocksLoads(m, rounds - 1, m, s);
    } else {
      NothingOn([], [], s);
    }
  }

  /** For every number of shards greedy puts 2m-1 on the first shard where m would do, so that
      2 - 1/m cannot be improved when the unrestricted groups do not come by size. */
  lemma TwiceTight(m: nat)
    requires m > 0
    ensures var p, other := Ones(m, m - 1, 0) + [m], Blocks(m, m - 1, 0) + [m - 1];
            && |other| == |p| && (forall i :: 0 <= i < |other| ==> other[i] < m) && Bounded(p, other, m)
            && Load(p, Greedy(p, Same(|p|, m)), 0) == 2 * m - 1
            && m * Load(p, Greedy(p, Same(|p|, m)), 0) == (2 * m - 1) * m
  {
    hide Load, Greedy, LeastLoaded, Ones, Blocks;
    var q, o := Ones(m, m - 1, 0), Blocks(m, m - 1, 0);
    var p, other := q + [m], o + [m - 1];
    forall s: nat ensures Load(p, other, s) <= m {
      BlocksLoads(m, m - 1, 0, s);
      LoadSnoc(q, o, m, m - 1, s);
    }
    BlocksLoads(m, m - 1, 0, 0);
    var f := Greedy(q, Same(|q|, m));
    GreedyEven(m, m - 1, 0);
    GreedySnoc(q, m, m);
    IsLeastLoaded(q, f, m, 0);
    LoadSnoc(q, f, m, 0, 0);
  }
}
