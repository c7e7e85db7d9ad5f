/** Which required checks of a commit are not satisfied by its check-runs. */
module CheckRuns {
  import opened Options
  import opened Orders

  /** The fields the gate reads; a time that is absent or not a text is empty. */
  datatype CheckRun = CheckRun(name: Option<string>, conclusion: Option<string>,
                               completedAt: string, startedAt: string, detailsUrl: string)

  predicate Passes(run: CheckRun) { run.conclusion == Some("success") || run.conclusion == Some("neutral") }

  /** When this run became the current attempt: it finished, or else it started, then. */
  function Recency(run: CheckRun): Option<string> {
    if run.completedAt != "" then Some(run.completedAt)
    else if run.startedAt != "" then Some(run.startedAt)
    else None
  }

  // ---- the reference: what counts, whatever order the runs come in -------------------

  ghost predicate Orderable(runs: set<CheckRun>) { forall r :: r in runs ==> Recency(r).Some? }

  /** The runs of one name that decide it: the latest, or all when they cannot be ordered. */
  ghost predicate Decides(runs: set<CheckRun>, r: CheckRun) {
    r in runs &&
    (Orderable(runs) ==> forall o :: o in runs ==> TextLe(Recency(o).value, Recency(r).value))
  }

  function Of(runs: seq<CheckRun>, name: string): set<CheckRun> {
    set i | 0 <= i < |runs| && runs[i].name == Some(name) :: runs[i]
  }

  ghost predicate Unsatisfied(runs: set<CheckRun>) {
    runs == {} || exists r :: Decides(runs, r) && !Passes(r)
  }

  ghost predicate ConcludedAgainst(runs: set<CheckRun>) {
    exists r :: Decides(runs, r) && !Passes(r) && r.conclusion.Some?
  }

  // ---- the code -----------------------------------------------------------------------

  /** The latest attempts of one name, or nothing when they cannot be ordered. */
  method CurrentAttempts(runs: seq<CheckRun>) returns (current: Option<seq<CheckRun>>)
    requires runs != []
    ensures current.None? <==> !Orderable(Elements(runs))
    ensures current.Some? ==> forall r :: r in current.value <==> Decides(Elements(runs), r)
  {
    TextOrders();
    hide TextLe;
    if exists i :: 0 <= i < |runs| && Recency(runs[i]).None? {
      var i :| 0 <= i < |runs| && Recency(runs[i]).None?;
      assert runs[i] in Elements(runs);
      return None;
    }
    var latest := Recency(runs[0]).value;
    for i := 1 to |runs|
      invariant exists j :: 0 <= j < i && Recency(runs[j]).value == latest
      invariant forall j :: 0 <= j < i ==> TextLe(Recency(runs[j]).value, latest)
    {
      var recency := Recency(runs[i]).value;
      if !TextLe(recency, latest) { latest := recency; }
    }
    var kept: seq<CheckRun> := [];
    for i := 0 to |runs|
      invariant forall r :: r in kept <==> exists j :: 0 <= j < i && runs[j] == r && Recency(r).value == latest
    {
      if Recency(runs[i]).value == latest { kept := kept + [runs[i]]; }
    }
    forall r ensures r in kept <==> Decides(Elements(runs), r) {
      var j :| 0 <= j < |runs| && Recency(runs[j]).value == latest;
      assert runs[j] in Elements(runs);
    }
    return Some(kept);
  }

  /** The runs of one name, in the order they came. */
  method Group(runs: seq<CheckRun>, name: string) returns (named: seq<CheckRun>)
    ensures Elements(named) == Of(runs, name)
  {
    named := [];
    for i := 0 to |runs|
      invariant Elements(named) == Of(runs[..i], name)
    {
      OfSnoc(runs, i, name);
      if runs[i].name == Some(name) {
        ElementsSnoc(named, runs[i]);
        named := named + [runs[i]];
      }
    }
    assert runs[..|runs|] == runs;
  }

  lemma OfSnoc(runs: seq<CheckRun>, i: nat, name: string)
    requires i < |runs|
    ensures Of(runs[..i + 1], name) == Of(runs[..i], name) + if runs[i].name == Some(name) then {runs[i]} else {}
  {
    var more, was := Of(runs[..i + 1], name), Of(runs[..i], name);
    forall r ensures r in more <==> r in was || (r == runs[i] && runs[i].name == Some(name)) {
      if r in was {
        var j :| 0 <= j < i && runs[..i][j].name == Some(name) && runs[..i][j] == r;
        assert runs[..i + 1][j] == r;
      }
      if r == runs[i] { assert runs[..i + 1][i] == r; }
      if r in more {
        var j :| 0 <= j < i + 1 && runs[..i + 1][j].name == Some(name) && runs[..i + 1][j] == r;
        assert j < i ==> runs[..i][j] == r;
      }
    }
  }

  /** The runs of one name that decide it. */
  method Considered(named: seq<CheckRun>) returns (considered: seq<CheckRun>)
    requires named != []
    ensures forall r :: r in considered <==> Decides(Elements(named), r)
  {
    var current := CurrentAttempts(named);
    considered := if current.None? then named else current.value;
  }

  method MissingRequiredChecks(runs: seq<CheckRun>, required: set<string>) returns (missing: set<string>)
    ensures forall n :: n in missing <==> n in required && Unsatisfied(Of(runs, n))
  {
    missing := {};
    var rest := required;
    while rest != {}
      invariant rest <= required
      invariant forall n :: n in missing <==> n in required - rest && Unsatisfied(Of(runs, n))
      decreases rest
    {
      var name :| name in rest;
      var named := Group(runs, name);
      if named == [] {
        missing := missing + {name};
      } else {
        assert named[0] in Elements(named);
        var considered := Considered(named);
        if exists i :: 0 <= i < |considered| && !Passes(considered[i]) { missing := missing + {name}; }
      }
      rest := rest - {name};
    }
  }

  method HasContraryRequiredEvidence(runs: seq<CheckRun>, required: set<string>) returns (contrary: bool)
    ensures contrary <==> exists n :: n in required && ConcludedAgainst(Of(runs, n))
  {
    var rest := required;
    while rest != {}
      invariant rest <= required
      invariant forall n :: n in required - rest ==> !ConcludedAgainst(Of(runs, n))
      decreases rest
    {
      var name :| name in rest;
      var named := Group(runs, name);
      if named != [] {
        var considered := Considered(named);
        if exists i :: 0 <= i < |considered| && considered[i].conclusion.Some? && !Passes(considered[i]) {
          assert ConcludedAgainst(Of(runs, name));
          return true;
        }
      }
      assert !ConcludedAgainst(Of(runs, name));
      rest := rest - {name};
    }
    return false;
  }

  // ---- what the verdict depends on ------------------------------------------------------

  /** Only the runs of a name decide it: their order, their repetition and every other run
      are without effect. */
  lemma OrderAndOthersIrrelevant(a: seq<CheckRun>, b: seq<CheckRun>, name: string)
    requires forall r: CheckRun :: r.name == Some(name) ==> (r in a <==> r in b)
    ensures Unsatisfied(Of(a, name)) <==> Unsatisfied(Of(b, name))
    ensures ConcludedAgainst(Of(a, name)) <==> ConcludedAgainst(Of(b, name))
  {
    forall r ensures r in Of(a, name) <==> r in Of(b, name) {
      assert r in Of(a, name) <==> r in a && r.name == Some(name);
      assert r in Of(b, name) <==> r in b && r.name == Some(name);
    }
    assert Of(a, name) == Of(b, name);
  }

  /** An older orderable attempt changes nothing once the attempts can be ordered. */
  lemma OlderAttemptIrrelevant(runs: set<CheckRun>, older: CheckRun, newer: CheckRun)
    requires Orderable(runs) && newer in runs && Recency(older).Some?
    requires TextLe(Recency(older).value, Recency(newer).value) && Recency(older) != Recency(newer)
    ensures Unsatisfied(runs + {older}) <==> Unsatisfied(runs)
    ensures ConcludedAgainst(runs + {older}) <==> ConcludedAgainst(runs)
  {
    TextOrders();
    hide TextLe;
    forall r ensures Decides(runs + {older}, r) <==> Decides(runs, r) {
    }
  }

  /** A newer attempt that does not pass blocks, whatever passed before it. */
  lemma NewerFailureBlocks(runs: set<CheckRun>, newest: CheckRun)
    requires !Passes(newest) && newest in runs
    requires Orderable(runs) ==> forall o :: o in runs ==> TextLe(Recency(o).value, Recency(newest).value)
    ensures Unsatisfied(runs)
  {
    assert Decides(runs, newest);
  }

  /** A newer attempt that passes clears every older failure, and only then does it. */
  lemma SatisfiedByLatest(runs: set<CheckRun>)
    requires Orderable(runs) && runs != {}
    ensures !Unsatisfied(runs) <==>
            forall r :: r in runs && !Passes(r) ==>
              exists o :: o in runs && Passes(o) && !TextLe(Recency(o).value, Recency(r).value)
  {
    TextOrders();
    hide TextLe;
    if !Unsatisfied(runs) {
      var latest := Latest(runs);
      forall r | r in runs && !Passes(r)
        ensures exists o :: o in runs && Passes(o) && !TextLe(Recency(o).value, Recency(r).value)
      {
        assert !Decides(runs, r) && Passes(latest);
      }
    }
  }

  lemma Latest(runs: set<CheckRun>) returns (latest: CheckRun)
    requires Orderable(runs) && runs != {}
    ensures Decides(runs, latest)
    decreases runs
  {
    TextOrders();
    hide TextLe;
    var r :| r in runs;
    if runs == {r} { return r; }
    var rest := runs - {r};
    assert runs == rest + {r};
    var o := Latest(rest);
    latest := if TextLe(Recency(o).value, Recency(r).value) then r else o;
  }

  /** No run, or none concluded against the name while one still awaits its conclusion. */
  ghost predicate Undecided(runs: set<CheckRun>) {
    runs == {} ||
    ((exists r :: Decides(runs, r) && r.conclusion.None?)
     && forall r :: Decides(runs, r) ==> Passes(r) || r.conclusion.None?)
  }

  /** A name is satisfied, undecided or concluded against, and never two of them: contrary
      evidence always makes a name missing, and what is missing without it is undecided. */
  lemma OneOfThree(runs: set<CheckRun>)
    ensures Unsatisfied(runs) <==> Undecided(runs) || ConcludedAgainst(runs)
    ensures !(Undecided(runs) && ConcludedAgainst(runs))
  {
    hide Decides;
    assert forall r :: Decides(runs, r) ==> r in runs by { DecidesIsRun(runs); }
  }

  lemma DecidesIsRun(runs: set<CheckRun>)
    ensures forall r :: Decides(runs, r) ==> r in runs
  {
  }

  // ---- in the terms of the payload --------------------------------------------------------------

  /** When an attempt happened: its completion, or its start if it has none. */
  predicate HappenedAt(run: CheckRun, time: string) {
    time != "" && (run.completedAt == time || (run.completedAt == "" && run.startedAt == time))
  }

  /** Whether the payload calls the attempt a pass. */
  predicate Succeeded(run: CheckRun) {
    run.conclusion.Some? && run.conclusion.value in {"success", "neutral"}
  }

  /** A required name is satisfied when it has attempts and either every attempt passed, or every
      attempt has a time and each that did not pass is followed by one that did. */
  lemma SatisfiedInPayload(runs: set<CheckRun>)
    ensures !Unsatisfied(runs) <==>
            && runs != {}
            && ((forall r :: r in runs ==> Succeeded(r)) ||
                ((forall r :: r in runs ==> exists t :: HappenedAt(r, t)) &&
                 forall r :: r in runs && !Succeeded(r) ==> SucceedsLater(runs, r)))
  {
    hide TextLe;
    forall r: CheckRun ensures Passes(r) <==> Succeeded(r) { }
    forall r: CheckRun ensures (exists t :: HappenedAt(r, t)) <==> Recency(r).Some?
                       ensures forall t :: HappenedAt(r, t) <==> Recency(r) == Some(t)
    {
      TimeIs(r);
    }
    hide Passes, Succeeded, HappenedAt, Recency;
    if Orderable(runs) && runs != {} {
      SatisfiedByLatest(runs);
      forall r | r in runs
        ensures SucceedsLater(runs, r) <==> exists o :: o in runs && Passes(o) && !TextLe(Recency(o).value, Recency(r).value)
      {
        LaterIs(runs, r);
      }
    }
  }

  lemma TimeIs(r: CheckRun)
    ensures forall t :: HappenedAt(r, t) <==> Recency(r) == Some(t)
    ensures (exists t :: HappenedAt(r, t)) <==> Recency(r).Some?
  {
    if Recency(r).Some? { assert HappenedAt(r, Recency(r).value); }
  }

  /** Some attempt that passed happened after `r`. */
  ghost predicate SucceedsLater(runs: set<CheckRun>, r: CheckRun) {
    exists o, t, u :: o in runs && Succeeded(o) && HappenedAt(o, t) && HappenedAt(r, u) && !TextLe(t, u)
  }

  lemma LaterIs(runs: set<CheckRun>, r: CheckRun)
    requires Orderable(runs) && r in runs
    ensures SucceedsLater(runs, r) <==> exists o :: o in runs && Passes(o) && !TextLe(Recency(o).value, Recency(r).value)
  {
    hide TextLe;
    forall o ensures forall t :: HappenedAt(o, t) <==> Recency(o) == Some(t) { TimeIs(o); }
    if o :| o in runs && Passes(o) && !TextLe(Recency(o).value, Recency(r).value) {
      assert HappenedAt(o, Recency(o).value) && HappenedAt(r, Recency(r).value);
    }
  }
}
