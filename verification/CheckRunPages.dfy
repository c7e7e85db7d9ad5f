/** Collecting a commit's check-runs page by page. */
module CheckRunPages {
  import opened Options
  import opened CheckRuns

  /** One answer of the check-runs endpoint. */
  datatype Page = Page(totalCount: int, runs: seq<CheckRun>)

  /** The runs of the first `n` pages; pages count from 1. */
  function Collected(pages: nat -> Page, n: nat): seq<CheckRun> {
    if n == 0 then [] else Collected(pages, n - 1) + pages(n).runs
  }

  /** Collecting stops after `n` pages: page `n + 1` is empty, or the announced count is reached. */
  ghost predicate Stops(pages: nat -> Page, n: nat) {
    pages(n + 1).runs == [] || (n > 0 && |Collected(pages, n)| >= pages(1).totalCount)
  }

  /** `n` pages are the first at which collecting stops. */
  ghost predicate StopsFirst(pages: nat -> Page, n: nat) {
    Stops(pages, n) && forall k: nat :: k < n ==> !Stops(pages, k)
  }

  /** Ask for page after page until the first page's total is collected or a page is empty. */
  method FetchCheckRuns(pages: nat -> Page) returns (runs: seq<CheckRun>)
    ensures exists n: nat :: StopsFirst(pages, n) && runs == Collected(pages, n)
  {
    runs := [];
    ghost var n := 0;
    var total: Option<int> := None;
    var page := 1;
    while total.None? || |runs| < total.value
      invariant page == n + 1 && runs == Collected(pages, n)
      invariant if n == 0 then total == None else total == Some(pages(1).totalCount)
      invariant forall k: nat :: k < n ==> !Stops(pages, k)
      decreases if total.None? then 1 else 0, if total.None? then 0 else total.value - |runs|
    {
      var answer := pages(page);
      if total.None? { total := Some(answer.totalCount); }
      if answer.runs == [] { break; }
      runs := runs + answer.runs;
      page := page + 1;
      n := n + 1;
    }
    assert StopsFirst(pages, n);
  }

  /** The server splits `all` into pages of `perPage` and announces its length on the first. */
  ghost predicate Serves(pages: nat -> Page, all: seq<CheckRun>, perPage: nat) {
    && perPage > 0 && pages(1).totalCount == |all|
    && forall n: nat :: pages(n + 1).runs == all[Start(n, perPage, all)..Start(n + 1, perPage, all)]
  }

  /** Where page `n + 1` starts: after `n` pages of `perPage` runs, or at the end. */
  function Start(n: nat, perPage: nat, all: seq<CheckRun>): (at: nat)
    ensures at <= |all|
  {
    if n == 0 then 0
    else
      var before := Start(n - 1, perPage, all);
      if before + perPage < |all| then before + perPage else |all|
  }

  lemma {:induction false} CollectedIs(pages: nat -> Page, all: seq<CheckRun>, perPage: nat, n: nat)
    requires Serves(pages, all, perPage)
    ensures Collected(pages, n) == all[..Start(n, perPage, all)]
    decreases n
  {
    if n == 0 {
    } else {
      CollectedIs(pages, all, perPage, n - 1);
      assert pages(n - 1 + 1).runs == all[Start(n - 1, perPage, all)..Start(n - 1 + 1, perPage, all)];
    }
  }

  /** Whatever the page size and the number of runs, every run is fetched, once and in order. */
  lemma AllPagesFetched(pages: nat -> Page, all: seq<CheckRun>, perPage: nat, n: nat)
    requires Serves(pages, all, perPage) && StopsFirst(pages, n)
    ensures Collected(pages, n) == all
  {
    CollectedIs(pages, all, perPage, n);
    assert pages(n + 1).runs == all[Start(n, perPage, all)..Start(n + 1, perPage, all)];
  }

  /** Page `n + 1` begins where `n` full pages end, or at the end of the list. */
  lemma {:induction false} StartIs(n: nat, perPage: nat, all: seq<CheckRun>)
    ensures Start(n, perPage, all) == if n * perPage < |all| then n * perPage else |all|
  {
    if n == 0 {
      assert n * perPage == 0;
    } else {
      StartIs(n - 1, perPage, all);
      assert n * perPage == (n - 1) * perPage + perPage;
    }
  }
}
