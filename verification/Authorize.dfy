/** The release gate: when a tagged commit may publish, and on whose checks.

    Git, the check-run service and the tag and nightly classifiers are functions of
    the commit they are asked about; a failing git call is an answer too.
 */
module Authorize {
  import opened Options
  import opened Texts
  import opened CheckRuns

  // ---- the world the gate asks ----------------------------------------------------

  datatype Json =
    | Null | Boolean(b: bool) | Number(literal: string) | Str(s: string) | Array(items: seq<Json>)
    | Object(members: map<string, Json>)

  /** The schema-window catalog at a commit: git could not run, no readable document, or one. */
  datatype Catalog = Unavailable | Unreadable | Document(json: Json)

  datatype Repo = Repo(
    reachable: (string, string) -> Option<bool>,
    tree: string -> Option<string>,
    parents: string -> Option<seq<string>>,
    changed: (string, string) -> Option<seq<string>>,
    catalog: string -> Catalog,
    runs: string -> Option<seq<CheckRun>>)

  const DEPTH: nat := 10

  const SCHEMA_WINDOWS := "cli/src/application_schema_windows.json"

  const VERSION_PATHS: set<string> := {
    "charts/curie/Chart.yaml", "cli/Cargo.lock", "cli/Cargo.toml", "docs/architecture-atlas/versions.json"
  }

  function VersionOnlyPaths(version: string): set<string> {
    VERSION_PATHS + {"docs/architecture-atlas/snapshots/" + version + ".json"}
  }

  function WithoutV(version: string): string {
    if version != "" && version[0] == 'v' then version[1..] else version
  }

  // ---- version-only deltas ------------------------------------------------------------

  /** The catalog change only registers `key`, checked field by field. */
  predicate IsRegistration(was: Json, now: Json, key: string) {
    && was.Object? && now.Object?
    && "windows" in was.members && "windows" in now.members
    && was.members["windows"].Object? && now.members["windows"].Object?
    && var before, after := was.members["windows"].members, now.members["windows"].members;
       && key !in before && key in after
       && "candidate" in was.members && after[key] == was.members["candidate"]
       && after - {key} == before
       && now.members - {"windows"} == was.members - {"windows"}
  }

  /** What the bump command writes: the old document with its candidate added as a window. */
  function Registered(was: Json, key: string): Json
    requires was.Object? && "windows" in was.members && was.members["windows"].Object? && "candidate" in was.members
  {
    var windows := Object(was.members["windows"].members[key := was.members["candidate"]]);
    Object(was.members["windows" := windows])
  }

  /** The check accepts exactly the document that registering the window would write. */
  lemma RegistrationIsPatch(was: Json, now: Json, key: string)
    ensures IsRegistration(was, now, key) <==>
            && was.Object? && "windows" in was.members && was.members["windows"].Object?
            && "candidate" in was.members && key !in was.members["windows"].members
            && now == Registered(was, key)
  {
    if was.Object? && "windows" in was.members && was.members["windows"].Object?
       && "candidate" in was.members && key !in was.members["windows"].members
    {
      var patched := Registered(was, key);
      assert patched.members - {"windows"} == was.members - {"windows"};
      assert patched.members["windows"].members - {key} == was.members["windows"].members;
      if IsRegistration(was, now, key) {
        SameBut(now.members, patched.members, "windows");
        SameBut(now.members["windows"].members, patched.members["windows"].members, key);
      }
    }
  }

  lemma SameBut(a: map<string, Json>, b: map<string, Json>, key: string)
    requires key in a && key in b && a - {key} == b - {key}
    ensures a[key] == b[key] ==> a == b
  {
    forall k | k != key ensures (k in a <==> k in b) && (k in a ==> a[k] == b[k]) {
      assert k in a <==> k in a - {key};
      assert k in b <==> k in b - {key};
    }
  }

  /** Whether a delta is version identity for `version`; nothing when git could not run. */
  function VersionOnly(repo: Repo, paths: seq<string>, version: string, base: string, head: string): Option<bool> {
    var extra := (set i | 0 <= i < |paths| :: paths[i]) - VersionOnlyPaths(version);
    if extra != {SCHEMA_WINDOWS} then Some(extra == {})
    else
      var was := repo.catalog(base);
      if was.Unavailable? then None
      else
        var now := repo.catalog(head);
        if now.Unavailable? then None
        else Some(was.Document? && now.Document? && IsRegistration(was.json, now.json, WithoutV(version)))
  }

  /** The delta from `candidate` to `sha` is known and is version identity. */
  ghost predicate DeltaOk(repo: Repo, version: string, candidate: string, sha: string) {
    && repo.changed(candidate, sha).Some?
    && VersionOnly(repo, repo.changed(candidate, sha).value, version, candidate, sha) == Some(true)
  }

  // ---- evidence ---------------------------------------------------------------------------

  /** Whether `text` occurs in `within`. */
  predicate Contains(within: string, text: string) {
    text <= within || (within != "" && Contains(within[1..], text))
  }

  predicate OwnRun(run: CheckRun, runId: string) {
    runId != "" && Contains(run.detailsUrl, "/actions/runs/" + runId + "/")
  }

  /** The check-runs that do not belong to the workflow run doing the asking. */
  function OtherRuns(runs: seq<CheckRun>, runId: string): (others: seq<CheckRun>)
    ensures forall r :: r in others <==> r in runs && !OwnRun(r, runId)
  {
    if runs == [] then []
    else (if OwnRun(runs[0], runId) then [] else [runs[0]]) + OtherRuns(runs[1..], runId)
  }

  /** The runs kept stand in the order they came, as often as they came. */
  lemma {:induction false} OtherRunsInOrder(a: seq<CheckRun>, b: seq<CheckRun>, runId: string)
    ensures OtherRuns(a + b, runId) == OtherRuns(a, runId) + OtherRuns(b, runId)
    ensures |a| == 1 ==> OtherRuns(a, runId) == if OwnRun(a[0], runId) then [] else a
    decreases |a|
  {
    hide OwnRun;
    if a == [] {
      assert a + b == b;
    } else {
      assert (a + b)[0] == a[0] && (a + b)[1..] == a[1..] + b;
      OtherRunsInOrder(a[1..], b, runId);
      if |a| == 1 { assert a[1..] == [] && a == [a[0]]; }
    }
  }

  ghost predicate Satisfied(runs: seq<CheckRun>, required: set<string>) {
    forall n :: n in required ==> !Unsatisfied(Of(runs, n))
  }

  ghost predicate Contrary(runs: seq<CheckRun>, required: set<string>) {
    exists n :: n in required && ConcludedAgainst(Of(runs, n))
  }

  ghost predicate Green(repo: Repo, commit: string, runId: string, required: set<string>) {
    repo.runs(commit).Some? && Satisfied(OtherRuns(repo.runs(commit).value, runId), required)
  }

  /** `n` commits along first parents, from `sha`; nothing when git fails on the way. */
  function FirstParents(repo: Repo, sha: string, n: nat): Option<seq<string>>
    decreases n
  {
    if n == 0 then Some([])
    else if n == 1 then Some([sha])
    else
      var parents := repo.parents(sha);
      if parents.None? then None
      else if parents.value == [] then Some([sha])
      else
        var rest := FirstParents(repo, parents.value[0], n - 1);
        if rest.None? then None else Some([sha] + rest.value)
  }

  predicate IsFirstParent(repo: Repo, commit: string, parent: string) {
    repo.parents(commit).Some? && repo.parents(commit).value != [] && repo.parents(commit).value[0] == parent
  }

  /** From each commit to its first parent. */
  ghost predicate IsWalk(repo: Repo, sha: string, walk: seq<string>) {
    && walk != [] && walk[0] == sha
    && forall i :: 0 <= i < |walk| - 1 ==> IsFirstParent(repo, walk[i], walk[i + 1])
  }

  /** The walk lists `sha`, its first parent, the first parent of that, and so on, until it has
      `n` commits or one has no parents. */
  lemma {:induction false} FirstParentsAre(repo: Repo, sha: string, n: nat)
    requires FirstParents(repo, sha, n).Some? && n > 0
    ensures var walk := FirstParents(repo, sha, n).value;
            IsWalk(repo, sha, walk) && |walk| <= n && (|walk| < n ==> repo.parents(walk[|walk| - 1]) == Some([]))
    decreases n
  {
    if n == 1 || repo.parents(sha).value == [] {
    } else {
      FirstParentsAre(repo, repo.parents(sha).value[0], n - 1);
      var walk, rest := FirstParents(repo, sha, n).value, FirstParents(repo, repo.parents(sha).value[0], n - 1).value;
      assert walk == [sha] + rest;
      LongerWalk(repo, sha, rest);
      assert walk[|walk| - 1] == rest[|rest| - 1];
    }
  }

  /** It fails exactly when git cannot say the parents of a commit it has to go on from. */
  lemma {:induction false} FirstParentsFail(repo: Repo, sha: string, n: nat)
    ensures FirstParents(repo, sha, n).None? <==>
            exists walk :: IsWalk(repo, sha, walk) && |walk| < n && repo.parents(walk[|walk| - 1]).None?
    decreases n
  {
    if n <= 1 {
    } else if repo.parents(sha).None? {
      assert IsWalk(repo, sha, [sha]);
    } else if repo.parents(sha).value == [] {
      forall walk | IsWalk(repo, sha, walk) ensures walk == [sha] { OnlyRoot(repo, sha, walk); }
    } else {
      var next := repo.parents(sha).value[0];
      FirstParentsFail(repo, next, n - 1);
      forall walk | IsWalk(repo, sha, walk) && |walk| < n && repo.parents(walk[|walk| - 1]).None?
        ensures IsWalk(repo, next, walk[1..]) && |walk[1..]| < n - 1 && repo.parents(walk[1..][|walk| - 2]).None?
      {
        WalkRest(repo, sha, walk);
      }
      if rest :| IsWalk(repo, next, rest) && |rest| < n - 1 && repo.parents(rest[|rest| - 1]).None? {
        var walk := [sha] + rest;
        LongerWalk(repo, sha, rest);
        assert IsWalk(repo, sha, walk) && walk[|walk| - 1] == rest[|rest| - 1];
      }
    }
  }

  lemma LongerWalk(repo: Repo, sha: string, rest: seq<string>)
    requires repo.parents(sha).Some? && repo.parents(sha).value != [] && IsWalk(repo, repo.parents(sha).value[0], rest)
    ensures IsWalk(repo, sha, [sha] + rest)
  {
    var walk := [sha] + rest;
    forall i | 0 <= i < |walk| - 1 ensures IsFirstParent(repo, walk[i], walk[i + 1]) {
      if i > 0 { assert IsFirstParent(repo, rest[i - 1], rest[i]); }
    }
  }

  lemma OnlyRoot(repo: Repo, sha: string, walk: seq<string>)
    requires IsWalk(repo, sha, walk) && repo.parents(sha) == Some([])
    ensures walk == [sha]
  {
    assert |walk| > 1 ==> IsFirstParent(repo, walk[0], walk[1]);
  }

  lemma WalkRest(repo: Repo, sha: string, walk: seq<string>)
    requires IsWalk(repo, sha, walk) && repo.parents(sha).Some? && repo.parents(sha).value != []
    requires repo.parents(walk[|walk| - 1]).None?
    ensures IsWalk(repo, repo.parents(sha).value[0], walk[1..])
    ensures |walk| > 1 && walk[1..][|walk| - 2] == walk[|walk| - 1]
  {
    assert IsFirstParent(repo, walk[0], walk[1]);
    forall i | 0 <= i < |walk[1..]| - 1 ensures IsFirstParent(repo, walk[1..][i], walk[1..][i + 1]) {
      assert IsFirstParent(repo, walk[i + 1], walk[i + 2]);
    }
  }

  // ---- the proof searches ---------------------------------------------------------------

  datatype Search = Found(commit: string) | NotFound | Broken

  datatype Rule = TreeIdenticalParent | VersionOnlyAncestor

  datatype Proof = Proof(commit: string, rule: Rule)

  ghost predicate SameTree(repo: Repo, a: string, b: string) {
    repo.tree(a).Some? && repo.tree(a) == repo.tree(b)
  }

  /** `parents[i]` is the first green parent with the tree of `sha`. */
  ghost predicate FirstGreenParent(repo: Repo, sha: string, runId: string, required: set<string>,
                                   parents: seq<string>, i: nat) {
    && i < |parents| && SameTree(repo, parents[i], sha) && Green(repo, parents[i], runId, required)
    && forall j :: 0 <= j < i ==> PassedOver(repo, sha, runId, required, parents[j])
  }

  /** A parent the search can read and goes past: another tree, or checks that are not green. */
  ghost predicate PassedOver(repo: Repo, sha: string, runId: string, required: set<string>, parent: string) {
    && repo.tree(parent).Some?
    && (SameTree(repo, parent, sha) ==> repo.runs(parent).Some? && !Green(repo, parent, runId, required))
  }

  /** `commit` is the first green parent with the tree of `sha`. */
  ghost predicate ParentProof(repo: Repo, sha: string, runId: string, required: set<string>, commit: string) {
    && repo.tree(sha).Some? && repo.parents(sha).Some?
    && exists i: nat :: FirstGreenParent(repo, sha, runId, required, repo.parents(sha).value, i)
                        && repo.parents(sha).value[i] == commit
  }

  /** Every parent can be read, and none proves `sha`. */
  ghost predicate NoParentProof(repo: Repo, sha: string, runId: string, required: set<string>) {
    && repo.tree(sha).Some? && repo.parents(sha).Some?
    && forall p :: p in repo.parents(sha).value ==> PassedOver(repo, sha, runId, required, p)
  }

  /** `ancestors[i]` is the nearest green ancestor, and every delta up to it is version-only. */
  ghost predicate NearestGreen(repo: Repo, sha: string, version: string, runId: string, required: set<string>,
                               ancestors: seq<string>, i: nat) {
    && 0 < i < |ancestors| && Green(repo, ancestors[i], runId, required)
    && DeltaOk(repo, version, ancestors[i], sha)
    && forall j :: 0 < j < i ==> WalkedPast(repo, sha, version, runId, required, ancestors[j])
  }

  /** An ancestor the walk goes past: a version-only delta, but checks that are not green. */
  ghost predicate WalkedPast(repo: Repo, sha: string, version: string, runId: string, required: set<string>,
                             candidate: string) {
    && DeltaOk(repo, version, candidate, sha)
    && repo.runs(candidate).Some? && !Green(repo, candidate, runId, required)
  }

  /** `commit` is the nearest green first-parent ancestor within the depth. */
  ghost predicate AncestorProof(repo: Repo, sha: string, version: string, runId: string, required: set<string>,
                                commit: string) {
    var ancestors := FirstParents(repo, sha, 1 + 10);
    ancestors.Some? &&
    exists i: nat :: NearestGreen(repo, sha, version, runId, required, ancestors.value, i) && ancestors.value[i] == commit
  }

  /** The commit whose checks stand in for those of `sha`: a parent first, then an ancestor. */
  ghost predicate IsProof(repo: Repo, sha: string, version: string, runId: string, required: set<string>, proof: Proof) {
    if proof.rule.TreeIdenticalParent? then ParentProof(repo, sha, runId, required, proof.commit)
    else NoParentProof(repo, sha, runId, required) && AncestorProof(repo, sha, version, runId, required, proof.commit)
  }

  /** A commit whose checks a search may fetch. */
  ghost predicate MayFetch(repo: Repo, sha: string, version: string, commit: string) {
    || (repo.parents(sha).Some? && commit in repo.parents(sha).value && SameTree(repo, commit, sha))
    || AncestorWithin(repo, sha, version, commit)
  }

  /** A first-parent ancestor within the depth, every delta up to it version-only. */
  ghost predicate AncestorWithin(repo: Repo, sha: string, version: string, commit: string) {
    var ancestors := FirstParents(repo, sha, 1 + 10);
    ancestors.Some? &&
    exists i :: 0 < i < |ancestors.value| && ancestors.value[i] == commit
      && forall j :: 0 < j <= i ==> DeltaOk(repo, version, ancestors.value[j], sha)
  }

  class Gate {
    const repo: Repo
    const runId: string
    const required: set<string>
    /** The commits whose check-runs were fetched as proof candidates. */
    var fetched: seq<string>

    constructor (repo: Repo, runId: string, required: set<string>)
      ensures this.repo == repo && this.runId == runId && this.required == required && fetched == []
    {
      this.repo, this.runId, this.required, fetched := repo, runId, required, [];
    }

    /** Fetch a candidate's checks and say whether they are all green. */
    method IsGreen(commit: string) returns (green: Option<bool>)
      modifies this
      ensures fetched == old(fetched) + [commit]
      ensures green.None? <==> repo.runs(commit).None?
      ensures green.Some? ==> green.value == Green(repo, commit, runId, required)
    {
      fetched := fetched + [commit];
      if repo.runs(commit).None? { return None; }
      var missing := MissingRequiredChecks(OtherRuns(repo.runs(commit).value, runId), required);
      if missing != {} {
        var n :| n in missing;
        assert Unsatisfied(Of(OtherRuns(repo.runs(commit).value, runId), n));
      }
      return Some(missing == {});
    }

    /** Only commits a search may fetch have been fetched since. */
    twostate predicate FetchedOnly(sha: string, version: string)
      reads this
    {
      && |fetched| >= |old(fetched)| && fetched[..|old(fetched)|] == old(fetched)
      && forall i :: |old(fetched)| <= i < |fetched| ==> MayFetch(repo, sha, version, fetched[i])
    }

    /** The first parent with the same tree and green checks, in parent order. */
    method FindTreeIdenticalParent(sha: string, ghost version: string) returns (search: Search)
      modifies this
      ensures FetchedOnly(sha, version)
      ensures search.Found? ==> ParentProof(repo, sha, runId, required, search.commit)
      ensures !search.Found? ==> forall c :: !ParentProof(repo, sha, runId, required, c)
      ensures search.NotFound? <==> NoParentProof(repo, sha, runId, required)
    {
      hide Green, MayFetch;
      if repo.tree(sha).None? || repo.parents(sha).None? { return Broken; }
      var parents := repo.parents(sha).value;
      for i := 0 to |parents|
        invariant FetchedOnly(sha, version)
        invariant forall j :: 0 <= j < i ==> PassedOver(repo, sha, runId, required, parents[j])
      {
        var parent := parents[i];
        assert parent in parents;
        if repo.tree(parent).None? {
          StuckParent(repo, sha, runId, required, parents, i);
          return Broken;
        }
        if repo.tree(parent) == repo.tree(sha) {
          ParentMayBeFetched(repo, sha, version, parent);
          var green := IsGreen(parent);
          if green.None? {
            StuckParent(repo, sha, runId, required, parents, i);
            return Broken;
          }
          if green.value {
            assert FirstGreenParent(repo, sha, runId, required, parents, i);
            return Found(parent);
          }
        }
      }
      return NotFound;
    }

    /** The nearest green first-parent ancestor; the first foreign delta ends the walk. */
    method FindVersionOnlyAncestor(sha: string, version: string) returns (search: Search)
      modifies this
      ensures FetchedOnly(sha, version)
      ensures search.Found? ==> AncestorProof(repo, sha, version, runId, required, search.commit)
      ensures !search.Found? ==> forall c :: !AncestorProof(repo, sha, version, runId, required, c)
    {
      hide Green, MayFetch, FirstParents, VersionOnly;
      var walk := FirstParents(repo, sha, DEPTH + 1);
      if walk.None? { return Broken; }
      var ancestors := walk.value;
      FirstParentsNonempty(repo, sha, DEPTH + 1);
      for i := 1 to |ancestors|
        invariant FetchedOnly(sha, version)
        invariant forall j :: 0 < j < i ==> WalkedPast(repo, sha, version, runId, required, ancestors[j])
      {
        var candidate := ancestors[i];
        var changed := repo.changed(candidate, sha);
        if changed.None? {
          StuckAncestor(repo, sha, version, runId, required, ancestors, i);
          return Broken;
        }
        var versionOnly := VersionOnly(repo, changed.value, version, candidate, sha);
        if versionOnly != Some(true) {
          StuckAncestor(repo, sha, version, runId, required, ancestors, i);
          return if versionOnly.None? then Broken else NotFound;
        }
        AncestorMayBeFetched(repo, sha, version, runId, required, ancestors, i);
        var green := IsGreen(candidate);
        if green.None? {
          StuckAncestor(repo, sha, version, runId, required, ancestors, i);
          return Broken;
        }
        if green.value {
          assert NearestGreen(repo, sha, version, runId, required, ancestors, i);
          return Found(candidate);
        }
      }
      return NotFound;
    }
  }

  // ---- the decision ------------------------------------------------------------------------

  datatype TagClass = Final | Prerelease | NotSemver

  /** What the gate is asked, besides the commit. */
  datatype Request = Request(
    reviewedRefs: seq<string>, tag: Option<string>, tagClass: TagClass, canFetch: bool,
    nightly: Option<string>, allowRed: bool, requireNightly: bool)

  datatype Verdict = Authorized(proof: Option<Proof>) | Refused

  /** The tag without blanks around it and without its ref prefix. */
  function VersionOf(tag: string): string {
    var raw := Strip(tag);
    if "refs/tags/" <= raw then raw[10..] else raw
  }

  predicate NeedsPrimary(request: Request) { request.tag.None? || request.tagClass.Final? }

  /** The commit is on a reviewed branch, and on the first one when the tag is final. */
  ghost predicate AncestryOk(repo: Repo, sha: string, request: Request) {
    var refs := request.reviewedRefs;
    && refs != [] && (forall i :: 0 <= i < |refs| ==> repo.reachable(sha, refs[i]).Some?)
    && (exists i :: 0 <= i < |refs| && repo.reachable(sha, refs[i]) == Some(true))
    && (request.tag.Some? ==> !request.tagClass.NotSemver?)
    && (NeedsPrimary(request) ==> repo.reachable(sha, refs[0]) == Some(true))
  }

  /** Nothing asks about the nightly, or it is green or allowed to be red. */
  predicate NightlyOk(request: Request) {
    (!request.requireNightly && request.nightly.None?) || request.allowRed || request.nightly == Some("success")
  }

  /** Borrowed checks may be looked for: the commit's own are incomplete but not contrary. */
  ghost predicate MayBorrow(runs: seq<CheckRun>, required: set<string>, request: Request) {
    !Satisfied(runs, required) && request.tag.Some? && request.canFetch && !Contrary(runs, required)
  }

  /** Another commit's checks are looked at exactly when a tag is being released, they can be
      fetched, and every required name is satisfied or undecided, one at least undecided. */
  lemma BorrowsWhenUndecided(runs: seq<CheckRun>, required: set<string>, request: Request)
    ensures MayBorrow(runs, required, request) <==>
            && request.tag.Some? && request.canFetch
            && (forall n :: n in required ==> !Unsatisfied(Of(runs, n)) || Undecided(Of(runs, n)))
            && (exists n :: n in required && Undecided(Of(runs, n)))
  {
    hide Unsatisfied, Undecided, ConcludedAgainst, Of;
    forall n ensures Unsatisfied(Of(runs, n)) <==> Undecided(Of(runs, n)) || ConcludedAgainst(Of(runs, n))
             ensures !(Undecided(Of(runs, n)) && ConcludedAgainst(Of(runs, n)))
    {
      OneOfThree(Of(runs, n));
    }
  }

  /** The gate's rule: ancestry, nightly, and the commit's own checks or a proof's. */
  ghost predicate Allows(repo: Repo, sha: string, runId: string, required: set<string>, runs: seq<CheckRun>,
                         request: Request, proof: Option<Proof>) {
    && AncestryOk(repo, sha, request) && NightlyOk(request)
    && match proof
       case None => Satisfied(runs, required)
       case Some(p) =>
         MayBorrow(runs, required, request) && IsProof(repo, sha, VersionOf(request.tag.value), runId, required, p)
  }

  /** The refusals that come before any check-run is looked at. */
  method ChecksAncestry(repo: Repo, sha: string, request: Request) returns (ok: bool)
    ensures ok <==> AncestryOk(repo, sha, request)
  {
    var refs := request.reviewedRefs;
    if refs == [] { return false; }
    var any := false;
    for i := 0 to |refs|
      invariant forall j :: 0 <= j < i ==> repo.reachable(sha, refs[j]).Some?
      invariant any <==> exists j :: 0 <= j < i && repo.reachable(sha, refs[j]) == Some(true)
    {
      var answer := repo.reachable(sha, refs[i]);
      if answer.None? { return false; }
      any := any || answer.value;
    }
    if !any { return false; }
    if request.tag.Some? && request.tagClass.NotSemver? { return false; }
    return !NeedsPrimary(request) || repo.reachable(sha, refs[0]) == Some(true);
  }

  /** Decide whether `sha` may publish a release, and on whose checks. */
  method Authorize(gate: Gate, sha: string, checkRuns: seq<CheckRun>, request: Request) returns (verdict: Verdict)
    modifies gate
    ensures verdict.Authorized? ==>
              Allows(gate.repo, sha, gate.runId, gate.required, OtherRuns(checkRuns, gate.runId), request, verdict.proof)
    ensures verdict.Refused? ==>
              forall p :: !Allows(gate.repo, sha, gate.runId, gate.required, OtherRuns(checkRuns, gate.runId), request, p)
    ensures gate.fetched != old(gate.fetched) ==>
              && MayBorrow(OtherRuns(checkRuns, gate.runId), gate.required, request)
              && gate.FetchedOnly(sha, VersionOf(request.tag.value))
  {
    hide AncestryOk, ParentProof, NoParentProof, AncestorProof, Unsatisfied, ConcludedAgainst, Of, MayFetch;
    var ancestry := ChecksAncestry(gate.repo, sha, request);
    if !ancestry { return Refused; }
    var others := OtherRuns(checkRuns, gate.runId);
    var missing := MissingRequiredChecks(others, gate.required);
    assert missing == {} <==> Satisfied(others, gate.required);
    var contrary := HasContraryRequiredEvidence(others, gate.required);
    var proof: Option<Proof> := None;
    if missing != {} && request.tag.Some? && request.canFetch && !contrary {
      var version := VersionOf(request.tag.value);
      var search := gate.FindTreeIdenticalParent(sha, version);
      if search.Broken? { return Refused; }
      if search.Found? {
        proof := Some(Proof(search.commit, TreeIdenticalParent));
      } else {
        search := gate.FindVersionOnlyAncestor(sha, version);
        if search.Broken? { return Refused; }
        if search.Found? { proof := Some(Proof(search.commit, VersionOnlyAncestor)); }
      }
    }
    if missing != {} && proof.None? { return Refused; }
    if (request.requireNightly || request.nightly.Some? || request.allowRed) && !request.allowRed
       && request.nightly != Some("success")
    {
      return Refused;
    }
    return Authorized(proof);
  }

  /** At most one commit can be the proof: the rule leaves the gate no choice. */
  lemma ProofUnique(repo: Repo, sha: string, version: string, runId: string, required: set<string>, p: Proof, q: Proof)
    requires IsProof(repo, sha, version, runId, required, p) && IsProof(repo, sha, version, runId, required, q)
    ensures p == q
  {
    hide Green, FirstParents, VersionOnly;
    if p.rule.TreeIdenticalParent? && q.rule.TreeIdenticalParent? {
      var parents := repo.parents(sha).value;
      var i: nat :| FirstGreenParent(repo, sha, runId, required, parents, i) && parents[i] == p.commit;
      var j: nat :| FirstGreenParent(repo, sha, runId, required, parents, j) && parents[j] == q.commit;
      OnlyFirstParent(repo, sha, runId, required, parents, i, j);
      OnlyFirstParent(repo, sha, runId, required, parents, j, i);
    } else if p.rule.VersionOnlyAncestor? && q.rule.VersionOnlyAncestor? {
      var ancestors := FirstParents(repo, sha, DEPTH + 1).value;
      var i: nat :| NearestGreen(repo, sha, version, runId, required, ancestors, i) && ancestors[i] == p.commit;
      var j: nat :| NearestGreen(repo, sha, version, runId, required, ancestors, j) && ancestors[j] == q.commit;
      OnlyNearest(repo, sha, version, runId, required, ancestors, i, j);
      OnlyNearest(repo, sha, version, runId, required, ancestors, j, i);
    } else {
      NoParentProofExcludes(repo, sha, runId, required, if p.rule.TreeIdenticalParent? then p.commit else q.commit);
    }
  }

  lemma OnlyFirstParent(repo: Repo, sha: string, runId: string, required: set<string>, parents: seq<string>,
                        i: nat, j: nat)
    requires FirstGreenParent(repo, sha, runId, required, parents, j)
    ensures i < j ==> !FirstGreenParent(repo, sha, runId, required, parents, i)
  {
    assert i < j ==> PassedOver(repo, sha, runId, required, parents[i]);
  }

  lemma OnlyNearest(repo: Repo, sha: string, version: string, runId: string, required: set<string>,
                    ancestors: seq<string>, i: nat, j: nat)
    requires NearestGreen(repo, sha, version, runId, required, ancestors, j)
    ensures i < j ==> !NearestGreen(repo, sha, version, runId, required, ancestors, i)
  {
    assert 0 < i < j ==> WalkedPast(repo, sha, version, runId, required, ancestors[i]);
  }

  lemma NoParentProofExcludes(repo: Repo, sha: string, runId: string, required: set<string>, commit: string)
    ensures !(NoParentProof(repo, sha, runId, required) && ParentProof(repo, sha, runId, required, commit))
  {
    if NoParentProof(repo, sha, runId, required) {
      var parents := repo.parents(sha).value;
      forall i: nat ensures !FirstGreenParent(repo, sha, runId, required, parents, i) {
        if i < |parents| { assert PassedOver(repo, sha, runId, required, parents[i]); }
      }
    }
  }

  // ---- steps of the searches ---------------------------------------------------------------

  lemma ParentMayBeFetched(repo: Repo, sha: string, version: string, parent: string)
    requires repo.parents(sha).Some? && parent in repo.parents(sha).value && SameTree(repo, parent, sha)
    ensures MayFetch(repo, sha, version, parent)
  {
    hide AncestorWithin;
  }

  lemma AncestorMayBeFetched(repo: Repo, sha: string, version: string, runId: string, required: set<string>,
                             ancestors: seq<string>, i: nat)
    requires FirstParents(repo, sha, DEPTH + 1) == Some(ancestors) && 0 < i < |ancestors|
    requires forall j :: 0 < j < i ==> WalkedPast(repo, sha, version, runId, required, ancestors[j])
    requires DeltaOk(repo, version, ancestors[i], sha)
    ensures MayFetch(repo, sha, version, ancestors[i])
  {
    hide DeltaOk, FirstParents, Green;
    assert forall j :: 0 < j < i ==> WalkedPast(repo, sha, version, runId, required, ancestors[j]);
  }

  /** No proof lies before or beyond a parent that can be neither used nor passed over. */
  lemma StuckParent(repo: Repo, sha: string, runId: string, required: set<string>, parents: seq<string>, i: nat)
    requires repo.parents(sha) == Some(parents) && i < |parents|
    requires forall j :: 0 <= j < i ==> PassedOver(repo, sha, runId, required, parents[j])
    requires repo.tree(parents[i]).None? || (SameTree(repo, parents[i], sha) && repo.runs(parents[i]).None?)
    ensures forall c :: !ParentProof(repo, sha, runId, required, c)
    ensures !NoParentProof(repo, sha, runId, required)
  {
    assert !PassedOver(repo, sha, runId, required, parents[i]);
    forall k: nat ensures !FirstGreenParent(repo, sha, runId, required, parents, k) {
      if k < i { assert PassedOver(repo, sha, runId, required, parents[k]); }
    }
  }

  lemma StuckAncestor(repo: Repo, sha: string, version: string, runId: string, required: set<string>,
                      ancestors: seq<string>, i: nat)
    requires FirstParents(repo, sha, DEPTH + 1) == Some(ancestors) && 0 < i < |ancestors|
    requires forall j :: 0 < j < i ==> WalkedPast(repo, sha, version, runId, required, ancestors[j])
    requires !DeltaOk(repo, version, ancestors[i], sha) || repo.runs(ancestors[i]).None?
    ensures forall c :: !AncestorProof(repo, sha, version, runId, required, c)
  {
    hide FirstParents, VersionOnly;
    assert !WalkedPast(repo, sha, version, runId, required, ancestors[i]);
    forall k: nat ensures !NearestGreen(repo, sha, version, runId, required, ancestors, k) {
      if 0 < k < i { assert WalkedPast(repo, sha, version, runId, required, ancestors[k]); }
    }
  }

  lemma FirstParentsNonempty(repo: Repo, sha: string, n: nat)
    requires n > 0
    ensures FirstParents(repo, sha, n).Some? ==>
              FirstParents(repo, sha, n).value != [] && FirstParents(repo, sha, n).value[0] == sha
  {
  }

  // ---- in the terms of the repository and the payload ----------------------------------------------

  lemma {:induction false} ContainsHolds(a: string, text: string, b: string)
    ensures Contains(a + text + b, text)
  {
    if a == "" {
      assert a + text + b == text + b;
    } else {
      ContainsHolds(a[1..], text, b);
      assert (a + text + b)[1..] == a[1..] + text + b;
    }
  }

  lemma {:induction false} ContainsGives(within: string, text: string) returns (a: string, b: string)
    requires Contains(within, text)
    ensures within == a + text + b
    decreases |within|
  {
    if text <= within {
      a, b := "", within[|text|..];
    } else {
      a, b := ContainsGives(within[1..], text);
      a := within[..1] + a;
    }
  }

  /** A run belongs to the asking workflow run when its job page is below that run's. */
  lemma OwnRunIs(run: CheckRun, runId: string)
    ensures OwnRun(run, runId) <==>
            runId != "" && exists a, b :: run.detailsUrl == a + ("/actions/runs/" + runId + "/") + b
  {
    hide Contains;
    var text := "/actions/runs/" + runId + "/";
    if Contains(run.detailsUrl, text) { var a, b := ContainsGives(run.detailsUrl, text); }
    forall a, b | run.detailsUrl == a + text + b ensures Contains(run.detailsUrl, text) { ContainsHolds(a, text, b); }
  }

  /** A path a release bump may change by itself. */
  predicate IsBumped(path: string, version: string) {
    || path == "charts/curie/Chart.yaml" || path == "cli/Cargo.lock" || path == "cli/Cargo.toml"
    || path == "docs/architecture-atlas/versions.json"
    || path == "docs/architecture-atlas/snapshots/" + version + ".json"
  }

  /** A delta is version-only when it changes bumped paths alone, or those and the catalog of
      schema windows, to which it adds the window of this version and nothing else. */
  lemma VersionOnlyIs(repo: Repo, paths: seq<string>, version: string, base: string, head: string)
    ensures VersionOnly(repo, paths, version, base, head) == Some(true) <==>
            && (forall p :: p in paths ==> IsBumped(p, version) || p == "cli/src/application_schema_windows.json")
            && ("cli/src/application_schema_windows.json" in paths ==> RegistersWindow(repo, version, base, head))
    ensures VersionOnly(repo, paths, version, base, head) == None <==>
            && "cli/src/application_schema_windows.json" in paths
            && (forall p :: p in paths ==> IsBumped(p, version) || p == "cli/src/application_schema_windows.json")
            && (repo.catalog(base).Unavailable? || repo.catalog(head).Unavailable?)
  {
    hide IsRegistration;
    ExtraIs(paths, version);
    hide VersionOnlyPaths;
    WindowIs(repo, version, base, head);
  }

  /** What lies outside the bumped paths. */
  lemma ExtraIs(paths: seq<string>, version: string)
    ensures var extra := (set i | 0 <= i < |paths| :: paths[i]) - VersionOnlyPaths(version);
            && (extra == {} <==> forall p :: p in paths ==> IsBumped(p, version))
            && (extra == {SCHEMA_WINDOWS} <==>
                  SCHEMA_WINDOWS in paths && forall p :: p in paths ==> IsBumped(p, version) || p == SCHEMA_WINDOWS)
            && !IsBumped(SCHEMA_WINDOWS, version)
  {
    BumpedIs(version);
    SchemaIsNotBumped(version);
    hide IsBumped, VersionOnlyPaths;
    var extra := (set i | 0 <= i < |paths| :: paths[i]) - VersionOnlyPaths(version);
    assert forall p :: p in extra <==> p in paths && !IsBumped(p, version);
    if SCHEMA_WINDOWS in paths && forall p :: p in paths ==> IsBumped(p, version) || p == SCHEMA_WINDOWS {
      assert extra == {SCHEMA_WINDOWS};
    }
    if extra == {SCHEMA_WINDOWS} {
      assert SCHEMA_WINDOWS in extra;
      forall p | p in paths ensures IsBumped(p, version) || p == SCHEMA_WINDOWS {
        if !IsBumped(p, version) { assert p in extra; }
      }
    }
    if forall p :: p in paths ==> IsBumped(p, version) { assert extra == {}; }
    forall p | p in paths && !IsBumped(p, version) ensures extra != {} { assert p in extra; }
  }

  lemma WindowIs(repo: Repo, version: string, base: string, head: string)
    ensures RegistersWindow(repo, version, base, head) <==>
            && repo.catalog(base).Document? && repo.catalog(head).Document?
            && IsRegistration(repo.catalog(base).json, repo.catalog(head).json, WithoutV(version))
  {
    hide IsRegistration;
    var key := WithoutV(version);
    assert "v" <= version ==> version == "v" + version[1..];
    assert version == "v" + key || (version == key && !("v" <= version));
    forall k | version == "v" + k || (version == k && !("v" <= version)) ensures k == key {
      if version == "v" + k { assert version[1..] == k; }
    }
  }

  lemma BumpedIs(version: string)
    ensures forall p :: p in VersionOnlyPaths(version) <==> IsBumped(p, version)
  {
  }

  lemma SchemaIsNotBumped(version: string)
    ensures !IsBumped(SCHEMA_WINDOWS, version)
  {
    var snapshot := "docs/architecture-atlas/snapshots/" + version + ".json";
    assert snapshot[0] == 'd' && SCHEMA_WINDOWS[0] == 'c';
    assert |SCHEMA_WINDOWS| > 30;
  }

  /** The catalog at `head` is the one at `base` with its candidate registered for the version,
      whose name in the catalog has no `v` in front. */
  ghost predicate RegistersWindow(repo: Repo, version: string, base: string, head: string) {
    && repo.catalog(base).Document? && repo.catalog(head).Document?
    && exists key :: (version == "v" + key || (version == key && !("v" <= version)))
                     && IsRegistration(repo.catalog(base).json, repo.catalog(head).json, key)
  }

  /** Of a tag's text only blanks around it and a leading `refs/tags/` are no part of the version. */
  lemma VersionIs(tag: string)
    requires tag == Strip(tag)
    ensures !("refs/tags/" <= tag) ==> VersionOf(tag) == tag
    ensures VersionOf("refs/tags/" + tag) == tag
  {
    var long := "refs/tags/" + tag;
    assert long[0] == 'r' && long[10..] == tag;
    if tag == "" {
      assert long[|long| - 1] == '/';
    } else {
      assert long[|long| - 1] == tag[|tag| - 1];
      StripKeeps(tag);
    }
  }

  lemma {:induction false} StripKeeps(tag: string)
    requires tag == Strip(tag) && tag != ""
    ensures !IsSpace(tag[0]) && !IsSpace(tag[|tag| - 1])
  {
    StripShorter(tag[1..]);
    StripShorter(tag[..|tag| - 1]);
  }

  lemma {:induction false} StripShorter(text: string)
    ensures |Strip(text)| <= |text|
    decreases |text|
  {
    if text == "" {
    } else if IsSpace(text[0]) {
      StripShorter(text[1..]);
    } else if IsSpace(text[|text| - 1]) {
      StripShorter(text[..|text| - 1]);
    }
  }

  /** The nightly blocks when it is required or known, is not green, and may not be red. */
  lemma NightlyBlocks(request: Request)
    ensures !NightlyOk(request) <==>
            !request.allowRed && (request.requireNightly || request.nightly.Some?) && request.nightly != Some("success")
  {
  }

  /** Without a tag, and for a final one, the commit has to be on the first reviewed branch; for
      any other tag some reviewed branch is enough. */
  lemma BranchesAsked(repo: Repo, sha: string, request: Request)
    requires forall i :: 0 <= i < |request.reviewedRefs| ==> repo.reachable(sha, request.reviewedRefs[i]).Some?
    ensures AncestryOk(repo, sha, request) <==>
            && request.reviewedRefs != []
            && match request.tag
               case None => repo.reachable(sha, request.reviewedRefs[0]) == Some(true)
               case Some(_) =>
                 match request.tagClass
                 case Final => repo.reachable(sha, request.reviewedRefs[0]) == Some(true)
                 case Prerelease => exists ref :: ref in request.reviewedRefs && repo.reachable(sha, ref) == Some(true)
                 case NotSemver => false
  {
    var refs := request.reviewedRefs;
    if i :| 0 <= i < |refs| && repo.reachable(sha, refs[i]) == Some(true) { assert refs[i] in refs; }
    if ref :| ref in refs && repo.reachable(sha, ref) == Some(true) {
      var i :| 0 <= i < |refs| && refs[i] == ref;
      assert repo.reachable(sha, refs[i]) == Some(true);
    }
    if refs != [] && repo.reachable(sha, refs[0]) == Some(true) { assert refs[0] in refs; }
  }

  /** The commits whose checks may be fetched: parents with the same tree, and first-parent
      ancestors one to ten steps away with only version-only deltas up to them. */
  lemma FetchedCommits(repo: Repo, sha: string, version: string, commit: string)
    ensures MayFetch(repo, sha, version, commit) <==>
            || (repo.parents(sha).Some? && commit in repo.parents(sha).value && SameTree(repo, commit, sha))
            || (FirstParents(repo, sha, 11).Some?
                && exists walk: seq<string> :: walk <= FirstParents(repo, sha, 11).value && |walk| >= 2 && walk[|walk| - 1] == commit
                                && forall c :: c in walk[1..] ==> DeltaOk(repo, version, c, sha))
  {
    hide FirstParents, DeltaOk, SameTree;
    if FirstParents(repo, sha, 11).Some? { WithinWalk(repo, sha, version, commit, FirstParents(repo, sha, 11).value); }
  }

  /** An ancestor with version-only deltas up to it is the end of a beginning of the walk. */
  lemma WithinWalk(repo: Repo, sha: string, version: string, commit: string, ancestors: seq<string>)
    ensures (exists i :: 0 < i < |ancestors| && ancestors[i] == commit
                         && forall j :: 0 < j <= i ==> DeltaOk(repo, version, ancestors[j], sha)) <==>
            (exists walk: seq<string> :: walk <= ancestors && |walk| >= 2 && walk[|walk| - 1] == commit
                                         && forall c :: c in walk[1..] ==> DeltaOk(repo, version, c, sha))
  {
    hide DeltaOk;
    if i :| 0 < i < |ancestors| && ancestors[i] == commit && forall j :: 0 < j <= i ==> DeltaOk(repo, version, ancestors[j], sha) {
      var walk := ancestors[..i + 1];
      assert walk <= ancestors && walk[|walk| - 1] == commit;
      forall c | c in walk[1..] ensures DeltaOk(repo, version, c, sha) {
        var j :| 0 <= j < |walk[1..]| && walk[1..][j] == c;
        assert c == ancestors[j + 1];
      }
    }
    if walk: seq<string> :| (walk <= ancestors && |walk| >= 2 && walk[|walk| - 1] == commit
                             && forall c :: c in walk[1..] ==> DeltaOk(repo, version, c, sha)) {
      var i := |walk| - 1;
      forall j | 0 < j <= i ensures DeltaOk(repo, version, ancestors[j], sha) {
        assert ancestors[j] == walk[1..][j - 1] && walk[1..][j - 1] in walk[1..];
      }
      assert ancestors[i] == commit;
    }
  }
}
