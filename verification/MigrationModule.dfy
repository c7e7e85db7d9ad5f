/** The module constants the migration scanner trusts, against runs of the module. */
module MigrationModule {
  import opened Options
  import opened MigrationTree

  // ---- the reference: running a module -------------------------------------------------------

  /** What the module's names hold: a text, or some other object. */
  type Env = map<string, Option<string>>

  /** The names that are a target by themselves. */
  function PlainNames(targets: seq<Target>): (names: set<string>)
    ensures names <= TargetNames(targets)
  {
    if targets == [] then {} else (if targets[0].PlainTarget? then {targets[0].name} else {}) + PlainNames(targets[1..])
  }

  /** The last target that binds `name` is `name` itself; targets are assigned left to right. */
  predicate EndsPlain(targets: seq<Target>, name: string) {
    targets != [] &&
    var last := targets[|targets| - 1];
    if name in NamesOf(last) then last.PlainTarget? else EndsPlain(targets[..|targets| - 1], name)
  }

  lemma {:induction false} EndsPlainIsPlain(targets: seq<Target>, name: string)
    requires EndsPlain(targets, name)
    ensures name in PlainNames(targets)
    decreases |targets|
  {
    var n := |targets| - 1;
    if name !in NamesOf(targets[n]) { EndsPlainIsPlain(targets[..n], name); }
    PlainAt(targets, if name in NamesOf(targets[n]) then n else IndexOfPlain(targets[..n], name));
  }

  lemma {:induction false} PlainAt(targets: seq<Target>, i: nat)
    requires i < |targets| && targets[i].PlainTarget?
    ensures targets[i].name in PlainNames(targets)
    decreases |targets|
  {
    if i == 0 {
    } else {
      PlainAt(targets[1..], i - 1);
    }
  }

  ghost function IndexOfPlain(targets: seq<Target>, name: string): (i: nat)
    requires name in PlainNames(targets)
    ensures i < |targets| && targets[i] == PlainTarget(name)
  {
    if targets[0] == PlainTarget(name) then 0 else 1 + IndexOfPlain(targets[1..], name)
  }

  /** The names a top-level statement binds inside its value and its targets. */
  function Others(s: Node): set<string> { PyBoundAll(s.header) + PyBoundAll(s.body) }

  /** The names running a top-level statement may bind; an annotation without a value binds none itself. */
  function Changes(s: Node): set<string> { if s.kind.Annotation? then Others(s) else PyBound(s) }

  predicate SetsConstant(s: Node) { s.kind.Assign? && s.kind.value.Constant? }

  /** A statement of module code: it may change the names it binds, and through the functions
      it calls the names those rebind; a constant assignment leaves a name with the constant
      when the last target that binds it is the name itself. */
  ghost predicate Executes(s: Node, rebinds: set<string>, before: Env, after: Env) {
    && (forall name :: name !in Changes(s) + rebinds ==>
          (name in after <==> name in before) && (name in before ==> after[name] == before[name]))
    && (SetsConstant(s) ==> forall name :: EndsPlain(s.kind.targets, name) && name !in Others(s) + rebinds ==>
          name in after && after[name] == s.kind.value.text)
  }

  /** A run: the environments before, between and after the statements. */
  ghost predicate Run(code: seq<Node>, rebinds: set<string>, envs: seq<Env>) {
    |envs| == |code| + 1 && forall i :: 0 <= i < |code| ==> Executes(code[i], rebinds, envs[i], envs[i + 1])
  }

  ghost predicate EndsWith(envs: seq<Env>, name: string, text: Option<string>) {
    envs != [] && name in envs[|envs| - 1] && envs[|envs| - 1][name] == text
  }

  // ---- the code ---------------------------------------------------------------------------------

  type Bindings = map<string, Option<string>>

  /** One statement's effect on the constants known so far. */
  function Bind(known: Bindings, s: Node): Bindings {
    if s.kind.Annotation? then known
    else
      var kept := map name | name in known && name !in Bound(s) :: known[name];
      if SetsConstant(s) then kept + map name | name in PlainNames(s.kind.targets) :: s.kind.value.text else kept
  }

  function BindAll(code: seq<Node>): Bindings {
    if code == [] then map[] else Bind(BindAll(code[..|code| - 1]), code[|code| - 1])
  }

  /** Module names whose last binding assigns a constant. */
  method ModuleBindings(code: seq<Node>) returns (known: Bindings)
    ensures known == BindAll(code)
  {
    known := map[];
    for i := 0 to |code|
      invariant known == BindAll(code[..i])
    {
      var s := code[i];
      assert code[..i + 1][..i] == code[..i];
      if !s.kind.Annotation? {
        var bound := BoundNames([s]);
        AllOne(s);
        var kept := map name | name in known && name !in bound :: known[name];
        if SetsConstant(s) {
          known := kept + map name | name in PlainNames(s.kind.targets) :: s.kind.value.text;
        } else {
          known := kept;
        }
      }
    }
    assert code[..|code|] == code;
  }

  function ConstantsOf(code: seq<Node>): map<string, string> {
    var known := BindAll(code);
    map name | name in known && known[name].Some? && name !in RebindsAll(code) :: known[name].value
  }

  /** Module names that hold a string constant no function rebinds. */
  method ModuleConstants(code: seq<Node>) returns (constants: map<string, string>)
    ensures constants == ConstantsOf(code)
  {
    var rebound := GlobalRebinds(code);
    var known := ModuleBindings(code);
    constants := map name | name in known && known[name].Some? && name !in rebound :: known[name].value;
  }

  // ---- which constants hold ------------------------------------------------------------------------

  /** The last statement that may change `name` assigns it a constant, last of all as a target by itself. */
  predicate Firm(code: seq<Node>, name: string) {
    code != [] &&
    var s := code[|code| - 1];
    if name in Changes(s) then SetsConstant(s) && EndsPlain(s.kind.targets, name) && name !in Others(s)
    else Firm(code[..|code| - 1], name)
  }

  lemma RunPrefix(code: seq<Node>, rebinds: set<string>, envs: seq<Env>)
    requires code != [] && Run(code, rebinds, envs)
    ensures Run(code[..|code| - 1], rebinds, envs[..|envs| - 1])
    ensures Executes(code[|code| - 1], rebinds, envs[|envs| - 2], envs[|envs| - 1])
  {
    hide Executes;
    var n := |code| - 1;
    assert Executes(code[n], rebinds, envs[n], envs[n + 1]);
  }

  lemma TidyLast(code: seq<Node>)
    requires code != [] && TidyAll(code)
    ensures TidyAll(code[..|code| - 1]) && Tidy(code[|code| - 1])
    ensures PyBound(code[|code| - 1]) == Bound(code[|code| - 1])
    decreases |code|
  {
    hide Tidy;
    if |code| == 1 {
    } else {
      TidyLast(code[1..]);
      assert code[1..][|code| - 2] == code[|code| - 1];
      assert code[..|code| - 1][1..] == code[1..][..|code| - 2];
    }
    TidyBound(code[|code| - 1]);
  }

  /** A firm constant survives every run. */
  lemma {:induction false} FirmHolds(code: seq<Node>, rebinds: set<string>, envs: seq<Env>, name: string)
    requires TidyAll(code) && Run(code, rebinds, envs) && Firm(code, name) && name !in rebinds
    ensures name in BindAll(code) && EndsWith(envs, name, BindAll(code)[name])
    decreases |code|
  {
    hide TidyAll, Bound, PyBound, Others;
    var s := code[|code| - 1];
    RunPrefix(code, rebinds, envs);
    TidyLast(code);
    if name !in Changes(s) {
      FirmHolds(code[..|code| - 1], rebinds, envs[..|envs| - 1], name);
      PlainIsBound(s);
    } else {
      EndsPlainIsPlain(s.kind.targets, name);
    }
  }

  lemma PlainIsBound(s: Node)
    ensures s.kind.Assign? ==> PlainNames(s.kind.targets) <= PyBound(s) && PlainNames(s.kind.targets) <= Bound(s)
  {
  }

  /** The statement that just does what it must. */
  function Settle(s: Node, env: Env): Env {
    if SetsConstant(s) then env + map name | name in PlainNames(s.kind.targets) :: s.kind.value.text else env
  }

  lemma Settles(s: Node, rebinds: set<string>, env: Env)
    ensures Executes(s, rebinds, env, Settle(s, env))
  {
    hide Bound, PyBound, Others, EndsPlain;
    PlainIsBound(s);
    if SetsConstant(s) {
      forall name | EndsPlain(s.kind.targets, name) ensures name in PlainNames(s.kind.targets) {
        EndsPlainIsPlain(s.kind.targets, name);
      }
    }
  }

  lemma RunMore(code: seq<Node>, rebinds: set<string>, envs: seq<Env>, after: Env)
    requires code != [] && Run(code[..|code| - 1], rebinds, envs)
    requires Executes(code[|code| - 1], rebinds, envs[|envs| - 1], after)
    ensures Run(code, rebinds, envs + [after])
  {
    hide Executes;
    var more := envs + [after];
    forall i | 0 <= i < |code| ensures Executes(code[i], rebinds, more[i], more[i + 1]) {
      if i < |code| - 1 {
        assert code[..|code| - 1][i] == code[i];
        assert Executes(code[..|code| - 1][i], rebinds, envs[i], envs[i + 1]);
      }
    }
  }

  lemma {:induction false} SomeRun(code: seq<Node>, rebinds: set<string>) returns (envs: seq<Env>)
    ensures Run(code, rebinds, envs)
    decreases |code|
  {
    hide Executes;
    if code == [] {
      envs := [map[]];
    } else {
      var s := code[|code| - 1];
      envs := SomeRun(code[..|code| - 1], rebinds);
      Settles(s, rebinds, envs[|envs| - 1]);
      RunMore(code, rebinds, envs, Settle(s, envs[|envs| - 1]));
      envs := envs + [Settle(s, envs[|envs| - 1])];
    }
  }

  /** A constant that is not firm is lost in some run. */
  lemma {:induction false} LooseIsLost(code: seq<Node>, rebinds: set<string>, name: string, text: string) returns (envs: seq<Env>)
    requires !Firm(code, name) && name !in rebinds
    ensures Run(code, rebinds, envs) && !EndsWith(envs, name, Some(text))
    decreases |code|
  {
    hide Executes, Changes, Others;
    if code == [] {
      envs := [map[]];
    } else {
      var s, before := code[|code| - 1], code[..|code| - 1];
      if name in Changes(s) {
        envs := SomeRun(before, rebinds);
        var after := Settle(s, envs[|envs| - 1])[name := None];
        assert Executes(s, rebinds, envs[|envs| - 1], after) by { LoseName(s, rebinds, envs[|envs| - 1], name); }
        RunMore(code, rebinds, envs, after);
        envs := envs + [after];
      } else {
        envs := LooseIsLost(before, rebinds, name, text);
        var after := Settle(s, envs[|envs| - 1]);
        Settles(s, rebinds, envs[|envs| - 1]);
        RunMore(code, rebinds, envs, after);
        assert name in after <==> name in envs[|envs| - 1] by { KeptName(s, envs[|envs| - 1], name); }
        assert name in after ==> after[name] == envs[|envs| - 1][name] by { KeptName(s, envs[|envs| - 1], name); }
        envs := envs + [after];
      }
    }
  }

  lemma KeptName(s: Node, env: Env, name: string)
    requires name !in Changes(s)
    ensures name in Settle(s, env) <==> name in env
    ensures name in env ==> Settle(s, env)[name] == env[name]
  {
    hide Bound, PyBound, Others;
    PlainIsBound(s);
  }

  lemma LoseName(s: Node, rebinds: set<string>, env: Env, name: string)
    requires name in Changes(s) && !(SetsConstant(s) && EndsPlain(s.kind.targets, name) && name !in Others(s))
    ensures Executes(s, rebinds, env, Settle(s, env)[name := None])
  {
    hide Bound, PyBound, Others, EndsPlain, Settle, Executes;
    Settles(s, rebinds, env);
    LosesOne(s, rebinds, env, Settle(s, env), name);
  }

  lemma LosesOne(s: Node, rebinds: set<string>, env: Env, after: Env, name: string)
    requires Executes(s, rebinds, env, after)
    requires name in Changes(s) && !(SetsConstant(s) && EndsPlain(s.kind.targets, name) && name !in Others(s))
    ensures Executes(s, rebinds, env, after[name := None])
  {
    hide Bound, PyBound, Others, EndsPlain;
  }

  /** In tidy code a constant the scanner trusts is rebound by no function, and it is what the
      name holds after every run exactly when it is firm. */
  lemma ConstantHolds(code: seq<Node>, name: string)
    requires TidyAll(code) && name in ConstantsOf(code)
    ensures name !in PyRebindsAll(code)
    ensures (forall envs :: Run(code, PyRebindsAll(code), envs) ==> EndsWith(envs, name, Some(ConstantsOf(code)[name])))
            <==> Firm(code, name)
  {
    hide TidyAll, Run, Firm, EndsWith;
    TidyBoundAll(code);
    var rebinds, text := PyRebindsAll(code), ConstantsOf(code)[name];
    assert BindAll(code)[name] == Some(text);
    if Firm(code, name) {
      forall envs | Run(code, rebinds, envs) ensures EndsWith(envs, name, Some(text)) {
        FirmHolds(code, rebinds, envs, name);
      }
    } else {
      var envs := LooseIsLost(code, rebinds, name, text);
    }
  }

  // ---- ordinary modules ------------------------------------------------------------------------------

  /** A constant assigned to a name by itself stays its last value in the statement, and no bare
      annotation binds anything. */
  ghost predicate Ordinary(code: seq<Node>) {
    forall i :: 0 <= i < |code| ==>
      && (SetsConstant(code[i]) ==> KeepsTargets(code[i]))
      && (code[i].kind.Annotation? ==> Others(code[i]) == {})
  }

  ghost predicate KeepsTargets(s: Node)
    requires s.kind.Assign?
  {
    forall name :: name in PlainNames(s.kind.targets) ==> EndsPlain(s.kind.targets, name) && name !in Others(s)
  }

  lemma {:induction false} OrdinaryIsFirm(code: seq<Node>, name: string)
    requires TidyAll(code) && Ordinary(code) && name in BindAll(code)
    ensures Firm(code, name)
    decreases |code|
  {
    hide TidyAll, Bound, PyBound, Others, EndsPlain, PlainNames;
    var s, before := code[|code| - 1], code[..|code| - 1];
    TidyLast(code);
    if name !in Changes(s) {
      PlainIsBound(s);
      assert name in BindAll(before);
      assert forall i :: 0 <= i < |before| ==> before[i] == code[i];
      OrdinaryIsFirm(before, name);
    }
  }

  /** In an ordinary tidy module every trusted constant is what its name holds after every run. */
  lemma ConstantsHold(code: seq<Node>, envs: seq<Env>, name: string)
    requires TidyAll(code) && Ordinary(code) && Run(code, PyRebindsAll(code), envs) && name in ConstantsOf(code)
    ensures name !in PyRebindsAll(code) && EndsWith(envs, name, Some(ConstantsOf(code)[name]))
  {
    hide TidyAll, Run, Firm, EndsWith, BindAll, Ordinary;
    OrdinaryIsFirm(code, name);
    ConstantHolds(code, name);
  }

  /** `A = (A, B) = "xy"` and `(A, B) = A = "xy"`. */
  function Chained(patternFirst: bool): Node {
    var a, ab := PlainTarget("A"), PatternTarget({"A", "B"});
    Node(Assign(if patternFirst then [ab, a] else [a, ab], Constant(Some("xy"))), [], [])
  }

  /** The scanner trusts `A` to be `"xy"` after either; some run loses it after the first, and
      none after the second. */
  lemma RepeatedTargetEscapes(patternFirst: bool)
    ensures ConstantsOf([Chained(patternFirst)]) == map["A" := "xy"]
    ensures (forall envs :: Run([Chained(patternFirst)], {}, envs) ==> EndsWith(envs, "A", Some("xy"))) <==> patternFirst
  {
    var s := Chained(patternFirst);
    ChainedTargets(patternFirst);
    LeafFacts(s);
    AllOne(s);
    hide EndsPlain, PlainNames, TargetNames, Bound, PyBound, Rebinds, RebindsAll, PyRebinds, PyRebindsAll, TidyAll;
    assert [s][..0] == [];
    assert Others(s) == {};
    assert BindAll([]) == map[];
    assert Bind(map[], s) == map["A" := Some("xy")];
    assert Firm([s], "A") <==> patternFirst;
    ConstantHolds([s], "A");
  }

  lemma ChainedTargets(patternFirst: bool)
    ensures var targets := Chained(patternFirst).kind.targets;
            && TargetNames(targets) == {"A", "B"} && PlainNames(targets) == {"A"}
            && (EndsPlain(targets, "A") <==> patternFirst)
  {
    var a, ab := PlainTarget("A"), PatternTarget({"A", "B"});
    assert [a, ab][1..] == [ab] && [ab, a][1..] == [a] && [ab][1..] == [] && [a][1..] == [];
    assert [a, ab][..1] == [a] && [ab, a][..1] == [ab];
    assert TargetNames([ab]) == {"A", "B"} && TargetNames([a]) == {"A"};
    assert PlainNames([ab]) == {} && PlainNames([a]) == {"A"};
  }
}
