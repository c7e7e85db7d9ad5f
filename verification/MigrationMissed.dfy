/** Drops that `upgrade` may run and the scan never visits. */
module MigrationMissed {
  import opened Options
  import opened MigrationTree
  import opened MigrationScope
  import opened MigrationModule
  import opened MigrationReach
  import opened MigrationScan

  // ---- hidden code ------------------------------------------------------------------------------------

  /** Where the code called `helper` stands. */
  datatype Place = InHandler | InMethod | AsLambda | AsGenerator

  /** `op.drop_table("t")`. */
  const DROP := Node(Drop("op", false, true, Literal("t"), Other), [], [])

  /** The code that drops: a function, a method, a lambda or a generator. */
  function Dropping(place: Place): Node {
    match place
    case InHandler => Node(Function("helper", {}), [], [DROP])
    case InMethod => Node(Function("run", {}), [], [DROP])
    case AsLambda => Node(Lambda({}), [], [DROP])
    case AsGenerator => Node(Comprehension({}, true), [], [DROP])
  }

  /** The statement that binds `helper`: `try: ... except: def helper(): ...`, `class helper: ...`,
      `helper = lambda: ...` or `helper = (... for ...)`. */
  function Binding(place: Place): Node {
    match place
    case InHandler => Node(Plain, [], [Node(Clause({}), [], [Dropping(place)])])
    case InMethod => Node(Class("helper"), [], [Dropping(place)])
    case _ => Node(Assign([PlainTarget("helper")], Computed), [Dropping(place)], [])
  }

  const HELPER := Node(Name("helper", true), [], [])

  /** `def upgrade(): ... helper ...` */
  const UPGRADE := Node(Function("upgrade", {}), [], [HELPER])

  lemma OneDefinition(a: Node)
    ensures DefinitionsAll([a]) == Definitions(a) && EveryDefinitionAll([a]) == EveryDefinition(a) && HiddenAll([a]) == Hidden(a)
    ensures DefinitionsAll([]) == [] && EveryDefinitionAll([]) == [] && HiddenAll([]) == 0
    ensures MentionsAll([a]) == Mentions(a) && MentionsAll([]) == {}
    ensures TidyAll([a]) <==> Tidy(a)
  {
    assert [a][1..] == [];
  }

  lemma DroppingTidy(place: Place)
    ensures var d := Dropping(place);
            && Tidy(d) && Globals(d) == {} && (d.kind.Function? || Definitions(d) == [])
            && EveryDefinition(d) == [d] && (place.InHandler? ==> "helper" in Bound(d))
  {
    LeafFacts(DROP);
    AllOne(DROP);
    assert PyBoundAll([]) == {} && BoundAll([]) == {} && GlobalsAll([]) == {};
  }

  lemma NoNodes()
    ensures TidyAll([]) && PyBoundAll([]) == {} && BoundAll([]) == {} && GlobalsAll([]) == {}
    ensures DefinitionsAll([]) == [] && EveryDefinitionAll([]) == [] && HiddenAll([]) == 0
  {
  }

  /** The binding hides the dropping code, and is tidy and named. */
  predicate Hides(a: Node, d: Node) {
    Definitions(a) == [] && EveryDefinition(a) == [d] && Hidden(a) == 1 && Tidy(a) && "helper" in Bound(a)
  }

  lemma Collected(place: Place)
    ensures Hides(Binding(place), Dropping(place))
  {
    DroppingTidy(place);
    hide Hides, Definitions, EveryDefinition, Hidden, Tidy, Bound, Globals;
    var d := Dropping(place);
    match place
    case InHandler => HandlerHides(d);
    case InMethod => ClassHides(d);
    case AsLambda => AssignmentHides(d);
    case AsGenerator => AssignmentHides(d);
  }

  lemma {:induction false} AssignmentHides(d: Node)
    requires (d.kind.Lambda? || d.kind.Comprehension?) && EveryDefinition(d) == [d] && Tidy(d)
    ensures Hides(Node(Assign([PlainTarget("helper")], Computed), [d], []), d)
  {
    hide DefinitionsAll, EveryDefinitionAll, HiddenAll, TidyAll, BoundAll, PyBoundAll, GlobalsAll, EveryDefinition, Tidy;
    var a := Node(Assign([PlainTarget("helper")], Computed), [d], []);
    NoNodes();
    OneDefinition(d);
    assert Definitions(d) == [] && Hidden(d) == 1;
    assert EveryDefinition(a) == EveryDefinitionAll([d]) + EveryDefinitionAll([]) by { PlainDefinition(a); }
    assert Tidy(a) by { PlainTidy(a); }
    assert "helper" in TargetNames([PlainTarget("helper")]);
  }

  lemma PlainDefinition(a: Node)
    requires !Deferred(a.kind)
    ensures EveryDefinition(a) == EveryDefinitionAll(a.header) + EveryDefinitionAll(a.body)
  {
  }

  lemma PlainTidy(a: Node)
    requires !IsScope(a.kind) && TidyAll(a.header) && TidyAll(a.body)
    ensures Tidy(a)
  {
  }

  lemma {:induction false} ClassHides(d: Node)
    requires d.kind.Function? && EveryDefinition(d) == [d] && Tidy(d) && Globals(d) == {}
    ensures Hides(Node(Class("helper"), [], [d]), d)
  {
    hide DefinitionsAll, EveryDefinitionAll, HiddenAll, TidyAll, BoundAll, PyBoundAll, GlobalsAll, Globals;
    NoNodes();
    OneDefinition(d);
    AllOne(d);
  }

  lemma {:induction false} HandlerHides(d: Node)
    requires d.kind.Function? && EveryDefinition(d) == [d] && Tidy(d) && "helper" in Bound(d)
    ensures Hides(Node(Plain, [], [Node(Clause({}), [], [d])]), d)
  {
    hide DefinitionsAll, EveryDefinitionAll, HiddenAll, TidyAll, BoundAll, EveryDefinition, Tidy;
    var clause := Node(Clause({}), [], [d]);
    var a := Node(Plain, [], [clause]);
    HandlerCollected(d, clause);
    NoNodes();
    OneDefinition(clause);
    AllOne(clause);
    PlainDefinition(a);
    PlainTidy(a);
  }

  lemma {:induction false} HandlerCollected(d: Node, clause: Node)
    requires clause == Node(Clause({}), [], [d]) && EveryDefinition(d) == [d] && Tidy(d)
    ensures Definitions(clause) == [] && EveryDefinition(clause) == [d] && Hidden(clause) == 1 && Tidy(clause)
    ensures Bound(clause) == Bound(d)
  {
    hide DefinitionsAll, EveryDefinitionAll, HiddenAll, TidyAll, BoundAll;
    NoNodes();
    OneDefinition(d);
    AllOne(d);
  }

  lemma UpgradeCollected()
    ensures Definitions(UPGRADE) == [UPGRADE] && EveryDefinition(UPGRADE) == [UPGRADE] && Hidden(UPGRADE) == 0
    ensures Tidy(UPGRADE) && KeepsTables(UPGRADE, map[], []) && "helper" in Mentions(UPGRADE)
  {
    LeafFacts(HELPER);
    OneDefinition(HELPER);
    assert [HELPER][1..] == [];
    var inner := InnerChain(UPGRADE, []);
    assert KeepsTables(HELPER, InnerTables(UPGRADE, map[], []), inner);
    assert KeepsTablesAll([], map[], []);
  }

  lemma NothingRecorded(m: Module)
    ensures Ops(m, UPGRADE, map[], {}) == []
  {
    hide Inside;
    assert [HELPER][1..] == [];
    assert Ops(m, HELPER, map[], Inside(UPGRADE, {})) == [];
  }

  lemma DropMeant(m: Module, env: map<string, string>, place: Place)
    requires "op" in m.opNames
    ensures AllDropped(TrueOps(m, env, Dropping(place), map[], [])) == [Dropped("t", None)]
  {
    hide BlockOf;
    var d, ops := Dropping(place), [OnTable(Some("t"))];
    assert [DROP][1..] == [] && ops[1..] == [];
    var chain := if place.AsGenerator? then [Block(false, {}, {})] + [] else [BlockOf(d)] + [];
    assert TrueOps(m, env, DROP, map[], chain) == ops;
    assert TrueOpsAll(m, env, [DROP], map[], chain) == ops;
    assert TrueOps(m, env, d, map[], []) == ops;
  }

  /** The module is ordinary and tidy and names its drop outright; `upgrade` reads `helper`, and
      the scanner collects `upgrade` alone. */
  lemma DeferredCodeIsMissed(m: Module, env: map<string, string>, place: Place)
    requires "op" in m.opNames
    ensures var code := [Binding(place), UPGRADE];
            && TidyAll(code) && Ordinary(code) && KeepsAllTables(code) && HiddenAll(code) == 1
            && DefinitionsAll(code) == [UPGRADE] && EveryDefinitionAll(code) == [Dropping(place), UPGRADE]
    ensures "helper" in Bound(Binding(place)) && "helper" in Mentions(UPGRADE) && Ops(m, UPGRADE, map[], {}) == []
    ensures AllDropped(TrueOps(m, env, Dropping(place), map[], [])) == [Dropped("t", None)]
  {
    hide Definitions, EveryDefinition, Hidden, Tidy, KeepsTables, Bound, Mentions, Ops, TrueOps, Dropping;
    var code := [Binding(place), UPGRADE];
    assert code[1..] == [UPGRADE];
    Collected(place);
    UpgradeCollected();
    OneDefinition(UPGRADE);
    NothingRecorded(m);
    DropMeant(m, env, place);
  }

  // ---- a function no binding leads to --------------------------------------------------------------------

  const STEPS := Node(Name("steps", true), [], [])

  /** `steps = []`, `def helper(): op.drop_table("t")`, `steps.append(helper)` and
      `def upgrade(): ... steps ...`. */
  const STORED: seq<Node> := [
    Node(Assign([PlainTarget("steps")], Computed), [], []),
    Dropping(InHandler),
    Node(Plain, [], [STEPS, HELPER]),
    Node(Function("upgrade", {}), [], [STEPS])
  ]

  lemma StepsReadNothing(x: string)
    ensures !Reads(STORED, "steps", x)
  {
    forall i | 0 <= i < |STORED| && "steps" in Bound(STORED[i]) ensures Loaded(STORED[i]) == {} {
      StepsBoundOnce(i);
    }
  }

  lemma StepsBoundOnce(i: nat)
    requires i < |STORED|
    ensures "steps" in Bound(STORED[i]) ==> Loaded(STORED[i]) == {}
  {
    LeafFacts(STEPS);
    LeafFacts(HELPER);
    assert [STEPS, HELPER][1..] == [HELPER] && [HELPER][1..] == [];
    assert BoundAll([]) == {} && LoadedAll([]) == {};
    assert BoundAll([STEPS, HELPER]) == {};
  }

  /** The references follow statements that bind a name; what a statement does to a value they do
      not. A function that is stored is collected and never reached. */
  lemma StoredFunctionIsMissed(refs: References)
    requires IsReferences(STORED, refs)
    ensures HiddenAll(STORED) == 0 && STORED[1] in DefinitionsAll(STORED) && Mentions(STORED[3]) == {"steps"}
    ensures forall x :: Leads(refs, "steps", x) ==> x == "steps"
  {
    forall x | Leads(refs, "steps", x) ensures x == "steps" {
      forall b ensures !Step(refs, "steps", b) { StepsReadNothing(b); }
      ClosedHolds(refs, {"steps"}, "steps", x);
    }
    StoredCollected();
  }

  lemma StoredCollected()
    ensures HiddenAll(STORED) == 0 && STORED[1] in DefinitionsAll(STORED) && Mentions(STORED[3]) == {"steps"}
  {
    StoredParts();
    hide Hidden, Definitions, Mentions, Dropping;
    var rest := [STORED[1], STORED[2], STORED[3]];
    assert STORED[1..] == rest && rest[1..] == [STORED[2], STORED[3]] && [STORED[2], STORED[3]][1..] == [STORED[3]];
    assert [STORED[3]][1..] == [];
    assert HiddenAll([]) == 0;
    assert HiddenAll([STORED[3]]) == Hidden(STORED[3]);
    assert HiddenAll(rest[1..]) == Hidden(STORED[2]) + HiddenAll([STORED[3]]);
    assert HiddenAll(rest) == Hidden(STORED[1]) + HiddenAll(rest[1..]);
    assert HiddenAll(STORED) == Hidden(STORED[0]) + HiddenAll(rest);
    assert DefinitionsAll(rest) == [STORED[1]] + DefinitionsAll(rest[1..]);
    assert DefinitionsAll(STORED) == DefinitionsAll(rest);
    assert DefinitionsAll(rest)[0] == STORED[1];
  }

  lemma StoredParts()
    ensures Hidden(STORED[0]) == 0 && Hidden(STORED[1]) == 0 && Hidden(STORED[2]) == 0 && Hidden(STORED[3]) == 0
    ensures Definitions(STORED[0]) == [] && Definitions(STORED[1]) == [STORED[1]] && Mentions(STORED[3]) == {"steps"}
  {
    OneDefinition(STEPS);
    OneDefinition(HELPER);
    assert [STEPS, HELPER][1..] == [HELPER];
    assert Hidden(STEPS) == 0 && Hidden(HELPER) == 0;
    assert HiddenAll([STEPS, HELPER]) == 0;
  }
}
