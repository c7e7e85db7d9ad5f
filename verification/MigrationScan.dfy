/** The scan of `upgrade()` and everything it reaches. */
module MigrationScan {
  import opened Options
  import opened Orders
  import opened MigrationTree
  import opened MigrationScope
  import opened MigrationModule
  import opened MigrationReach

  // ---- the module's functions ------------------------------------------------------------------

  /** Statements the scanner looks into for functions: no scope, no handler or case, no expression
      that opens a scope. */
  predicate Entered(kind: Kind) { !IsScope(kind) && !kind.Clause? && !kind.Comprehension? }

  /** The functions the scanner collects from module code, redefinitions included. */
  function Definitions(node: Node): seq<Node> {
    if node.kind.Function? then [node]
    else if Entered(node.kind) then DefinitionsAll(node.header) + DefinitionsAll(node.body)
    else []
  }

  function DefinitionsAll(nodes: seq<Node>): seq<Node> {
    if nodes == [] then [] else Definitions(nodes[0]) + DefinitionsAll(nodes[1..])
  }

  /** Code that does not run where it stands but when it is called or iterated. */
  predicate Deferred(kind: Kind) { kind.Function? || kind.Lambda? || (kind.Comprehension? && kind.lazy) }

  /** All the code a module defines for later: functions, lambdas and generators, methods of its
      classes included. What is nested in one of them belongs to it. */
  function EveryDefinition(node: Node): seq<Node> {
    if Deferred(node.kind) then [node] else EveryDefinitionAll(node.header) + EveryDefinitionAll(node.body)
  }

  function EveryDefinitionAll(nodes: seq<Node>): seq<Node> {
    if nodes == [] then [] else EveryDefinition(nodes[0]) + EveryDefinitionAll(nodes[1..])
  }

  /** How many of them are no function, or lie in a class, a handler, a case or an expression. */
  function Hidden(node: Node): nat {
    if node.kind.Function? then 0
    else if Entered(node.kind) then HiddenAll(node.header) + HiddenAll(node.body)
    else |EveryDefinition(node)|
  }

  function HiddenAll(nodes: seq<Node>): nat {
    if nodes == [] then 0 else Hidden(nodes[0]) + HiddenAll(nodes[1..])
  }

  lemma {:induction false} HiddenAreMissing(node: Node)
    ensures |EveryDefinition(node)| == |Definitions(node)| + Hidden(node)
    ensures Hidden(node) == 0 ==> EveryDefinition(node) == Definitions(node)
    decreases node
  {
    HiddenAreMissingAll(node.header);
    HiddenAreMissingAll(node.body);
  }

  lemma {:induction false} HiddenAreMissingAll(nodes: seq<Node>)
    ensures |EveryDefinitionAll(nodes)| == |DefinitionsAll(nodes)| + HiddenAll(nodes)
    ensures HiddenAll(nodes) == 0 ==> EveryDefinitionAll(nodes) == DefinitionsAll(nodes)
    decreases nodes
  {
    if nodes == [] {
    } else {
      HiddenAreMissing(nodes[0]);
      HiddenAreMissingAll(nodes[1..]);
    }
  }

  /** The scanner collects all the code a module defines for later exactly when none of it is hidden. */
  lemma CollectsEveryDefinition(code: seq<Node>)
    ensures DefinitionsAll(code) == EveryDefinitionAll(code) <==> HiddenAll(code) == 0
  {
    HiddenAreMissingAll(code);
  }

  function Called(definitions: seq<Node>, name: string): seq<Node> {
    if definitions == [] then []
    else
      var d := definitions[|definitions| - 1];
      Called(definitions[..|definitions| - 1], name)
      + if d.kind.Function? && d.kind.name == name then [d] else []
  }

  type Functions = map<string, seq<Node>>

  ghost predicate IsFunctions(definitions: seq<Node>, functions: Functions) {
    && (forall name :: name in functions <==> Called(definitions, name) != [])
    && (forall name :: name in functions ==> functions[name] == Called(definitions, name))
  }

  method ModuleFunctions(code: seq<Node>) returns (functions: Functions)
    ensures IsFunctions(DefinitionsAll(code), functions)
  {
    hide Definitions, DefinitionsAll, SizeAll, Size;
    functions := map[];
    var todo := code;
    ghost var done: seq<Node> := [];
    assert [] + DefinitionsAll(code) == DefinitionsAll(code);
    while todo != []
      invariant IsFunctions(done, functions)
      invariant done + DefinitionsAll(todo) == DefinitionsAll(code)
      decreases SizeAll(todo)
    {
      var node, rest := todo[0], todo[1..];
      NextDefinition(todo);
      if node.kind.Function? {
        var name := node.kind.name;
        OneMore(done, functions, node);
        functions := functions[name := (if name in functions then functions[name] else []) + [node]];
        done := done + [node];
        todo := rest;
      } else if Entered(node.kind) {
        todo := node.header + node.body + rest;
      } else {
        todo := rest;
      }
    }
    assert DefinitionsAll([]) == [] by { NoDefinitions(); }
    assert done + [] == done;
  }

  lemma NoDefinitions()
    ensures DefinitionsAll([]) == []
  {
  }

  lemma {:induction false} DefinitionsConcat(a: seq<Node>, b: seq<Node>)
    ensures DefinitionsAll(a + b) == DefinitionsAll(a) + DefinitionsAll(b)
    decreases |a|
  {
    if a == [] {
      assert a + b == b;
    } else {
      assert (a + b)[0] == a[0] && (a + b)[1..] == a[1..] + b;
      DefinitionsConcat(a[1..], b);
    }
  }

  lemma NextDefinition(todo: seq<Node>)
    requires todo != []
    ensures var node, rest := todo[0], todo[1..];
            && SizeAll(rest) < SizeAll(todo) && SizeAll(node.header + node.body + rest) < SizeAll(todo)
            && (node.kind.Function? ==> DefinitionsAll(todo) == [node] + DefinitionsAll(rest))
            && (!Entered(node.kind) && !node.kind.Function? ==> DefinitionsAll(todo) == DefinitionsAll(rest))
            && (Entered(node.kind) ==> DefinitionsAll(todo) == DefinitionsAll(node.header + node.body + rest))
  {
    var node, rest := todo[0], todo[1..];
    DefinitionsConcat(node.header + node.body, rest);
    DefinitionsConcat(node.header, node.body);
    AllConcat(node.header + node.body, rest);
    AllConcat(node.header, node.body);
  }

  lemma OneMore(done: seq<Node>, functions: Functions, node: Node)
    requires IsFunctions(done, functions) && node.kind.Function?
    ensures var name := node.kind.name;
            IsFunctions(done + [node], functions[name := (if name in functions then functions[name] else []) + [node]])
  {
    var more := done + [node];
    assert more[..|more| - 1] == done;
  }

  // ---- what is recorded ----------------------------------------------------------------------------

  /** A table, or a column of one, that the migration drops or renames. */
  datatype Dropped = Dropped(table: string, column: Option<string>)

  function DroppedBy(op: Operation): seq<Dropped> {
    match op
    case Unpacked => []
    case OnTable(t) => if t.Some? then [Dropped(t.value, None)] else []
    case OnColumn(t, c) => if t.Some? && c.Some? then [Dropped(t.value, c)] else []
  }

  function NonliteralIn(op: Operation): nat {
    match op
    case Unpacked => 1
    case OnTable(t) => if t.Some? then 0 else 1
    case OnColumn(t, c) => (if t.Some? then 0 else 1) + if c.Some? then 0 else 1
  }

  function AllDropped(ops: seq<Operation>): seq<Dropped> {
    if ops == [] then [] else DroppedBy(ops[0]) + AllDropped(ops[1..])
  }

  function AllNonliteral(ops: seq<Operation>): nat {
    if ops == [] then 0 else NonliteralIn(ops[0]) + AllNonliteral(ops[1..])
  }

  lemma {:induction false} RecordsConcat(a: seq<Operation>, b: seq<Operation>)
    ensures AllDropped(a + b) == AllDropped(a) + AllDropped(b)
    ensures AllNonliteral(a + b) == AllNonliteral(a) + AllNonliteral(b)
    decreases |a|
  {
    if a == [] {
      assert a + b == b;
    } else {
      assert (a + b)[0] == a[0] && (a + b)[1..] == a[1..] + b;
      RecordsConcat(a[1..], b);
    }
  }

  /** Every name read anywhere in a node, nested code included. */
  function Mentions(node: Node): set<string> {
    (if node.kind.Name? && node.kind.load then {node.kind.id} else {}) + MentionsAll(node.header) + MentionsAll(node.body)
  }

  function MentionsAll(nodes: seq<Node>): set<string> {
    if nodes == [] then {} else Mentions(nodes[0]) + MentionsAll(nodes[1..])
  }

  /** A function whose name something among `names` leads to. */
  ghost predicate MayRun(refs: References, functions: Functions, names: set<string>, g: string) {
    g in functions && exists n :: n in names && Leads(refs, n, g)
  }

  // ---- the scanner ------------------------------------------------------------------------------------

  class Scanner {
    const m: Module
    const functions: Functions
    const references: References
    var dropped: seq<Dropped>
    var nonliteral: nat

    constructor (code: seq<Node>, opNames: set<string>)
      ensures m == Module(ConstantsOf(code), {"op"} + opNames) && dropped == [] && nonliteral == 0
      ensures IsFunctions(DefinitionsAll(code), functions) && IsReferences(code, references)
    {
      var constants := ModuleConstants(code);
      var defined := ModuleFunctions(code);
      var refs := ModuleReferences(code);
      m := Module(constants, {"op"} + opNames);
      functions, references := defined, refs;
      dropped, nonliteral := [], 0;
    }

    /** Record one operation. */
    method Record(ops: seq<Operation>)
      requires |ops| <= 1
      modifies this
      ensures dropped == old(dropped) + AllDropped(ops) && nonliteral == old(nonliteral) + AllNonliteral(ops)
    {
      if ops != [] {
        assert ops[1..] == [];
        match ops[0]
        case Unpacked => nonliteral := nonliteral + 1;
        case OnTable(t) =>
          if t.Some? { dropped := dropped + [Dropped(t.value, None)]; } else { nonliteral := nonliteral + 1; }
        case OnColumn(t, c) =>
          if t.None? { nonliteral := nonliteral + 1; }
          if c.None? { nonliteral := nonliteral + 1; }
          if t.Some? && c.Some? { dropped := dropped + [Dropped(t.value, c)]; }
      }
    }

    /** Scan a node: record its operations and collect the functions its names may run. */
    method Visit(node: Node, tables: map<string, Operand>, local: set<string>) returns (callees: seq<string>)
      modifies this
      ensures dropped == old(dropped) + AllDropped(Ops(m, node, tables, local))
      ensures nonliteral == old(nonliteral) + AllNonliteral(Ops(m, node, tables, local))
      ensures forall g :: g in callees <==> MayRun(references, functions, Mentions(node), g)
      decreases node, 2
    {
      hide Ops, OpsAll, CallOps, AllDropped, AllNonliteral, Mentions, MentionsAll, MayRun, Leads, Inside;
      OpsOf(m, node, tables, local);
      MentionsRun(references, functions, node);
      if IsScope(node.kind) {
        var names, declared := ScopeLocals(node);
        var inner := (local - declared) + names;
        assert inner == Inside(node, local) by { InsideIs(node, local); }
        callees := VisitBoth(node, tables, local, tables, inner);
      } else if node.kind.Comprehension? {
        var inner := local + node.kind.loopNames;
        callees := VisitBoth(node, tables, inner, tables, inner);
      } else if node.kind.Batch? {
        callees := VisitBoth(node, tables, local, tables[node.kind.alias := node.kind.table], local);
      } else {
        callees := VisitPlain(node, tables, local);
      }
    }

    /** Scan the header and the body of a node, each under its own names. */
    method VisitBoth(node: Node, headTables: map<string, Operand>, headLocal: set<string>,
                     tables: map<string, Operand>, local: set<string>) returns (callees: seq<string>)
      modifies this
      ensures var ops := OpsAll(m, node.header, headTables, headLocal) + OpsAll(m, node.body, tables, local);
              dropped == old(dropped) + AllDropped(ops) && nonliteral == old(nonliteral) + AllNonliteral(ops)
      ensures forall g :: g in callees <==>
                MayRun(references, functions, MentionsAll(node.header), g) ||
                MayRun(references, functions, MentionsAll(node.body), g)
      decreases node, 0
    {
      hide OpsAll, AllDropped, AllNonliteral, MentionsAll, MayRun;
      var inHeader := VisitAll(node.header, headTables, headLocal);
      var inBody := VisitAll(node.body, tables, local);
      callees := inHeader + inBody;
      RecordsConcat(OpsAll(m, node.header, headTables, headLocal), OpsAll(m, node.body, tables, local));
    }

    /** Scan a node that neither opens a scope nor binds a batch table. */
    method VisitPlain(node: Node, tables: map<string, Operand>, local: set<string>) returns (callees: seq<string>)
      modifies this
      ensures var ops := (if node.kind.Drop? then CallOps(m, node.kind, tables, local) else [])
                         + (OpsAll(m, node.header, tables, local) + OpsAll(m, node.body, tables, local));
              dropped == old(dropped) + AllDropped(ops) && nonliteral == old(nonliteral) + AllNonliteral(ops)
      ensures forall g :: g in callees <==>
                || (node.kind.Name? && node.kind.load && g in functions && Leads(references, node.kind.id, g))
                || MayRun(references, functions, MentionsAll(node.header), g)
                || MayRun(references, functions, MentionsAll(node.body), g)
      decreases node, 1
    {
      hide OpsAll, CallOps, AllDropped, AllNonliteral, MentionsAll, MayRun, Leads;
      var here := [];
      if node.kind.Name? && node.kind.load {
        here := Reachable(references, functions.Keys, node.kind.id);
      }
      var ops := if node.kind.Drop? then CallOps(m, node.kind, tables, local) else [];
      assert |ops| <= 1 by { AtMostOne(m, node.kind, tables, local); }
      Record(ops);
      var below := VisitBoth(node, tables, local, tables, local);
      RecordsConcat(ops, OpsAll(m, node.header, tables, local) + OpsAll(m, node.body, tables, local));
      callees := here + below;
    }

    /** Scan `upgrade` and, breadth first, every function reached from it. */
    method Scan() returns (ghost order: seq<string>)
      modifies this
      ensures IsScanOrder(references, functions, order)
      ensures dropped == old(dropped) + AllDropped(FunctionOps(m, functions, order))
      ensures nonliteral == old(nonliteral) + AllNonliteral(FunctionOps(m, functions, order))
    {
      hide OpsAll, AllDropped, AllNonliteral, MentionsAll, MayRun, Leads, FunctionOps, Calls;
      order := [];
      NoRecords();
      assert FunctionOps(m, functions, []) == [] by { NoFunctions(m, functions); }
      if "upgrade" !in functions { return; }
      var visited: set<string> := {};
      var pending := ["upgrade"];
      LeadsSelf(Calls(references, functions), "upgrade");
      while pending != []
        invariant Elements(order) == visited && Distinct(order)
        invariant Scanning(Calls(references, functions), functions.Keys, visited, pending)
        invariant dropped == old(dropped) + AllDropped(FunctionOps(m, functions, order))
        invariant nonliteral == old(nonliteral) + AllNonliteral(FunctionOps(m, functions, order))
        decreases functions.Keys - visited, |pending|
      {
        var name := pending[0];
        ghost var before := pending;
        pending := pending[1..];
        assert before == [name] + pending;
        if name in visited {
          SkipVisited(Calls(references, functions), functions.Keys, visited, name, pending);
        } else {
          var callees := VisitAll(functions[name], map[], {});
          FunctionMore(m, functions, order, name);
          RecordsConcat(FunctionOps(m, functions, order), OpsAll(m, functions[name], map[], {}));
          CallsAre(references, functions, name);
          var found := Unvisited(callees, visited + {name});
          VisitNext(Calls(references, functions), functions.Keys, visited, name, pending, found);
          assert Elements(order + [name]) == visited + {name};
          order := order + [name];
          visited := visited + {name};
          pending := pending + found;
        }
      }
      ScannedAll(references, functions, visited, order);
    }

    method VisitAll(nodes: seq<Node>, tables: map<string, Operand>, local: set<string>) returns (callees: seq<string>)
      modifies this
      ensures dropped == old(dropped) + AllDropped(OpsAll(m, nodes, tables, local))
      ensures nonliteral == old(nonliteral) + AllNonliteral(OpsAll(m, nodes, tables, local))
      ensures forall g :: g in callees <==> MayRun(references, functions, MentionsAll(nodes), g)
      decreases nodes
    {
      hide Ops, AllDropped, AllNonliteral, Mentions, MayRun;
      callees := [];
      if nodes == [] {
        NoRecords();
        assert forall g :: !MayRun(references, functions, {}, g) by { NothingRuns(references, functions); }
      } else {
        var first := Visit(nodes[0], tables, local);
        var others := VisitAll(nodes[1..], tables, local);
        RecordsConcat(Ops(m, nodes[0], tables, local), OpsAll(m, nodes[1..], tables, local));
        callees := first + others;
        RunsUnion(references, functions, Mentions(nodes[0]), MentionsAll(nodes[1..]));
      }
    }
  }

  lemma InsideIs(node: Node, local: set<string>)
    ensures Inside(node, local) ==
            (local - GlobalsAll(node.body)) + (Params(node.kind) + BoundAll(node.body) - GlobalsAll(node.body))
  {
  }

  lemma NoRecords()
    ensures AllDropped([]) == [] && AllNonliteral([]) == 0
  {
  }

  lemma AtMostOne(m: Module, call: Kind, tables: map<string, Operand>, local: set<string>)
    ensures call.Drop? ==> |CallOps(m, call, tables, local)| <= 1
  {
    hide Resolve;
  }

  lemma OpsOf(m: Module, node: Node, tables: map<string, Operand>, local: set<string>)
    ensures Ops(m, node, tables, local) ==
      if IsScope(node.kind) then
        OpsAll(m, node.header, tables, local) + OpsAll(m, node.body, tables, Inside(node, local))
      else if node.kind.Comprehension? then
        OpsAll(m, node.header, tables, local + node.kind.loopNames) + OpsAll(m, node.body, tables, local + node.kind.loopNames)
      else if node.kind.Batch? then
        OpsAll(m, node.header, tables, local) + OpsAll(m, node.body, tables[node.kind.alias := node.kind.table], local)
      else
        (if node.kind.Drop? then CallOps(m, node.kind, tables, local) else [])
        + (OpsAll(m, node.header, tables, local) + OpsAll(m, node.body, tables, local))
  {
  }

  lemma NothingRuns(refs: References, functions: Functions)
    ensures forall g :: !MayRun(refs, functions, {}, g)
  {
    hide Leads;
  }

  lemma RunsUnion(refs: References, functions: Functions, a: set<string>, b: set<string>)
    ensures forall g :: MayRun(refs, functions, a + b, g) <==>
              MayRun(refs, functions, a, g) || MayRun(refs, functions, b, g)
  {
    hide Leads;
  }

  lemma MentionsRun(refs: References, functions: Functions, node: Node)
    ensures forall g :: MayRun(refs, functions, Mentions(node), g) <==>
              || (node.kind.Name? && node.kind.load && g in functions && Leads(refs, node.kind.id, g))
              || MayRun(refs, functions, MentionsAll(node.header), g)
              || MayRun(refs, functions, MentionsAll(node.body), g)
  {
    hide Leads, MentionsAll;
    var own := if node.kind.Name? && node.kind.load then {node.kind.id} else {};
    assert Mentions(node) == own + MentionsAll(node.header) + MentionsAll(node.body);
    RunsUnion(refs, functions, own + MentionsAll(node.header), MentionsAll(node.body));
    RunsUnion(refs, functions, own, MentionsAll(node.header));
  }

  // ---- the worklist of the scan -------------------------------------------------------------------------

  /** Which functions each function may run. */
  ghost function Calls(refs: References, functions: Functions): References {
    map f | f in functions :: set g | g in functions && MayRun(refs, functions, MentionsAll(functions[f]), g)
  }

  ghost predicate Distinct(order: seq<string>) { forall i, j :: 0 <= i < j < |order| ==> order[i] != order[j] }

  /** `order` lists the functions reached from `upgrade`, each once. */
  ghost predicate IsScanOrder(refs: References, functions: Functions, order: seq<string>) {
    && Distinct(order)
    && forall g :: g in order <==> "upgrade" in functions && Leads(Calls(refs, functions), "upgrade", g)
  }

  /** The operations of the definitions of each function in `order`. */
  ghost function FunctionOps(m: Module, functions: Functions, order: seq<string>): seq<Operation> {
    if order == [] then []
    else
      var f := order[|order| - 1];
      FunctionOps(m, functions, order[..|order| - 1]) + if f in functions then OpsAll(m, functions[f], map[], {}) else []
  }

  lemma NoFunctions(m: Module, functions: Functions)
    ensures FunctionOps(m, functions, []) == []
  {
  }

  lemma FunctionMore(m: Module, functions: Functions, order: seq<string>, name: string)
    requires name in functions
    ensures FunctionOps(m, functions, order + [name]) ==
            FunctionOps(m, functions, order) + OpsAll(m, functions[name], map[], {})
  {
    hide OpsAll;
    assert (order + [name])[..|order|] == order;
  }

  lemma CallsAre(refs: References, functions: Functions, name: string)
    requires name in functions
    ensures forall g :: MayRun(refs, functions, MentionsAll(functions[name]), g) <==> Step(Calls(refs, functions), name, g)
    ensures forall g :: Step(Calls(refs, functions), name, g) ==> g in functions
  {
    hide MentionsAll, Leads;
  }

  function Unvisited(callees: seq<string>, visited: set<string>): (found: seq<string>)
    ensures forall g :: g in found <==> g in callees && g !in visited
  {
    if callees == [] then []
    else (if callees[0] in visited then [] else [callees[0]]) + Unvisited(callees[1..], visited)
  }

  /** What the scan knows: it visits and waits for reached functions only, and waits for every
      unvisited function a visited one may run. */
  ghost predicate Scanning(calls: References, known: set<string>, visited: set<string>, pending: seq<string>) {
    && Elements(pending) <= known && visited <= known
    && ("upgrade" in visited || "upgrade" in pending)
    && (forall x :: x in visited || x in pending ==> Leads(calls, "upgrade", x))
    && (forall x, y :: x in visited && Step(calls, x, y) ==> y in visited || y in pending)
  }

  lemma SkipVisited(calls: References, known: set<string>, visited: set<string>, name: string, pending: seq<string>)
    requires Scanning(calls, known, visited, [name] + pending) && name in visited
    ensures Scanning(calls, known, visited, pending)
  {
    hide Leads, Step;
    assert forall x :: x in [name] + pending <==> x == name || x in pending;
  }

  lemma VisitNext(calls: References, known: set<string>, visited: set<string>, name: string, pending: seq<string>, found: seq<string>)
    requires Scanning(calls, known, visited, [name] + pending)
    requires forall g :: g in found <==> Step(calls, name, g) && g !in visited + {name}
    requires forall g :: Step(calls, name, g) ==> g in known
    ensures Scanning(calls, known, visited + {name}, pending + found)
  {
    hide Leads, Step;
    assert forall x :: x in [name] + pending <==> x == name || x in pending;
    assert forall x :: x in pending + found <==> x in pending || x in found;
    forall g | g in found ensures Leads(calls, "upgrade", g) { LeadsOn(calls, "upgrade", name, g); }
  }

  lemma ScannedAll(refs: References, functions: Functions, visited: set<string>, order: seq<string>)
    requires "upgrade" in functions && Scanning(Calls(refs, functions), functions.Keys, visited, [])
    requires Elements(order) == visited && Distinct(order)
    ensures IsScanOrder(refs, functions, order)
  {
    hide Leads, Step, Calls, Distinct;
    forall g | Leads(Calls(refs, functions), "upgrade", g) ensures g in visited {
      ClosedHolds(Calls(refs, functions), visited, "upgrade", g);
    }
    assert forall g :: g in order <==> g in Elements(order);
  }

  // ---- the scan tells the truth ---------------------------------------------------------------------------

  function Texts(env: Env): map<string, string> { map name | name in env && env[name].Some? :: env[name].value }

  lemma {:induction false} TidyDefinitions(node: Node, d: Node)
    requires Tidy(node) && d in Definitions(node)
    ensures Tidy(d) && d.kind.Function?
    decreases node
  {
    hide Tidy;
    if Entered(node.kind) {
      TidyParts(node);
      if d in DefinitionsAll(node.header) { TidyAllDefinitions(node.header, d); } else { TidyAllDefinitions(node.body, d); }
    }
  }

  lemma TidyParts(node: Node)
    requires Tidy(node)
    ensures TidyAll(node.header) && TidyAll(node.body)
  {
  }

  lemma {:induction false} TidyAllDefinitions(nodes: seq<Node>, d: Node)
    requires TidyAll(nodes) && d in DefinitionsAll(nodes)
    ensures Tidy(d) && d.kind.Function?
    decreases nodes
  {
    hide Tidy, Definitions;
    if d in Definitions(nodes[0]) { TidyDefinitions(nodes[0], d); } else { TidyAllDefinitions(nodes[1..], d); }
  }

  /** The definitions of a name are among the module's. */
  lemma {:induction false} CalledAmong(definitions: seq<Node>, name: string, d: Node)
    requires d in Called(definitions, name)
    ensures d in definitions
    decreases |definitions|
  {
    if d in Called(definitions[..|definitions| - 1], name) { CalledAmong(definitions[..|definitions| - 1], name, d); }
  }

  /** The batch tables of every collected function survive the scopes inside their blocks. */
  ghost predicate KeepsAllTables(code: seq<Node>) {
    forall d :: d in DefinitionsAll(code) ==> KeepsTables(d, map[], [])
  }

  lemma {:induction false} FitDefinitions(code: seq<Node>, nodes: seq<Node>)
    requires TidyAll(code) && KeepsAllTables(code) && forall d :: d in nodes ==> d in DefinitionsAll(code)
    ensures TidyAll(nodes) && KeepsTablesAll(nodes, map[], [])
    decreases |nodes|
  {
    hide Tidy, KeepsTables, DefinitionsAll;
    if nodes == [] {
    } else {
      TidyAllDefinitions(code, nodes[0]);
      FitDefinitions(code, nodes[1..]);
    }
  }

  /** The operations of the functions in `order`, with Python's meaning of every name. */
  ghost function TrueFunctionOps(m: Module, env: map<string, string>, functions: Functions, order: seq<string>): seq<Operation> {
    if order == [] then []
    else
      var f := order[|order| - 1];
      TrueFunctionOps(m, env, functions, order[..|order| - 1])
      + if f in functions then TrueOpsAll(m, env, functions[f], map[], []) else []
  }

  /** In an ordinary tidy module, after any run of it, the functions the scanner visits hold
      exactly the operations it records, and every name it resolves means that text there. */
  lemma {:induction false} ScanIsFaithful(code: seq<Node>, opNames: set<string>, envs: seq<Env>, functions: Functions, order: seq<string>)
    requires TidyAll(code) && Ordinary(code) && Run(code, PyRebindsAll(code), envs) && KeepsAllTables(code)
    requires IsFunctions(DefinitionsAll(code), functions)
    ensures var m := Module(ConstantsOf(code), {"op"} + opNames);
            AllFaithful(FunctionOps(m, functions, order), TrueFunctionOps(m, Texts(envs[|envs| - 1]), functions, order))
    decreases |order|
  {
    hide TidyAll, Tidy, Ordinary, OpsAll, TrueOpsAll, KeepsTablesAll, DefinitionsAll, ConstantsOf, AllFaithful, Texts, KeepsAllTables, TablesMatch, Covers;
    var m, env := Module(ConstantsOf(code), {"op"} + opNames), Texts(envs[|envs| - 1]);
    if order == [] {
      assert AllFaithful([], []) by { NoneFaithful(); }
    } else {
      var f, before := order[|order| - 1], order[..|order| - 1];
      ScanIsFaithful(code, opNames, envs, functions, before);
      var found, actual := [], [];
      if f in functions {
        found, actual := OpsAll(m, functions[f], map[], {}), TrueOpsAll(m, env, functions[f], map[], []);
        FunctionFaithful(code, opNames, envs, functions, f);
      } else {
        NoneFaithful();
      }
      FaithfulConcat(FunctionOps(m, functions, before), TrueFunctionOps(m, env, functions, before), found, actual);
    }
  }

  lemma NoneFaithful()
    ensures AllFaithful([], [])
  {
  }

  lemma FunctionFaithful(code: seq<Node>, opNames: set<string>, envs: seq<Env>, functions: Functions, f: string)
    requires TidyAll(code) && Ordinary(code) && Run(code, PyRebindsAll(code), envs) && KeepsAllTables(code)
    requires IsFunctions(DefinitionsAll(code), functions) && f in functions
    ensures var m := Module(ConstantsOf(code), {"op"} + opNames);
            AllFaithful(OpsAll(m, functions[f], map[], {}), TrueOpsAll(m, Texts(envs[|envs| - 1]), functions[f], map[], []))
  {
    hide TidyAll, Tidy, Ordinary, OpsAll, TrueOpsAll, KeepsTablesAll, KeepsAllTables, DefinitionsAll, ConstantsOf, AllFaithful, Called;
    var m, env := Module(ConstantsOf(code), {"op"} + opNames), Texts(envs[|envs| - 1]);
    forall d | d in functions[f] ensures d in DefinitionsAll(code) { CalledAmong(DefinitionsAll(code), f, d); }
    FitDefinitions(code, functions[f]);
    forall id | id in m.constants ensures id in env && env[id] == m.constants[id] {
      ConstantsHold(code, envs, id);
    }
    ScanAllFaithful(m, env, functions[f], map[], map[], {}, []);
  }

  /** Faithful operations report only what is dropped, and without a non-literal report all of it. */
  lemma {:induction false} FaithfulReports(found: seq<Operation>, actual: seq<Operation>)
    requires AllFaithful(found, actual)
    ensures forall x :: x in AllDropped(found) ==> x in AllDropped(actual)
    ensures AllNonliteral(found) == 0 ==> AllDropped(found) == AllDropped(actual)
    decreases |found|
  {
    if found == [] {
    } else {
      assert Faithful(found[0], actual[0]);
      assert AllFaithful(found[1..], actual[1..]);
      FaithfulReports(found[1..], actual[1..]);
    }
  }

  // ---- the report -----------------------------------------------------------------------------------

  lemma FunctionsUnique(definitions: seq<Node>, a: Functions, b: Functions)
    requires IsFunctions(definitions, a) && IsFunctions(definitions, b)
    ensures a == b
  {
    hide Called;
    assert a.Keys == b.Keys;
  }

  lemma {:induction false} DroppedMember(m: Module, env: map<string, string>, functions: Functions, order: seq<string>, x: Dropped)
    ensures x in AllDropped(TrueFunctionOps(m, env, functions, order)) <==>
            exists f :: f in order && f in functions && x in AllDropped(TrueOpsAll(m, env, functions[f], map[], []))
    decreases |order|
  {
    hide TrueOpsAll, AllDropped;
    if order == [] {
      NoRecords();
    } else {
      var last, before := order[|order| - 1], order[..|order| - 1];
      DroppedMember(m, env, functions, before, x);
      var here := if last in functions then TrueOpsAll(m, env, functions[last], map[], []) else [];
      RecordsConcat(TrueFunctionOps(m, env, functions, before), here);
      NoRecords();
      assert forall f :: f in order <==> f in before || f == last;
    }
  }

  /** What the gate acts on. `reached` lists what `upgrade` may reach among all functions of the
      module, `order` what the scan visits. In an ordinary tidy module that hides no code defined
      for later, every table or column the scan reports is named by a recognised drop of a reached
      function, and when nothing is reported as non-literal all of those are reported. */
  lemma ReportIsExact(code: seq<Node>, opNames: set<string>, envs: seq<Env>, refs: References,
                      functions: Functions, order: seq<string>, actual: Functions, reached: seq<string>)
    requires TidyAll(code) && Ordinary(code) && Run(code, PyRebindsAll(code), envs) && KeepsAllTables(code)
    requires IsFunctions(DefinitionsAll(code), functions) && IsScanOrder(refs, functions, order)
    requires IsFunctions(EveryDefinitionAll(code), actual) && IsScanOrder(refs, actual, reached)
    requires HiddenAll(code) == 0
    ensures var m := Module(ConstantsOf(code), {"op"} + opNames);
            var found, meant := FunctionOps(m, functions, order), TrueFunctionOps(m, Texts(envs[|envs| - 1]), actual, reached);
            && (forall x :: x in AllDropped(found) ==> x in AllDropped(meant))
            && (AllNonliteral(found) == 0 ==> forall x :: x in AllDropped(found) <==> x in AllDropped(meant))
  {
    hide *;
    var m := Module(ConstantsOf(code), {"op"} + opNames);
    assert envs != [] by { RunNotEmpty(code, PyRebindsAll(code), envs); }
    var env := Texts(envs[|envs| - 1]);
    CollectsEveryDefinition(code);
    FunctionsUnique(DefinitionsAll(code), functions, actual);
    ScanIsFaithful(code, opNames, envs, functions, order);
    FaithfulReports(FunctionOps(m, functions, order), TrueFunctionOps(m, env, functions, order));
    assert forall f :: f in order <==> f in reached by { SameReach(refs, functions, order, reached); }
    forall x ensures x in AllDropped(TrueFunctionOps(m, env, functions, order)) <==>
                     x in AllDropped(TrueFunctionOps(m, env, functions, reached))
    {
      DroppedMember(m, env, functions, order, x);
      DroppedMember(m, env, functions, reached, x);
    }
  }

  lemma SameReach(refs: References, functions: Functions, a: seq<string>, b: seq<string>)
    requires IsScanOrder(refs, functions, a) && IsScanOrder(refs, functions, b)
    ensures forall f :: f in a <==> f in b
  {
    hide Leads, Calls, Distinct;
  }

  lemma RunNotEmpty(code: seq<Node>, rebinds: set<string>, envs: seq<Env>)
    requires Run(code, rebinds, envs)
    ensures envs != []
  {
  }

  // ---- what is reported of one call -----------------------------------------------------------------------

  /** The text the scanner takes an argument for: a literal's own, or a module constant's when
      the name is not shadowed. */
  ghost predicate Takes(m: Module, local: set<string>, argument: Operand, text: string) {
    || argument == Literal(text)
    || exists id :: argument == Variable(id) && id !in local && id in m.constants && m.constants[id] == text
  }

  lemma ResolveTakes(m: Module, argument: Operand, local: set<string>, text: string)
    ensures Resolve(m, argument, local) == Some(text) <==> Takes(m, local, argument, text)
  {
    if argument.Variable? { assert argument == Variable(argument.id); }
  }

  /** A call on `op` reports the table it names, or that table and column, when all its names
      resolve, and otherwise one non-literal argument for each that does not. */
  lemma OpCallReports(m: Module, call: Kind, tables: map<string, Operand>, local: set<string>, x: Dropped)
    requires call.Drop? && call.receiver in m.opNames
    ensures var ops := CallOps(m, call, tables, local);
            && (x in AllDropped(ops) <==>
                  && !call.unpacked && Takes(m, local, call.table, x.table)
                  && if call.wholeTable then x.column == None
                     else x.column.Some? && Takes(m, local, call.column, x.column.value))
            && (AllNonliteral(ops) == 0 <==>
                  && !call.unpacked && (exists t :: Takes(m, local, call.table, t))
                  && (call.wholeTable || exists c :: Takes(m, local, call.column, c)))
  {
    forall argument, text ensures Resolve(m, argument, local) == Some(text) <==> Takes(m, local, argument, text) {
      ResolveTakes(m, argument, local, text);
    }
    hide Takes, Resolve;
    ReportsOfOne(CallOps(m, call, tables, local));
    var t, c := Resolve(m, call.table, local), Resolve(m, call.column, local);
    assert t.Some? ==> Takes(m, local, call.table, t.value);
    assert c.Some? ==> Takes(m, local, call.column, c.value);
  }

  /** A call on a batch, by its alias or as `batch_op`, reports a column of the table its `with`
      item names; a batch drops no table. */
  lemma BatchCallReports(m: Module, call: Kind, tables: map<string, Operand>, local: set<string>, x: Dropped)
    requires call.Drop? && call.receiver !in m.opNames
    ensures var ops := CallOps(m, call, tables, local);
            && (x in AllDropped(ops) <==>
                  && !call.unpacked && !call.wholeTable && call.receiver in tables && Takes(m, local, tables[call.receiver], x.table)
                  && x.column.Some? && Takes(m, local, call.column, x.column.value))
            && (AllNonliteral(ops) == 0 <==>
                  || call.wholeTable || (call.receiver !in tables && call.receiver != "batch_op")
                  || (!call.unpacked && call.receiver in tables && (exists t :: Takes(m, local, tables[call.receiver], t))
                      && exists c :: Takes(m, local, call.column, c)))
  {
    forall argument, text ensures Resolve(m, argument, local) == Some(text) <==> Takes(m, local, argument, text) {
      ResolveTakes(m, argument, local, text);
    }
    assert Resolve(m, Other, local) == None;
    hide Takes, Resolve;
    ReportsOfOne(CallOps(m, call, tables, local));
    var c := Resolve(m, call.column, local);
    assert c.Some? ==> Takes(m, local, call.column, c.value);
    if call.receiver in tables {
      var t := Resolve(m, tables[call.receiver], local);
      assert t.Some? ==> Takes(m, local, tables[call.receiver], t.value);
    }
  }

  lemma ReportsOfOne(ops: seq<Operation>)
    ensures |ops| == 1 ==> AllDropped(ops) == DroppedBy(ops[0]) && AllNonliteral(ops) == NonliteralIn(ops[0])
    ensures ops == [] ==> AllDropped(ops) == [] && AllNonliteral(ops) == 0
  {
    if |ops| == 1 { assert ops[1..] == []; }
  }

  lemma {:induction false} DistinctIs(order: seq<string>)
    ensures |Elements(order)| <= |order| && (Distinct(order) <==> |Elements(order)| == |order|)
    decreases |order|
  {
    if order == [] {
    } else {
      var n := |order| - 1;
      DistinctIs(order[..n]);
      OneMoreElement(order);
      hide Distinct;
    }
  }

  lemma OneMoreElement(order: seq<string>)
    requires order != []
    ensures var n := |order| - 1;
            && Elements(order) == Elements(order[..n]) + {order[n]}
            && (Distinct(order) <==> Distinct(order[..n]) && order[n] !in Elements(order[..n]))
  {
    var n := |order| - 1;
    assert order == order[..n] + [order[n]];
    if order[n] in order[..n] { var i :| 0 <= i < n && order[i] == order[n]; }
    forall i | 0 <= i < n ensures order[i] in order[..n] { assert order[..n][i] == order[i]; }
  }
}
