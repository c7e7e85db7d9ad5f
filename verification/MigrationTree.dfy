/** The syntax tree the migration scanner reads, cut down to what binds and uses names.

    Every node has two lists of children. Of a function, lambda or class, `header` holds the
    decorators, defaults, annotations and bases, which run in the scope around it, and `body`
    its own code. Of a comprehension, `header` holds the first iterable and `body` the rest.
 */
module MigrationTree {
  import opened Options

  /** An argument as the scanner can resolve it. */
  datatype Operand = Literal(text: string) | Variable(id: string) | Other

  /** One target of an assignment: a plain name, or anything else with the names it binds. */
  datatype Target = PlainTarget(name: string) | PatternTarget(names: set<string>)

  /** The value of an assignment: a constant, with its text when it is a string, or anything else. */
  datatype Assigned = Constant(text: Option<string>) | Computed

  datatype Kind =
    | Name(id: string, load: bool)
    | Function(name: string, params: set<string>)
    | Lambda(params: set<string>)
    | Class(name: string)
    | Comprehension(loopNames: set<string>, lazy: bool)     // lazy: a generator, whose body runs later
    | Global(names: set<string>)
    | Nonlocal(names: set<string>)
    | Binder(names: set<string>)                            // imports, match captures
    | Clause(names: set<string>)                            // an `except` handler or a `case`
    | Assign(targets: seq<Target>, value: Assigned)         // `header` the value, `body` expressions inside targets
    | Annotation(name: string)                              // `name: annotation` without a value
    | Batch(alias: string, table: Operand)                  // `with op.batch_alter_table(table) as alias`
    | Drop(receiver: string, unpacked: bool, wholeTable: bool, table: Operand, column: Operand)
    | Plain

  datatype Node = Node(kind: Kind, header: seq<Node>, body: seq<Node>)

  predicate IsScope(kind: Kind) { kind.Function? || kind.Lambda? || kind.Class? }

  function Params(kind: Kind): set<string> {
    match kind
    case Function(_, params) => params
    case Lambda(params) => params
    case _ => {}
  }

  function NamesOf(target: Target): set<string> {
    match target
    case PlainTarget(name) => {name}
    case PatternTarget(names) => names
  }

  function TargetNames(targets: seq<Target>): set<string> {
    if targets == [] then {} else NamesOf(targets[0]) + TargetNames(targets[1..])
  }

  /** The names a node binds by itself in the scope it stands in. */
  function Own(kind: Kind): set<string> {
    match kind
    case Name(id, load) => if load then {} else {id}
    case Function(name, _) => {name}
    case Class(name) => {name}
    case Nonlocal(names) => names
    case Binder(names) => names
    case Clause(names) => names
    case Assign(targets, _) => TargetNames(targets)
    case Annotation(name) => {name}
    case Batch(alias, _) => {alias}
    case _ => {}
  }

  function Size(node: Node): nat { 1 + SizeAll(node.header) + SizeAll(node.body) }

  function SizeAll(nodes: seq<Node>): nat {
    if nodes == [] then 0 else Size(nodes[0]) + SizeAll(nodes[1..])
  }

  // ---- names bound in a scope -------------------------------------------------------------

  /** What the scanner takes to be bound: it enters no nested function, lambda or class at all. */
  function Bound(node: Node): set<string> {
    Own(node.kind) + if IsScope(node.kind) then {} else BoundAll(node.header) + BoundAll(node.body)
  }

  function BoundAll(nodes: seq<Node>): set<string> {
    if nodes == [] then {} else Bound(nodes[0]) + BoundAll(nodes[1..])
  }

  /** What Python binds: an assignment expression in the header of a nested scope binds here too. */
  function PyBound(node: Node): set<string> {
    Own(node.kind) + PyBoundAll(node.header) + if IsScope(node.kind) then {} else PyBoundAll(node.body)
  }

  function PyBoundAll(nodes: seq<Node>): set<string> {
    if nodes == [] then {} else PyBound(nodes[0]) + PyBoundAll(nodes[1..])
  }

  /** The names a scope's code declares `global`, nested scopes left out. */
  function Globals(node: Node): set<string> {
    if node.kind.Global? then node.kind.names
    else if IsScope(node.kind) then {}
    else GlobalsAll(node.header) + GlobalsAll(node.body)
  }

  function GlobalsAll(nodes: seq<Node>): set<string> {
    if nodes == [] then {} else Globals(nodes[0]) + GlobalsAll(nodes[1..])
  }

  /** The names some nested scope declares `global` and binds, as the scanner sees bindings. */
  function Rebinds(node: Node): set<string> {
    (if IsScope(node.kind) then GlobalsAll(node.body) * BoundAll(node.body) else {})
    + RebindsAll(node.header) + RebindsAll(node.body)
  }

  function RebindsAll(nodes: seq<Node>): set<string> {
    if nodes == [] then {} else Rebinds(nodes[0]) + RebindsAll(nodes[1..])
  }

  /** The same with the bindings Python makes. */
  function PyRebinds(node: Node): set<string> {
    (if IsScope(node.kind) then GlobalsAll(node.body) * PyBoundAll(node.body) else {})
    + PyRebindsAll(node.header) + PyRebindsAll(node.body)
  }

  function PyRebindsAll(nodes: seq<Node>): set<string> {
    if nodes == [] then {} else PyRebinds(nodes[0]) + PyRebindsAll(nodes[1..])
  }

  // ---- lists of nodes ----------------------------------------------------------------------

  lemma {:induction false} AllConcat(a: seq<Node>, b: seq<Node>)
    ensures BoundAll(a + b) == BoundAll(a) + BoundAll(b)
    ensures GlobalsAll(a + b) == GlobalsAll(a) + GlobalsAll(b)
    ensures RebindsAll(a + b) == RebindsAll(a) + RebindsAll(b)
    ensures SizeAll(a + b) == SizeAll(a) + SizeAll(b)
    decreases |a|
  {
    if a == [] {
      assert a + b == b;
    } else {
      assert (a + b)[0] == a[0] && (a + b)[1..] == a[1..] + b;
      AllConcat(a[1..], b);
    }
  }

  lemma AllOne(node: Node)
    ensures BoundAll([node]) == Bound(node) && GlobalsAll([node]) == Globals(node)
    ensures RebindsAll([node]) == Rebinds(node) && SizeAll([node]) == Size(node)
    ensures PyBoundAll([node]) == PyBound(node) && PyRebindsAll([node]) == PyRebinds(node)
    ensures TidyAll([node]) == Tidy(node)
  {
    hide Bound, PyBound, Globals, Rebinds, PyRebinds, Tidy, Size;
    assert [node][1..] == [];
  }

  /** Taking the last of a list and putting its children there. */
  lemma PopPush(stack: seq<Node>)
    requires stack != []
    ensures var node, rest := stack[|stack| - 1], stack[..|stack| - 1];
            var pushed := rest + node.header + node.body;
            && BoundAll(stack) == BoundAll(rest) + Bound(node)
            && BoundAll(pushed) == BoundAll(rest) + (BoundAll(node.header) + BoundAll(node.body))
            && GlobalsAll(stack) == GlobalsAll(rest) + Globals(node)
            && GlobalsAll(pushed) == GlobalsAll(rest) + (GlobalsAll(node.header) + GlobalsAll(node.body))
            && SizeAll(pushed) < SizeAll(stack) && SizeAll(rest) < SizeAll(stack)
  {
    hide Bound, BoundAll, Globals, GlobalsAll, Rebinds, RebindsAll, SizeAll;
    var node, rest := stack[|stack| - 1], stack[..|stack| - 1];
    assert stack == rest + [node];
    AllOne(node);
    AllConcat(rest, [node]);
    AllConcat(rest, node.header);
    AllConcat(rest + node.header, node.body);
  }

  // ---- the loops ----------------------------------------------------------------------------

  /** Collect the names bound in one scope. */
  method BoundNames(nodes: seq<Node>) returns (names: set<string>)
    ensures names == BoundAll(nodes)
  {
    hide BoundAll, GlobalsAll, SizeAll, Own;
    names := {};
    var stack := nodes;
    while stack != []
      invariant names + BoundAll(stack) == BoundAll(nodes)
      decreases SizeAll(stack)
    {
      PopPush(stack);
      var node := stack[|stack| - 1];
      stack := stack[..|stack| - 1];
      names := names + Own(node.kind);
      if !IsScope(node.kind) {
        stack := stack + node.header + node.body;
      }
    }
    assert BoundAll([]) == {} by { NothingBound(); }
  }

  lemma NothingBound()
    ensures BoundAll([]) == {} && GlobalsAll([]) == {} && RebindsAll([]) == {}
  {
  }

  /** Collect the names one scope declares `global`. */
  method DeclaredGlobals(body: seq<Node>) returns (names: set<string>)
    ensures names == GlobalsAll(body)
  {
    hide BoundAll, GlobalsAll, SizeAll, Own;
    names := {};
    var stack := body;
    while stack != []
      invariant names + GlobalsAll(stack) == GlobalsAll(body)
      decreases SizeAll(stack)
    {
      PopPush(stack);
      var node := stack[|stack| - 1];
      stack := stack[..|stack| - 1];
      if node.kind.Global? {
        names := names + node.kind.names;
      } else if !IsScope(node.kind) {
        stack := stack + node.header + node.body;
      }
    }
    NothingBound();
  }

  /** The names a scope binds locally, and the names it declares `global`. */
  method ScopeLocals(node: Node) returns (names: set<string>, declared: set<string>)
    requires IsScope(node.kind)
    ensures declared == GlobalsAll(node.body)
    ensures names == Params(node.kind) + BoundAll(node.body) - GlobalsAll(node.body)
  {
    declared := DeclaredGlobals(node.body);
    var bound := BoundNames(node.body);
    names := Params(node.kind) + bound - declared;
  }

  /** Walk the whole module for names a nested scope rebinds. */
  method GlobalRebinds(code: seq<Node>) returns (names: set<string>)
    ensures names == RebindsAll(code)
  {
    hide BoundAll, GlobalsAll, RebindsAll, SizeAll;
    names := {};
    var todo := code;
    while todo != []
      invariant names + RebindsAll(todo) == RebindsAll(code)
      decreases SizeAll(todo)
    {
      var node := todo[0];
      QueueStep(todo);
      if IsScope(node.kind) {
        var declared := DeclaredGlobals(node.body);
        var bound := BoundNames(node.body);
        names := names + declared * bound;
      }
      todo := todo[1..] + node.header + node.body;
    }
    NothingBound();
  }

  lemma QueueStep(todo: seq<Node>)
    requires todo != []
    ensures var node := todo[0];
            var next := todo[1..] + node.header + node.body;
            && SizeAll(next) < SizeAll(todo)
            && RebindsAll(todo) == Rebinds(node) + RebindsAll(todo[1..])
            && RebindsAll(next) == RebindsAll(todo[1..]) + RebindsAll(node.header) + RebindsAll(node.body)
  {
    var node := todo[0];
    AllConcat(todo[1..], node.header);
    AllConcat(todo[1..] + node.header, node.body);
  }

  // ---- headers without assignment expressions ---------------------------------------------------

  /** No header of a scope holds an assignment expression, and no class body a `global`. */
  predicate Tidy(node: Node) {
    && (IsScope(node.kind) ==> PyBoundAll(node.header) == {})
    && (node.kind.Class? ==> GlobalsAll(node.body) == {})
    && TidyAll(node.header) && TidyAll(node.body)
  }

  predicate TidyAll(nodes: seq<Node>) {
    nodes == [] || (Tidy(nodes[0]) && TidyAll(nodes[1..]))
  }

  /** In tidy code the scanner sees every binding Python makes. */
  lemma {:induction false} TidyBound(node: Node)
    requires Tidy(node)
    ensures PyBound(node) == Bound(node) && PyRebinds(node) == Rebinds(node)
    decreases node
  {
    TidyBoundAll(node.header);
    TidyBoundAll(node.body);
  }

  lemma {:induction false} TidyBoundAll(nodes: seq<Node>)
    requires TidyAll(nodes)
    ensures PyBoundAll(nodes) == BoundAll(nodes) && PyRebindsAll(nodes) == RebindsAll(nodes)
    decreases nodes
  {
    if nodes == [] {
    } else {
      TidyBound(nodes[0]);
      TidyBoundAll(nodes[1..]);
    }
  }

  // ---- nodes without children ----------------------------------------------------------------

  lemma LeafFacts(a: Node)
    requires a.header == [] && a.body == []
    ensures Tidy(a) && Bound(a) == Own(a.kind) && PyBound(a) == Own(a.kind) && (!a.kind.Global? ==> Globals(a) == {})
    ensures Rebinds(a) == {} && PyRebinds(a) == {}
  {
    assert BoundAll([]) == {} && PyBoundAll([]) == {} && GlobalsAll([]) == {};
    assert RebindsAll([]) == {} && PyRebindsAll([]) == {};
  }
}
