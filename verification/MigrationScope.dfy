/** What a name means to the migration scanner, against Python's resolution of names. */
module MigrationScope {
  import opened Options
  import opened MigrationTree

  // ---- the reference: Python Language Reference, section 4.2.2 ------------------------------

  /** A block in force, with the names it binds and the names it declares `global`. */
  datatype Block = Block(isClass: bool, bound: set<string>, globals: set<string>)

  /** The blocks around a place, innermost first; the module itself is left out. */
  type Chain = seq<Block>

  /** `name`, used in code nested in these blocks, is the module's variable. Class blocks are
      not visible from the code inside them. */
  predicate OutsideIsModule(name: string, chain: Chain) {
    chain == [] ||
    (if chain[0].isClass then OutsideIsModule(name, chain[1..])
     else name in chain[0].globals || (name !in chain[0].bound && OutsideIsModule(name, chain[1..])))
  }

  /** `name`, used directly in the innermost block, is the module's variable. */
  predicate IsModule(name: string, chain: Chain) {
    chain == [] ||
    name in chain[0].globals || (name !in chain[0].bound && OutsideIsModule(name, chain[1..]))
  }

  /** The block of a function, lambda or class. */
  function BlockOf(node: Node): Block {
    Block(node.kind.Class?, Params(node.kind) + PyBoundAll(node.body), GlobalsAll(node.body))
  }

  // ---- what the scanner keeps ------------------------------------------------------------------

  /** The scanner's shadowed names inside a scope. */
  function Inside(node: Node, local: set<string>): set<string> {
    (local - GlobalsAll(node.body)) + (Params(node.kind) + BoundAll(node.body) - GlobalsAll(node.body))
  }

  /** Every name the scanner leaves unshadowed is the module's variable, here and in code nested here. */
  ghost predicate Covers(local: set<string>, chain: Chain) {
    forall name :: name !in local ==> IsModule(name, chain) && OutsideIsModule(name, chain)
  }

  /** Entering a function or lambda keeps the cover exactly when every name its headers inside
      bind is shadowed or global there. */
  lemma EnterFunction(node: Node, local: set<string>, chain: Chain)
    requires (node.kind.Function? || node.kind.Lambda?) && Covers(local, chain)
    ensures Covers(Inside(node, local), [BlockOf(node)] + chain) <==>
            PyBoundAll(node.body) <= Inside(node, local) + GlobalsAll(node.body)
  {
    hide Params, BoundAll, PyBoundAll, GlobalsAll;
    var inner := [BlockOf(node)] + chain;
    assert inner[1..] == chain;
    if Covers(Inside(node, local), inner) {
      forall name | name in PyBoundAll(node.body) ensures name in Inside(node, local) + GlobalsAll(node.body) {
        assert name !in Inside(node, local) ==> IsModule(name, inner);
      }
    }
  }

  /** Entering a class does so exactly when, further, each name it declares `global` is
      shadowed inside anyway or the module's around the class as well. */
  lemma EnterClass(node: Node, local: set<string>, chain: Chain)
    requires node.kind.Class? && Covers(local, chain)
    ensures Covers(Inside(node, local), [BlockOf(node)] + chain) <==>
            && PyBoundAll(node.body) <= Inside(node, local) + GlobalsAll(node.body)
            && forall name :: name in GlobalsAll(node.body) ==>
                 name in Inside(node, local) || OutsideIsModule(name, chain)
  {
    hide BoundAll, PyBoundAll, GlobalsAll;
    var inner := [BlockOf(node)] + chain;
    assert inner[1..] == chain;
    if Covers(Inside(node, local), inner) {
      forall name | name in PyBoundAll(node.body) ensures name in Inside(node, local) + GlobalsAll(node.body) {
        assert name !in Inside(node, local) ==> IsModule(name, inner);
      }
      forall name | name in GlobalsAll(node.body) ensures name in Inside(node, local) || OutsideIsModule(name, chain) {
        assert name !in Inside(node, local) ==> OutsideIsModule(name, inner);
      }
    }
  }

  /** Tidy code keeps the cover in every scope. */
  lemma EnterScope(node: Node, local: set<string>, chain: Chain)
    requires IsScope(node.kind) && Tidy(node) && Covers(local, chain)
    ensures Covers(Inside(node, local), [BlockOf(node)] + chain)
  {
    hide Covers, OutsideIsModule;
    TidyBoundAll(node.body);
    if node.kind.Class? { EnterClass(node, local, chain); } else { EnterFunction(node, local, chain); }
  }

  lemma EnterComprehension(targets: set<string>, local: set<string>, chain: Chain)
    requires Covers(local, chain)
    ensures Covers(local + targets, [Block(false, targets, {})] + chain) && Covers(local + targets, chain)
  {
    assert ([Block(false, targets, {})] + chain)[1..] == chain;
  }

  // ---- operations the scanner records ----------------------------------------------------------------

  /** A drop or rename, with what its arguments resolved to. */
  datatype Operation =
    | Unpacked
    | OnTable(table: Option<string>)
    | OnColumn(table: Option<string>, column: Option<string>)

  /** The module's string constants and the names of the `op` namespace. */
  datatype Module = Module(constants: map<string, string>, opNames: set<string>)

  function Resolve(m: Module, operand: Operand, local: set<string>): Option<string> {
    match operand
    case Literal(text) => Some(text)
    case Variable(id) => if id !in local && id in m.constants then Some(m.constants[id]) else None
    case Other => None
  }

  /** The operation a call is, if it is one; `table` is what a batch receiver stands for. */
  function OperationOf(m: Module, call: Kind, batch: bool, table: Option<string>, column: Option<string>): seq<Operation>
    requires call.Drop?
  {
    if call.wholeTable && batch then []
    else if call.unpacked then [Unpacked]
    else if call.wholeTable then [OnTable(table)]
    else [OnColumn(table, column)]
  }

  predicate IsBatch(m: Module, call: Kind, aliases: set<string>)
    requires call.Drop?
  {
    call.receiver !in m.opNames && (call.receiver in aliases || call.receiver == "batch_op")
  }

  /** The operations of a call under the scanner's rules. */
  function CallOps(m: Module, call: Kind, tables: map<string, Operand>, local: set<string>): seq<Operation>
    requires call.Drop?
  {
    if call.receiver in m.opNames then
      OperationOf(m, call, false, Resolve(m, call.table, local), Resolve(m, call.column, local))
    else if IsBatch(m, call, tables.Keys) then
      var table := if call.receiver in tables then tables[call.receiver] else Other;
      OperationOf(m, call, true, Resolve(m, table, local), Resolve(m, call.column, local))
    else []
  }

  /** The operations the scanner records in a node. */
  function Ops(m: Module, node: Node, tables: map<string, Operand>, local: set<string>): seq<Operation>
    decreases node
  {
    if IsScope(node.kind) then
      OpsAll(m, node.header, tables, local) + OpsAll(m, node.body, tables, Inside(node, local))
    else if node.kind.Comprehension? then
      OpsAll(m, node.header, tables, local + node.kind.loopNames) + OpsAll(m, node.body, tables, local + node.kind.loopNames)
    else if node.kind.Batch? then
      OpsAll(m, node.header, tables, local) + OpsAll(m, node.body, tables[node.kind.alias := node.kind.table], local)
    else
      (if node.kind.Drop? then CallOps(m, node.kind, tables, local) else [])
      + (OpsAll(m, node.header, tables, local) + OpsAll(m, node.body, tables, local))
  }

  function OpsAll(m: Module, nodes: seq<Node>, tables: map<string, Operand>, local: set<string>): seq<Operation>
    decreases nodes
  {
    if nodes == [] then [] else Ops(m, nodes[0], tables, local) + OpsAll(m, nodes[1..], tables, local)
  }

  // ---- the same operations under Python's scoping ---------------------------------------------------

  /** A batch table and the place its name is looked up. */
  datatype BatchTable = BatchTable(operand: Operand, chain: Chain)

  /** The text an operand stands for; `env` holds the module variables whose value is a text.
      Nothing when the operand is not a literal or a module variable holding a text. */
  function Meaning(env: map<string, string>, operand: Operand, chain: Chain): Option<string> {
    match operand
    case Literal(text) => Some(text)
    case Variable(id) => if IsModule(id, chain) && id in env then Some(env[id]) else None
    case Other => None
  }

  /** What a call does: on `op` it names its table itself, and drops it whole, or a column of
      it; on a batch the table is the one of the `with` item, and only a column can be dropped.
      Unpacked arguments may be anything. */
  function TrueCallOps(m: Module, env: map<string, string>, call: Kind, tables: map<string, BatchTable>, chain: Chain): seq<Operation>
    requires call.Drop?
  {
    if call.receiver in m.opNames then
      if call.unpacked then [Unpacked]
      else if call.wholeTable then [OnTable(Meaning(env, call.table, chain))]
      else [OnColumn(Meaning(env, call.table, chain), Meaning(env, call.column, chain))]
    else if call.wholeTable || (call.receiver !in tables && call.receiver != "batch_op") then []
    else if call.unpacked then [Unpacked]
    else if call.receiver in tables then
      var table := tables[call.receiver];
      [OnColumn(Meaning(env, table.operand, table.chain), Meaning(env, call.column, chain))]
    else [OnColumn(None, Meaning(env, call.column, chain))]
  }

  /** The operations of a node with every name resolved where Python resolves it. */
  function TrueOps(m: Module, env: map<string, string>, node: Node, tables: map<string, BatchTable>, chain: Chain): seq<Operation>
    decreases node
  {
    if IsScope(node.kind) then
      TrueOpsAll(m, env, node.header, tables, chain) + TrueOpsAll(m, env, node.body, tables, [BlockOf(node)] + chain)
    else if node.kind.Comprehension? then
      TrueOpsAll(m, env, node.header, tables, chain)
      + TrueOpsAll(m, env, node.body, tables, [Block(false, node.kind.loopNames, {})] + chain)
    else if node.kind.Batch? then
      TrueOpsAll(m, env, node.header, tables, chain)
      + TrueOpsAll(m, env, node.body, tables[node.kind.alias := BatchTable(node.kind.table, chain)], chain)
    else
      (if node.kind.Drop? then TrueCallOps(m, env, node.kind, tables, chain) else [])
      + (TrueOpsAll(m, env, node.header, tables, chain) + TrueOpsAll(m, env, node.body, tables, chain))
  }

  function TrueOpsAll(m: Module, env: map<string, string>, nodes: seq<Node>, tables: map<string, BatchTable>, chain: Chain): seq<Operation>
    decreases nodes
  {
    if nodes == [] then [] else TrueOps(m, env, nodes[0], tables, chain) + TrueOpsAll(m, env, nodes[1..], tables, chain)
  }

  // ---- the scanner resolves nothing to a wrong text -----------------------------------------------------

  predicate Agrees(found: Option<string>, actual: Option<string>) { found.Some? ==> found == actual }

  /** The same operation, every text found being the one meant. */
  predicate Faithful(found: Operation, actual: Operation) {
    match found
    case Unpacked => actual.Unpacked?
    case OnTable(t) => actual.OnTable? && Agrees(t, actual.table)
    case OnColumn(t, c) => actual.OnColumn? && Agrees(t, actual.table) && Agrees(c, actual.column)
  }

  ghost predicate AllFaithful(found: seq<Operation>, actual: seq<Operation>) {
    |found| == |actual| && forall i :: 0 <= i < |found| ==> Faithful(found[i], actual[i])
  }

  lemma FaithfulConcat(a: seq<Operation>, b: seq<Operation>, c: seq<Operation>, d: seq<Operation>)
    requires AllFaithful(a, b) && AllFaithful(c, d)
    ensures AllFaithful(a + c, b + d)
  {
    hide Faithful;
  }

  /** The scanner's batch tables are the actual ones, and each name among them that it leaves
      unshadowed is the module's where the table was opened. */
  ghost predicate TablesMatch(tables: map<string, Operand>, actual: map<string, BatchTable>, local: set<string>) {
    tables.Keys == actual.Keys &&
    forall alias :: alias in tables ==>
      && tables[alias] == actual[alias].operand
      && (tables[alias].Variable? && tables[alias].id !in local ==> IsModule(tables[alias].id, actual[alias].chain))
  }

  /** A name the scope declares `global` is no open batch table's, unless it was the module's
      already where that table was opened. */
  ghost predicate TablesSurvive(node: Node, actual: map<string, BatchTable>) {
    forall alias :: alias in actual && actual[alias].operand.Variable? && actual[alias].operand.id in GlobalsAll(node.body) ==>
      IsModule(actual[alias].operand.id, actual[alias].chain)
  }

  /** Entering a scope keeps the batch tables matched exactly when they survive it. */
  lemma EnterTables(node: Node, tables: map<string, Operand>, actual: map<string, BatchTable>, local: set<string>)
    requires IsScope(node.kind) && TablesMatch(tables, actual, local)
    ensures TablesMatch(tables, actual, Inside(node, local)) <==> TablesSurvive(node, actual)
  {
    hide GlobalsAll, BoundAll, Params, IsModule;
    if TablesMatch(tables, actual, Inside(node, local)) {
      forall alias | alias in actual && actual[alias].operand.Variable? && actual[alias].operand.id in GlobalsAll(node.body)
        ensures IsModule(actual[alias].operand.id, actual[alias].chain)
      {
        assert alias in tables && tables[alias].id !in Inside(node, local);
      }
    }
  }

  function InnerChain(node: Node, chain: Chain): Chain {
    if IsScope(node.kind) then [BlockOf(node)] + chain
    else if node.kind.Comprehension? then [Block(false, node.kind.loopNames, {})] + chain
    else chain
  }

  function InnerTables(node: Node, actual: map<string, BatchTable>, chain: Chain): map<string, BatchTable> {
    if node.kind.Batch? then actual[node.kind.alias := BatchTable(node.kind.table, chain)] else actual
  }

  /** Open batch tables survive every scope inside their blocks. */
  ghost predicate KeepsTables(node: Node, actual: map<string, BatchTable>, chain: Chain)
    decreases node
  {
    && (IsScope(node.kind) ==> TablesSurvive(node, actual))
    && KeepsTablesAll(node.header, actual, chain)
    && KeepsTablesAll(node.body, InnerTables(node, actual, chain), InnerChain(node, chain))
  }

  ghost predicate KeepsTablesAll(nodes: seq<Node>, actual: map<string, BatchTable>, chain: Chain)
    decreases nodes
  {
    nodes == [] || (KeepsTables(nodes[0], actual, chain) && KeepsTablesAll(nodes[1..], actual, chain))
  }

  lemma CallFaithful(m: Module, env: map<string, string>, call: Kind, tables: map<string, Operand>,
                     actual: map<string, BatchTable>, local: set<string>, chain: Chain)
    requires call.Drop? && Covers(local, chain) && TablesMatch(tables, actual, local)
    requires forall id :: id in m.constants ==> id in env && env[id] == m.constants[id]
    ensures AllFaithful(CallOps(m, call, tables, local), TrueCallOps(m, env, call, actual, chain))
  {
    hide IsModule, OutsideIsModule;
    ResolveAgrees(m, env, call.table, local, chain);
    ResolveAgrees(m, env, call.column, local, chain);
  }

  lemma ResolveAgrees(m: Module, env: map<string, string>, operand: Operand, local: set<string>, chain: Chain)
    requires Covers(local, chain)
    requires forall id :: id in m.constants ==> id in env && env[id] == m.constants[id]
    ensures Agrees(Resolve(m, operand, local), Meaning(env, operand, chain))
  {
    hide IsModule, OutsideIsModule;
  }

  lemma OpenTable(tables: map<string, Operand>, actual: map<string, BatchTable>, local: set<string>,
                  alias: string, table: Operand, chain: Chain)
    requires TablesMatch(tables, actual, local) && Covers(local, chain)
    ensures TablesMatch(tables[alias := table], actual[alias := BatchTable(table, chain)], local)
  {
    hide IsModule, OutsideIsModule;
  }

  lemma MoreShadowed(tables: map<string, Operand>, actual: map<string, BatchTable>, local: set<string>, inner: set<string>)
    requires TablesMatch(tables, actual, local) && local <= inner
    ensures TablesMatch(tables, actual, inner)
  {
    hide IsModule;
  }

  /** Wherever the scanner records an operation, Python has the same operation, and every text
      the scanner resolved is the text meant there. */
  lemma {:induction false} ScanFaithful(m: Module, env: map<string, string>, node: Node, tables: map<string, Operand>,
                                        actual: map<string, BatchTable>, local: set<string>, chain: Chain)
    requires Tidy(node) && KeepsTables(node, actual, chain) && Covers(local, chain) && TablesMatch(tables, actual, local)
    requires forall id :: id in m.constants ==> id in env && env[id] == m.constants[id]
    ensures AllFaithful(Ops(m, node, tables, local), TrueOps(m, env, node, actual, chain))
    decreases node
  {
    hide Covers, TablesMatch, AllFaithful, Inside, GlobalsAll, BlockOf, OpsAll, TrueOpsAll, CallOps, TrueCallOps, PyBoundAll, TablesSurvive;
    var header, body := node.header, node.body;
    if IsScope(node.kind) {
      var inner, blocks := Inside(node, local), [BlockOf(node)] + chain;
      EnterScope(node, local, chain);
      EnterTables(node, tables, actual, local);
      ScanAllFaithful(m, env, header, tables, actual, local, chain);
      ScanAllFaithful(m, env, body, tables, actual, inner, blocks);
      FaithfulConcat(OpsAll(m, header, tables, local), TrueOpsAll(m, env, header, actual, chain),
                     OpsAll(m, body, tables, inner), TrueOpsAll(m, env, body, actual, blocks));
    } else if node.kind.Comprehension? {
      var inner, blocks := local + node.kind.loopNames, [Block(false, node.kind.loopNames, {})] + chain;
      EnterComprehension(node.kind.loopNames, local, chain);
      MoreShadowed(tables, actual, local, inner);
      ScanAllFaithful(m, env, header, tables, actual, inner, chain);
      ScanAllFaithful(m, env, body, tables, actual, inner, blocks);
      FaithfulConcat(OpsAll(m, header, tables, inner), TrueOpsAll(m, env, header, actual, chain),
                     OpsAll(m, body, tables, inner), TrueOpsAll(m, env, body, actual, blocks));
    } else if node.kind.Batch? {
      var alias, table := node.kind.alias, node.kind.table;
      OpenTable(tables, actual, local, alias, table, chain);
      ScanAllFaithful(m, env, header, tables, actual, local, chain);
      ScanAllFaithful(m, env, body, tables[alias := table], actual[alias := BatchTable(table, chain)], local, chain);
      FaithfulConcat(OpsAll(m, header, tables, local), TrueOpsAll(m, env, header, actual, chain),
                     OpsAll(m, body, tables[alias := table], local),
                     TrueOpsAll(m, env, body, actual[alias := BatchTable(table, chain)], chain));
    } else {
      ScanAllFaithful(m, env, header, tables, actual, local, chain);
      ScanAllFaithful(m, env, body, tables, actual, local, chain);
      FaithfulConcat(OpsAll(m, header, tables, local), TrueOpsAll(m, env, header, actual, chain),
                     OpsAll(m, body, tables, local), TrueOpsAll(m, env, body, actual, chain));
      if node.kind.Drop? {
        CallFaithful(m, env, node.kind, tables, actual, local, chain);
        FaithfulConcat(CallOps(m, node.kind, tables, local), TrueCallOps(m, env, node.kind, actual, chain),
                       OpsAll(m, header, tables, local) + OpsAll(m, body, tables, local),
                       TrueOpsAll(m, env, header, actual, chain) + TrueOpsAll(m, env, body, actual, chain));
      } else {
        NothingBefore(OpsAll(m, header, tables, local) + OpsAll(m, body, tables, local));
        NothingBefore(TrueOpsAll(m, env, header, actual, chain) + TrueOpsAll(m, env, body, actual, chain));
      }
    }
  }

  lemma NothingBefore(ops: seq<Operation>)
    ensures [] + ops == ops
  {
  }

  lemma {:induction false} ScanAllFaithful(m: Module, env: map<string, string>, nodes: seq<Node>, tables: map<string, Operand>,
                                           actual: map<string, BatchTable>, local: set<string>, chain: Chain)
    requires TidyAll(nodes) && KeepsTablesAll(nodes, actual, chain) && Covers(local, chain) && TablesMatch(tables, actual, local)
    requires forall id :: id in m.constants ==> id in env && env[id] == m.constants[id]
    ensures AllFaithful(OpsAll(m, nodes, tables, local), TrueOpsAll(m, env, nodes, actual, chain))
    decreases nodes
  {
    hide Covers, TablesMatch, Ops, TrueOps, Tidy, KeepsTables;
    if nodes == [] {
    } else {
      ScanFaithful(m, env, nodes[0], tables, actual, local, chain);
      ScanAllFaithful(m, env, nodes[1..], tables, actual, local, chain);
      FaithfulConcat(Ops(m, nodes[0], tables, local), TrueOps(m, env, nodes[0], actual, chain),
                     OpsAll(m, nodes[1..], tables, local), TrueOpsAll(m, env, nodes[1..], actual, chain));
    }
  }
}
