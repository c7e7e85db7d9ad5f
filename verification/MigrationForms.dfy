/** Which forms of code bind a name, hide it, read it and lead to a function. */
module MigrationForms {
  import opened Options
  import opened Orders
  import opened MigrationTree
  import opened MigrationScope
  import opened MigrationModule
  import opened MigrationReach
  import opened MigrationScan

  function Leaf(kind: Kind): Node { Node(kind, [], []) }

  // ---- forms that bind a name ------------------------------------------------------------------------

  /** A use that stores or deletes the name, a function or class of that name, an import or a match
      capture, the name of a handler, a target of an assignment, an annotation, the alias of a batch,
      and the name of an enclosing function made `nonlocal`. */
  predicate Binds(kind: Kind, name: string) {
    || kind == Name(name, false)
    || (kind.Function? && kind.name == name)
    || kind == Class(name)
    || (kind.Binder? && name in kind.names)
    || (kind.Clause? && name in kind.names)
    || (kind.Assign? && exists t :: t in kind.targets && (t == PlainTarget(name) || (t.PatternTarget? && name in t.names)))
    || kind == Annotation(name)
    || (kind.Batch? && kind.alias == name)
    || (kind.Nonlocal? && name in kind.names)
  }

  lemma OwnIs(kind: Kind, name: string)
    ensures name in Own(kind) <==> Binds(kind, name)
  {
    if kind.Assign? { TargetsBind(kind.targets, name); }
  }

  lemma {:induction false} TargetsBind(targets: seq<Target>, name: string)
    ensures name in TargetNames(targets) <==>
            exists t :: t in targets && (t == PlainTarget(name) || (t.PatternTarget? && name in t.names))
  {
    if targets == [] {
    } else {
      TargetsBind(targets[1..], name);
      assert forall t :: t in targets <==> t == targets[0] || t in targets[1..];
    }
  }

  /** `def upgrade(parameters): form; op.drop_table(name)` */
  function DropAfter(parameters: set<string>, form: Kind, name: string): Node {
    Node(Function("upgrade", parameters), [], [Leaf(form), DropOf(name)])
  }

  function DropOf(name: string): Node { Leaf(Drop("op", false, true, Variable(name), Other)) }

  /** The scanner takes the name for the module's constant exactly when no parameter and no form in
      the function binds it, or the function declares it `global`, and so it is in Python. */
  lemma FormsHide(m: Module, env: map<string, string>, parameters: set<string>, form: Kind, name: string)
    requires "op" in m.opNames && name in m.constants && name in env && env[name] == m.constants[name] && !form.Drop?
    ensures var hidden := (name in parameters || Binds(form, name)) && !(form.Global? && name in form.names);
            var seen := OnTable(if hidden then None else Some(m.constants[name]));
            && Ops(m, DropAfter(parameters, form, name), map[], {}) == [seen]
            && TrueOps(m, env, DropAfter(parameters, form, name), map[], []) == [seen]
  {
    var f, leaf, drop := DropAfter(parameters, form, name), Leaf(form), DropOf(name);
    OwnIs(form, name);
    LeafNames(leaf, drop);
    assert [leaf, drop][1..] == [drop] && [drop][1..] == [];
    hide Binds, BoundAll, PyBoundAll, GlobalsAll;
    var local, chain := Inside(f, {}), [BlockOf(f)] + [];
    LeafOps(m, env, leaf, local, chain);
    assert chain[1..] == [];
    assert Ops(m, drop, map[], local) == [OnTable(Resolve(m, Variable(name), local))];
    assert TrueOps(m, env, drop, map[], chain) == [OnTable(Meaning(env, Variable(name), chain))];
    assert OpsAll(m, [drop], map[], local) == Ops(m, drop, map[], local);
    assert TrueOpsAll(m, env, [drop], map[], chain) == TrueOps(m, env, drop, map[], chain);
  }

  lemma LeafNames(leaf: Node, drop: Node)
    requires leaf == Leaf(leaf.kind) && drop == Leaf(drop.kind) && drop.kind.Drop?
    ensures BoundAll([leaf, drop]) == Own(leaf.kind) && PyBoundAll([leaf, drop]) == Own(leaf.kind)
    ensures GlobalsAll([leaf, drop]) == if leaf.kind.Global? then leaf.kind.names else {}
  {
    LeafFacts(leaf);
    LeafFacts(drop);
    AllOne(drop);
    assert [leaf, drop][1..] == [drop];
    assert Globals(leaf) == if leaf.kind.Global? then leaf.kind.names else {} by {
      assert GlobalsAll([]) == {};
    }
  }

  lemma LeafOps(m: Module, env: map<string, string>, leaf: Node, local: set<string>, chain: Chain)
    requires leaf == Leaf(leaf.kind) && !leaf.kind.Drop?
    ensures Ops(m, leaf, map[], local) == [] && TrueOps(m, env, leaf, map[], chain) == []
  {
    hide Inside, BlockOf;
  }

  // ---- what a statement reads ----------------------------------------------------------------------------

  /** A statement reads what its parts read, but for the body of a function, which runs later. The
      decorators, defaults and annotations of a function run with the statement, and so does, for
      the scanner, the body of a lambda. */
  lemma PartsRead(node: Node, x: string)
    ensures x in Loaded(node) <==>
            || node.kind == Name(x, true)
            || (exists child :: child in node.header && x in Loaded(child))
            || (!node.kind.Function? && exists child :: child in node.body && x in Loaded(child))
    ensures x in Mentions(node) <==>
            || node.kind == Name(x, true)
            || (exists child :: child in node.header && x in Mentions(child))
            || (exists child :: child in node.body && x in Mentions(child))
  {
    AnyReads(node.header, x);
    AnyReads(node.body, x);
  }

  lemma {:induction false} AnyReads(nodes: seq<Node>, x: string)
    ensures x in LoadedAll(nodes) <==> exists child :: child in nodes && x in Loaded(child)
    ensures x in MentionsAll(nodes) <==> exists child :: child in nodes && x in Mentions(child)
    decreases |nodes|
  {
    if nodes == [] {
    } else {
      hide Loaded, Mentions;
      AnyReads(nodes[1..], x);
      assert nodes == [nodes[0]] + nodes[1..];
      if child :| child in nodes && x in Loaded(child) { assert child == nodes[0] || child in nodes[1..]; }
      if child :| child in nodes[1..] && x in Loaded(child) { assert child in nodes; }
      if child :| child in nodes && x in Mentions(child) { assert child == nodes[0] || child in nodes[1..]; }
      if child :| child in nodes[1..] && x in Mentions(child) { assert child in nodes; }
    }
  }

  /** `alias = ... name ...` makes the alias reach what the name reaches. */
  lemma AliasReaches(code: seq<Node>, refs: References, i: nat, alias: string, name: string, x: string)
    requires IsReferences(code, refs) && i < |code| && alias in Bound(code[i]) && name in Loaded(code[i]) && Leads(refs, name, x)
    ensures Leads(refs, alias, x)
  {
    BoundMember(code, i);
    assert Reads(code, alias, name);
    assert Step(refs, alias, name);
    LeadsFirst(refs, alias, name, x);
  }

  lemma LeadsFirst(refs: References, a: string, b: string, c: string)
    requires Step(refs, a, b) && Leads(refs, b, c)
    ensures Leads(refs, a, c)
  {
    hide Step;
    var p :| Path(refs, p) && p[0] == b && p[|p| - 1] == c;
    var q := [a] + p;
    forall i | 0 <= i < |q| - 1 ensures Step(refs, q[i], q[i + 1]) {
      if i > 0 { assert Step(refs, p[i - 1], p[i - 1 + 1]); }
    }
    assert Path(refs, q);
  }

  // ---- scopes -------------------------------------------------------------------------------------------------

  /** What a node binds in its scope: its own name and, unless it opens a scope, what its parts
      bind; to Python an assignment expression in the header of a scope binds outside it as well. */
  lemma PartsBind(node: Node, x: string)
    ensures x in Bound(node) <==>
            || Binds(node.kind, x)
            || (!IsScope(node.kind) && exists child :: (child in node.header || child in node.body) && x in Bound(child))
    ensures x in PyBound(node) <==>
            || Binds(node.kind, x)
            || (exists child :: child in node.header && x in PyBound(child))
            || (!IsScope(node.kind) && exists child :: child in node.body && x in PyBound(child))
    ensures x in Globals(node) <==>
            || (node.kind.Global? && x in node.kind.names)
            || (!node.kind.Global? && !IsScope(node.kind)
                && exists child :: (child in node.header || child in node.body) && x in Globals(child))
  {
    OwnIs(node.kind, x);
    AnyBinds(node.header, x);
    AnyBinds(node.body, x);
  }

  lemma {:induction false} AnyBinds(nodes: seq<Node>, x: string)
    ensures x in BoundAll(nodes) <==> exists child :: child in nodes && x in Bound(child)
    ensures x in PyBoundAll(nodes) <==> exists child :: child in nodes && x in PyBound(child)
    ensures x in GlobalsAll(nodes) <==> exists child :: child in nodes && x in Globals(child)
    decreases |nodes|
  {
    if nodes == [] {
    } else {
      hide Bound, PyBound, Globals;
      AnyBinds(nodes[1..], x);
      assert nodes == [nodes[0]] + nodes[1..];
      if child :| child in nodes && x in Bound(child) { assert child == nodes[0] || child in nodes[1..]; }
      if child :| child in nodes[1..] && x in Bound(child) { assert child in nodes; }
      if child :| child in nodes && x in PyBound(child) { assert child == nodes[0] || child in nodes[1..]; }
      if child :| child in nodes[1..] && x in PyBound(child) { assert child in nodes; }
      if child :| child in nodes && x in Globals(child) { assert child == nodes[0] || child in nodes[1..]; }
      if child :| child in nodes[1..] && x in Globals(child) { assert child in nodes; }
    }
  }

  /** What a module statement changes: what Python binds in it, but of a bare annotation only what
      its parts bind. */
  lemma StatementChanges(s: Node, x: string)
    ensures x in Changes(s) <==>
            || (!s.kind.Annotation? && Binds(s.kind, x))
            || (exists child :: child in s.header && x in PyBound(child))
            || ((s.kind.Annotation? || !IsScope(s.kind)) && exists child :: child in s.body && x in PyBound(child))
  {
    OwnIs(s.kind, x);
    AnyBinds(s.header, x);
    AnyBinds(s.body, x);
  }
}
