/** Code on which the migration scanner resolves a local name as the module's constant. */
module MigrationEscapes {
  import opened Options
  import opened MigrationTree
  import opened MigrationScope

  /** A migration whose module holds `T = "t"`. */
  const MODULE := Module(map["T" := "t"], {"op"})
  const ENV: map<string, string> := map["T" := "t"]

  function Leaf(kind: Kind): Node { Node(kind, [], []) }

  const DROP := Leaf(Drop("op", false, true, Variable("T"), Other))
  const STORE := Leaf(Name("T", false))

  /** `def upgrade(): def inner(x=(T := 1)): ...; op.drop_table(T)` */
  const HEADER_WALRUS := Node(Function("upgrade", {}), [], [Node(Function("inner", {"x"}), [STORE], []), DROP])

  lemma HeaderAssignmentEscapes()
    ensures !Tidy(HEADER_WALRUS) && KeepsTables(HEADER_WALRUS, map[], [])
    ensures Ops(MODULE, HEADER_WALRUS, map[], {}) == [OnTable(Some("t"))]
    ensures TrueOps(MODULE, ENV, HEADER_WALRUS, map[], []) == [OnTable(None)]
  {
    hide OpsAll, TrueOpsAll, KeepsTablesAll, TidyAll, BoundAll, PyBoundAll, GlobalsAll;
    var inner := HEADER_WALRUS.body[0];
    One(STORE, {}, []);
    Nothing({}, []);
    assert PyBound(inner) == {"inner", "T"} && Bound(inner) == {"inner"};
    Two(inner, DROP, Inside(HEADER_WALRUS, {}), [BlockOf(HEADER_WALRUS)]);
    assert BlockOf(HEADER_WALRUS) == Block(false, {"inner", "T"}, {}) by { DropBinds([BlockOf(HEADER_WALRUS)]); }
    assert Inside(HEADER_WALRUS, {}) == {"inner"} by { DropBinds([]); }
    InnerOps({"inner"}, [BlockOf(HEADER_WALRUS)]);
    DropOps({"inner"}, [BlockOf(HEADER_WALRUS)]);
    DropBinds([BlockOf(HEADER_WALRUS)]);
    assert !IsModule("T", [BlockOf(HEADER_WALRUS)]);
    assert [BlockOf(HEADER_WALRUS)] + [] == [BlockOf(HEADER_WALRUS)];
  }

  lemma InnerOps(local: set<string>, chain: Chain)
    ensures var inner := HEADER_WALRUS.body[0];
            && Ops(MODULE, inner, map[], local) == [] && TrueOps(MODULE, ENV, inner, map[], chain) == []
            && KeepsTables(inner, map[], chain)
  {
    hide OpsAll, TrueOpsAll, KeepsTablesAll, BoundAll, PyBoundAll, GlobalsAll, Inside, BlockOf;
    var inner := HEADER_WALRUS.body[0];
    One(STORE, local, chain);
    Nothing(local, chain);
    Nothing(Inside(inner, local), [BlockOf(inner)] + chain);
  }

  lemma DropBinds(chain: Chain)
    ensures Bound(DROP) == {} && PyBound(DROP) == {} && Globals(DROP) == {} && KeepsTables(DROP, map[], chain)
  {
  }

  /** Every analysis of one node, of two, and of none. */
  lemma One(a: Node, local: set<string>, chain: Chain)
    ensures BoundAll([a]) == Bound(a) && PyBoundAll([a]) == PyBound(a) && GlobalsAll([a]) == Globals(a)
    ensures OpsAll(MODULE, [a], map[], local) == Ops(MODULE, a, map[], local)
    ensures TrueOpsAll(MODULE, ENV, [a], map[], chain) == TrueOps(MODULE, ENV, a, map[], chain)
    ensures TidyAll([a]) == Tidy(a) && KeepsTablesAll([a], map[], chain) == KeepsTables(a, map[], chain)
  {
    hide Bound, PyBound, Globals, Ops, TrueOps, Tidy, KeepsTables;
    assert [a][1..] == [];
  }

  lemma Two(a: Node, b: Node, local: set<string>, chain: Chain)
    ensures BoundAll([a, b]) == Bound(a) + Bound(b) && PyBoundAll([a, b]) == PyBound(a) + PyBound(b)
    ensures GlobalsAll([a, b]) == Globals(a) + Globals(b)
    ensures OpsAll(MODULE, [a, b], map[], local) == Ops(MODULE, a, map[], local) + Ops(MODULE, b, map[], local)
    ensures TrueOpsAll(MODULE, ENV, [a, b], map[], chain)
            == TrueOps(MODULE, ENV, a, map[], chain) + TrueOps(MODULE, ENV, b, map[], chain)
    ensures TidyAll([a, b]) == (Tidy(a) && Tidy(b))
    ensures KeepsTablesAll([a, b], map[], chain) == (KeepsTables(a, map[], chain) && KeepsTables(b, map[], chain))
  {
    hide Bound, PyBound, Globals, Ops, TrueOps, Tidy, KeepsTables;
    One(b, local, chain);
    assert [a, b][1..] == [b];
  }

  lemma Nothing(local: set<string>, chain: Chain)
    ensures BoundAll([]) == {} && PyBoundAll([]) == {} && GlobalsAll([]) == {}
    ensures OpsAll(MODULE, [], map[], local) == [] && TrueOpsAll(MODULE, ENV, [], map[], chain) == []
    ensures TidyAll([]) && KeepsTablesAll([], map[], chain)
  {
  }

  /** The drop resolves by the scanner's set, and means what the innermost block says. */
  lemma DropOps(local: set<string>, chain: Chain)
    ensures Ops(MODULE, DROP, map[], local) == [OnTable(if "T" in local then None else Some("t"))]
    ensures TrueOps(MODULE, ENV, DROP, map[], chain) == [OnTable(if IsModule("T", chain) then Some("t") else None)]
  {
    hide IsModule;
  }

  /** `def upgrade(): T = ...; class C: global T; def f(): op.drop_table(T)` */
  const METHOD := Node(Function("f", {}), [], [DROP])
  const CLASS := Node(Class("C"), [], [Leaf(Global({"T"})), METHOD])
  const CLASS_GLOBAL := Node(Function("upgrade", {}), [], [STORE, CLASS])

  lemma ClassGlobalEscapes()
    ensures !Tidy(CLASS_GLOBAL) && KeepsTables(CLASS_GLOBAL, map[], [])
    ensures Ops(MODULE, CLASS_GLOBAL, map[], {}) == [OnTable(Some("t"))]
    ensures TrueOps(MODULE, ENV, CLASS_GLOBAL, map[], []) == [OnTable(None)]
  {
    hide OpsAll, TrueOpsAll, KeepsTablesAll, TidyAll, BoundAll, PyBoundAll, GlobalsAll;
    var outer := Block(false, {"T", "C"}, {});
    Nothing({}, []);
    Two(STORE, CLASS, {"T", "C"}, [outer]);
    StoreLeaf({"T", "C"}, [outer]);
    assert Bound(CLASS) == {"C"} && PyBound(CLASS) == {"C"} && Globals(CLASS) == {};
    assert BlockOf(CLASS_GLOBAL) == outer;
    assert Inside(CLASS_GLOBAL, {}) == {"T", "C"};
    ClassOps({"T", "C"}, outer);
    assert [outer] + [] == [outer];
  }

  lemma StoreLeaf(local: set<string>, chain: Chain)
    ensures Bound(STORE) == {"T"} && PyBound(STORE) == {"T"} && Globals(STORE) == {} && KeepsTables(STORE, map[], chain)
    ensures Ops(MODULE, STORE, map[], local) == [] && TrueOps(MODULE, ENV, STORE, map[], chain) == []
  {
  }

  lemma GlobalLeaf(local: set<string>, chain: Chain)
    ensures var g := Leaf(Global({"T"}));
            && Bound(g) == {} && PyBound(g) == {} && Globals(g) == {"T"} && KeepsTables(g, map[], chain)
            && Ops(MODULE, g, map[], local) == [] && TrueOps(MODULE, ENV, g, map[], chain) == []
  {
  }

  /** In the class, the scanner forgets that `T` is local outside; the method still sees it. */
  lemma ClassOps(local: set<string>, outer: Block)
    requires !outer.isClass && "T" in outer.bound && outer.globals == {}
    ensures Ops(MODULE, CLASS, map[], local) == [OnTable(Some("t"))] && TrueOps(MODULE, ENV, CLASS, map[], [outer]) == [OnTable(None)]
    ensures !Tidy(CLASS) && KeepsTables(CLASS, map[], [outer])
  {
    hide OpsAll, TrueOpsAll, KeepsTablesAll, TidyAll, BoundAll, PyBoundAll, GlobalsAll;
    var classBlock := Block(true, {"f"}, {"T"});
    var inner, chain: Chain := local - {"T"} + {"f"}, [classBlock, outer];
    Nothing(local, [outer]);
    Two(Leaf(Global({"T"})), METHOD, inner, chain);
    GlobalLeaf(inner, chain);
    assert Bound(METHOD) == {"f"} && PyBound(METHOD) == {"f"} && Globals(METHOD) == {};
    assert BlockOf(CLASS) == classBlock && Inside(CLASS, local) == inner;
    assert [classBlock] + [outer] == chain;
    assert chain[1..] == [outer] && !OutsideIsModule("T", [outer]) && !OutsideIsModule("T", chain);
    MethodOps(inner, chain);
  }

  lemma MethodOps(local: set<string>, chain: Chain)
    requires "T" !in local && !OutsideIsModule("T", chain)
    ensures Ops(MODULE, METHOD, map[], local) == [OnTable(Some("t"))] && TrueOps(MODULE, ENV, METHOD, map[], chain) == [OnTable(None)]
    ensures KeepsTables(METHOD, map[], chain)
  {
    hide OpsAll, TrueOpsAll, KeepsTablesAll, TidyAll, BoundAll, PyBoundAll, GlobalsAll;
    var blocks := [Block(false, {}, {})] + chain;
    Nothing(local, chain);
    One(DROP, local, blocks);
    DropBinds(blocks);
    assert BlockOf(METHOD) == Block(false, {}, {}) && Inside(METHOD, local) == local;
    assert blocks[1..] == chain;
    assert !IsModule("T", blocks);
    DropOps(local, blocks);
  }

  /** `def upgrade(): T = ...; with op.batch_alter_table(T) as b: def f(): global T; b.drop_column("c")` */
  const BATCH_DROP := Leaf(Drop("b", false, false, Other, Literal("c")))
  const REDECLARES := Node(Function("f", {}), [], [Leaf(Global({"T"})), BATCH_DROP])
  const WITH := Node(Batch("b", Variable("T")), [], [REDECLARES])
  const BATCH_GLOBAL := Node(Function("upgrade", {}), [], [STORE, WITH])

  lemma BatchGlobalEscapes()
    ensures Tidy(BATCH_GLOBAL) && !KeepsTables(BATCH_GLOBAL, map[], [])
    ensures Ops(MODULE, BATCH_GLOBAL, map[], {}) == [OnColumn(Some("t"), Some("c"))]
    ensures TrueOps(MODULE, ENV, BATCH_GLOBAL, map[], []) == [OnColumn(None, Some("c"))]
  {
    hide OpsAll, TrueOpsAll, KeepsTablesAll, TidyAll, BoundAll, PyBoundAll, GlobalsAll;
    var outer := Block(false, {"T", "b", "f"}, {});
    var local := {"T", "b", "f"};
    Nothing({}, []);
    WithOps(local, [outer]);
    Two(STORE, WITH, local, [outer]);
    StoreLeaf(local, [outer]);
    assert BlockOf(BATCH_GLOBAL) == outer && Inside(BATCH_GLOBAL, {}) == local;
    assert [outer] + [] == [outer];
    assert !IsModule("T", [outer]);
  }

  lemma WithOps(local: set<string>, chain: Chain)
    ensures Bound(WITH) == {"b", "f"} && PyBound(WITH) == {"b", "f"} && Globals(WITH) == {}
    ensures Tidy(WITH) && (KeepsTables(WITH, map[], chain) <==> IsModule("T", chain))
    ensures Ops(MODULE, WITH, map[], local) == [OnColumn(Some("t"), Some("c"))]
    ensures TrueOps(MODULE, ENV, WITH, map[], chain) == [OnColumn(if IsModule("T", chain) then Some("t") else None, Some("c"))]
  {
    hide IsModule, OpsAll, TrueOpsAll, KeepsTablesAll, TidyAll, BoundAll, PyBoundAll, GlobalsAll;
    var g := Leaf(Global({"T"}));
    Nothing(local, chain);
    One(REDECLARES, local, chain);
    Two(g, BATCH_DROP, local, chain);
    GlobalLeaf(local, chain);
    LeafFacts(BATCH_DROP);
    LeafFacts(g);
    var tables, actual := map["b" := Variable("T")], map["b" := BatchTable(Variable("T"), chain)];
    assert map[]["b" := Variable("T")] == tables;
    assert map[]["b" := BatchTable(Variable("T"), chain)] == actual;
    RedeclaresOps(tables, actual, local, chain);
    RedeclaresTables(actual, chain);
  }

  /** Redeclaring the batch's table is harmless exactly where it is the module's. */
  lemma RedeclaresTables(actual: map<string, BatchTable>, chain: Chain)
    requires actual == map["b" := BatchTable(Variable("T"), chain)]
    ensures KeepsTablesAll([REDECLARES], actual, chain) <==> IsModule("T", chain)
  {
    hide IsModule;
    var g := Leaf(Global({"T"}));
    var blocks := [BlockOf(REDECLARES)] + chain;
    assert [REDECLARES][1..] == [] && [g, BATCH_DROP][1..] == [BATCH_DROP] && [BATCH_DROP][1..] == [];
    assert GlobalsAll(REDECLARES.body) == {"T"} by { Two(g, BATCH_DROP, {}, chain); GlobalLeaf({}, chain); LeafFacts(BATCH_DROP); }
    hide GlobalsAll, BlockOf;
    assert KeepsTables(g, actual, blocks) && KeepsTables(BATCH_DROP, actual, blocks);
    assert KeepsTablesAll(REDECLARES.body, actual, blocks);
    assert TablesSurvive(REDECLARES, actual) <==> IsModule("T", chain) by {
      assert "b" in actual && actual["b"].operand == Variable("T") && actual["b"].chain == chain;
    }
    assert KeepsTablesAll([], actual, chain);
    assert KeepsTables(REDECLARES, actual, chain) <==> IsModule("T", chain);
  }

  lemma RedeclaresOps(tables: map<string, Operand>, actual: map<string, BatchTable>, local: set<string>, chain: Chain)
    requires tables == map["b" := Variable("T")] && actual == map["b" := BatchTable(Variable("T"), chain)]
    ensures OpsAll(MODULE, [REDECLARES], tables, local) == [OnColumn(Some("t"), Some("c"))]
    ensures TrueOpsAll(MODULE, ENV, [REDECLARES], actual, chain)
            == [OnColumn(if IsModule("T", chain) then Some("t") else None, Some("c"))]
  {
    hide IsModule;
    var g := Leaf(Global({"T"}));
    var inner, blocks := Inside(REDECLARES, local), [BlockOf(REDECLARES)] + chain;
    assert [REDECLARES][1..] == [] && [g, BATCH_DROP][1..] == [BATCH_DROP] && [BATCH_DROP][1..] == [];
    assert "T" !in inner by { Two(g, BATCH_DROP, local, chain); GlobalLeaf(local, chain); LeafFacts(BATCH_DROP); }
    hide Inside, BlockOf, GlobalsAll;
    assert Ops(MODULE, g, tables, inner) == [] && TrueOps(MODULE, ENV, g, actual, blocks) == [];
    assert Ops(MODULE, BATCH_DROP, tables, inner) == [OnColumn(Some("t"), Some("c"))];
    assert TrueOps(MODULE, ENV, BATCH_DROP, actual, blocks)
           == [OnColumn(if IsModule("T", chain) then Some("t") else None, Some("c"))];
    assert OpsAll(MODULE, [BATCH_DROP], tables, inner) == [OnColumn(Some("t"), Some("c"))];
    assert TrueOpsAll(MODULE, ENV, [BATCH_DROP], actual, blocks)
           == [OnColumn(if IsModule("T", chain) then Some("t") else None, Some("c"))];
    assert OpsAll(MODULE, REDECLARES.body, tables, inner) == [OnColumn(Some("t"), Some("c"))];
    assert TrueOpsAll(MODULE, ENV, REDECLARES.body, actual, blocks)
           == [OnColumn(if IsModule("T", chain) then Some("t") else None, Some("c"))];
    assert Ops(MODULE, REDECLARES, tables, local) == [OnColumn(Some("t"), Some("c"))];
    assert TrueOps(MODULE, ENV, REDECLARES, actual, chain)
           == [OnColumn(if IsModule("T", chain) then Some("t") else None, Some("c"))];
  }
}
