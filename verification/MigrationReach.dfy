/** Which module functions a migration may run, by worklists over what names lead to. */
module MigrationReach {
  import opened MigrationTree
  import opened Orders

  type References = map<string, set<string>>

  // ---- the reference: paths ---------------------------------------------------------------

  ghost predicate Path(refs: References, p: seq<string>) {
    p != [] && forall i :: 0 <= i < |p| - 1 ==> Step(refs, p[i], p[i + 1])
  }

  predicate Step(refs: References, a: string, b: string) { a in refs && b in refs[a] }

  /** `b` can be reached from `a` in any number of steps. */
  ghost predicate Leads(refs: References, a: string, b: string) {
    exists p :: Path(refs, p) && p[0] == a && p[|p| - 1] == b
  }

  lemma LeadsSelf(refs: References, a: string)
    ensures Leads(refs, a, a)
  {
    assert Path(refs, [a]);
  }

  lemma LeadsOn(refs: References, a: string, b: string, c: string)
    requires Leads(refs, a, b) && Step(refs, b, c)
    ensures Leads(refs, a, c)
  {
    hide Step;
    var p :| Path(refs, p) && p[0] == a && p[|p| - 1] == b;
    var q := p + [c];
    forall i | 0 <= i < |q| - 1 ensures Step(refs, q[i], q[i + 1]) {
      if i < |p| - 1 { assert Step(refs, p[i], p[i + 1]); }
    }
    assert Path(refs, q);
  }

  ghost predicate Closed(refs: References, s: set<string>) {
    forall a, b :: a in s && Step(refs, a, b) ==> b in s
  }

  /** A closed set holds whatever its members lead to. */
  lemma ClosedHolds(refs: References, s: set<string>, a: string, b: string)
    requires Closed(refs, s) && a in s && Leads(refs, a, b)
    ensures b in s
  {
    hide Step;
    var p :| Path(refs, p) && p[0] == a && p[|p| - 1] == b;
    PathStays(refs, s, p, |p| - 1);
  }

  lemma {:induction false} PathStays(refs: References, s: set<string>, p: seq<string>, i: nat)
    requires Closed(refs, s) && Path(refs, p) && p[0] in s && i < |p|
    ensures p[i] in s
    decreases i
  {
    hide Step;
    if i == 0 {
    } else {
      PathStays(refs, s, p, i - 1);
      assert Step(refs, p[i - 1], p[i - 1 + 1]);
    }
  }

  /** All names the references mention. */
  function Mentioned(refs: References): set<string> { set a, b | a in refs && b in refs[a] :: b }

  // ---- what a name may run -------------------------------------------------------------------

  /** What the worklist knows: all it has seen is reachable, and only pending names have
      references it has not followed. */
  ghost predicate Exploring(refs: References, name: string, seen: set<string>, pending: seq<string>) {
    && name in seen && Elements(pending) <= seen <= {name} + Mentioned(refs)
    && (forall x :: x in seen ==> Leads(refs, name, x))
    && (forall a, b :: a in seen && a !in pending && Step(refs, a, b) ==> b in seen)
  }

  /** Everything a reference to `name` may lead to. */
  method Reach(refs: References, name: string) returns (seen: set<string>)
    ensures forall x :: x in seen <==> Leads(refs, name, x)
  {
    hide Leads, Step, Mentioned;
    seen := {name};
    var pending := [name];
    LeadsSelf(refs, name);
    while pending != []
      invariant Exploring(refs, name, seen, pending)
      decreases {name} + Mentioned(refs) - seen, |pending|
    {
      var at := pending[|pending| - 1];
      pending := pending[..|pending| - 1];
      seen, pending := Follow(refs, name, at, seen, pending);
    }
    forall x | Leads(refs, name, x) ensures x in seen { ClosedHolds(refs, seen, name, x); }
  }

  /** Add every unseen reference of `at` to the pending names. */
  method Follow(refs: References, ghost name: string, at: string, seen0: set<string>, pending0: seq<string>)
    returns (seen: set<string>, pending: seq<string>)
    requires at in seen0 && Exploring(refs, name, seen0, pending0 + [at])
    ensures Exploring(refs, name, seen, pending)
    ensures seen0 <= seen && (seen == seen0 ==> pending == pending0)
  {
    hide Leads;
    seen, pending := seen0, pending0;
    var rest := if at in refs then refs[at] else {};
    while rest != {}
      invariant seen0 <= seen && (seen == seen0 ==> pending == pending0)
      invariant at in refs ==> rest <= refs[at] && refs[at] - rest <= seen
      invariant at !in refs ==> rest == {}
      invariant Exploring(refs, name, seen, pending + [at])
      decreases rest
    {
      var target :| target in rest;
      rest := rest - {target};
      if target !in seen {
        LeadsOn(refs, name, at, target);
        assert forall x :: x in pending + [target] + [at] <==> x in pending + [at] || x == target;
        seen := seen + {target};
        pending := pending + [target];
      }
    }
    assert forall x :: x in pending + [at] <==> x in pending || x == at;
  }

  /** The module functions a reference to `name` may run, sorted. */
  method Reachable(refs: References, functions: set<string>, name: string) returns (targets: seq<string>)
    ensures forall x :: x in targets <==> x in functions && Leads(refs, name, x)
    ensures Ascending(TextLe, targets)
  {
    hide Leads;
    var seen := Reach(refs, name);
    TextOrders();
    targets := Sort(TextLe, seen * functions);
    assert forall x :: x in targets <==> x in Elements(targets);
  }

  // ---- what a module's statements read ---------------------------------------------------------

  /** The names a statement reads when it runs: a nested function's body does not run. */
  function Loaded(node: Node): set<string> {
    (if node.kind.Name? && node.kind.load then {node.kind.id} else {})
    + LoadedAll(node.header) + if node.kind.Function? then {} else LoadedAll(node.body)
  }

  function LoadedAll(nodes: seq<Node>): set<string> {
    if nodes == [] then {} else Loaded(nodes[0]) + LoadedAll(nodes[1..])
  }

  lemma {:induction false} LoadedConcat(a: seq<Node>, b: seq<Node>)
    ensures LoadedAll(a + b) == LoadedAll(a) + LoadedAll(b)
    decreases |a|
  {
    if a == [] {
      assert a + b == b;
    } else {
      assert (a + b)[0] == a[0] && (a + b)[1..] == a[1..] + b;
      LoadedConcat(a[1..], b);
    }
  }

  lemma LoadedPop(stack: seq<Node>)
    requires stack != []
    ensures var node, rest := stack[|stack| - 1], stack[..|stack| - 1];
            && LoadedAll(stack) == LoadedAll(rest) + Loaded(node)
            && LoadedAll(rest + node.header) == LoadedAll(rest) + LoadedAll(node.header)
            && LoadedAll(rest + node.header + node.body) == LoadedAll(rest) + LoadedAll(node.header) + LoadedAll(node.body)
            && SizeAll(rest + node.header) < SizeAll(stack) && SizeAll(rest + node.header + node.body) < SizeAll(stack)
  {
    hide LoadedAll, Loaded, SizeAll, BoundAll, GlobalsAll, RebindsAll;
    var node, rest := stack[|stack| - 1], stack[..|stack| - 1];
    assert stack == rest + [node];
    LoadedConcat(rest, [node]);
    assert LoadedAll([node]) == Loaded(node) by { LoadedOne(node); }
    LoadedConcat(rest, node.header);
    LoadedConcat(rest + node.header, node.body);
    AllConcat(rest, [node]);
    AllOne(node);
    AllConcat(rest, node.header);
    AllConcat(rest + node.header, node.body);
  }

  lemma LoadedOne(node: Node)
    ensures LoadedAll([node]) == Loaded(node) && LoadedAll([]) == {}
  {
    assert [node][1..] == [];
  }

  method LoadedNames(node: Node) returns (names: set<string>)
    ensures names == Loaded(node)
  {
    hide LoadedAll, SizeAll;
    names := {};
    var stack := [node];
    LoadedOne(node);
    while stack != []
      invariant names + LoadedAll(stack) == Loaded(node)
      decreases SizeAll(stack)
    {
      LoadedPop(stack);
      var current := stack[|stack| - 1];
      stack := stack[..|stack| - 1];
      if current.kind.Name? && current.kind.load { names := names + {current.kind.id}; }
      stack := stack + current.header;
      if !current.kind.Function? { stack := stack + current.body; }
    }
  }

  /** `name` reads `x`: some statement that binds `name` reads `x`. */
  ghost predicate Reads(code: seq<Node>, name: string, x: string) {
    exists i :: 0 <= i < |code| && name in Bound(code[i]) && x in Loaded(code[i])
  }

  ghost predicate IsReferences(code: seq<Node>, refs: References) {
    && (forall name :: name in refs <==> name in BoundAll(code))
    && (forall name, x :: name in refs ==> (x in refs[name] <==> Reads(code, name, x)))
  }

  /** For each module name, every name a statement binding it reads. */
  method ModuleReferences(code: seq<Node>) returns (refs: References)
    ensures IsReferences(code, refs)
  {
    hide Reads, Loaded, Bound, BoundAll, LoadedAll;
    refs := map[];
    NothingBound();
    assert code[..0] == [];
    assert IsReferences(code[..0], refs);
    for i := 0 to |code|
      invariant IsReferences(code[..i], refs)
    {
      var loaded := LoadedNames(code[i]);
      var bound := BoundNames([code[i]]);
      AllOne(code[i]);
      MoreReferences(code, i);
      refs := map name | name in refs.Keys + bound ::
                (if name in refs then refs[name] else {}) + if name in bound then loaded else {};
    }
    assert code[..|code|] == code;
  }

  lemma MoreReferences(code: seq<Node>, i: nat)
    requires i < |code|
    ensures BoundAll(code[..i + 1]) == BoundAll(code[..i]) + Bound(code[i])
    ensures forall name, x :: Reads(code[..i + 1], name, x) <==>
              Reads(code[..i], name, x) || (name in Bound(code[i]) && x in Loaded(code[i]))
    ensures forall name, x :: Reads(code[..i], name, x) ==> name in BoundAll(code[..i])
  {
    hide Loaded, Bound, BoundAll, LoadedAll;
    assert code[..i + 1] == code[..i] + [code[i]];
    AllConcat(code[..i], [code[i]]);
    AllOne(code[i]);
    var more, was := code[..i + 1], code[..i];
    assert forall j :: 0 <= j < i ==> more[j] == was[j];
    assert more[i] == code[i];
    forall name, x | Reads(was, name, x) ensures name in BoundAll(was) {
      var j :| 0 <= j < |was| && name in Bound(was[j]) && x in Loaded(was[j]);
      BoundMember(was, j);
    }
  }

  lemma {:induction false} BoundMember(nodes: seq<Node>, j: nat)
    requires j < |nodes|
    ensures Bound(nodes[j]) <= BoundAll(nodes)
    decreases |nodes|
  {
    if j == 0 {
    } else {
      BoundMember(nodes[1..], j - 1);
    }
  }
}
