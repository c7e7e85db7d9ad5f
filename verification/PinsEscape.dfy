/** Marker texts that are no markers by themselves, and what the exporter makes of them. */
module PinsEscape {
  import opened Options
  import opened Texts
  import opened LockRecords
  import opened DependencyGraph
  import opened MarkerText
  import opened Orders
  import opened DependencyPins
  import opened PinsMeaning

  // ---- which packages have paths that read as their markers ---------------------------------

  /** Every rendered path of the package reads as the conjunction of its markers. */
  ghost predicate PathsRead(index: Index, name: string) {
    forall p :: p != [] && Ascending(TextLe, p) && Minimal(index, name, Elements(p)) ==> PathReads(p)
  }

  ghost predicate PathReads(p: seq<string>)
    requires p != []
  {
    Readable(PathMarker(p)) && forall env :: Holds(PathMarker(p), env) <==> AllHold(p, env)
  }

  /** A package's rendered paths mean what its chains mean exactly when the markers that
      decide it are markers by themselves. */
  lemma PathsReadExactly(index: Index, name: string)
    ensures PathsRead(index, name) <==> ReadableFor(index, name)
  {
    hide Minimal, TextLe, Readable, Holds;
    if PathsRead(index, name) {
      forall c, m | Minimal(index, name, c) && m in c ensures Readable(m) {
        var p := SortedListing(c);
        assert m in Elements(p) && PathReads(p);
        PathMarkerExact(p);
        var i :| 0 <= i < |p| && p[i] == m;
      }
    }
    if ReadableFor(index, name) {
      forall p | p != [] && Ascending(TextLe, p) && Minimal(index, name, Elements(p)) ensures PathReads(p) {
        assert forall i :: 0 <= i < |p| ==> p[i] in Elements(p);
        PathMarkerExact(p);
      }
    }
  }

  lemma {:induction false} SortedListing(c: set<string>) returns (p: seq<string>)
    ensures Ascending(TextLe, p) && Elements(p) == c
    decreases |c|
  {
    hide TextLe;
    p := [];
    if c == {} {
    } else {
      TextOrders();
      LeastExists(TextLe, c);
      var x :| x in c && forall y :: y in c ==> TextLe(x, y);
      var rest := SortedListing(c - {x});
      p := [x] + rest;
      LeastFirst(x, rest);
    }
  }

  lemma LeastFirst(x: string, rest: seq<string>)
    requires Ascending(TextLe, rest) && x !in Elements(rest) && forall y :: y in Elements(rest) ==> TextLe(x, y)
    ensures Ascending(TextLe, [x] + rest) && Elements([x] + rest) == {x} + Elements(rest)
  {
    hide TextLe;
    assert forall i :: 0 <= i < |rest| ==> rest[i] in Elements(rest);
  }

  // ---- a marker that is not one by itself ----------------------------------------------------

  /** The exporter checks a marker for blanks, line breaks and `;` only. A text made of
      two markers with its parentheses the wrong way round passes, is no marker itself,
      and joined with another marker binds that marker to its second half alone. */
  lemma UnbalancedMarkerEscapes(p: string, q: string, r: string, env: Environment)
    requires Readable(p) && Readable(q) && Readable(r) && ValidMarker(p) && ValidMarker(q)
    ensures var m := Unbalanced(p, q);
            && ValidMarker(m) && !Readable(m)
            && Readable(PathMarker([m, r]))
            && (Holds(PathMarker([m, r]), env) <==> Holds(p, env) || (Holds(q, env) && Holds(r, env)))
  {
    var m := Unbalanced(p, q);
    assert ValidMarker(m) by {
      var i :| 0 <= i < |p| && !IsSpace(p[i]);
      assert m[i] == p[i];
    }
    UnbalancedUnreadable(p, q);
    EscapedMeaning(p, q, r, env);
    EscapedText(p, q, r);
  }

  function Unbalanced(p: string, q: string): string { p + ") or (" + q }

  lemma UnbalancedUnreadable(p: string, q: string)
    requires Readable(p) && Readable(q)
    ensures !Readable(Unbalanced(p, q))
  {
    var closing := [')'] + (" or " + (['('] + q));
    LexReopened(q);
    assert Unbalanced(p, q) == p + closing;
    hide Lex, ParseAnd;
    LexConcat(p, closing);
    var tail := [Close] + ([Word("or")] + ([Open] + Lex(q).value));
    assert Lex(Unbalanced(p, q)) == Some(Lex(p).value + tail);
    ParseOrPrefix(Lex(p).value, tail);
  }

  lemma LexReopened(q: string)
    requires Lex(q).Some?
    ensures Lex([')'] + (" or " + (['('] + q))) == Some([Close] + ([Word("or")] + ([Open] + Lex(q).value)))
  {
    hide Lex;
    var openQ := ['('] + q;
    var tail := " " + openQ;
    assert tail[1..] == openQ;
    LexParen('(', q);
    LexKeyword("or", tail);
    assert " " + "or" + tail == " or " + openQ;
    LexParen(')', " or " + openQ);
  }

  lemma EscapedText(p: string, q: string, r: string)
    ensures PathMarker([Unbalanced(p, q), r]) == Connected(p, "or", Connected(q, "and", "(" + r + ")"))
  {
    assert [Unbalanced(p, q), r][1..] == [r];
    assert JoinParenthesized(" and ", [r]) == "(" + r + ")";
    assert PathMarker([Unbalanced(p, q), r]) == "(" + Unbalanced(p, q) + ")" + " and " + ("(" + r + ")");
  }

  function EscapedTokens(p: string, q: string, r: string): seq<Token>
    requires Lex(p).Some? && Lex(q).Some? && Lex(r).Some?
  {
    [Open] + Lex(p).value + [Close] + ([Word("or")] +
      ([Open] + Lex(q).value + [Close] + ([Word("and")] + ([Open] + Lex(r).value + [Close]))))
  }

  lemma EscapedParse(p: string, q: string, r: string)
    requires Readable(p) && Readable(q) && Readable(r)
    ensures ParseOr(EscapedTokens(p, q, r)) == Ok(Or(Read(p).value, And(Read(q).value, Read(r).value)), [])
  {
    hide Lex, ParseAtom;
    var last := [Open] + Lex(r).value + [Close];
    var right := [Open] + Lex(q).value + [Close] + ([Word("and")] + last);
    var whole := [Open] + Lex(p).value + [Close] + ([Word("or")] + right);
    assert ([Word("and")] + last)[1..] == last && ([Word("or")] + right)[1..] == right;
    assert last == [Open] + Lex(r).value + [Close] + [];
    ParenthesizedIsAtom(r, []);
    ParenthesizedIsAtom(q, [Word("and")] + last);
    ParenthesizedIsAtom(p, [Word("or")] + right);
    assert ParseAnd(last) == Ok(Read(r).value, []);
    assert ParseAnd(right) == Ok(And(Read(q).value, Read(r).value), []);
    assert ParseAnd(whole) == Ok(Read(p).value, [Word("or")] + right);
  }

  lemma EscapedMeaning(p: string, q: string, r: string, env: Environment)
    requires Readable(p) && Readable(q) && Readable(r)
    ensures var text := Connected(p, "or", Connected(q, "and", "(" + r + ")"));
            Readable(text) && (Holds(text, env) <==> Holds(p, env) || (Holds(q, env) && Holds(r, env)))
  {
    hide Lex, Connected, ParseOr;
    LexEmpty();
    LexParenthesized(r, "");
    assert "(" + r + ")" + "" == "(" + r + ")";
    LexConnected(q, "and", "(" + r + ")");
    LexConnected(p, "or", Connected(q, "and", "(" + r + ")"));
    assert [Open] + Lex(r).value + [Close] + [] == [Open] + Lex(r).value + [Close];
    EscapedParse(p, q, r);
    assert Lex(Connected(p, "or", Connected(q, "and", "(" + r + ")"))) == Some(EscapedTokens(p, q, r));
    var right := And(Read(q).value, Read(r).value);
    assert Eval(right, env) <==> Holds(q, env) && Holds(r, env);
  }

  // ---- an accepted lock -------------------------------------------------------------------------

  function Entry(name: string, marker: string): Value {
    Table(map["name" := Text(name), "marker" := Text(marker)])
  }

  function Zeros(n: nat): (z: string)
    ensures |z| == n && forall i :: 0 <= i < n ==> z[i] == '0'
  {
    if n == 0 then "" else "0" + Zeros(n - 1)
  }

  /** `curie-runner` needs `a` under the unbalanced marker, and `a` needs the registry package
      `b` under `r`. */
  function EscapeLock(p: string, q: string, r: string): Index {
    map[
      RUNNER := map["source" := Table(map[]), "dependencies" := List([Entry("a", Unbalanced(p, q))])],
      "a" := map["source" := Table(map[]), "dependencies" := List([Entry("b", r)])],
      "b" := map["source" := Table(map["registry" := Text("pypi")]), "version" := Text("1"),
                 "wheels" := List([Table(map["hash" := Text("sha256:" + Zeros(64))])])]
    ]
  }

  function First(p: string, q: string): Dependency { Dependency("a", Some(Unbalanced(p, q)), {}) }

  function Second(r: string): Dependency { Dependency("b", Some(r), {}) }

  lemma Entries(name: string, marker: string)
    requires (name == "a" || name == "b") && ValidMarker(marker)
    ensures ParseDependency(Entry(name, marker)) == Some(Dependency(name, Some(marker), {}))
  {
    hide ValidMarker;
    assert Normalize(name) == name by { assert name[1..] == ""; }
    assert ExtraNames(List([])) == {};
  }

  lemma EscapeEdges(p: string, q: string, r: string, name: string, d: Dependency)
    requires ValidMarker(Unbalanced(p, q)) && ValidMarker(r)
    ensures Edge(EscapeLock(p, q, r), name, {}, d) <==>
            (name == RUNNER && d == First(p, q)) || (name == "a" && d == Second(r))
  {
    hide ValidMarker, ParseDependency, Unbalanced;
    Entries("a", Unbalanced(p, q));
    Entries("b", r);
    var index := EscapeLock(p, q, r);
    if name in index {
      var list := Dependencies(index[name]);
      assert Declares(index[name], {}, d) <==> Lists(list, d);
      assert name == RUNNER ==> list.items == [Entry("a", Unbalanced(p, q))];
      assert name == "a" ==> list.items == [Entry("b", r)];
      assert name == "b" ==> list.items == [];
      assert name == RUNNER ==> Entry("a", Unbalanced(p, q)) in list.items;
      assert name == "a" ==> Entry("b", r) in list.items;
    }
  }

  /** Only three states are reached. */
  lemma EscapeStates(p: string, q: string, r: string, s: State)
    requires ValidMarker(Unbalanced(p, q)) && ValidMarker(r)
    ensures Reachable(EscapeLock(p, q, r), s) <==>
            s == ROOT || s == State("a", {Unbalanced(p, q)}, {}) || s == State("b", {Unbalanced(p, q), r}, {})
  {
    hide ValidMarker, Unbalanced, EscapeLock, Edge;
    var index := EscapeLock(p, q, r);
    var a, b := State("a", {Unbalanced(p, q)}, {}), State("b", {Unbalanced(p, q), r}, {});
    RootReachable(index);
    EscapeEdges(p, q, r, RUNNER, First(p, q));
    ReachableFollow(index, ROOT, First(p, q));
    assert Follow(ROOT, First(p, q)) == a;
    EscapeEdges(p, q, r, "a", Second(r));
    ReachableFollow(index, a, Second(r));
    assert Follow(a, Second(r)) == b;
    if Reachable(index, s) {
      var chain :| ReachedBy(index, s, chain);
      EscapeChain(p, q, r, chain);
      if |chain| == 1 { assert End(ROOT, chain) == End(a, chain[1..]); }
      if |chain| == 2 { assert End(ROOT, chain) == End(End(ROOT, chain[..1]), chain[1..]) == b; }
    }
  }

  lemma EscapeChain(p: string, q: string, r: string, chain: seq<Dependency>)
    requires ValidMarker(Unbalanced(p, q)) && ValidMarker(r) && Chain(EscapeLock(p, q, r), RUNNER, {}, chain)
    ensures chain == [] || chain == [First(p, q)] || chain == [First(p, q), Second(r)]
  {
    hide ValidMarker, Unbalanced, EscapeLock, Edge;
    if chain != [] {
      EscapeEdges(p, q, r, RUNNER, chain[0]);
      var index, rest := EscapeLock(p, q, r), chain[1..];
      assert Chain(index, "a", {}, rest);
      if rest != [] {
        EscapeEdges(p, q, r, "a", rest[0]);
        assert Chain(index, "b", {}, rest[1..]);
        if rest[1..] != [] {
          EscapeEdges(p, q, r, "b", rest[1..][0]);
          assert false;
        }
        assert chain == [chain[0], rest[0]];
      }
    }
  }

  /** The lock is accepted, and `b` has one minimal condition set. */
  lemma EscapeAccepted(p: string, q: string, r: string)
    requires ValidMarker(Unbalanced(p, q)) && ValidMarker(r)
    ensures Accepted(EscapeLock(p, q, r))
    ensures forall c :: Minimal(EscapeLock(p, q, r), "b", c) <==> c == {Unbalanced(p, q), r}
    ensures Needed(EscapeLock(p, q, r), "b")
  {
    hide ValidMarker, Unbalanced, Reachable, ValidList, ValidSource;
    var index := EscapeLock(p, q, r);
    forall s ensures Reachable(index, s) <==>
        s == ROOT || s == State("a", {Unbalanced(p, q)}, {}) || s == State("b", {Unbalanced(p, q), r}, {})
    {
      EscapeStates(p, q, r, s);
    }
    EscapeRecords(p, q, r);
    assert forall c :: Arrives(index, "b", c) <==> c == {Unbalanced(p, q), r} by {
      assert Reachable(index, State("b", {Unbalanced(p, q), r}, {}));
    }
    assert Arrives(index, "b", {Unbalanced(p, q), r}) && IsRegistry(index["b"]);
  }

  lemma EscapeRecords(p: string, q: string, r: string)
    requires ValidMarker(Unbalanced(p, q)) && ValidMarker(r)
    ensures forall name :: name in EscapeLock(p, q, r) ==>
              ValidSource(EscapeLock(p, q, r)[name])
              && ValidList(EscapeLock(p, q, r).Keys, Dependencies(EscapeLock(p, q, r)[name]))
  {
    hide ValidMarker, Unbalanced, ParseDependency;
    Entries("a", Unbalanced(p, q));
    Entries("b", r);
    assert IsSha256("sha256:" + Zeros(64));
  }

  /** The exported line of `b` holds when `p` does, whatever `r` says, although no chain to `b` holds. */
  lemma UnbalancedMarkerInstalls(p: string, q: string, r: string, lines: seq<Requirement>, env: Environment)
    requires Readable(p) && Readable(q) && Readable(r) && ValidMarker(p) && ValidMarker(q) && ValidMarker(r)
    requires TextLe(Unbalanced(p, q), r) && IsExport(EscapeLock(p, q, r), lines)
    ensures Accepted(EscapeLock(p, q, r))
    ensures exists i :: 0 <= i < |lines| && lines[i].name == "b" &&
              (Applies(lines[i], env) <==> Holds(p, env) || (Holds(q, env) && Holds(r, env)))
    ensures !exists chain :: ChainTo(EscapeLock(p, q, r), chain, "b") && ChainHolds(chain, env)
  {
    hide Readable, Holds, ValidMarker, EscapeLock, TextLe, Minimal, Needed, LineFor, PathMarker, Unbalanced;
    var index, m := EscapeLock(p, q, r), Unbalanced(p, q);
    UnbalancedMarkerEscapes(p, q, r, env);
    EscapeAccepted(p, q, r);
    var i :| 0 <= i < |lines| && lines[i].name == "b";
    assert LineFor(index, "b", lines[i]);
    EscapeMarker(index, lines[i], m, r);
    forall chain ensures !(ChainTo(index, chain, "b") && ChainHolds(chain, env)) {
      if ChainTo(index, chain, "b") {
        EscapeChain(p, q, r, chain);
        assert chain[0] == First(p, q);
        UnreadableFails(m, env);
      }
    }
  }

  lemma UnreadableFails(m: string, env: Environment)
    requires !Readable(m)
    ensures !Holds(m, env)
  {
  }

  lemma EscapeMarker(index: Index, line: Requirement, m: string, r: string)
    requires LineFor(index, "b", line) && (forall c :: Minimal(index, "b", c) <==> c == {m, r}) && TextLe(m, r) && m != r
    ensures line.marker == Some(PathMarker([m, r]))
  {
    hide TextLe, Minimal, PathMarker, ValidSource, IsRegistry, Listing;
    var conditions :| IsMinimalSets(index, "b", conditions) && Renders(conditions, line.marker);
    assert conditions == {{m, r}};
    var paths :| SortedPaths(paths, conditions) && RendersPaths(paths, line.marker);
    assert |paths| > 1 ==> paths[0] != paths[1] && paths[0] in paths && paths[1] in paths;
    forall p | p in paths ensures p == [m, r] {
      assert Elements(p) in conditions;
      TextOrders();
      assert Listing(TextLe, p, {m, r}) && Listing(TextLe, [m, r], {m, r}) by { ListsTwo(p, m, r); }
      ListingUnique(TextLe, p, [m, r], {m, r});
    }
    assert paths[0] in paths;
    assert paths == [[m, r]];
    assert PathMarkers(paths) == [PathMarker([m, r])];
  }

  lemma ListsTwo(p: seq<string>, m: string, r: string)
    requires Ascending(TextLe, p) && Elements(p) == {m, r} && TextLe(m, r) && m != r
    ensures Listing(TextLe, p, {m, r}) && Listing(TextLe, [m, r], {m, r})
  {
    hide TextLe;
    assert Elements([m, r]) == {m, r};
  }
}
