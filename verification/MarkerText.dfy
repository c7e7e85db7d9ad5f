/** Environment markers as text: PEP 508 reading, and the exporter's rendering.

    The reader follows the "Environment Markers" grammar of PEP 508: comparisons of its
    variables and strings by its operators, parentheses, `and`, `or`, with `and` binding
    tighter. Chains of one connective, which installers read, are read too. The truth of a
    single comparison is left to the environment.
 */
module MarkerText {
  import opened Options
  import opened Texts

  // ---- reading ------------------------------------------------------------------

  datatype Token = Open | Close | Word(word: string) | Quoted(text: string) | Operator(op: string)

  predicate IsWordChar(c: char) {
    'a' <= c <= 'z' || 'A' <= c <= 'Z' || '0' <= c <= '9' || c == '_' || c == '.'
  }

  predicate IsOperatorChar(c: char) { c == '<' || c == '>' || c == '=' || c == '!' || c == '~' }

  predicate IsBlank(c: char) { c == ' ' || c == '\t' }

  /** How many leading characters of `s` are word characters. */
  function WordSpan(s: string): (n: nat)
    ensures n <= |s| && (n < |s| ==> !IsWordChar(s[n]))
  {
    if s == "" || !IsWordChar(s[0]) then 0 else 1 + WordSpan(s[1..])
  }

  function OperatorSpan(s: string): (n: nat)
    ensures n <= |s| && (n < |s| ==> !IsOperatorChar(s[n]))
  {
    if s == "" || !IsOperatorChar(s[0]) then 0 else 1 + OperatorSpan(s[1..])
  }

  function Prepend(t: Token, rest: Option<seq<Token>>): Option<seq<Token>> {
    if rest.None? then None else Some([t] + rest.value)
  }

  datatype Lexeme = Bad | Blank | Lexeme(token: Token, length: nat)

  /** The first lexeme of a nonempty text. */
  function Next(s: string): (lexeme: Lexeme)
    requires s != ""
    ensures lexeme.Lexeme? ==> 0 < lexeme.length <= |s|
  {
    if IsBlank(s[0]) then Blank
    else if s[0] == '(' then Lexeme(Open, 1)
    else if s[0] == ')' then Lexeme(Close, 1)
    else if s[0] == '\'' || s[0] == '"' then
      var n := Find(s[1..], s[0]);
      if n == |s| - 1 then Bad else Lexeme(Quoted(s[1..n + 1]), n + 2)
    else if IsWordChar(s[0]) then Lexeme(Word(s[..WordSpan(s)]), WordSpan(s))
    else if IsOperatorChar(s[0]) then Lexeme(Operator(s[..OperatorSpan(s)]), OperatorSpan(s))
    else Bad
  }

  function Lex(s: string): Option<seq<Token>>
    decreases |s|
  {
    if s == "" then Some([])
    else match Next(s)
      case Bad => None
      case Blank => Lex(s[1..])
      case Lexeme(token, n) => Prepend(token, Lex(s[n..]))
  }

  datatype Expr =
    | Compare(left: Token, op: string, right: Token)
    | And(a: Expr, b: Expr)
    | Or(a: Expr, b: Expr)

  datatype Parsed = Fail | Ok(expr: Expr, rest: seq<Token>)

  predicate StartsWith(ts: seq<Token>, t: Token) { ts != [] && ts[0] == t }

  const VARIABLES: set<string> := {
    "python_version", "python_full_version", "os_name", "sys_platform", "platform_release", "platform_system",
    "platform_version", "platform_machine", "platform_python_implementation", "implementation_name",
    "implementation_version", "extra"
  }

  const COMPARISONS: set<string> := {"<=", "<", "!=", "==", ">=", ">", "~=", "==="}

  const STRING_SIGNS: string := "(). \t{}-_*#:;,/?[]!~`@$%^&=+|<>'\""

  predicate IsStringChar(c: char) {
    'a' <= c <= 'z' || 'A' <= c <= 'Z' || '0' <= c <= '9' || c in STRING_SIGNS
  }

  /** An environment variable, or a string of the characters a marker allows in one. */
  predicate IsOperand(t: Token) {
    || (t.Quoted? && forall i :: 0 <= i < |t.text| ==> IsStringChar(t.text[i]))
    || (t.Word? && t.word in VARIABLES)
  }

  /** The comparison operator at the front of `ts` and how many tokens it takes. */
  function OperatorAt(ts: seq<Token>): (r: (string, nat))
    ensures r.1 <= |ts|
  {
    if ts == [] then ("", 0)
    else if ts[0].Operator? then if ts[0].op in COMPARISONS then (ts[0].op, 1) else ("", 0)
    else if ts[0] == Word("in") then ("in", 1)
    else if ts[0] == Word("not") && |ts| > 1 && ts[1] == Word("in") then ("not in", 2)
    else ("", 0)
  }

  function ParseAtom(ts: seq<Token>): (r: Parsed)
    ensures r.Ok? ==> |r.rest| < |ts|
    decreases |ts|, 0
  {
    if ts == [] then Fail
    else if ts[0] == Open then
      var inner := ParseOr(ts[1..]);
      if inner.Ok? && StartsWith(inner.rest, Close) then Ok(inner.expr, inner.rest[1..]) else Fail
    else
      var (op, n) := OperatorAt(ts[1..]);
      if IsOperand(ts[0]) && n > 0 && |ts| > n + 1 && IsOperand(ts[n + 1])
      then Ok(Compare(ts[0], op, ts[n + 1]), ts[n + 2..])
      else Fail
  }

  function ParseAnd(ts: seq<Token>): (r: Parsed)
    ensures r.Ok? ==> |r.rest| < |ts|
    decreases |ts|, 1
  {
    var first := ParseAtom(ts);
    if first.Ok? && StartsWith(first.rest, Word("and")) then
      var more := ParseAnd(first.rest[1..]);
      if more.Ok? then Ok(And(first.expr, more.expr), more.rest) else Fail
    else first
  }

  function ParseOr(ts: seq<Token>): (r: Parsed)
    ensures r.Ok? ==> |r.rest| < |ts|
    decreases |ts|, 2
  {
    var first := ParseAnd(ts);
    if first.Ok? && StartsWith(first.rest, Word("or")) then
      var more := ParseOr(first.rest[1..]);
      if more.Ok? then Ok(Or(first.expr, more.expr), more.rest) else Fail
    else first
  }

  /** The expression a marker text denotes, if it is a marker at all. */
  function Read(text: string): Option<Expr> {
    var tokens := Lex(text);
    if tokens.None? then None
    else
      var parsed := ParseOr(tokens.value);
      if parsed.Ok? && parsed.rest == [] then Some(parsed.expr) else None
  }

  /** Which comparisons hold. */
  type Environment = (Token, string, Token) -> bool

  predicate Eval(e: Expr, env: Environment) {
    match e
    case Compare(left, op, right) => env(left, op, right)
    case And(a, b) => Eval(a, env) && Eval(b, env)
    case Or(a, b) => Eval(a, env) || Eval(b, env)
  }

  predicate Readable(text: string) { Read(text).Some? }

  predicate Holds(text: string, env: Environment) {
    Readable(text) && Eval(Read(text).value, env)
  }

  // ---- rendering ------------------------------------------------------------------

  /** Each text in parentheses, joined by `separator`. */
  function JoinParenthesized(separator: string, texts: seq<string>): string
    requires texts != []
  {
    if |texts| == 1 then "(" + texts[0] + ")"
    else "(" + texts[0] + ")" + separator + JoinParenthesized(separator, texts[1..])
  }

  /** One path: its only marker as it stands, or all of them joined by `and`. */
  function PathMarker(markers: seq<string>): string
    requires markers != []
  {
    if |markers| == 1 then markers[0] else JoinParenthesized(" and ", markers)
  }

  function CombinedMarker(paths: seq<string>): string
    requires paths != []
  {
    if |paths| == 1 then paths[0] else JoinParenthesized(" or ", paths)
  }

  // ---- lexing a concatenation --------------------------------------------------------

  function Append(a: Option<seq<Token>>, b: Option<seq<Token>>): Option<seq<Token>> {
    if a.None? || b.None? then None else Some(a.value + b.value)
  }

  /** A text no token of which can continue a token to its left. */
  predicate StartsFresh(s: string) {
    s == "" || (!IsWordChar(s[0]) && !IsOperatorChar(s[0]))
  }

  lemma {:induction false} WordSpanConcat(a: string, b: string)
    requires StartsFresh(b)
    ensures WordSpan(a + b) == WordSpan(a)
  {
    if a == "" { assert a + b == b; }
    else { assert (a + b)[1..] == a[1..] + b; WordSpanConcat(a[1..], b); }
  }

  lemma {:induction false} OperatorSpanConcat(a: string, b: string)
    requires StartsFresh(b)
    ensures OperatorSpan(a + b) == OperatorSpan(a)
  {
    if a == "" { assert a + b == b; }
    else { assert (a + b)[1..] == a[1..] + b; OperatorSpanConcat(a[1..], b); }
  }

  lemma NextConcat(a: string, b: string)
    requires a != "" && !Next(a).Bad? && StartsFresh(b)
    ensures Next(a + b) == Next(a)
  {
    assert (a + b)[0] == a[0] && (a + b)[1..] == a[1..] + b;
    if a[0] == '\'' || a[0] == '"' {
      var n := Find(a[1..], a[0]);
      FindConcat(a[1..], b, a[0]);
      assert (a + b)[1..n + 1] == a[1..n + 1];
    } else {
      WordSpanConcat(a, b);
      OperatorSpanConcat(a, b);
      assert (a + b)[..WordSpan(a)] == a[..WordSpan(a)];
      assert (a + b)[..OperatorSpan(a)] == a[..OperatorSpan(a)];
    }
  }

  lemma LexStep(s: string)
    requires s != "" && Next(s).Lexeme?
    ensures Lex(s) == Prepend(Next(s).token, Lex(s[Next(s).length..]))
  {
  }

  lemma PrependAppend(t: Token, a: Option<seq<Token>>, b: Option<seq<Token>>)
    ensures Prepend(t, Append(a, b)) == Append(Prepend(t, a), b)
  {
    if a.Some? && b.Some? { assert [t] + (a.value + b.value) == [t] + a.value + b.value; }
  }

  lemma {:induction false} LexConcat(a: string, b: string)
    requires Lex(a).Some? && StartsFresh(b)
    ensures Lex(a + b) == Append(Lex(a), Lex(b))
    decreases |a|
  {
    hide Next;
    if a == "" {
      assert a + b == b;
      if Lex(b).Some? { assert [] + Lex(b).value == Lex(b).value; }
    } else {
      NextConcat(a, b);
      var n := if Next(a).Blank? then 1 else Next(a).length;
      assert (a + b)[n..] == a[n..] + b;
      LexConcat(a[n..], b);
      if Next(a).Lexeme? {
        LexStep(a);
        LexStep(a + b);
        PrependAppend(Next(a).token, Lex(a[n..]), Lex(b));
      }
    }
  }

  lemma LexParen(paren: char, tail: string)
    requires paren == '(' || paren == ')'
    ensures Lex([paren] + tail) == Prepend(if paren == '(' then Open else Close, Lex(tail))
  {
    assert ([paren] + tail)[1..] == tail;
    LexStep([paren] + tail);
  }

  /** `(text)` followed by `tail` lexes to the tokens of `text` between parentheses. */
  lemma LexParenthesized(text: string, tail: string)
    requires Lex(text).Some? && Lex(tail).Some?
    ensures Lex("(" + text + ")" + tail) == Some([Open] + Lex(text).value + [Close] + Lex(tail).value)
  {
    hide Lex;
    var closing := [')'] + tail;
    assert "(" + text + ")" + tail == ['('] + (text + closing);
    LexParen('(', text + closing);
    LexConcat(text, closing);
    LexParen(')', tail);
    var ts, us := Lex(text).value, Lex(tail).value;
    assert [Open] + (ts + ([Close] + us)) == [Open] + ts + [Close] + us;
  }

  /** A connective between parentheses lexes to its keyword. */
  lemma LexKeyword(keyword: string, tail: string)
    requires keyword == "and" || keyword == "or"
    requires tail != "" && IsBlank(tail[0])
    ensures Lex(" " + keyword + tail) == Prepend(Word(keyword), Lex(tail[1..]))
  {
    hide *;
    var whole, rest := " " + keyword + tail, keyword + tail;
    assert whole[1..] == rest && rest[|keyword|..] == tail;
    assert IsBlank(whole[0]) by { SpaceIsBlank(); }
    KeywordNext(keyword, tail);
    LexStep(rest);
    LexBlank(tail);
    LexBlank(whole);
  }

  lemma SpaceIsBlank()
    ensures IsBlank(' ')
  {
  }

  lemma LexBlank(s: string)
    requires s != "" && IsBlank(s[0])
    ensures Lex(s) == Lex(s[1..])
  {
    BlankNext(s);
    hide Next;
  }

  lemma BlankNext(s: string)
    requires s != "" && IsBlank(s[0])
    ensures Next(s) == Blank
  {
  }

  lemma KeywordNext(keyword: string, tail: string)
    requires keyword == "and" || keyword == "or"
    requires tail != "" && IsBlank(tail[0])
    ensures Next(keyword + tail) == Lexeme(Word(keyword), |keyword|)
  {
    WordSpanConcat(keyword, tail);
    assert WordSpan(keyword) == |keyword| by {
      if keyword == "and" { assert WordSpan(keyword[1..][1..]) == 1; }
    }
    assert (keyword + tail)[..|keyword|] == keyword;
  }

  /** A text in parentheses, a connective, and a further text. */
  function Connected(text: string, keyword: string, rest: string): string {
    "(" + text + ")" + (" " + keyword + " " + rest)
  }

  lemma LexConnected(text: string, keyword: string, rest: string)
    requires Lex(text).Some? && Lex(rest).Some? && (keyword == "and" || keyword == "or")
    ensures Lex(Connected(text, keyword, rest)) ==
            Some([Open] + Lex(text).value + [Close] + ([Word(keyword)] + Lex(rest).value))
  {
    hide Lex;
    var tail := " " + rest;
    assert tail[1..] == rest;
    LexKeyword(keyword, tail);
    assert " " + keyword + tail == " " + keyword + " " + rest;
    LexParenthesized(text, " " + keyword + tail);
  }

  // ---- parsing a prefix ---------------------------------------------------------------

  /** Tokens that cannot continue an expression that ends in front of them. */
  predicate EndsExpr(tail: seq<Token>) {
    !StartsWith(tail, Word("and")) && !StartsWith(tail, Word("or"))
  }

  lemma {:induction false} ParseAtomPrefix(ts: seq<Token>, tail: seq<Token>)
    requires ParseAtom(ts).Ok?
    ensures ParseAtom(ts + tail) == Ok(ParseAtom(ts).expr, ParseAtom(ts).rest + tail)
    decreases |ts|, 0
  {
    assert (ts + tail)[1..] == ts[1..] + tail;
    if ts[0] == Open {
      var inner := ParseOr(ts[1..]);
      ParseOrPrefix(ts[1..], tail);
      assert (inner.rest + tail)[1..] == inner.rest[1..] + tail;
    } else {
      var (op, n) := OperatorAt(ts[1..]);
      assert OperatorAt(ts[1..] + tail) == (op, n);
      assert (ts + tail)[n + 2..] == ts[n + 2..] + tail;
    }
  }

  lemma {:induction false} ParseAndPrefix(ts: seq<Token>, tail: seq<Token>)
    requires ParseAnd(ts).Ok? && (ParseAnd(ts).rest == [] ==> EndsExpr(tail))
    ensures ParseAnd(ts + tail) == Ok(ParseAnd(ts).expr, ParseAnd(ts).rest + tail)
    decreases |ts|, 1
  {
    var first := ParseAtom(ts);
    ParseAtomPrefix(ts, tail);
    if StartsWith(first.rest, Word("and")) {
      assert (first.rest + tail)[1..] == first.rest[1..] + tail;
      ParseAndPrefix(first.rest[1..], tail);
    }
  }

  lemma {:induction false} ParseOrPrefix(ts: seq<Token>, tail: seq<Token>)
    requires ParseOr(ts).Ok? && (ParseOr(ts).rest == [] ==> EndsExpr(tail))
    ensures ParseOr(ts + tail) == Ok(ParseOr(ts).expr, ParseOr(ts).rest + tail)
    decreases |ts|, 2
  {
    var first := ParseAnd(ts);
    ParseAndPrefix(ts, tail);
    if StartsWith(first.rest, Word("or")) {
      assert (first.rest + tail)[1..] == first.rest[1..] + tail;
      ParseOrPrefix(first.rest[1..], tail);
    }
  }

  /** A readable text in parentheses is an atom, whatever follows it. */
  lemma ParenthesizedIsAtom(text: string, tail: seq<Token>)
    requires Readable(text)
    ensures ParseAtom([Open] + Lex(text).value + [Close] + tail) == Ok(Read(text).value, tail)
  {
    var ts := Lex(text).value;
    var whole := [Open] + ts + [Close] + tail;
    assert whole[1..] == ts + ([Close] + tail);
    ParseOrPrefix(ts, [Close] + tail);
    assert ([Close] + tail)[1..] == tail;
  }

  // ---- the meaning of a rendered marker --------------------------------------------------

  ghost predicate AllHold(texts: seq<string>, env: Environment) {
    forall i :: 0 <= i < |texts| ==> Holds(texts[i], env)
  }

  ghost predicate SomeHolds(texts: seq<string>, env: Environment) {
    exists i :: 0 <= i < |texts| && Holds(texts[i], env)
  }

  ghost predicate AllReadable(texts: seq<string>) {
    forall i :: 0 <= i < |texts| ==> Readable(texts[i])
  }

  /** The tokens of texts in parentheses joined by a keyword. */
  function JoinedTokens(keyword: string, texts: seq<string>): seq<Token>
    requires texts != [] && forall i :: 0 <= i < |texts| ==> Lex(texts[i]).Some?
  {
    [Open] + Lex(texts[0]).value + [Close] +
    if |texts| == 1 then [] else [Word(keyword)] + JoinedTokens(keyword, texts[1..])
  }

  lemma {:induction false} LexJoined(keyword: string, texts: seq<string>)
    requires keyword == "and" || keyword == "or"
    requires texts != [] && forall i :: 0 <= i < |texts| ==> Lex(texts[i]).Some?
    ensures Lex(JoinParenthesized(" " + keyword + " ", texts)) == Some(JoinedTokens(keyword, texts))
    decreases |texts|
  {
    hide Lex;
    var head, rest, separator := texts[0], texts[1..], " " + keyword + " ";
    if |texts| == 1 {
      LexEmpty();
      LexParenthesized(head, "");
      assert "(" + head + ")" + "" == "(" + head + ")";
    } else {
      LexJoined(keyword, rest);
      var tail := " " + JoinParenthesized(separator, rest);
      assert tail[1..] == JoinParenthesized(separator, rest);
      LexKeyword(keyword, tail);
      LexParenthesized(head, " " + keyword + tail);
      assert "(" + head + ")" + (" " + keyword + tail) == JoinParenthesized(separator, texts);
    }
  }

  lemma LexEmpty()
    ensures Lex("") == Some([])
  {
  }

  /** Texts joined by `and` parse as their conjunction. */
  lemma {:induction false} JoinedByAnd(texts: seq<string>, env: Environment)
    requires texts != [] && AllReadable(texts)
    ensures var r := ParseAnd(JoinedTokens("and", texts));
            r.Ok? && r.rest == [] && (Eval(r.expr, env) <==> AllHold(texts, env))
    decreases |texts|
  {
    hide Lex, ParseAtom, ParseOr;
    var head, rest := texts[0], texts[1..];
    if |texts| == 1 {
      ParenthesizedIsAtom(head, []);
    } else {
      JoinedByAnd(rest, env);
      var tail := [Word("and")] + JoinedTokens("and", rest);
      assert tail[1..] == JoinedTokens("and", rest);
      ParenthesizedIsAtom(head, tail);
      assert AllHold(texts, env) <==> Holds(head, env) && AllHold(rest, env) by {
        assert forall i :: 0 <= i < |rest| ==> rest[i] == texts[i + 1];
      }
    }
  }

  /** Texts joined by `or` parse as their disjunction. */
  lemma {:induction false} JoinedByOr(texts: seq<string>, env: Environment)
    requires texts != [] && AllReadable(texts)
    ensures var r := ParseOr(JoinedTokens("or", texts));
            r.Ok? && r.rest == [] && (Eval(r.expr, env) <==> SomeHolds(texts, env))
    decreases |texts|
  {
    hide Lex, ParseAtom;
    var head, rest := texts[0], texts[1..];
    if |texts| == 1 {
      ParenthesizedIsAtom(head, []);
    } else {
      JoinedByOr(rest, env);
      var tail := [Word("or")] + JoinedTokens("or", rest);
      assert tail[1..] == JoinedTokens("or", rest);
      ParenthesizedIsAtom(head, tail);
      assert SomeHolds(texts, env) <==> Holds(head, env) || SomeHolds(rest, env) by {
        assert forall i :: 0 <= i < |rest| ==> rest[i] == texts[i + 1];
        if SomeHolds(rest, env) {
          var i :| 0 <= i < |rest| && Holds(rest[i], env);
          assert Holds(texts[i + 1], env);
        }
      }
    }
  }

  /** One path's marker reads as the conjunction of its markers. */
  lemma PathMarkerMeaning(markers: seq<string>, env: Environment)
    requires markers != [] && AllReadable(markers)
    ensures Readable(PathMarker(markers))
    ensures Holds(PathMarker(markers), env) <==> AllHold(markers, env)
  {
    if |markers| > 1 {
      JoinedByAnd(markers, env);
      assert " and " == " " + "and" + " ";
      LexJoined("and", markers);
    }
  }

  lemma {:induction false} TrueWhenAllHold(e: Expr, env: Environment)
    requires forall left, op, right :: env(left, op, right)
    ensures Eval(e, env)
  {
    match e
    case Compare(_, _, _) =>
    case And(a, b) => TrueWhenAllHold(a, env); TrueWhenAllHold(b, env);
    case Or(a, b) => TrueWhenAllHold(a, env);
  }

  /** A path's marker is a marker and reads as the conjunction exactly when each of its markers is one. */
  lemma PathMarkerExact(markers: seq<string>)
    requires markers != []
    ensures (Readable(PathMarker(markers)) && forall env :: Holds(PathMarker(markers), env) <==> AllHold(markers, env))
            <==> AllReadable(markers)
  {
    hide Read, PathMarker;
    if AllReadable(markers) {
      var any: Environment := (left, op, right) => true;
      PathMarkerMeaning(markers, any);
      forall env ensures Holds(PathMarker(markers), env) <==> AllHold(markers, env) { PathMarkerMeaning(markers, env); }
    } else if Readable(PathMarker(markers)) {
      var all: Environment := (left, op, right) => true;
      TrueWhenAllHold(Read(PathMarker(markers)).value, all);
      assert Holds(PathMarker(markers), all) && !AllHold(markers, all);
    }
  }

  /** The combined marker reads as the disjunction of the paths, with no path's
      `or` escaping its parentheses. */
  lemma CombinedMarkerMeaning(paths: seq<string>, env: Environment)
    requires paths != [] && AllReadable(paths)
    ensures Readable(CombinedMarker(paths))
    ensures Holds(CombinedMarker(paths), env) <==> SomeHolds(paths, env)
  {
    if |paths| == 1 {
      assert Holds(paths[0], env) <==> SomeHolds(paths, env);
    } else {
      JoinedByOr(paths, env);
      assert " or " == " " + "or" + " ";
      LexJoined("or", paths);
    }
  }

  // ---- what is written -----------------------------------------------------------------------

  /** A single marker or path stands by itself, several stand in parentheses with ` and ` or
      ` or ` between them. */
  lemma MarkersWritten(texts: seq<string>, more: string)
    ensures PathMarker([more]) == more && CombinedMarker([more]) == more
    ensures |texts| == 1 ==>
              && PathMarker(texts + [more]) == "(" + texts[0] + ") and (" + more + ")"
              && CombinedMarker(texts + [more]) == "(" + texts[0] + ") or (" + more + ")"
    ensures |texts| >= 2 ==>
              && PathMarker(texts + [more]) == PathMarker(texts) + " and (" + more + ")"
              && CombinedMarker(texts + [more]) == CombinedMarker(texts) + " or (" + more + ")"
  {
    if texts != [] {
      JoinedMore(" and ", texts, more);
      JoinedMore(" or ", texts, more);
    }
  }

  lemma {:induction false} JoinedMore(separator: string, texts: seq<string>, more: string)
    requires texts != []
    ensures JoinParenthesized(separator, texts + [more]) == JoinParenthesized(separator, texts) + separator + "(" + more + ")"
    ensures |texts| == 1 ==> JoinParenthesized(separator, texts) == "(" + texts[0] + ")"
    decreases |texts|
  {
    assert (texts + [more])[1..] == texts[1..] + [more];
    if |texts| == 1 {
      assert texts[1..] + [more] == [more];
    } else {
      JoinedMore(separator, texts[1..], more);
    }
  }
}
