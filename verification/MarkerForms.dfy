/** The comparisons a marker may consist of, as PEP 508 lists them. */
module MarkerForms {
  import opened Options
  import opened Texts
  import opened MarkerText

  // ---- the lists ------------------------------------------------------------------------------

  predicate IsVariable(w: string) {
    || w == "python_version" || w == "python_full_version" || w == "os_name" || w == "sys_platform"
    || w == "platform_release" || w == "platform_system" || w == "platform_version" || w == "platform_machine"
    || w == "platform_python_implementation" || w == "implementation_name" || w == "implementation_version"
    || w == "extra"
  }

  predicate IsComparison(op: string) {
    || op == "<" || op == "<=" || op == ">" || op == ">=" || op == "==" || op == "!=" || op == "~=" || op == "==="
  }

  /** The characters of a string, its quotes apart. */
  predicate MayStand(c: char) {
    || 'a' <= c <= 'z' || 'A' <= c <= 'Z' || '0' <= c <= '9'
    || c in " \t().{}-_*#:;,/?[]!~`@$%^&=+|<>" || c == '"' || c == '\''
  }

  predicate AllStand(s: string) { forall i :: 0 <= i < |s| ==> MayStand(s[i]) }

  predicate IsWord(w: string) {
    w != "" && forall i :: 0 <= i < |w| ==>
      'a' <= w[i] <= 'z' || 'A' <= w[i] <= 'Z' || '0' <= w[i] <= '9' || w[i] == '_' || w[i] == '.'
  }

  predicate IsSign(op: string) {
    op != "" && forall i :: 0 <= i < |op| ==> op[i] == '<' || op[i] == '>' || op[i] == '=' || op[i] == '!' || op[i] == '~'
  }

  // ---- tokens ---------------------------------------------------------------------------------

  lemma {:induction false} SpanAll(w: string)
    requires forall i :: 0 <= i < |w| ==> IsWordChar(w[i])
    ensures WordSpan(w) == |w|
  {
    if w == "" {
    } else {
      SpanAll(w[1..]);
    }
  }

  lemma {:induction false} OperatorSpanAll(op: string)
    requires forall i :: 0 <= i < |op| ==> IsOperatorChar(op[i])
    ensures OperatorSpan(op) == |op|
  {
    if op == "" {
    } else {
      OperatorSpanAll(op[1..]);
    }
  }

  lemma LexNothing()
    ensures Lex("") == Some([])
  {
  }

  /** A text that is one lexeme. */
  lemma OneLexes(text: string, token: Token)
    requires text != "" && Next(text) == Lexeme(token, |text|)
    ensures Lex(text) == Some([token])
  {
    hide Next, Lex;
    LexStep(text);
    assert text[|text|..] == "";
    LexNothing();
    assert [token] + [] == [token];
  }

  lemma WordNext(w: string)
    requires w != "" && forall i :: 0 <= i < |w| ==> IsWordChar(w[i])
    ensures Next(w) == Lexeme(Word(w), |w|)
  {
    SpanAll(w);
    assert w[..|w|] == w && IsWordChar(w[0]);
    hide WordSpan, OperatorSpan, Find;
  }

  lemma WordLexes(w: string)
    requires w != "" && forall i :: 0 <= i < |w| ==> IsWordChar(w[i])
    ensures Lex(w) == Some([Word(w)])
  {
    hide *;
    WordNext(w);
    OneLexes(w, Word(w));
  }

  lemma OperatorNext(op: string)
    requires op != "" && forall i :: 0 <= i < |op| ==> IsOperatorChar(op[i])
    ensures Next(op) == Lexeme(Operator(op), |op|)
  {
    OperatorSpanAll(op);
    assert op[..|op|] == op && IsOperatorChar(op[0]);
    hide WordSpan, OperatorSpan, Find;
  }

  lemma OperatorLexes(op: string)
    requires op != "" && forall i :: 0 <= i < |op| ==> IsOperatorChar(op[i])
    ensures Lex(op) == Some([Operator(op)])
  {
    hide *;
    OperatorNext(op);
    OneLexes(op, Operator(op));
  }

  lemma StringLexes(s: string, quote: char)
    requires quote !in s && (quote == '\'' || quote == '"')
    ensures Lex([quote] + s + [quote]) == Some([Quoted(s)])
  {
    var text := [quote] + s + [quote];
    FindIs(s, quote, "");
    assert text[1..] == s + [quote] + "";
    assert text[1..|s| + 1] == s && text[0] == quote;
    assert Next(text) == Lexeme(Quoted(s), |s| + 2) by { hide WordSpan, OperatorSpan; }
    hide *;
    OneLexes(text, Quoted(s));
  }

  lemma Spaced(a: string, b: string)
    requires Lex(a).Some?
    ensures Lex(a + " " + b) == Append(Lex(a), Lex(b))
  {
    var tail := " " + b;
    assert a + " " + b == a + tail && tail[1..] == b && IsBlank(tail[0]) && StartsFresh(tail);
    hide Lex;
    LexConcat(a, tail);
    LexBlank(tail);
  }

  lemma ThreeLex(a: string, b: string, c: string, x: Token, y: Token, z: Token)
    requires Lex(a) == Some([x]) && Lex(b) == Some([y]) && Lex(c) == Some([z])
    ensures Lex(a + " " + b + " " + c) == Some([x, y, z])
  {
    hide Lex;
    Spaced(a, b);
    assert [x] + [y] == [x, y] && [x, y] + [z] == [x, y, z];
    Spaced(a + " " + b, c);
  }

  // ---- comparisons --------------------------------------------------------------------------------

  /** Three tokens are a marker when they are an operand, an operator and an operand. */
  lemma ThreeRead(text: string, x: Token, y: Token, z: Token)
    requires Lex(text) == Some([x, y, z]) && (y.Operator? || y == Word("in")) && (x.Word? || x.Quoted?)
    ensures Readable(text) <==> IsOperand(x) && IsOperand(z) && (y.Operator? ==> y.op in COMPARISONS)
    ensures Readable(text) ==> Read(text) == Some(Compare(x, if y.Operator? then y.op else "in", z))
  {
    hide Lex, IsOperand;
    var ts := [x, y, z];
    assert ts[1..] == [y, z] && ts[3..] == [] && ts[1..][0] == y && [y, z][1..] == [z];
    var good := IsOperand(x) && IsOperand(z) && (y.Operator? ==> y.op in COMPARISONS);
    assert OperatorAt(ts[1..]) == if y == Word("in") then ("in", 1) else if y.op in COMPARISONS then (y.op, 1) else ("", 0);
    assert ParseAtom(ts) == if good then Ok(Compare(x, if y.Operator? then y.op else "in", z), []) else Fail;
    hide ParseAtom, OperatorAt;
    assert ParseAnd(ts) == ParseAtom(ts);
    hide ParseAnd;
    assert ParseOr(ts) == ParseAnd(ts);
  }

  /** A variable stands in a comparison, and no other word; a string does when its characters may. */
  lemma OperandsRead(w: string, s: string)
    requires IsWord(w) && '\'' !in s
    ensures Readable(w + " " + "==" + " " + "'" + s + "'") <==> IsVariable(w) && AllStand(s)
    ensures Readable("'" + s + "'" + " " + "in" + " " + w) <==> IsVariable(w) && AllStand(s)
  {
    hide *;
    var quoted := ['\''] + s + ['\''];
    OperandTokens(w, s, quoted);
    OperandsAre(w, s);
    ThreeLex(w, "==", quoted, Word(w), Operator("=="), Quoted(s));
    ThreeLex(quoted, "in", w, Quoted(s), Word("in"), Word(w));
    QuotedEnds(w, s, quoted);
    ThreeRead(w + " " + "==" + " " + quoted, Word(w), Operator("=="), Quoted(s));
    ThreeRead(quoted + " " + "in" + " " + w, Quoted(s), Word("in"), Word(w));
  }

  lemma OperandTokens(w: string, s: string, quoted: string)
    requires IsWord(w) && '\'' !in s && quoted == ['\''] + s + ['\'']
    ensures Lex(w) == Some([Word(w)]) && Lex("==") == Some([Operator("==")]) && Lex("in") == Some([Word("in")])
    ensures Lex(quoted) == Some([Quoted(s)]) && "==" in COMPARISONS
  {
    assert IsWordChar('i') && IsWordChar('n') && IsOperatorChar('=');
    assert forall i :: 0 <= i < |w| ==> IsWordChar(w[i]);
    hide Lex, IsWord;
    WordLexes(w);
    WordLexes("in");
    OperatorLexes("==");
    StringLexes(s, '\'');
  }

  lemma QuotedEnds(w: string, s: string, quoted: string)
    requires quoted == ['\''] + s + ['\'']
    ensures w + " " + "==" + " " + "'" + s + "'" == w + " " + "==" + " " + quoted
    ensures "'" + s + "'" + " " + "in" + " " + w == quoted + " " + "in" + " " + w
  {
    assert "'" + s + "'" == quoted;
  }

  lemma OperandsAre(w: string, s: string)
    ensures IsOperand(Word(w)) <==> IsVariable(w)
    ensures IsOperand(Quoted(s)) <==> AllStand(s)
  {
    forall c ensures IsStringChar(c) <==> MayStand(c) { StandsIs(c); }
    hide IsStringChar, MayStand;
  }

  lemma StandsIs(c: char)
    ensures IsStringChar(c) <==> MayStand(c)
  {
    var signs := "(). \t{}-_*#:;,/?[]!~`@$%^&=+|<>'\"";
    assert STRING_SIGNS == signs;
    assert c in signs <==> c in " \t().{}-_*#:;,/?[]!~`@$%^&=+|<>" || c == '"' || c == '\'';
  }

  /** Eight runs of operator characters compare, and no other run. */
  lemma OperatorsRead(op: string)
    requires IsSign(op)
    ensures Readable("extra" + " " + op + " " + "'x'") <==> IsComparison(op)
  {
    ExtraAndX();
    OperatorLexes(op);
    assert op in COMPARISONS <==> IsComparison(op);
    hide *;
    ThreeLex("extra", op, "'x'", Word("extra"), Operator(op), Quoted("x"));
    ThreeRead("extra" + " " + op + " " + "'x'", Word("extra"), Operator(op), Quoted("x"));
  }

  lemma ExtraAndX()
    ensures Lex("extra") == Some([Word("extra")]) && Lex("'x'") == Some([Quoted("x")])
    ensures IsOperand(Word("extra")) && IsOperand(Quoted("x"))
  {
    assert forall i :: 0 <= i < 5 ==> IsWordChar("extra"[i]);
    OperandsAre("extra", "x");
    assert AllStand("x") && IsVariable("extra");
    hide *;
    WordLexes("extra");
    StringLexes("x", '\'');
    assert ['\''] + "x" + ['\''] == "'x'";
  }

  /** `not in` is one operator. */
  lemma NotInReads(s: string, w: string)
    requires IsVariable(w) && AllStand(s) && '\'' !in s
    ensures Read("'" + s + "'" + " " + "not" + " " + "in" + " " + w) == Some(Compare(Quoted(s), "not in", Word(w)))
  {
    VariableChars(w);
    assert forall i :: 0 <= i < 3 ==> IsWordChar("not"[i]);
    assert forall i :: 0 <= i < 2 ==> IsWordChar("in"[i]);
    OperandsAre(w, s);
    hide *;
    var quoted := ['\''] + s + ['\''];
    assert "'" + s + "'" == quoted;
    WordLexes(w);
    WordLexes("not");
    WordLexes("in");
    StringLexes(s, '\'');
    ThreeLex(quoted, "not", "in", Quoted(s), Word("not"), Word("in"));
    FourLex(quoted + " " + "not" + " " + "in", w, [Quoted(s), Word("not"), Word("in")], Word(w));
    NotInParsed(quoted + " " + "not" + " " + "in" + " " + w, Quoted(s), Word(w));
  }

  lemma FourLex(a: string, b: string, ts: seq<Token>, t: Token)
    requires Lex(a) == Some(ts) && Lex(b) == Some([t])
    ensures Lex(a + " " + b) == Some(ts + [t])
  {
    hide Lex;
    Spaced(a, b);
  }

  lemma NotInParsed(text: string, x: Token, y: Token)
    requires Lex(text) == Some([x, Word("not"), Word("in")] + [y]) && IsOperand(x) && IsOperand(y) && x != Open
    ensures Read(text) == Some(Compare(x, "not in", y))
  {
    hide Lex, IsOperand;
    var ts := [x, Word("not"), Word("in"), y];
    assert ts == [x, Word("not"), Word("in")] + [y];
    assert ts[1..] == [Word("not"), Word("in"), y] && ts[4..] == [];
    assert OperatorAt(ts[1..]) == ("not in", 2);
    assert ParseAtom(ts) == Ok(Compare(x, "not in", y), []);
    hide ParseAtom, OperatorAt;
    assert ParseAnd(ts) == ParseAtom(ts);
    hide ParseAnd;
    assert ParseOr(ts) == ParseAnd(ts);
  }

  lemma VariableChars(w: string)
    requires IsVariable(w)
    ensures w != "" && forall i :: 0 <= i < |w| ==> IsWordChar(w[i])
  {
    if w == "os_name" || w == "sys_platform" || w == "implementation_name" || w == "implementation_version" || w == "extra" {
      OtherChars(w);
    } else {
      PythonChars(w);
    }
  }

  lemma PythonChars(w: string)
    requires w == "python_version" || w == "python_full_version" || w == "platform_release" || w == "platform_system"
             || w == "platform_version" || w == "platform_machine" || w == "platform_python_implementation"
    ensures w != "" && forall i :: 0 <= i < |w| ==> IsWordChar(w[i])
  {
  }

  lemma OtherChars(w: string)
    requires w == "os_name" || w == "sys_platform" || w == "implementation_name" || w == "implementation_version" || w == "extra"
    ensures w != "" && forall i :: 0 <= i < |w| ==> IsWordChar(w[i])
  {
  }
}
