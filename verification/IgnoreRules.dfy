/** What the lines of an ignore file exclude. */
module IgnoreRules {
  import opened Options
  import opened Texts
  import opened Utf8
  import opened FileTree
  import opened Bundle

  // ---- blanks -------------------------------------------------------------------------------------

  /** Unicode's White_Space property. */
  predicate IsWhite(u: nat) {
    || 0x9 <= u <= 0xD || u == 0x20 || u == 0x85 || u == 0xA0 || u == 0x1680 || 0x2000 <= u <= 0x200A
    || u == 0x2028 || u == 0x2029 || u == 0x202F || u == 0x205F || u == 0x3000
  }

  predicate AllWhite(us: seq<nat>) { forall i :: 0 <= i < |us| ==> IsWhite(us[i]) }

  /** A character at the front is a blank exactly when it is white space. */
  lemma FrontIs(u: nat, rest: string)
    requires IsScalar(u)
    ensures BlankLength(Encode(u) + rest) == if IsWhite(u) then |Encode(u)| else 0
  {
    var code, bytes := Encode(u), Encode(u) + rest;
    assert bytes[0] == code[0];
    if u >= 0x80 { assert bytes[1] == code[1]; }
    if u >= 0x800 {
      assert bytes[..3] == code[..3];
      WideIs(u, code);
    }
    if u < 0x800 && |bytes| >= 3 { NotWide(u, bytes); }
  }

  lemma WideIs(u: nat, code: string)
    requires IsScalar(u) && u >= 0x800 && code == Encode(u)
    ensures IsWideBlank(code[..3]) <==> IsWhite(u)
  {
    var three := code[..3];
    assert three[0] == code[0] && three[1] == code[1] && three[2] == code[2];
    assert three == [code[0], code[1], code[2]];
    assert three[..2] == [code[0], code[1]];
  }

  lemma NotWide(u: nat, bytes: string)
    requires u < 0x800 && |bytes| >= 3 && bytes[0] == Encode(u)[0]
    ensures !IsWideBlank(bytes[..3])
  {
    assert bytes[..3][0] == bytes[0] && bytes[..3][..2][0] == bytes[0];
  }

  predicate IsContinuation(c: char) { '\U{80}' <= c <= '\U{bf}' }

  lemma LaterBytes(u: nat)
    requires IsScalar(u)
    ensures forall i :: 0 < i < |Encode(u)| ==> IsContinuation(Encode(u)[i])
  {
    forall n: nat ensures IsContinuation(Continuation(n)) { }
  }

  /** No blank begins with a byte that goes on a character. */
  lemma NoBlankInside(bytes: string)
    requires bytes != "" && IsContinuation(bytes[0]) && |bytes| <= 2
    ensures BlankLength(bytes) == 0
  {
  }

  /** White space at the end is found whole, whatever stands in front of it. */
  lemma EndIs(u: nat, rest: string)
    requires IsScalar(u) && IsWhite(u)
    ensures BlankAtEnd(rest + Encode(u)) == |Encode(u)|
  {
    var code, bytes := Encode(u), rest + Encode(u);
    assert 1 <= |code| <= 3;
    LaterBytes(u);
    FrontIs(u, "");
    hide Encode, BlankLength, IsWhite, IsContinuation;
    assert code + "" == code && bytes[|bytes| - |code|..] == code;
    if |code| == 2 {
      assert bytes[|bytes| - 1..] == [code[1]];
      NoBlankInside([code[1]]);
    } else if |code| == 3 {
      assert bytes[|bytes| - 1..] == [code[2]] && bytes[|bytes| - 2..] == [code[1], code[2]];
      NoBlankInside([code[2]]);
      NoBlankInside([code[1], code[2]]);
    }
  }

  /** Neither end of the text is a blank. */
  predicate Trimmed(text: string) { BlankLength(text) == 0 && BlankAtEnd(text) == 0 }

  lemma {:induction false} TrimBlanks(front: seq<nat>, text: string, back: seq<nat>)
    requires AreScalars(front) && AreScalars(back) && AllWhite(front) && AllWhite(back)
    requires Trimmed(text) && IsUtf8(text)
    ensures Trim(EncodeAll(front) + text + EncodeAll(back)) == text
    decreases |front|
  {
    hide Trimmed, Encode, BlankLength, BlankAtEnd, Trim;
    if front == [] {
      assert EncodeAll(front) + text + EncodeAll(back) == text + EncodeAll(back);
      TrimBack(text, back);
    } else {
      var rest := EncodeAll(front[1..]) + text + EncodeAll(back);
      assert EncodeAll(front) + text + EncodeAll(back) == Encode(front[0]) + rest;
      FrontBlank(front[0], rest);
      TrimBlanks(front[1..], text, back);
    }
  }

  lemma FrontBlank(u: nat, rest: string)
    requires IsScalar(u) && IsWhite(u)
    ensures Trim(Encode(u) + rest) == Trim(rest)
  {
    hide BlankAtEnd, Encode, BlankLength;
    FrontIs(u, rest);
    EncodedLength(u, rest);
    assert (Encode(u) + rest)[|Encode(u)|..] == rest;
  }

  lemma {:induction false} TrimBack(text: string, back: seq<nat>)
    requires AreScalars(back) && AllWhite(back) && Trimmed(text) && IsUtf8(text)
    ensures Trim(text + EncodeAll(back)) == text
    decreases |back|
  {
    hide Encode, BlankLength, BlankAtEnd, Trim, IsUtf8;
    if back == [] {
      assert text + EncodeAll(back) == text;
      AlreadyTrimmed(text);
    } else if text == "" {
      assert text + EncodeAll(back) == Encode(back[0]) + EncodeAll(back[1..]);
      FrontBlank(back[0], EncodeAll(back[1..]));
      TrimBack(text, back[1..]);
      assert text + EncodeAll(back[1..]) == EncodeAll(back[1..]);
    } else {
      var n := |back| - 1;
      EncodeSnoc(back);
      FrontStays(text, EncodeAll(back));
      assert text + EncodeAll(back) == (text + EncodeAll(back[..n])) + Encode(back[n]);
      BackBlank(text + EncodeAll(back[..n]), back[n]);
      TrimBack(text, back[..n]);
    }
  }

  lemma AlreadyTrimmed(text: string)
    requires Trimmed(text)
    ensures Trim(text) == text
  {
  }

  lemma {:induction false} EncodeSnoc(us: seq<nat>)
    requires us != [] && AreScalars(us)
    ensures AreScalars(us[..|us| - 1]) && EncodeAll(us) == EncodeAll(us[..|us| - 1]) + Encode(us[|us| - 1])
    decreases |us|
  {
    hide Encode;
    if |us| == 1 {
      assert us[1..] == [];
    } else {
      EncodeSnoc(us[1..]);
      assert us[1..][..|us| - 2] == us[..|us| - 1][1..];
    }
  }

  lemma BackBlank(rest: string, u: nat)
    requires IsScalar(u) && IsWhite(u) && BlankLength(rest + Encode(u)) == 0
    ensures Trim(rest + Encode(u)) == Trim(rest)
  {
    hide Encode, BlankLength, BlankAtEnd;
    EndIs(u, rest);
    EncodedLength(u, "");
    assert Encode(u) + "" == Encode(u);
    assert (rest + Encode(u))[..|rest|] == rest;
  }

  /** What stands behind a text makes no blank of its first character. */
  lemma FrontStays(text: string, back: string)
    requires text != "" && BlankLength(text) == 0 && IsUtf8(text)
    ensures BlankLength(text + back) == 0
  {
    hide Encode, BlankLength, Utf8Length;
    var n := Utf8Length(text);
    var u := Decoded(text);
    assert text == Encode(u) + text[n..];
    FrontIs(u, text[n..]);
    FrontIs(u, text[n..] + back);
    EncodedLength(u, "");
    assert Encode(u) + "" == Encode(u);
    assert text + back == Encode(u) + (text[n..] + back);
  }

  // ---- a line and what stands around its pattern -----------------------------------------------

  predicate Slashes(s: string) { forall i :: 0 <= i < |s| ==> s[i] == '/' }

  lemma {:induction false} TrimSlashesBack(pattern: string, slashes: string)
    requires Slashes(slashes) && (pattern != "" ==> pattern[|pattern| - 1] != '/')
    ensures TrimSlashes(pattern + slashes) == pattern
    decreases |slashes|
  {
    var all := pattern + slashes;
    if slashes == "" {
      assert all == pattern;
    } else {
      assert all[|all| - 1] == slashes[|slashes| - 1];
      assert all[..|all| - 1] == pattern + slashes[..|slashes| - 1];
      TrimSlashesBack(pattern, slashes[..|slashes| - 1]);
    }
  }

  /** A line with the pattern in it, white space around it and slashes behind it. */
  ghost predicate IsLineOf(line: string, pattern: string) {
    exists front: seq<nat>, slashes, back: seq<nat> :: Surrounds(line, front, pattern, slashes, back)
  }

  predicate Surrounds(line: string, front: seq<nat>, pattern: string, slashes: string, back: seq<nat>) {
    && AreScalars(front) && AreScalars(back) && AllWhite(front) && AllWhite(back)
    && line == EncodeAll(front) + (pattern + slashes) + EncodeAll(back) && Slashes(slashes)
    && Trimmed(pattern + slashes) && IsUtf8(pattern + slashes) && (pattern != "" ==> pattern[|pattern| - 1] != '/')
  }

  lemma PatternOf(line: string, pattern: string)
    requires IsLineOf(line, pattern)
    ensures TrimSlashes(Trim(line)) == pattern
  {
    hide BlankLength, BlankAtEnd, Trimmed, IsUtf8, EncodeAll;
    var front: seq<nat>, slashes, back: seq<nat> :| Surrounds(line, front, pattern, slashes, back);
    TrimBlanks(front, pattern + slashes, back);
    TrimSlashesBack(pattern, slashes);
  }

  // ---- what a line excludes ------------------------------------------------------------------------

  /** A name excludes whatever has it as a component, and everything below. */
  lemma NameLine(ex: Exclusions, line: string, name: string, path: Path)
    requires IsLineOf(line, name) && name != "" && '/' !in name && name[0] != '#' && name != "." && name != ".."
    ensures IsExcluded(ExtendLine(ex, line), path) <==> IsExcluded(ex, path) || name in path
  {
    PatternOf(line, name);
    assert Split(name, '/') == [name] by { FindNone(name, '/'); }
    assert Components(name).Some?;
    assert ExtendLine(ex, line).names == ex.names + {name};
    hide Trim, TrimSlashes, IsLineOf;
    if name in path { var i :| 0 <= i < |path| && path[i] == name; }
  }

  /** A path from the root excludes that path and everything below. */
  lemma PathLine(ex: Exclusions, line: string, excluded: Path, path: Path)
    requires |excluded| > 1 && (forall i :: 0 <= i < |excluded| ==> ValidName(excluded[i])) && excluded[0] != "" && excluded[0][0] != '#'
    requires IsLineOf(line, Join(excluded))
    ensures IsExcluded(ExtendLine(ex, line), path) <==> IsExcluded(ex, path) || excluded <= path
  {
    hide Trim, TrimSlashes, IsLineOf, Join, Components, IsExcluded;
    PatternOf(line, Join(excluded));
    PathComponents(excluded);
    JoinStarts(excluded);
    assert ExtendLine(ex, line) == ex.(paths := ex.paths + {excluded});
    hide ExtendLine;
    PathExcludes(ex, excluded, path);
  }

  lemma PathComponents(excluded: Path)
    requires |excluded| > 1 && (forall i :: 0 <= i < |excluded| ==> ValidName(excluded[i]))
    ensures Components(Join(excluded)) == Some(excluded)
  {
    hide Join, Split, Normal;
    SplitJoin(excluded);
    NormalPath(excluded);
    JoinStarts(excluded);
  }

  lemma PathExcludes(ex: Exclusions, excluded: Path, path: Path)
    ensures IsExcluded(ex.(paths := ex.paths + {excluded}), path) <==> IsExcluded(ex, path) || excluded <= path
  {
    var more := ex.(paths := ex.paths + {excluded});
    if excluded <= path { assert path[..|excluded|] == excluded; }
    if n :| 0 <= n <= |path| && path[..n] in ex.paths { assert path[..n] in more.paths; }
  }

  lemma JoinStarts(path: Path)
    requires |path| > 1 && path[0] != "" && '/' !in path[0]
    ensures Join(path) != "" && Join(path)[0] == path[0][0] && path[0][0] != '/' && '/' in Join(path)
  {
    assert Join(path)[|path[0]|] == '/';
  }

  lemma {:induction false} NormalPath(path: Path)
    requires forall i :: 0 <= i < |path| ==> ValidName(path[i])
    ensures Normal(path) == path && ".." !in path && (path != [] ==> path[0] != ".")
  {
    if path == [] {
    } else {
      NormalPath(path[1..]);
    }
  }

  /** Empty lines, comments, rooted paths and paths with a `.` in front or a `..` exclude nothing. */
  lemma IgnoredLine(ex: Exclusions, line: string, pattern: string)
    requires IsLineOf(line, pattern)
    requires pattern == "" || pattern[0] == '#' || pattern[0] == '/' || ".." in Split(pattern, '/') || Split(pattern, '/')[0] == "."
    ensures ExtendLine(ex, line) == ex
  {
    PatternOf(line, pattern);
  }

  /** Whatever an ignore file says, these names are never packed, nor what lies below them. */
  lemma BuiltInRules(path: Path)
    ensures IsExcluded(BUILT_IN, path) <==>
            || ".curieignore" in path || ".curie" in path || ".git" in path || ".venv" in path || "venv" in path
            || "node_modules" in path || "__pycache__" in path || ".mypy_cache" in path || ".pytest_cache" in path
  {
    forall name | name in path ensures exists i :: 0 <= i < |path| && path[i] == name { }
    if name :| name in EXCLUDED_NAMES && name in path { var i :| 0 <= i < |path| && path[i] == name; }
  }

  /** The lines of a file take effect one after another. */
  lemma {:induction false} LinesAddUp(ex: Exclusions, a: seq<string>, b: seq<string>)
    ensures Extend(ex, a + b) == Extend(Extend(ex, a), b)
    ensures |a| == 1 ==> Extend(ex, a) == ExtendLine(ex, a[0])
    decreases |a|
  {
    if a == [] {
      assert a + b == b;
    } else {
      assert (a + b)[1..] == a[1..] + b;
      LinesAddUp(ExtendLine(ex, a[0]), a[1..], b);
    }
  }
}
