/** Sorted listings of finite sets, for the `sorted` calls of the exporter. */
module Orders {

  ghost predicate TotalOrder<T(!new)>(le: (T, T) -> bool) {
    && (forall a :: le(a, a))
    && (forall a, b :: le(a, b) || le(b, a))
    && (forall a, b :: le(a, b) && le(b, a) ==> a == b)
    && (forall a, b, c :: le(a, b) && le(b, c) ==> le(a, c))
  }

  ghost predicate Ascending<T>(le: (T, T) -> bool, s: seq<T>) {
    forall i, j :: 0 <= i < j < |s| ==> le(s[i], s[j]) && s[i] != s[j]
  }

  function Elements<T(==)>(s: seq<T>): set<T> { set x | x in s }

  lemma ElementsSnoc<T>(s: seq<T>, x: T)
    ensures Elements(s + [x]) == Elements(s) + {x}
  {
    assert forall y :: y in s + [x] <==> y in s || y == x;
  }

  /** `s` lists the elements of `elements` once each, in ascending order. */
  ghost predicate Listing<T>(le: (T, T) -> bool, s: seq<T>, elements: set<T>) {
    Ascending(le, s) && elements == Elements(s)
  }

  lemma {:induction false} ListingUnique<T(!new)>(le: (T, T) -> bool, a: seq<T>, b: seq<T>, elements: set<T>)
    requires TotalOrder(le) && Listing(le, a, elements) && Listing(le, b, elements)
    ensures a == b
    decreases |a|
  {
    assert b != [] ==> b[0] in elements;
    assert a != [] ==> a[0] in elements;
    if a == [] {
    } else {
      var j :| 0 <= j < |b| && b[j] == a[0];
      var i :| 0 <= i < |a| && a[i] == b[0];
      assert le(a[0], b[0]) && le(b[0], a[0]);
      var rest := elements - {a[0]};
      assert Listing(le, a[1..], rest) by { ListingTail(le, a, elements); }
      assert Listing(le, b[1..], rest) by { ListingTail(le, b, elements); }
      ListingUnique(le, a[1..], b[1..], rest);
      assert a == [a[0]] + a[1..] && b == [b[0]] + b[1..];
    }
  }

  lemma ListingTail<T>(le: (T, T) -> bool, s: seq<T>, elements: set<T>)
    requires Listing(le, s, elements) && s != []
    ensures Listing(le, s[1..], elements - {s[0]})
  {
    var rest := s[1..];
    forall x | x in elements - {s[0]} ensures x in rest {
      var i :| 0 <= i < |s| && s[i] == x;
      assert rest[i - 1] == x;
    }
    forall x | x in rest ensures x in elements - {s[0]} {
      var i :| 0 <= i < |rest| && rest[i] == x;
      assert s[i + 1] == x;
    }
  }

  lemma {:induction false} LeastExists<T(!new)>(le: (T, T) -> bool, s: set<T>)
    requires TotalOrder(le) && s != {}
    ensures exists x :: x in s && forall y :: y in s ==> le(x, y)
  {
    var z :| z in s;
    if s == {z} {
      assert forall y :: y in s ==> le(z, y);
    } else {
      var rest := s - {z};
      assert s == rest + {z};
      LeastExists(le, rest);
      var x :| x in rest && forall y :: y in rest ==> le(x, y);
      var least := if le(x, z) then x else z;
      assert forall y :: y in s ==> le(least, y) by {
        forall y | y in s ensures le(least, y) { if y != z { assert y in rest; } }
      }
    }
  }

  /** Python's `sorted` on a set: repeatedly take the least element that is left. */
  method Sort<T(!new, ==)>(le: (T, T) -> bool, elements: set<T>) returns (sorted: seq<T>)
    requires TotalOrder(le)
    ensures Listing(le, sorted, elements)
  {
    var rest := elements;
    sorted := [];
    while rest != {}
      invariant rest <= elements && Listing(le, sorted, elements - rest)
      invariant forall x, y :: x in sorted && y in rest ==> le(x, y)
      decreases rest
    {
      LeastExists(le, rest);
      var x :| x in rest && forall y | y in rest :: le(x, y);
      assert x !in elements - rest;
      sorted := sorted + [x];
      assert elements - (rest - {x}) == (elements - rest) + {x};
      rest := rest - {x};
    }
  }

  // ---- lexicographic order -----------------------------------------------------

  predicate LexLe<T(==)>(le: (T, T) -> bool, a: seq<T>, b: seq<T>) {
    a == [] || (b != [] && if a[0] == b[0] then LexLe(le, a[1..], b[1..]) else le(a[0], b[0]))
  }

  lemma {:induction false} LexTotal<T(!new)>(le: (T, T) -> bool, a: seq<T>, b: seq<T>)
    requires TotalOrder(le)
    ensures LexLe(le, a, a) && (LexLe(le, a, b) || LexLe(le, b, a))
    decreases |a|
  {
    if a == [] {
    } else {
      LexTotal(le, a[1..], if b == [] then [] else b[1..]);
    }
  }

  lemma {:induction false} LexAntisymmetric<T(!new)>(le: (T, T) -> bool, a: seq<T>, b: seq<T>)
    requires TotalOrder(le) && LexLe(le, a, b) && LexLe(le, b, a)
    ensures a == b
    decreases |a|
  {
    if a == [] {
    } else {
      assert a[0] == b[0];
      LexAntisymmetric(le, a[1..], b[1..]);
      assert a == [a[0]] + a[1..] && b == [b[0]] + b[1..];
    }
  }

  lemma {:induction false} LexTransitive<T(!new)>(le: (T, T) -> bool, a: seq<T>, b: seq<T>, c: seq<T>)
    requires TotalOrder(le) && LexLe(le, a, b) && LexLe(le, b, c)
    ensures LexLe(le, a, c)
    decreases |a|
  {
    if a != [] && a[0] == b[0] == c[0] { LexTransitive(le, a[1..], b[1..], c[1..]); }
  }

  lemma LexTotalOrder<T(!new)>(le: (T, T) -> bool, lex: (seq<T>, seq<T>) -> bool)
    requires TotalOrder(le) && forall a, b :: lex(a, b) == LexLe(le, a, b)
    ensures TotalOrder(lex)
  {
    forall a, b ensures lex(a, a) && (lex(a, b) || lex(b, a)) { LexTotal(le, a, b); }
    forall a, b | lex(a, b) && lex(b, a) ensures a == b { LexAntisymmetric(le, a, b); }
    forall a, b, c | lex(a, b) && lex(b, c) ensures lex(a, c) { LexTransitive(le, a, b, c); }
  }

  const CharLe: (char, char) -> bool := (a, b) => a <= b

  /** The order of strings by code point. */
  const TextLe: (string, string) -> bool := (a, b) => LexLe(CharLe, a, b)

  /** The order of tuples of strings. */
  const TextsLe: (seq<string>, seq<string>) -> bool := (a, b) => LexLe(TextLe, a, b)

  lemma TextOrders()
    ensures TotalOrder(TextLe) && TotalOrder(TextsLe)
  {
    assert TotalOrder(CharLe);
    LexTotalOrder(CharLe, TextLe);
    LexTotalOrder(TextLe, TextsLe);
  }

  // ---- which order it is ---------------------------------------------------------------------

  /** One list comes before another when it is the beginning of it, or has the lesser element
      where they first differ. */
  lemma {:induction false} LexIs<T(!new)>(le: (T, T) -> bool, a: seq<T>, b: seq<T>)
    ensures LexLe(le, a, b) <==>
            a <= b || exists n :: 0 <= n < |a| && n < |b| && a[..n] == b[..n] && a[n] != b[n] && le(a[n], b[n])
    decreases |a|
  {
    if a == [] || b == [] {
    } else if a[0] == b[0] {
      LexIs(le, a[1..], b[1..]);
      LexRest(le, a, b);
    } else {
      assert a[..0] == b[..0];
      assert forall n :: 0 < n <= |a| && n <= |b| && a[..n] == b[..n] ==> a[..n][0] == b[..n][0];
    }
  }

  /** The elements that a first common one stands in front of decide. */
  lemma LexRest<T(!new)>(le: (T, T) -> bool, a: seq<T>, b: seq<T>)
    requires a != [] && b != [] && a[0] == b[0]
    ensures a <= b <==> a[1..] <= b[1..]
    ensures (exists n :: 0 <= n < |a| && n < |b| && a[..n] == b[..n] && a[n] != b[n] && le(a[n], b[n])) <==>
            (exists n :: 0 <= n < |a[1..]| && n < |b[1..]| && a[1..][..n] == b[1..][..n] && a[1..][n] != b[1..][n] && le(a[1..][n], b[1..][n]))
  {
    var c, d := a[1..], b[1..];
    assert a == [a[0]] + c && b == [b[0]] + d;
    if n :| 0 <= n < |a| && n < |b| && a[..n] == b[..n] && a[n] != b[n] && le(a[n], b[n]) {
      assert c[..n - 1] == a[..n][1..] && d[..n - 1] == b[..n][1..];
      assert c[n - 1] == a[n] && d[n - 1] == b[n];
    }
    if n :| 0 <= n < |c| && n < |d| && c[..n] == d[..n] && c[n] != d[n] && le(c[n], d[n]) {
      assert a[..n + 1] == [a[0]] + c[..n] && b[..n + 1] == [b[0]] + d[..n];
      assert a[n + 1] == c[n] && b[n + 1] == d[n];
    }
  }

  /** Texts are ordered by their characters' codes, and lists of texts by their texts. */
  lemma TextLeIs(a: string, b: string)
    ensures TextLe(a, b) <==>
            a <= b || exists n :: 0 <= n < |a| && n < |b| && a[..n] == b[..n] && a[n] < b[n]
  {
    LexIs(CharLe, a, b);
    if n :| 0 <= n < |a| && n < |b| && a[..n] == b[..n] && a[n] < b[n] {
      assert a[n] != b[n] && CharLe(a[n], b[n]);
    }
  }
}
