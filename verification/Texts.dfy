/** What several of the tools do with texts and byte strings. */
module Texts {

  // ---- blanks -------------------------------------------------------------------

  /** The characters `str.strip` removes. */
  predicate IsSpace(c: char) {
    || '\U{9}' <= c <= '\U{d}' || '\U{1c}' <= c <= ' ' || c == '\U{85}' || c == '\U{a0}'
    || c == '\U{1680}' || '\U{2000}' <= c <= '\U{200a}' || c == '\U{2028}' || c == '\U{2029}'
    || c == '\U{202f}' || c == '\U{205f}' || c == '\U{3000}'
  }

  function Strip(s: string): string
    decreases |s|
  {
    if s == "" then s
    else if IsSpace(s[0]) then Strip(s[1..])
    else if IsSpace(s[|s| - 1]) then Strip(s[..|s| - 1])
    else s
  }

  // ---- searching ------------------------------------------------------------------

  /** Where `c` first occurs, or the end. */
  function Find(text: string, c: char): (n: nat)
    ensures n <= |text| && (n < |text| ==> text[n] == c) && forall i :: 0 <= i < n ==> text[i] != c
  {
    if text == "" || text[0] == c then 0 else 1 + Find(text[1..], c)
  }

  lemma {:induction false} FindIs(a: string, c: char, b: string)
    requires c !in a
    ensures Find(a + [c] + b, c) == |a|
  {
    var text := a + [c] + b;
    if a == "" {
    } else {
      assert text[1..] == a[1..] + [c] + b;
      FindIs(a[1..], c, b);
    }
  }

  lemma {:induction false} FindNone(a: string, c: char)
    requires c !in a
    ensures Find(a, c) == |a|
  {
    if a == "" {
    } else {
      FindNone(a[1..], c);
    }
  }

  /** What follows the first occurrence does not matter. */
  lemma {:induction false} FindConcat(a: string, b: string, c: char)
    requires Find(a, c) < |a|
    ensures Find(a + b, c) == Find(a, c)
  {
    if a[0] == c {
    } else {
      assert (a + b)[1..] == a[1..] + b;
      FindConcat(a[1..], b, c);
    }
  }

  // ---- digests --------------------------------------------------------------------

  predicate IsHex(c: char) { '0' <= c <= '9' || 'a' <= c <= 'f' }

  predicate IsSha256(hash: string) {
    |hash| == 71 && hash[..7] == "sha256:" && forall i :: 7 <= i < 71 ==> IsHex(hash[i])
  }

  lemma Sha256Text(hash: string)
    ensures IsSha256(hash) <==> |hash| == 71 && "sha256:" <= hash && forall c :: c in hash[7..] ==> c in "0123456789abcdef"
  {
    forall c ensures IsHex(c) <==> c in "0123456789abcdef" { HexDigit(c); }
    if |hash| == 71 {
      assert forall i :: 7 <= i < 71 ==> hash[7..][i - 7] == hash[i];
      assert hash[..7] == "sha256:" <==> "sha256:" <= hash;
    }
  }

  lemma HexDigit(c: char)
    ensures IsHex(c) <==> c in "0123456789abcdef"
  {
    if IsHex(c) && c <= '9' { assert c == "0123456789abcdef"[c as int - '0' as int]; }
    if IsHex(c) && c > '9' { assert c == "0123456789abcdef"[10 + (c as int - 'a' as int)]; }
  }

  // ---- byte strings that are texts --------------------------------------------------

  /** How many bytes the UTF-8 encoding of one character takes at the front of `bytes`, one
      character of the string being one byte; 0 when there is none (RFC 3629, section 4). */
  function Utf8Length(bytes: string): (n: nat)
    ensures n <= |bytes| && n <= 4
  {
    if bytes == "" then 0
    else
      var b := bytes[0];
      if b <= '\U{7f}' then 1
      else if '\U{c2}' <= b <= '\U{df}' then if Follows(bytes, 1) then 2 else 0
      else if '\U{e0}' <= b <= '\U{ef}' then
        if Follows(bytes, 2)
           && (b == '\U{e0}' ==> bytes[1] >= '\U{a0}') && (b == '\U{ed}' ==> bytes[1] <= '\U{9f}')
        then 3 else 0
      else if '\U{f0}' <= b <= '\U{f4}' then
        if Follows(bytes, 3)
           && (b == '\U{f0}' ==> bytes[1] >= '\U{90}') && (b == '\U{f4}' ==> bytes[1] <= '\U{8f}')
        then 4 else 0
      else 0
  }

  /** The first byte is followed by `n` continuation bytes. */
  predicate Follows(bytes: string, n: nat) {
    |bytes| > n && forall i :: 1 <= i <= n ==> '\U{80}' <= bytes[i] <= '\U{bf}'
  }

  predicate IsUtf8(bytes: string)
    decreases |bytes|
  {
    bytes == "" || (var n := Utf8Length(bytes); n > 0 && IsUtf8(bytes[n..]))
  }
}
