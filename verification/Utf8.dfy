/** UTF-8 (RFC 3629, section 3): what the byte strings that are texts encode. */
module Utf8 {
  import opened Texts

  /** A Unicode scalar value: no surrogate, nothing above U+10FFFF. */
  predicate IsScalar(u: nat) { u <= 0xD7FF || 0xE000 <= u <= 0x10FFFF }

  function Byte(n: nat): char
    requires n < 256
  {
    n as char
  }

  /** Each byte after the first carries six bits. */
  function Continuation(n: nat): char { Byte(0x80 + n % 64) }

  function Encode(u: nat): string
    requires IsScalar(u)
  {
    if u < 0x80 then [Byte(u)]
    else if u < 0x800 then [Byte(0xC0 + u / 64), Continuation(u)]
    else if u < 0x1_0000 then [Byte(0xE0 + u / 4096), Continuation(u / 64), Continuation(u)]
    else [Byte(0xF0 + u / 262144), Continuation(u / 4096), Continuation(u / 64), Continuation(u)]
  }

  predicate AreScalars(us: seq<nat>) { forall i :: 0 <= i < |us| ==> IsScalar(us[i]) }

  function EncodeAll(us: seq<nat>): string
    requires AreScalars(us)
  {
    if us == [] then "" else Encode(us[0]) + EncodeAll(us[1..])
  }

  // ---- one character --------------------------------------------------------------------------

  /** The encoding of a character is recognised, whatever follows it. */
  lemma EncodedLength(u: nat, rest: string)
    requires IsScalar(u)
    ensures Utf8Length(Encode(u) + rest) == |Encode(u)| > 0
  {
    var bytes := Encode(u) + rest;
    assert bytes[0] == Encode(u)[0];
    if u >= 0x80 { assert bytes[1] == Encode(u)[1]; }
    if u >= 0x800 { assert bytes[2] == Encode(u)[2]; }
    if u >= 0x1_0000 { assert bytes[3] == Encode(u)[3]; }
    Bits(u);
  }

  /** The parts of a value fit their bytes. */
  lemma Bits(u: nat)
    requires IsScalar(u)
    ensures 0x80 <= u < 0x800 ==> 0xC2 <= 0xC0 + u / 64 <= 0xDF
    ensures 0x800 <= u < 0x1_0000 ==>
              0xE0 <= 0xE0 + u / 4096 <= 0xEF && (u / 4096 == 0 ==> u / 64 % 64 >= 0x20) && (u / 4096 == 13 ==> u / 64 % 64 <= 0x1F)
    ensures 0x1_0000 <= u ==>
              0xF0 <= 0xF0 + u / 262144 <= 0xF4 && (u / 262144 == 0 ==> u / 4096 % 64 >= 0x10) && (u / 262144 == 4 ==> u / 4096 % 64 <= 0x0F)
  {
  }

  lemma Digits(x: nat, y: nat, z: nat, w: nat)
    requires y < 64 && z < 64 && w < 64
    ensures var u := ((x * 64 + y) * 64 + z) * 64 + w;
            u % 64 == w && u / 64 == (x * 64 + y) * 64 + z && u / 64 % 64 == z && u / 4096 == x * 64 + y
            && u / 4096 % 64 == y && u / 262144 == x
  {
    var u := ((x * 64 + y) * 64 + z) * 64 + w;
    assert u / 64 == (x * 64 + y) * 64 + z;
    assert u / 4096 == u / 64 / 64;
    assert u / 262144 == u / 4096 / 64;
  }

  /** The value that recognised bytes encode. */
  lemma Decoded(bytes: string) returns (u: nat)
    requires Utf8Length(bytes) > 0
    ensures IsScalar(u) && bytes[..Utf8Length(bytes)] == Encode(u)
  {
    match Utf8Length(bytes)
    case 1 => u := DecodedOne(bytes);
    case 2 => u := DecodedTwo(bytes);
    case 3 => u := DecodedThree(bytes);
    case _ => u := DecodedFour(bytes);
  }

  lemma DecodedOne(bytes: string) returns (u: nat)
    requires Utf8Length(bytes) == 1
    ensures IsScalar(u) && bytes[..1] == Encode(u)
  {
    u := bytes[0] as nat;
  }

  lemma DecodedTwo(bytes: string) returns (u: nat)
    requires Utf8Length(bytes) == 2
    ensures IsScalar(u) && bytes[..2] == Encode(u)
  {
    var x, y := bytes[0] as nat - 0xC0, bytes[1] as nat - 0x80;
    u := ((0 * 64 + 0) * 64 + x) * 64 + y;
    Digits(0, 0, x, y);
  }

  lemma DecodedThree(bytes: string) returns (u: nat)
    requires Utf8Length(bytes) == 3
    ensures IsScalar(u) && bytes[..3] == Encode(u)
  {
    var x, y, z := bytes[0] as nat - 0xE0, bytes[1] as nat - 0x80, bytes[2] as nat - 0x80;
    u := ((0 * 64 + x) * 64 + y) * 64 + z;
    Digits(0, x, y, z);
  }

  lemma DecodedFour(bytes: string) returns (u: nat)
    requires Utf8Length(bytes) == 4
    ensures IsScalar(u) && bytes[..4] == Encode(u)
  {
    var x, y, z, w := bytes[0] as nat - 0xF0, bytes[1] as nat - 0x80, bytes[2] as nat - 0x80, bytes[3] as nat - 0x80;
    u := ((x * 64 + y) * 64 + z) * 64 + w;
    Digits(x, y, z, w);
  }

  // ---- texts ---------------------------------------------------------------------------------------

  /** A byte string is accepted as UTF-8 exactly when it encodes a sequence of characters. */
  lemma {:induction false} Utf8Is(bytes: string)
    ensures IsUtf8(bytes) <==> exists us: seq<nat> :: AreScalars(us) && EncodeAll(us) == bytes
    decreases |bytes|
  {
    hide Utf8Length, Encode;
    if bytes == "" {
      assert AreScalars([]) && EncodeAll([]) == bytes;
    } else {
      var n := Utf8Length(bytes);
      if n > 0 {
        Utf8Is(bytes[n..]);
        var u := Decoded(bytes);
        if us: seq<nat> :| AreScalars(us) && EncodeAll(us) == bytes[n..] {
          assert AreScalars([u] + us) && ([u] + us)[1..] == us;
          assert EncodeAll([u] + us) == bytes;
        }
      }
      forall us: seq<nat> | AreScalars(us) && EncodeAll(us) == bytes
        ensures n > 0 && AreScalars(us[1..]) && EncodeAll(us[1..]) == bytes[n..]
      {
        EncodedLength(us[0], EncodeAll(us[1..]));
        assert bytes[n..] == EncodeAll(us[1..]);
      }
    }
  }
}
