/** UTF-8 by its definition: the encodings of Unicode scalar values, computed arithmetically. */
module Utf8Laws {
  import opened Bytes
  import opened Utf8

  /** A code point that is not a surrogate. */
  predicate IsScalar(c: nat) { c < 0xD800 || 0xE000 <= c <= 0x10FFFF }

  /** The shortest encoding, six bits to a continuation byte. */
  function EncodeScalar(c: nat): (s: seq<Byte>)
    requires IsScalar(c)
    ensures 1 <= |s| <= 4
  {
    if c < 0x80 then [c]
    else if c < 0x800 then [0xC0 + c / 64, 0x80 + c % 64]
    else if c < 0x1_0000 then [0xE0 + c / 4096, 0x80 + c / 64 % 64, 0x80 + c % 64]
    else [0xF0 + c / 262144, 0x80 + c / 4096 % 64, 0x80 + c / 64 % 64, 0x80 + c % 64]
  }

  predicate AllScalars(cs: seq<nat>) { forall i :: 0 <= i < |cs| ==> IsScalar(cs[i]) }

  function EncodeText(cs: seq<nat>): seq<Byte>
    requires AllScalars(cs)
  {
    if cs == [] then [] else EncodeScalar(cs[0]) + EncodeText(cs[1..])
  }

  // ---------------------------------------------------------------- one character

  lemma EncodedIsFirst(c: nat, rest: seq<Byte>)
    requires IsScalar(c)
    ensures FirstCharacter(EncodeScalar(c) + rest) == |EncodeScalar(c)|
  {
    if c < 0x80 {
    } else if c < 0x800 {
      Two(c, rest);
    } else if c < 0x1_0000 {
      Three(c, rest);
    } else {
      Four(c, rest);
    }
  }

  lemma Two(c: nat, rest: seq<Byte>)
    requires 0x80 <= c < 0x800
    ensures FirstCharacter(EncodeScalar(c) + rest) == 2
  {
    var s := EncodeScalar(c) + rest;
    assert s[0] == 0xC0 + c / 64 && s[1] == 0x80 + c % 64;
  }

  lemma Three(c: nat, rest: seq<Byte>)
    requires 0x800 <= c < 0x1_0000 && IsScalar(c)
    ensures FirstCharacter(EncodeScalar(c) + rest) == 3
  {
    var s := EncodeScalar(c) + rest;
    var q := c / 64;
    assert c / 4096 == q / 64;
    assert s[0] == 0xE0 + q / 64 && s[1] == 0x80 + q % 64 && s[2] == 0x80 + c % 64;
    if s[0] == 0xE0 { assert q % 64 == q; }
    if s[0] == 0xED { assert q == 64 * 0xD + q % 64; }
  }

  lemma Four(c: nat, rest: seq<Byte>)
    requires 0x1_0000 <= c <= 0x10FFFF
    ensures FirstCharacter(EncodeScalar(c) + rest) == 4
  {
    var s := EncodeScalar(c) + rest;
    var q := c / 4096;
    assert c / 262144 == q / 64;
    assert s[0] == 0xF0 + q / 64 && s[1] == 0x80 + q % 64;
    assert s[2] == 0x80 + c / 64 % 64 && s[3] == 0x80 + c % 64;
    if s[0] == 0xF0 { assert q % 64 == q; }
    if s[0] == 0xF4 { assert q == 64 * 4 + q % 64; }
  }

  function Over(b: int, base: int): int { b - base }

  /** The scalar value that a well-formed first character encodes. */
  function Decode(s: seq<Byte>): nat
    requires FirstCharacter(s) > 0
  {
    match FirstCharacter(s)
    case 1 => s[0]
    case 2 => 64 * Over(s[0], 0xC0) + Over(s[1], 0x80)
    case 3 => 64 * (64 * Over(s[0], 0xE0) + Over(s[1], 0x80)) + Over(s[2], 0x80)
    case _ => 64 * (64 * (64 * Over(s[0], 0xF0) + Over(s[1], 0x80)) + Over(s[2], 0x80)) + Over(s[3], 0x80)
  }

  lemma Digits64(a: nat, b: nat)
    requires b < 64
    ensures (64 * a + b) / 64 == a && (64 * a + b) % 64 == b
  {}

  lemma FirstIsEncoded(s: seq<Byte>)
    requires FirstCharacter(s) > 0
    ensures IsScalar(Decode(s)) && EncodeScalar(Decode(s)) == s[..FirstCharacter(s)]
  {
    var n := FirstCharacter(s);
    if n == 2 {
      Digits64(Over(s[0], 0xC0), Over(s[1], 0x80));
    } else if n == 3 {
      var a := 64 * Over(s[0], 0xE0) + Over(s[1], 0x80);
      Digits64(Over(s[0], 0xE0), Over(s[1], 0x80));
      Digits64(a, Over(s[2], 0x80));
      assert Decode(s) / 4096 == a / 64;
    } else if n == 4 {
      var a := 64 * Over(s[0], 0xF0) + Over(s[1], 0x80);
      var b := 64 * a + Over(s[2], 0x80);
      Digits64(Over(s[0], 0xF0), Over(s[1], 0x80));
      Digits64(a, Over(s[2], 0x80));
      Digits64(b, Over(s[3], 0x80));
      assert Decode(s) / 4096 == b / 64 && Decode(s) / 262144 == a / 64;
    }
  }

  // ---------------------------------------------------------------- whole texts

  lemma {:induction false} EncodedIsValid(cs: seq<nat>)
    requires AllScalars(cs)
    ensures ValidUtf8(EncodeText(cs))
    decreases |cs|
  {
    hide FirstCharacter, EncodeScalar;
    if cs != [] {
      var first, rest := EncodeScalar(cs[0]), EncodeText(cs[1..]);
      EncodedIsValid(cs[1..]);
      EncodedIsFirst(cs[0], rest);
      assert (first + rest)[|first|..] == rest;
    }
  }

  lemma {:induction false} ValidIsEncoded(s: seq<Byte>) returns (cs: seq<nat>)
    requires ValidUtf8(s)
    ensures AllScalars(cs) && EncodeText(cs) == s
    decreases |s|
  {
    hide FirstCharacter, EncodeScalar, Decode, IsScalar;
    if s == [] {
      cs := [];
    } else {
      var n := FirstCharacter(s);
      FirstIsEncoded(s);
      var rest := ValidIsEncoded(s[n..]);
      cs := [Decode(s)] + rest;
      assert cs[1..] == rest && s == s[..n] + s[n..];
    }
  }

  /** A byte string is well formed exactly when it is the encoding of some Unicode scalar values, in order. */
  lemma ValidUtf8Iff(s: seq<Byte>)
    ensures ValidUtf8(s) <==> exists cs: seq<nat> :: AllScalars(cs) && EncodeText(cs) == s
  {
    hide ValidUtf8, EncodeText, AllScalars;
    if ValidUtf8(s) {
      var cs := ValidIsEncoded(s);
    }
    forall cs: seq<nat> | AllScalars(cs) && EncodeText(cs) == s ensures ValidUtf8(s) { EncodedIsValid(cs); }
  }
}
