/** Bytes, fixed-width integers and the eight-bit vectors that the checksum works on. */
module Bytes {

  type Byte = b: int | 0 <= b < 0x100
  type Uint32 = n: int | 0 <= n < 0x1_0000_0000
  type Uint64 = n: int | 0 <= n < 0x1_0000_0000_0000_0000

  type Nibble = n: int | 0 <= n < 0x10

  function NibbleBits(n: Nibble): bv4 { n as bv4 }

  function NibbleValue(x: bv4): Nibble { x as int }

  function JoinNibbles(hi: bv4, lo: bv4): bv8 { (hi as bv8 << 4) | lo as bv8 }

  function HighNibbleOf(x: bv8): bv4 { (x >> 4) as bv4 }

  function LowNibbleOf(x: bv8): bv4 { (x & 0xF) as bv4 }

  /** A byte as the C++ type uint8_t sees it: two hexadecimal digits. */
  function Octet(b: Byte): bv8 {
    JoinNibbles(NibbleBits(b / 16), NibbleBits(b % 16))
  }

  function OctetValue(x: bv8): Byte {
    16 * NibbleValue(HighNibbleOf(x)) + NibbleValue(LowNibbleOf(x))
  }

  lemma NibbleRoundTrip(n: Nibble, x: bv4)
    ensures NibbleValue(NibbleBits(n)) == n
    ensures NibbleBits(NibbleValue(x)) == x
  {}

  lemma NibblesOfJoin(hi: bv4, lo: bv4)
    ensures HighNibbleOf(JoinNibbles(hi, lo)) == hi && LowNibbleOf(JoinNibbles(hi, lo)) == lo
  {}

  lemma JoinOfNibbles(x: bv8)
    ensures JoinNibbles(HighNibbleOf(x), LowNibbleOf(x)) == x
  {}

  lemma OctetOfValue(x: bv8)
    ensures Octet(OctetValue(x)) == x
  {
    hide NibbleBits, NibbleValue, JoinNibbles, HighNibbleOf, LowNibbleOf;
    var hi, lo := HighNibbleOf(x), LowNibbleOf(x);
    NibbleRoundTrip(0, hi);
    NibbleRoundTrip(0, lo);
    JoinOfNibbles(x);
    assert OctetValue(x) / 16 == NibbleValue(hi) && OctetValue(x) % 16 == NibbleValue(lo);
  }

  lemma ValueOfOctet(b: Byte)
    ensures OctetValue(Octet(b)) == b
  {
    hide NibbleBits, NibbleValue, JoinNibbles, HighNibbleOf, LowNibbleOf;
    NibbleRoundTrip(b / 16, 0);
    NibbleRoundTrip(b % 16, 0);
    NibblesOfJoin(NibbleBits(b / 16), NibbleBits(b % 16));
  }

  lemma OctetInjective(a: Byte, b: Byte)
    requires Octet(a) == Octet(b)
    ensures a == b
  {
    hide *;
    ValueOfOctet(a);
    ValueOfOctet(b);
  }

  // ---------------------------------------------------------------- the bits of a byte

  function Pow2(i: nat): (p: nat)
    ensures p > 0
  {
    if i == 0 then 1 else 2 * Pow2(i - 1)
  }

  predicate NibbleBit(x: bv4, i: nat)
    requires i < 4
  {
    (x >> i) & 1 == 1
  }

  predicate OctetBit(x: bv8, i: nat)
    requires i < 8
  {
    (x >> i) & 1 == 1
  }

  lemma NibbleIsBinary(n: Nibble)
    ensures NibbleBit(NibbleBits(n), 0) <==> n % 2 == 1
    ensures NibbleBit(NibbleBits(n), 1) <==> n / 2 % 2 == 1
    ensures NibbleBit(NibbleBits(n), 2) <==> n / 4 % 2 == 1
    ensures NibbleBit(NibbleBits(n), 3) <==> n / 8 % 2 == 1
  {
    match n {
      case 0 => assert NibbleBits(0) == 0 as bv4;
      case 1 => assert NibbleBits(1) == 1 as bv4;
      case 2 => assert NibbleBits(2) == 2 as bv4;
      case 3 => assert NibbleBits(3) == 3 as bv4;
      case 4 => assert NibbleBits(4) == 4 as bv4;
      case 5 => assert NibbleBits(5) == 5 as bv4;
      case 6 => assert NibbleBits(6) == 6 as bv4;
      case 7 => assert NibbleBits(7) == 7 as bv4;
      case 8 => assert NibbleBits(8) == 8 as bv4;
      case 9 => assert NibbleBits(9) == 9 as bv4;
      case 10 => assert NibbleBits(10) == 10 as bv4;
      case 11 => assert NibbleBits(11) == 11 as bv4;
      case 12 => assert NibbleBits(12) == 12 as bv4;
      case 13 => assert NibbleBits(13) == 13 as bv4;
      case 14 => assert NibbleBits(14) == 14 as bv4;
      case 15 => assert NibbleBits(15) == 15 as bv4;
    }
  }

  lemma JoinedBits(hi: bv4, lo: bv4)
    ensures var x := JoinNibbles(hi, lo);
      && OctetBit(x, 0) == NibbleBit(lo, 0)
      && OctetBit(x, 1) == NibbleBit(lo, 1)
      && OctetBit(x, 2) == NibbleBit(lo, 2)
      && OctetBit(x, 3) == NibbleBit(lo, 3)
      && OctetBit(x, 4) == NibbleBit(hi, 0)
      && OctetBit(x, 5) == NibbleBit(hi, 1)
      && OctetBit(x, 6) == NibbleBit(hi, 2)
      && OctetBit(x, 7) == NibbleBit(hi, 3)
  {}

  lemma SmallPowers()
    ensures Pow2(0) == 1 && Pow2(1) == 2 && Pow2(2) == 4 && Pow2(3) == 8
    ensures Pow2(4) == 16 && Pow2(5) == 32 && Pow2(6) == 64 && Pow2(7) == 128
  {}

  lemma LowHalves(hi: Nibble, lo: Nibble)
    ensures (16 * hi + lo) % 2 == lo % 2 && (16 * hi + lo) / 2 == 8 * hi + lo / 2
    ensures (16 * hi + lo) / 4 == 4 * hi + lo / 4 && (16 * hi + lo) / 8 == 2 * hi + lo / 8
  {}

  lemma EvenPart(k: nat, m: nat)
    ensures (2 * k + m) % 2 == m % 2
  {}

  lemma HighHalves(b: Byte)
    ensures b / 16 / 2 == b / 32 && b / 16 / 4 == b / 64 && b / 16 / 8 == b / 128
  {}

  lemma HalvesOfNibbles(b: Byte)
    ensures b % 16 % 2 == b % 2 && b % 16 / 2 % 2 == b / 2 % 2
    ensures b % 16 / 4 % 2 == b / 4 % 2 && b % 16 / 8 % 2 == b / 8 % 2
    ensures b / 16 / 2 == b / 32 && b / 16 / 4 == b / 64 && b / 16 / 8 == b / 128
  {
    var hi, lo := b / 16, b % 16;
    LowHalves(hi, lo);
    HighHalves(b);
    EvenPart(4 * hi, lo / 2);
    EvenPart(2 * hi, lo / 4);
    EvenPart(hi, lo / 8);
  }

  /** The eight-bit vector of a byte is its binary representation. */
  lemma OctetIsBinary(b: Byte, i: nat)
    requires i < 8
    ensures OctetBit(Octet(b), i) <==> b / Pow2(i) % 2 == 1
  {
    hide NibbleBits, JoinNibbles, NibbleBit, OctetBit, Pow2;
    SmallPowers();
    HalvesOfNibbles(b);
    NibbleIsBinary(b / 16);
    NibbleIsBinary(b % 16);
    JoinedBits(NibbleBits(b / 16), NibbleBits(b % 16));
    if i < 4 {
      match i { case 0 => case 1 => case 2 => case 3 => }
    } else {
      match i { case 4 => case 5 => case 6 => case 7 => }
    }
  }
}
