/**
  The frame checksum: the bit-serial definition, the table-driven loop that computes it,
  and what the checksum guarantees about a damaged frame.
 */
module Crc32 {
  import opened Bytes
  import opened Words
  import opened CrcTable

  // ---------------------------------------------------------------- bit-serial definition

  function Absorb(c: bv32, b: bool): bv32 { Shift(Xor(c, BitWord(b))) }

  /** The register after the bits of a message, first bit first. */
  function Run(c: bv32, bits: seq<bool>): bv32
    decreases |bits|
  {
    if bits == [] then c else Run(Absorb(c, bits[0]), bits[1..])
  }

  /** The `n` low bits of a word, least significant first. */
  function WordBits(w: bv32, n: nat): (bits: seq<bool>)
    ensures |bits| == n
  {
    if n == 0 then [] else [Odd(w)] + WordBits(Half(w), n - 1)
  }

  function OctetBits(x: bv8): (bits: seq<bool>)
    ensures |bits| == 8
  {
    WordBits(Wide(x), 8)
  }

  /** A byte string as bits, least significant bit of each byte first. */
  function Bits(data: seq<Byte>): (bits: seq<bool>)
    ensures |bits| == 8 * |data|
  {
    if data == [] then [] else Bits(data[..|data| - 1]) + OctetBits(Octet(data[|data| - 1]))
  }

  /** CRC-32 of section 8 of RFC 1952, one bit at a time. */
  function Crc(data: seq<Byte>): bv32 {
    Xor(Run(ALL_ONES, Bits(data)), ALL_ONES)
  }

  // ---------------------------------------------------------------- the register is linear and injective

  lemma {:induction false} RunConcat(c: bv32, s: seq<bool>, t: seq<bool>)
    ensures Run(c, s + t) == Run(Run(c, s), t)
    decreases |s|
  {
    hide Absorb;
    if s == [] {
      assert s + t == t;
    } else {
      assert (s + t)[1..] == s[1..] + t;
      RunConcat(Absorb(c, s[0]), s[1..], t);
    }
  }

  lemma AbsorbInjective(a: bv32, b: bv32, bit: bool)
    requires Absorb(a, bit) == Absorb(b, bit)
    ensures a == b
  {
    hide Shift, Xor, BitWord;
    ShiftInjective(Xor(a, BitWord(bit)), Xor(b, BitWord(bit)));
    XorCancels(a, BitWord(bit));
    XorCancels(b, BitWord(bit));
  }

  /** The same bits never bring two different registers together. */
  lemma {:induction false} RunInjective(a: bv32, b: bv32, s: seq<bool>)
    requires Run(a, s) == Run(b, s)
    ensures a == b
    decreases |s|
  {
    hide Absorb;
    if s != [] {
      RunInjective(Absorb(a, s[0]), Absorb(b, s[0]), s[1..]);
      AbsorbInjective(a, b, s[0]);
    }
  }

  function Differences(s: seq<bool>, t: seq<bool>): (d: seq<bool>)
    requires |s| == |t|
    ensures |d| == |s| && forall i :: 0 <= i < |s| ==> d[i] == (s[i] != t[i])
  {
    if s == [] then [] else [s[0] != t[0]] + Differences(s[1..], t[1..])
  }

  lemma BitWordXor(a: bool, b: bool)
    ensures BitWord(a != b) == Xor(BitWord(a), BitWord(b))
  {}

  lemma AbsorbXor(a: bv32, b: bv32, x: bool, y: bool)
    ensures Absorb(Xor(a, b), x != y) == Xor(Absorb(a, x), Absorb(b, y))
  {
    hide Shift, Xor, BitWord;
    BitWordXor(x, y);
    XorInterchange(a, b, BitWord(x), BitWord(y));
    ShiftXor(Xor(a, BitWord(x)), Xor(b, BitWord(y)));
  }

  /** Two runs differ exactly by the run of their differences. */
  lemma {:induction false} RunXor(a: bv32, s: seq<bool>, b: bv32, t: seq<bool>)
    requires |s| == |t|
    ensures Run(Xor(a, b), Differences(s, t)) == Xor(Run(a, s), Run(b, t))
    decreases |s|
  {
    hide Absorb, Xor;
    if s != [] {
      AbsorbXor(a, b, s[0], t[0]);
      RunXor(Absorb(a, s[0]), s[1..], Absorb(b, t[0]), t[1..]);
    }
  }

  // ---------------------------------------------------------------- words

  function ShiftN(c: bv32, n: nat): bv32
    decreases n
  {
    if n == 0 then c else ShiftN(Shift(c), n - 1)
  }

  function HalfN(w: bv32, n: nat): bv32
    decreases n
  {
    if n == 0 then w else HalfN(Half(w), n - 1)
  }

  lemma PeelBit(c: bv32, w: bv32)
    ensures Shift(Xor(c, w)) == Xor(Absorb(c, Odd(w)), Half(w))
  {
    hide *;
    // the word differs from its lowest bit by a word the step merely halves
    var low := BitWord(Odd(w));
    ShiftSplit(w);
    ShiftBit(Odd(w));
    AbsorbIs(c, Odd(w));
    ShiftXor(c, w);
    ShiftXor(c, low);
    XorCommutes(Half(w), Fold(Odd(w)));
    XorAssociates(Shift(c), Fold(Odd(w)), Half(w));
  }

  lemma AbsorbIs(c: bv32, b: bool)
    ensures Absorb(c, b) == Shift(Xor(c, BitWord(b)))
  {}

  /** Feeding the bits of a word is xor-ing the word in and shifting. */
  lemma {:induction false} Peel(c: bv32, w: bv32, n: nat)
    ensures ShiftN(Xor(c, w), n) == Xor(Run(c, WordBits(w, n)), HalfN(w, n))
    decreases n
  {
    hide Absorb, Xor, Odd, Half, Shift;
    if n > 0 {
      PeelBit(c, w);
      Peel(Absorb(c, Odd(w)), Half(w), n - 1);
    }
  }

  function Shr8(w: bv32): bv32 { w >> 8 }

  lemma HalfEight(w: bv32)
    ensures Half(Half(Half(Half(Half(Half(Half(Half(w)))))))) == Shr8(w)
  {}

  lemma HalfN8(w: bv32)
    ensures HalfN(w, 8) == Shr8(w)
  {
    hide Half, Shr8;
    HalfEight(w);
  }

  lemma ShiftN8(c: bv32)
    ensures ShiftN(c, 8) == Shift8(c)
  {
    hide Shift;
  }

  lemma ShrWide(x: bv8)
    ensures Shr8(Wide(x)) == 0
  {}

  lemma ShrXorWide(c: bv32, x: bv8)
    ensures Shr8(Xor(c, Wide(x))) == Shr8(c)
  {}

  function And(a: bv32, b: bv32): bv32 { a & b }

  lemma MaskBit(w: bv32, m: bv32)
    ensures Odd(And(w, m)) <==> Odd(w) && Odd(m)
    ensures Half(And(w, m)) == And(Half(w), Half(m))
  {}

  lemma {:induction false} MaskedBits(w: bv32, m: bv32, n: nat)
    requires forall i :: 0 <= i < n ==> WordBits(m, n)[i]
    ensures WordBits(And(w, m), n) == WordBits(w, n)
    decreases n
  {
    hide Odd, Half, And;
    if n > 0 {
      MaskBit(w, m);
      var bits := WordBits(m, n);
      assert bits == [Odd(m)] + WordBits(Half(m), n - 1);
      assert bits[0];
      var rest := WordBits(Half(m), n - 1);
      forall i | 0 <= i < n - 1 ensures rest[i] { assert bits[i + 1]; }
      MaskedBits(Half(w), Half(m), n - 1);
    }
  }

  lemma LowOctetIsMask(w: bv32)
    ensures Wide(Low8(w)) == And(w, 0xFF)
  {}

  lemma OnesBits()
    ensures forall i :: 0 <= i < 8 ==> WordBits(0xFF, 8)[i]
  {
    assert WordBits(0x1, 1) == [true];
    assert WordBits(0x3, 2) == [true, true];
    assert WordBits(0x7, 3) == [true, true, true];
    assert WordBits(0xF, 4) == [true, true, true, true];
    assert WordBits(0x1F, 5) == [true, true, true, true, true];
    assert WordBits(0x3F, 6) == [true, true, true, true, true, true];
    assert WordBits(0x7F, 7) == [true, true, true, true, true, true, true];
    assert WordBits(0xFF, 8) == [true, true, true, true, true, true, true, true];
  }

  /** The low octet of a word carries its eight low bits. */
  lemma LowOctetBits(w: bv32)
    ensures WordBits(w, 8) == OctetBits(Low8(w))
  {
    hide *;
    OnesBits();
    MaskedBits(w, 0xFF, 8);
    LowOctetIsMask(w);
    OctetBitsIs(Low8(w));
  }

  lemma Shift8Split(y: bv32)
    ensures Shift8(y) == Xor(Shift8(Wide(Low8(y))), Shr8(y))
  {
    hide *;
    var z := Wide(Low8(y));
    Peel(0, y, 8);
    Peel(0, z, 8);
    XorCommutes(0, y); XorZero(y);
    XorCommutes(0, z); XorZero(z);
    ShiftN8(y); ShiftN8(z);
    HalfN8(y); HalfN8(z);
    ShrWide(Low8(y));
    LowOctetBits(y);
    OctetBitsIs(Low8(y));
    XorZero(Run(0, WordBits(z, 8)));
  }

  lemma OctetBitsIs(x: bv8)
    ensures OctetBits(x) == WordBits(Wide(x), 8)
  {}

  lemma OctetStep(c: bv32, x: bv8)
    ensures Run(c, OctetBits(x)) == Shift8(Xor(c, Wide(x)))
  {
    hide *;
    Peel(c, Wide(x), 8);
    OctetBitsIs(x);
    ShiftN8(Xor(c, Wide(x)));
    HalfN8(Wide(x));
    ShrWide(x);
    XorZero(Run(c, OctetBits(x)));
  }

  /** One turn of the table loop is eight turns of the bit loop. */
  lemma TableStep(c: bv32, x: bv8)
    ensures Xor(Shr8(c), Crc32Table(Low8(Xor(c, Wide(x))))) == Run(c, OctetBits(x))
  {
    hide *;
    var y := Xor(c, Wide(x));
    OctetStep(c, x);
    Shift8Split(y);
    ShrXorWide(c, x);
    TableIsShift8(Low8(y));
    XorCommutes(Shr8(c), Crc32Table(Low8(y)));
  }

  lemma BitsSnoc(data: seq<Byte>, i: nat)
    requires i < |data|
    ensures Bits(data[..i + 1]) == Bits(data[..i]) + OctetBits(Octet(data[i]))
  {
    hide OctetBits, Octet;
    assert data[..i + 1][..i] == data[..i];
  }

  /** The table-driven loop of the codec computes the bit-serial checksum of every byte string. */
  method CalculateCrc32(data: seq<Byte>) returns (result: bv32)
    ensures result == Crc(data)
  {
    hide Octet, Low8, Xor, Wide, Shr8, Crc32Table, OctetBits, Run;
    var crc: bv32 := ALL_ONES;
    var i := 0;
    RunNothing(ALL_ONES);
    assert data[..0] == [];
    while i < |data|
      invariant 0 <= i <= |data|
      invariant crc == Run(ALL_ONES, Bits(data[..i]))
    {
      var index := Low8(Xor(crc, Wide(Octet(data[i]))));
      TableStep(crc, Octet(data[i]));
      BitsSnoc(data, i);
      RunConcat(ALL_ONES, Bits(data[..i]), OctetBits(Octet(data[i])));
      crc := Xor(Shr8(crc), Crc32Table(index));
      i := i + 1;
    }
    assert data[..i] == data;
    result := Xor(crc, ALL_ONES);
  }

  lemma RunNothing(c: bv32)
    ensures Run(c, []) == c
  {}
}
