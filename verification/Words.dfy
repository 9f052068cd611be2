/** Algebra of 32-bit words: exclusive or, the reflected CRC shift, and single octets. */
module Words {

  const POLYNOMIAL: bv32 := 0xEDB88320
  const ALL_ONES: bv32 := 0xFFFFFFFF

  function Xor(a: bv32, b: bv32): bv32 { a ^ b }

  function Half(a: bv32): bv32 { a >> 1 }

  predicate Odd(a: bv32) { a & 1 == 1 }

  function BitWord(b: bool): bv32 { if b then 1 else 0 }

  function Wide(x: bv8): bv32 { x as bv32 }

  function Low8(w: bv32): bv8 { (w & 0xFF) as bv8 }

  /** One step of the reflected CRC register, as in section 8 of RFC 1952. */
  function Shift(c: bv32): bv32 {
    if c & 1 == 1 then (c >> 1) ^ 0xEDB88320 else c >> 1
  }

  lemma XorCommutes(a: bv32, b: bv32)
    ensures Xor(a, b) == Xor(b, a)
  {}

  lemma XorAssociates(a: bv32, b: bv32, c: bv32)
    ensures Xor(Xor(a, b), c) == Xor(a, Xor(b, c))
  {}

  lemma XorZero(a: bv32)
    ensures Xor(a, 0) == a && Xor(a, a) == 0
  {}

  lemma XorInterchange(a: bv32, b: bv32, c: bv32, d: bv32)
    ensures Xor(Xor(a, b), Xor(c, d)) == Xor(Xor(a, c), Xor(b, d))
  {
    hide *;
    XorAssociates(a, b, Xor(c, d));
    XorAssociates(b, c, d);
    XorCommutes(b, c);
    XorAssociates(c, b, d);
    XorAssociates(a, c, Xor(b, d));
  }

  /** Exclusive or is its own inverse. */
  lemma XorCancels(a: bv32, b: bv32)
    ensures Xor(Xor(a, b), b) == a && Xor(a, Xor(a, b)) == b
  {
    hide *;
    XorAssociates(a, b, b);
    XorZero(b);
    XorZero(a);
    XorAssociates(a, a, b);
    XorCommutes(0, b);
  }

  lemma XorEqual(a: bv32, b: bv32)
    ensures Xor(a, b) == 0 <==> a == b
  {
    hide *;
    XorZero(a);
    XorCancels(a, b);
    XorCommutes(0, b);
    XorZero(b);
  }

  function Fold(odd: bool): bv32 { if odd then 0xEDB88320 else 0 }

  lemma ShiftSplit(c: bv32)
    ensures Shift(c) == Xor(Half(c), Fold(Odd(c)))
  {
    if c & 1 == 1 {
      assert Odd(c);
    } else {
      assert !Odd(c);
      XorZero(Half(c));
    }
  }

  lemma HalfXor(a: bv32, b: bv32)
    ensures Half(Xor(a, b)) == Xor(Half(a), Half(b))
  {}

  lemma OddXor(a: bv32, b: bv32)
    ensures Odd(Xor(a, b)) <==> Odd(a) != Odd(b)
  {}

  lemma FoldXor(a: bool, b: bool)
    ensures Fold(a != b) == Xor(Fold(a), Fold(b))
  {}

  /** The register step is linear over exclusive or. */
  lemma ShiftXor(a: bv32, b: bv32)
    ensures Shift(Xor(a, b)) == Xor(Shift(a), Shift(b))
  {
    hide *;
    ShiftSplit(Xor(a, b));
    HalfXor(a, b);
    OddXor(a, b);
    FoldXor(Odd(a), Odd(b));
    XorInterchange(Half(a), Half(b), Fold(Odd(a)), Fold(Odd(b)));
    ShiftSplit(a);
    ShiftSplit(b);
  }

  /** The register step loses nothing: the polynomial's top bit tells which branch was taken. */
  lemma ShiftInjective(a: bv32, b: bv32)
    requires Shift(a) == Shift(b)
    ensures a == b
  {}

  lemma ShiftBit(b: bool)
    ensures Shift(BitWord(b)) == Fold(b) && Odd(BitWord(b)) == b && Half(BitWord(b)) == 0
  {}
}
