/** What the four-byte trailer guarantees: the residue test and burst detection. */
module FrameCrc {
  import opened Bytes
  import opened Words
  import opened CrcTable
  import opened Crc32

  // ---------------------------------------------------------------- the trailer

  function Join(x0: bv8, x1: bv8, x2: bv8, x3: bv8): bv32 {
    Wide(x0) | (Wide(x1) << 8) | (Wide(x2) << 16) | (Wide(x3) << 24)
  }

  /** The trailer as the decoders copy it into a uint32_t on a little-endian host. */
  function TrailerWord(t: seq<Byte>): bv32
    requires |t| == 4
  {
    Join(Octet(t[0]), Octet(t[1]), Octet(t[2]), Octet(t[3]))
  }

  /** The bytes `encode` copies out of its checksum word. */
  function TrailerBytes(w: bv32): (t: seq<Byte>)
    ensures |t| == 4
  {
    [OctetValue(Low8(w)), OctetValue(Low8(Shr8(w))),
     OctetValue(Low8(Shr8(Shr8(w)))), OctetValue(Low8(Shr8(Shr8(Shr8(w)))))]
  }

  lemma JoinOctets(w: bv32)
    ensures Join(Low8(w), Low8(Shr8(w)), Low8(Shr8(Shr8(w))), Low8(Shr8(Shr8(Shr8(w))))) == w
  {}

  lemma JoinLow(x0: bv8, x1: bv8, x2: bv8, x3: bv8)
    ensures Low8(Join(x0, x1, x2, x3)) == x0
    ensures Shr8(Join(x0, x1, x2, x3)) == Join(x1, x2, x3, 0)
  {}

  lemma TrailerRoundTrip(w: bv32)
    ensures TrailerWord(TrailerBytes(w)) == w
  {
    hide Octet, OctetValue, Low8, Shr8, Join;
    OctetOfValue(Low8(w));
    OctetOfValue(Low8(Shr8(w)));
    OctetOfValue(Low8(Shr8(Shr8(w))));
    OctetOfValue(Low8(Shr8(Shr8(Shr8(w)))));
    JoinOctets(w);
  }

  lemma {:induction false} WordBitsSplit(w: bv32, m: nat, n: nat)
    ensures WordBits(w, m + n) == WordBits(w, m) + WordBits(HalfN(w, m), n)
    decreases m
  {
    hide Odd, Half;
    if m > 0 {
      WordBitsSplit(Half(w), m - 1, n);
    }
  }

  lemma {:induction false} HalfNSplit(w: bv32, m: nat, n: nat)
    ensures HalfN(w, m + n) == HalfN(HalfN(w, m), n)
    decreases m
  {
    hide Half;
    if m > 0 {
      HalfNSplit(Half(w), m - 1, n);
    }
  }

  lemma PeelOctet(w: bv32, n: nat)
    ensures WordBits(w, 8 + n) == OctetBits(Low8(w)) + WordBits(Shr8(w), n)
    ensures HalfN(w, 8 + n) == HalfN(Shr8(w), n)
  {
    hide Odd, Half, Shr8, Low8, OctetBits;
    WordBitsSplit(w, 8, n);
    HalfNSplit(w, 8, n);
    HalfN8(w);
    LowOctetBits(w);
  }

  lemma JoinZero()
    ensures Join(0, 0, 0, 0) == 0
  {}

  /** The four trailer bytes spell the bits of the trailer word, and nothing is left above them. */
  lemma WordAsOctets(x0: bv8, x1: bv8, x2: bv8, x3: bv8)
    ensures WordBits(Join(x0, x1, x2, x3), 32) == OctetBits(x0) + OctetBits(x1) + OctetBits(x2) + OctetBits(x3)
    ensures HalfN(Join(x0, x1, x2, x3), 32) == 0
  {
    hide *;
    JoinLow(x0, x1, x2, x3);
    JoinLow(x1, x2, x3, 0);
    JoinLow(x2, x3, 0, 0);
    JoinLow(x3, 0, 0, 0);
    JoinZero();
    PeelOctet(Join(x0, x1, x2, x3), 24);
    PeelOctet(Join(x1, x2, x3, 0), 16);
    PeelOctet(Join(x2, x3, 0, 0), 8);
    PeelOctet(Join(x3, 0, 0, 0), 0);
    NoBits(0);
    calc {
      WordBits(Join(x0, x1, x2, x3), 32);
      OctetBits(x0) + (OctetBits(x1) + (OctetBits(x2) + (OctetBits(x3) + [])));
      OctetBits(x0) + OctetBits(x1) + OctetBits(x2) + OctetBits(x3);
    }
  }

  lemma NoBits(w: bv32)
    ensures WordBits(w, 0) == [] && HalfN(w, 0) == w
  {}

  lemma {:induction false} BitsConcat(a: seq<Byte>, b: seq<Byte>)
    ensures Bits(a + b) == Bits(a) + Bits(b)
    decreases |b|
  {
    hide OctetBits, Octet;
    if b == [] {
      assert a + b == a;
    } else {
      var b' := b[..|b| - 1];
      assert (a + b)[..|a + b| - 1] == a + b';
      BitsConcat(a, b');
    }
  }

  lemma BitsOne(b: Byte)
    ensures Bits([b]) == OctetBits(Octet(b))
  {
    hide OctetBits, Octet;
    assert [b][..0] == [];
  }

  lemma TrailerBits(t: seq<Byte>)
    requires |t| == 4
    ensures Bits(t) == WordBits(TrailerWord(t), 32) && HalfN(TrailerWord(t), 32) == 0
  {
    hide OctetBits, Octet, Join, WordBits, HalfN, Bits;
    WordAsOctets(Octet(t[0]), Octet(t[1]), Octet(t[2]), Octet(t[3]));
    assert t == [t[0]] + [t[1]] + [t[2]] + [t[3]];
    BitsConcat([t[0]] + [t[1]] + [t[2]], [t[3]]);
    BitsConcat([t[0]] + [t[1]], [t[2]]);
    BitsConcat([t[0]], [t[1]]);
    BitsOne(t[0]); BitsOne(t[1]); BitsOne(t[2]); BitsOne(t[3]);
  }

  // ---------------------------------------------------------------- residue

  const RESIDUE: bv32 := 0x2144DF1C

  /** The check at the head of both decoders. */
  predicate CrcOk(frame: seq<Byte>) {
    && |frame| >= 4
    && TrailerWord(frame[|frame| - 4..]) == Crc(frame[..|frame| - 4])
  }

  lemma {:induction false} ShiftNInjective(a: bv32, b: bv32, n: nat)
    requires ShiftN(a, n) == ShiftN(b, n)
    ensures a == b
    decreases n
  {
    hide Shift;
    if n > 0 {
      ShiftNInjective(Shift(a), Shift(b), n - 1);
      ShiftInjective(a, b);
    }
  }

  lemma {:induction false} ShiftNSplit(c: bv32, m: nat, n: nat)
    ensures ShiftN(c, m + n) == ShiftN(ShiftN(c, m), n)
    decreases m
  {
    hide Shift;
    if m > 0 { ShiftNSplit(Shift(c), m - 1, n); }
  }

  lemma OnesShifted8()
    ensures Shift8(0xFFFFFFFF) == 0x2dfd1072 && Shift8(0x2dfd1072) == 0xbe26ed00
  {}

  lemma OnesShifted16()
    ensures Shift8(0xbe26ed00) == 0xbe26ed && Shift8(0xbe26ed) == 0xdebb20e3
  {}

  lemma OnesShifted()
    ensures Xor(ShiftN(ALL_ONES, 32), ALL_ONES) == RESIDUE
  {
    hide Shift8, ShiftN;
    OnesShifted8(); OnesShifted16();
    ShiftNSplit(ALL_ONES, 8, 24); ShiftN8(ALL_ONES);
    ShiftNSplit(0x2dfd1072, 8, 16); ShiftN8(0x2dfd1072);
    ShiftNSplit(0xbe26ed00, 8, 8); ShiftN8(0xbe26ed00);
    ShiftN8(0xbe26ed);
  }

  /** A frame passes the trailer check exactly when the checksum of the whole frame is one constant. */
  lemma ResidueCriterion(frame: seq<Byte>)
    requires |frame| >= 4
    ensures CrcOk(frame) <==> Crc(frame) == RESIDUE
  {
    hide Bits, Run, WordBits, HalfN, TrailerWord, Xor, ShiftN;
    var data, t := frame[..|frame| - 4], frame[|frame| - 4..];
    assert frame == data + t;
    var c, w := Run(ALL_ONES, Bits(data)), TrailerWord(t);
    BitsConcat(data, t);
    RunConcat(ALL_ONES, Bits(data), Bits(t));
    TrailerBits(t);
    Peel(c, w, 32);
    XorZero(Run(c, Bits(t)));
    assert Crc(frame) == Xor(ShiftN(Xor(c, w), 32), ALL_ONES);
    OnesShifted();
    if w == Xor(c, ALL_ONES) {
      XorCancels(c, ALL_ONES);
    }
    if Crc(frame) == RESIDUE {
      XorCancels(ShiftN(Xor(c, w), 32), ALL_ONES);
      XorCancels(ShiftN(ALL_ONES, 32), ALL_ONES);
      ShiftNInjective(Xor(c, w), ALL_ONES, 32);
      XorCancels(c, w);
    }
  }

  // ---------------------------------------------------------------- damaged frames

  function Shr24(w: bv32): bv32 { w >> 24 }

  predicate TopBit(w: bv32) { w >> 31 == 1 }

  lemma ShrThrice(w: bv32)
    ensures Shr8(Shr8(Shr8(w))) == Shr24(w)
  {}

  lemma HalfSeven(w: bv32)
    ensures TopBit(w) ==> Half(Half(Half(Half(Half(Half(Half(Shr24(w)))))))) != 0
  {}

  lemma {:induction false} HalfNZero(n: nat)
    ensures HalfN(0, n) == 0
    decreases n
  {
    if n > 0 { HalfNZero(n - 1); }
  }

  lemma HalfN31(w: bv32)
    requires TopBit(w)
    ensures HalfN(w, 31) != 0
  {
    hide *;
    HalfNSplit(w, 8, 23); HalfN8(w);
    HalfNSplit(Shr8(w), 8, 15); HalfN8(Shr8(w));
    HalfNSplit(Shr8(Shr8(w)), 8, 7); HalfN8(Shr8(Shr8(w)));
    ShrThrice(w);
    HalfSeven(w);
    HalfN7(Shr24(w));
  }

  /** A register with its top bit set needs all 32 halvings to vanish. */
  lemma TopBitSurvives(w: bv32, n: nat)
    requires TopBit(w) && n <= 31
    ensures HalfN(w, n) != 0
  {
    hide *;
    HalfN31(w);
    HalfNSplit(w, n, 31 - n);
    HalfNZero(31 - n);
  }

  lemma HalfN7(w: bv32)
    ensures HalfN(w, 7) == Half(Half(Half(Half(Half(Half(Half(w)))))))
  {
    hide Half;
  }

  lemma ShiftTopBit(y: bv32)
    ensures Shift(y) == Half(y) || TopBit(Shift(y))
  {}

  lemma HalfXorBit(c: bv32, b: bool)
    ensures Half(Xor(c, BitWord(b))) == Half(c)
  {}

  /** Fewer than 32 bits can only bring a register down to zero if it was that small before. */
  lemma {:induction false} ZeroRunBound(c: bv32, d: seq<bool>)
    requires |d| <= 31 && Run(c, d) == 0
    ensures HalfN(c, |d|) == 0
    decreases |d|
  {
    hide Shift, Half, Xor, BitWord, TopBit;
    if d != [] {
      var y := Xor(c, BitWord(d[0]));
      ZeroRunBound(Absorb(c, d[0]), d[1..]);
      ShiftTopBit(y);
      HalfXorBit(c, d[0]);
      if TopBit(Shift(y)) {
        TopBitSurvives(Shift(y), |d| - 1);
        assert false;
      }
    }
  }

  lemma AbsorbZero()
    ensures Absorb(0, false) == 0 && Absorb(0, true) == POLYNOMIAL && TopBit(POLYNOMIAL)
  {}

  /** No non-zero pattern of up to 32 bits is a codeword. */
  lemma {:induction false} ShortPatternsAreSeen(d: seq<bool>)
    requires |d| <= 32 && Run(0, d) == 0
    ensures forall i :: 0 <= i < |d| ==> !d[i]
    decreases |d|
  {
    hide Absorb, TopBit;
    if d != [] {
      AbsorbZero();
      if d[0] {
        ZeroRunBound(POLYNOMIAL, d[1..]);
        TopBitSurvives(POLYNOMIAL, |d| - 1);
        assert false;
      } else {
        ShortPatternsAreSeen(d[1..]);
        forall i | 0 <= i < |d| ensures !d[i] { if i > 0 { assert d[i] == d[1..][i - 1]; } }
      }
    }
  }

  lemma OctetBitsInjective(x: bv8, y: bv8)
    requires OctetBits(x) == OctetBits(y)
    ensures x == y
  {
    hide *;
    WordAsOctets(x, 0, 0, 0);
    WordAsOctets(y, 0, 0, 0);
    WordBitsInjective(Join(x, 0, 0, 0), Join(y, 0, 0, 0), 32);
    JoinLow(x, 0, 0, 0);
    JoinLow(y, 0, 0, 0);
  }

  lemma BitAndHalf(v: bv32, w: bv32)
    requires Half(v) == Half(w) && Odd(v) == Odd(w)
    ensures v == w
  {}

  lemma {:induction false} WordBitsInjective(v: bv32, w: bv32, n: nat)
    requires WordBits(v, n) == WordBits(w, n) && HalfN(v, n) == HalfN(w, n)
    ensures v == w
    decreases n
  {
    hide Odd, Half;
    if n > 0 {
      assert WordBits(v, n)[0] == Odd(v) && WordBits(w, n)[0] == Odd(w);
      assert WordBits(v, n)[1..] == WordBits(Half(v), n - 1) && WordBits(w, n)[1..] == WordBits(Half(w), n - 1);
      WordBitsInjective(Half(v), Half(w), n - 1);
      BitAndHalf(v, w);
    }
  }

  lemma {:induction false} BitsInjective(f: seq<Byte>, g: seq<Byte>)
    requires Bits(f) == Bits(g)
    ensures f == g
    decreases |f|
  {
    hide OctetBits, Octet;
    if f != [] {
      var n := |f| - 1;
      var f', g' := f[..n], g[..n];
      assert Bits(f)[..8 * n] == Bits(f') && Bits(g)[..8 * n] == Bits(g');
      assert Bits(f)[8 * n..] == OctetBits(Octet(f[n])) && Bits(g)[8 * n..] == OctetBits(Octet(g[n]));
      BitsInjective(f', g');
      OctetBitsInjective(Octet(f[n]), Octet(g[n]));
      OctetInjective(f[n], g[n]);
      assert f == f' + [f[n]] && g == g' + [g[n]];
    }
  }

  /** Two frames differ at most in the 32 consecutive bits from bit `at`, each byte taken low bit first. */
  predicate SameOutsideBurst(f: seq<Byte>, g: seq<Byte>, at: nat) {
    && |f| == |g|
    && forall i :: 0 <= i < 8 * |f| && !(at <= i < at + 32) ==> Bits(f)[i] == Bits(g)[i]
  }

  lemma EqualRunsSameWindow(c: bv32, s: seq<bool>, t: seq<bool>)
    requires |s| == |t| <= 32 && Run(c, s) == Run(c, t)
    ensures s == t
  {
    hide Run, Xor;
    RunXor(c, s, c, t);
    XorZero(c);
    XorZero(Run(c, s));
    ShortPatternsAreSeen(Differences(s, t));
    forall i | 0 <= i < |s| ensures s[i] == t[i] { assert !Differences(s, t)[i]; }
  }

  lemma CrcDeterminesRun(f: seq<Byte>, g: seq<Byte>)
    requires Crc(f) == Crc(g)
    ensures Run(ALL_ONES, Bits(f)) == Run(ALL_ONES, Bits(g))
  {
    hide Run, Xor, Bits;
    XorCancels(Run(ALL_ONES, Bits(f)), ALL_ONES);
    XorCancels(Run(ALL_ONES, Bits(g)), ALL_ONES);
  }

  /**
    Burst detection: of two different frames that agree outside 32 consecutive bits
    (whether in the data, in the trailer or across the border) at most one passes the check.
   */
  lemma BurstDetected(f: seq<Byte>, g: seq<Byte>, at: nat)
    requires SameOutsideBurst(f, g, at) && CrcOk(f) && f != g
    ensures !CrcOk(g)
  {
    hide Run, Bits, CrcOk, Crc;
    if CrcOk(g) {
      CrcOkLength(f); CrcOkLength(g);
      ResidueCriterion(f);
      ResidueCriterion(g);
      CrcDeterminesRun(f, g);
      SameBurstSameBits(Bits(f), Bits(g), at);
      BitsInjective(f, g);
    }
  }

  lemma CrcOkLength(f: seq<Byte>)
    requires CrcOk(f)
    ensures |f| >= 4
  {}

  lemma WindowDetermined(head: seq<bool>, w: seq<bool>, v: seq<bool>, tail: seq<bool>)
    requires |w| == |v| <= 32
    requires Run(ALL_ONES, head + w + tail) == Run(ALL_ONES, head + v + tail)
    ensures w == v
  {
    hide *;
    RunConcat(ALL_ONES, head + w, tail);
    RunConcat(ALL_ONES, head + v, tail);
    RunConcat(ALL_ONES, head, w);
    RunConcat(ALL_ONES, head, v);
    RunInjective(Run(ALL_ONES, head + w), Run(ALL_ONES, head + v), tail);
    EqualRunsSameWindow(Run(ALL_ONES, head), w, v);
  }

  lemma SameBurstSameBits(s: seq<bool>, t: seq<bool>, at: nat)
    requires |s| == |t| && Run(ALL_ONES, s) == Run(ALL_ONES, t)
    requires forall i :: 0 <= i < |s| && !(at <= i < at + 32) ==> s[i] == t[i]
    ensures s == t
  {
    hide *;
    var lo := if at < |s| then at else |s|;
    var hi := if at + 32 < |s| then at + 32 else |s|;
    assert s == s[..lo] + s[lo..hi] + s[hi..];
    assert t == s[..lo] + t[lo..hi] + s[hi..];
    WindowDetermined(s[..lo], s[lo..hi], t[lo..hi], s[hi..]);
  }

  /** For frames of equal length the check misses a change exactly when the change is itself a codeword. */
  lemma UndetectedChange(f: seq<Byte>, g: seq<Byte>)
    requires |f| == |g| && CrcOk(f)
    ensures CrcOk(g) <==> Run(0, Differences(Bits(f), Bits(g))) == 0
  {
    hide Run, Bits, Crc, CrcOk, Xor;
    CrcOkLength(f);
    ResidueCriterion(f);
    ResidueCriterion(g);
    RunXor(ALL_ONES, Bits(f), ALL_ONES, Bits(g));
    XorZero(ALL_ONES);
    var a, b := Run(ALL_ONES, Bits(f)), Run(ALL_ONES, Bits(g));
    XorEqual(a, b);
    CrcIs(f); CrcIs(g);
    XorCancels(a, ALL_ONES);
    XorCancels(b, ALL_ONES);
  }

  lemma CrcIs(f: seq<Byte>)
    ensures Crc(f) == Xor(Run(ALL_ONES, Bits(f)), ALL_ONES)
  {}

  const UNSEEN_PATTERN: seq<bool> := [true] + WordBits(POLYNOMIAL, 32)

  lemma UnseenPatternIsCodeword()
    ensures |UNSEEN_PATTERN| == 33 && UNSEEN_PATTERN[0] && Run(0, UNSEEN_PATTERN) == 0
  {
    hide Absorb, WordBits, HalfN, ShiftN, Xor;
    AbsorbZero();
    Peel(POLYNOMIAL, POLYNOMIAL, 32);
    XorZero(POLYNOMIAL);
    ShiftNZero(32);
    PolynomialOctets();
    XorZero(Run(POLYNOMIAL, WordBits(POLYNOMIAL, 32)));
    assert UNSEEN_PATTERN[1..] == WordBits(POLYNOMIAL, 32);
  }

  function Zeros(n: nat): (s: seq<bool>)
    ensures |s| == n && forall i :: 0 <= i < n ==> !s[i]
  {
    if n == 0 then [] else [false] + Zeros(n - 1)
  }

  lemma {:induction false} RunZeros(n: nat)
    ensures Run(0, Zeros(n)) == 0
    decreases n
  {
    hide Absorb;
    if n > 0 {
      AbsorbZero();
      assert Zeros(n)[1..] == Zeros(n - 1);
      RunZeros(n - 1);
    }
  }

  /** 32 bits is the best possible: one fixed 33-bit change is missed wherever it strikes. */
  lemma ThirtyThreeBitsCanHide(f: seq<Byte>, g: seq<Byte>, before: nat, after: nat)
    requires |f| == |g| && CrcOk(f)
    requires Differences(Bits(f), Bits(g)) == Zeros(before) + UNSEEN_PATTERN + Zeros(after)
    ensures CrcOk(g) && f != g
  {
    hide Run, Bits, CrcOk, UNSEEN_PATTERN;
    UnseenPatternIsCodeword();
    RunConcat(0, Zeros(before) + UNSEEN_PATTERN, Zeros(after));
    RunConcat(0, Zeros(before), UNSEEN_PATTERN);
    RunZeros(before);
    RunZeros(after);
    UndetectedChange(f, g);
    assert Differences(Bits(f), Bits(g))[before];
  }

  // ---------------------------------------------------------------- the damaged frame, built from its bits

  function Place(b: bool, weight: bv8): bv8 { if b then weight else 0 }

  function JoinBits(b0: bool, b1: bool, b2: bool, b3: bool, b4: bool, b5: bool, b6: bool, b7: bool): bv8 {
    Place(b0, 1) | Place(b1, 2) | Place(b2, 4) | Place(b3, 8)
    | Place(b4, 16) | Place(b5, 32) | Place(b6, 64) | Place(b7, 128)
  }

  function OctetOf(bits: seq<bool>): bv8
    requires |bits| == 8
  {
    JoinBits(bits[0], bits[1], bits[2], bits[3], bits[4], bits[5], bits[6], bits[7])
  }

  lemma PlacedBits(b0: bool, b1: bool, b2: bool, b3: bool, b4: bool, b5: bool, b6: bool, b7: bool)
    ensures var w := Wide(JoinBits(b0, b1, b2, b3, b4, b5, b6, b7));
      && Odd(w) == b0
      && Odd(Half(w)) == b1
      && Odd(Half(Half(w))) == b2
      && Odd(Half(Half(Half(w)))) == b3
      && Odd(Half(Half(Half(Half(w))))) == b4
      && Odd(Half(Half(Half(Half(Half(w)))))) == b5
      && Odd(Half(Half(Half(Half(Half(Half(w))))))) == b6
      && Odd(Half(Half(Half(Half(Half(Half(Half(w)))))))) == b7
  {}

  lemma {:induction false} BitAt(w: bv32, n: nat, i: nat)
    requires i < n
    ensures WordBits(w, n)[i] == Odd(HalfN(w, i))
    decreases n
  {
    hide Odd, Half;
    if i > 0 { BitAt(Half(w), n - 1, i - 1); }
  }

  lemma HalfNext(w: bv32, n: nat)
    ensures HalfN(w, n + 1) == Half(HalfN(w, n))
  {
    hide Half;
    HalfNSplit(w, n, 1);
    assert HalfN(HalfN(w, n), 1) == HalfN(Half(HalfN(w, n)), 0);
  }

  lemma FirstHalves(w: bv32)
    ensures HalfN(w, 0) == w
    ensures HalfN(w, 1) == Half(w)
    ensures HalfN(w, 2) == Half(Half(w))
    ensures HalfN(w, 3) == Half(Half(Half(w)))
    ensures HalfN(w, 4) == Half(Half(Half(Half(w))))
    ensures HalfN(w, 5) == Half(Half(Half(Half(Half(w)))))
    ensures HalfN(w, 6) == Half(Half(Half(Half(Half(Half(w))))))
    ensures HalfN(w, 7) == Half(Half(Half(Half(Half(Half(Half(w)))))))
  {
    NoBits(w);
    hide *;
    HalfNext(w, 0); HalfNext(w, 1); HalfNext(w, 2); HalfNext(w, 3);
    HalfNext(w, 4); HalfNext(w, 5); HalfNext(w, 6);
  }

  lemma BitsFromHalves(w: bv32, bits: seq<bool>)
    requires |bits| == 8
    requires Odd(w) == bits[0]
    requires Odd(Half(w)) == bits[1]
    requires Odd(Half(Half(w))) == bits[2]
    requires Odd(Half(Half(Half(w)))) == bits[3]
    requires Odd(Half(Half(Half(Half(w))))) == bits[4]
    requires Odd(Half(Half(Half(Half(Half(w)))))) == bits[5]
    requires Odd(Half(Half(Half(Half(Half(Half(w))))))) == bits[6]
    requires Odd(Half(Half(Half(Half(Half(Half(Half(w)))))))) == bits[7]
    ensures WordBits(w, 8) == bits
  {
    hide *;
    FirstHalves(w);
    forall i | 0 <= i < 8 ensures WordBits(w, 8)[i] == bits[i] { BitAt(w, 8, i); }
  }

  lemma OctetBitsOf(bits: seq<bool>)
    requires |bits| == 8
    ensures OctetBits(OctetOf(bits)) == bits
  {
    hide WordBits, Wide, Odd, Half, JoinBits, OctetBits;
    OctetBitsIs(OctetOf(bits));
    PlacedBits(bits[0], bits[1], bits[2], bits[3], bits[4], bits[5], bits[6], bits[7]);
    BitsFromHalves(Wide(OctetOf(bits)), bits);
  }

  lemma HalvesOfOctet(x: bv8)
    ensures var w := Wide(x);
      && Odd(w) == OctetBit(x, 0)
      && Odd(Half(w)) == OctetBit(x, 1)
      && Odd(Half(Half(w))) == OctetBit(x, 2)
      && Odd(Half(Half(Half(w)))) == OctetBit(x, 3)
      && Odd(Half(Half(Half(Half(w))))) == OctetBit(x, 4)
      && Odd(Half(Half(Half(Half(Half(w)))))) == OctetBit(x, 5)
      && Odd(Half(Half(Half(Half(Half(Half(w))))))) == OctetBit(x, 6)
      && Odd(Half(Half(Half(Half(Half(Half(Half(w)))))))) == OctetBit(x, 7)
  {}

  /** The checksum takes the bits of every byte in binary, the least significant first. */
  lemma OctetBitsAreBinary(b: Byte, i: nat)
    requires i < 8
    ensures OctetBits(Octet(b))[i] <==> b / Pow2(i) % 2 == 1
  {
    hide *;
    var x := Octet(b);
    OctetBitsIs(x);
    HalvesOfOctet(x);
    FirstHalves(Wide(x));
    BitAt(Wide(x), 8, i);
    OctetIsBinary(b, i);
  }

  /** The byte string whose bits these are. */
  function BytesOf(bits: seq<bool>): (data: seq<Byte>)
    requires |bits| % 8 == 0
    ensures |data| == |bits| / 8
  {
    if bits == [] then [] else BytesOf(bits[..|bits| - 8]) + [OctetValue(OctetOf(bits[|bits| - 8..]))]
  }

  lemma {:induction false} BitsOfBytes(bits: seq<bool>)
    requires |bits| % 8 == 0
    ensures Bits(BytesOf(bits)) == bits
    decreases |bits|
  {
    hide OctetOf, OctetValue, Octet, OctetBits;
    if bits != [] {
      var n := |bits| - 8;
      var last := OctetOf(bits[n..]);
      BitsOfBytes(bits[..n]);
      OctetBitsOf(bits[n..]);
      OctetOfValue(last);
      var data := BytesOf(bits);
      assert data[..|data| - 1] == BytesOf(bits[..n]);
    }
  }

  /** Every accepted frame has such an undetected twin for every position of the 33 bits. */
  lemma HiddenDamageExists(f: seq<Byte>, before: nat) returns (g: seq<Byte>)
    requires CrcOk(f) && before + 33 <= 8 * |f|
    ensures |g| == |f| && g != f && CrcOk(g)
    ensures Differences(Bits(f), Bits(g)) == Zeros(before) + UNSEEN_PATTERN + Zeros(8 * |f| - before - 33)
  {
    hide CrcOk, UNSEEN_PATTERN, Bits, BytesOf;
    UnseenPatternIsCodeword();
    var pattern := Zeros(before) + UNSEEN_PATTERN + Zeros(8 * |f| - before - 33);
    var bits := Differences(Bits(f), pattern);
    g := BytesOf(bits);
    BitsOfBytes(bits);
    assert Differences(Bits(f), Bits(g)) == pattern;
    ThirtyThreeBitsCanHide(f, g, before, 8 * |f| - before - 33);
  }

  lemma PolynomialOctets()
    ensures HalfN(POLYNOMIAL, 32) == 0
  {
    hide HalfN;
    WordAsOctets(0x20, 0x83, 0xB8, 0xED);
    assert Join(0x20, 0x83, 0xB8, 0xED) == POLYNOMIAL;
  }

  lemma {:induction false} ShiftNZero(n: nat)
    ensures ShiftN(0, n) == 0
    decreases n
  {
    if n > 0 { ShiftNZero(n - 1); }
  }
}
