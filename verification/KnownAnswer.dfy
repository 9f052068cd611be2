/** The check value of the checksum: the CRC of the nine digits "123456789", computed octet by octet. */
module KnownAnswer {
  import opened Bytes
  import opened Words
  import opened CrcTable
  import opened Crc32
  import opened FrameCrc

  lemma AfterOctet(done: seq<Byte>, b: Byte)
    ensures Run(ALL_ONES, Bits(done + [b])) == Xor(Shr8(Run(ALL_ONES, Bits(done))), Crc32Table(Low8(Xor(Run(ALL_ONES, Bits(done)), Wide(Octet(b))))))
  {
    hide *;
    BitsSnoc(done + [b], |done|);
    assert (done + [b])[..|done| + 1] == done + [b] && (done + [b])[..|done|] == done;
    RunConcat(ALL_ONES, Bits(done), OctetBits(Octet(b)));
    TableStep(Run(ALL_ONES, Bits(done)), Octet(b));
  }

  lemma Register1()
    ensures Xor(Shr8(0xffffffff), Crc32Table(Low8(Xor(0xffffffff, Wide(0x31))))) == 0x7c231048
  {}

  lemma Register2()
    ensures Xor(Shr8(0x7c231048), Crc32Table(Low8(Xor(0x7c231048, Wide(0x32))))) == 0xb0acbb32
  {}

  lemma Register3()
    ensures Xor(Shr8(0xb0acbb32), Crc32Table(Low8(Xor(0xb0acbb32, Wide(0x33))))) == 0x77b79c2d
  {}

  lemma Register4()
    ensures Xor(Shr8(0x77b79c2d), Crc32Table(Low8(Xor(0x77b79c2d, Wide(0x34))))) == 0x641c1f5c
  {}

  lemma Register5()
    ensures Xor(Shr8(0x641c1f5c), Crc32Table(Low8(Xor(0x641c1f5c, Wide(0x35))))) == 0x340ac5e3
  {}

  lemma Register6()
    ensures Xor(Shr8(0x340ac5e3), Crc32Table(Low8(Xor(0x340ac5e3, Wide(0x36))))) == 0xf68d2c9e
  {}

  lemma Register7()
    ensures Xor(Shr8(0xf68d2c9e), Crc32Table(Low8(Xor(0xf68d2c9e, Wide(0x37))))) == 0xaffc9660
  {}

  lemma Register8()
    ensures Xor(Shr8(0xaffc9660), Crc32Table(Low8(Xor(0xaffc9660, Wide(0x38))))) == 0x651f2550
  {}

  lemma Register9()
    ensures Xor(Shr8(0x651f2550), Crc32Table(Low8(Xor(0x651f2550, Wide(0x39))))) == 0x340bc6d9
  {}

  lemma Digits()
    ensures Octet(0x31) == 0x31
    ensures Octet(0x32) == 0x32
    ensures Octet(0x33) == 0x33
    ensures Octet(0x34) == 0x34
    ensures Octet(0x35) == 0x35
    ensures Octet(0x36) == 0x36
    ensures Octet(0x37) == 0x37
    ensures Octet(0x38) == 0x38
    ensures Octet(0x39) == 0x39
  {}

  /** The published check value of this checksum. */
  lemma CheckValue()
    ensures Crc([0x31, 0x32, 0x33, 0x34, 0x35, 0x36, 0x37, 0x38, 0x39]) == 0xCBF43926
  {
    LastXor();
    hide *;
    Digits();
    Nothing();
    AfterOctet([], 0x31);
    assert [] + [0x31] == [0x31];
    Register1();
    AfterOctet([0x31], 0x32);
    assert [0x31] + [0x32] == [0x31, 0x32];
    Register2();
    AfterOctet([0x31, 0x32], 0x33);
    assert [0x31, 0x32] + [0x33] == [0x31, 0x32, 0x33];
    Register3();
    AfterOctet([0x31, 0x32, 0x33], 0x34);
    assert [0x31, 0x32, 0x33] + [0x34] == [0x31, 0x32, 0x33, 0x34];
    Register4();
    AfterOctet([0x31, 0x32, 0x33, 0x34], 0x35);
    assert [0x31, 0x32, 0x33, 0x34] + [0x35] == [0x31, 0x32, 0x33, 0x34, 0x35];
    Register5();
    AfterOctet([0x31, 0x32, 0x33, 0x34, 0x35], 0x36);
    assert [0x31, 0x32, 0x33, 0x34, 0x35] + [0x36] == [0x31, 0x32, 0x33, 0x34, 0x35, 0x36];
    Register6();
    AfterOctet([0x31, 0x32, 0x33, 0x34, 0x35, 0x36], 0x37);
    assert [0x31, 0x32, 0x33, 0x34, 0x35, 0x36] + [0x37] == [0x31, 0x32, 0x33, 0x34, 0x35, 0x36, 0x37];
    Register7();
    AfterOctet([0x31, 0x32, 0x33, 0x34, 0x35, 0x36, 0x37], 0x38);
    assert [0x31, 0x32, 0x33, 0x34, 0x35, 0x36, 0x37] + [0x38] == [0x31, 0x32, 0x33, 0x34, 0x35, 0x36, 0x37, 0x38];
    Register8();
    AfterOctet([0x31, 0x32, 0x33, 0x34, 0x35, 0x36, 0x37, 0x38], 0x39);
    assert [0x31, 0x32, 0x33, 0x34, 0x35, 0x36, 0x37, 0x38] + [0x39] == [0x31, 0x32, 0x33, 0x34, 0x35, 0x36, 0x37, 0x38, 0x39];
    Register9();
    CrcOf([0x31, 0x32, 0x33, 0x34, 0x35, 0x36, 0x37, 0x38, 0x39]);
  }

  lemma LastXor()
    ensures Xor(0x340bc6d9, ALL_ONES) == 0xCBF43926
  {}

  lemma Nothing()
    ensures Run(ALL_ONES, Bits([])) == 0xffffffff
  {}

  lemma CrcOf(f: seq<Byte>)
    ensures Crc(f) == Xor(Run(ALL_ONES, Bits(f)), ALL_ONES)
  {}

  /** The trailer holds the checksum with its low byte first. */
  lemma TrailerOfCheckValue()
    ensures TrailerBytes(0xCBF43926) == [0x26, 0x39, 0xF4, 0xCB]
  {
    Parts();
    hide *;
    TrailerIs(0xCBF43926);
    Values();
  }

  lemma TrailerIs(w: bv32)
    ensures TrailerBytes(w)
      == [OctetValue(Low8(w)), OctetValue(Low8(Shr8(w))), OctetValue(Low8(Shr8(Shr8(w)))), OctetValue(Low8(Shr8(Shr8(Shr8(w)))))]
  {}

  lemma Parts()
    ensures Low8(0xCBF43926) == 0x26 && Shr8(0xCBF43926) == 0xCBF439
    ensures Low8(0xCBF439) == 0x39 && Shr8(0xCBF439) == 0xCBF4
    ensures Low8(0xCBF4) == 0xF4 && Shr8(0xCBF4) == 0xCB && Low8(0xCB) == 0xCB
  {}

  lemma Values()
    ensures OctetValue(0x26) == 0x26 && OctetValue(0x39) == 0x39 && OctetValue(0xF4) == 0xF4 && OctetValue(0xCB) == 0xCB
  {}
}
