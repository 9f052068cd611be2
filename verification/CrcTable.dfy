/**
  The 256-entry lookup table of the codec, written as sixteen rows of sixteen,
  and the proof that every entry is eight register steps of its index.
 */
module CrcTable {
  import opened Words

  function Row0(lo: bv4): bv32 {
    match lo
    case 0 => 0x00000000 case 1 => 0x77073096 case 2 => 0xee0e612c case 3 => 0x990951ba
    case 4 => 0x076dc419 case 5 => 0x706af48f case 6 => 0xe963a535 case 7 => 0x9e6495a3
    case 8 => 0x0edb8832 case 9 => 0x79dcb8a4 case 10 => 0xe0d5e91e case 11 => 0x97d2d988
    case 12 => 0x09b64c2b case 13 => 0x7eb17cbd case 14 => 0xe7b82d07 case _ => 0x90bf1d91
  }

  function Row1(lo: bv4): bv32 {
    match lo
    case 0 => 0x1db71064 case 1 => 0x6ab020f2 case 2 => 0xf3b97148 case 3 => 0x84be41de
    case 4 => 0x1adad47d case 5 => 0x6ddde4eb case 6 => 0xf4d4b551 case 7 => 0x83d385c7
    case 8 => 0x136c9856 case 9 => 0x646ba8c0 case 10 => 0xfd62f97a case 11 => 0x8a65c9ec
    case 12 => 0x14015c4f case 13 => 0x63066cd9 case 14 => 0xfa0f3d63 case _ => 0x8d080df5
  }

  function Row2(lo: bv4): bv32 {
    match lo
    case 0 => 0x3b6e20c8 case 1 => 0x4c69105e case 2 => 0xd56041e4 case 3 => 0xa2677172
    case 4 => 0x3c03e4d1 case 5 => 0x4b04d447 case 6 => 0xd20d85fd case 7 => 0xa50ab56b
    case 8 => 0x35b5a8fa case 9 => 0x42b2986c case 10 => 0xdbbbc9d6 case 11 => 0xacbcf940
    case 12 => 0x32d86ce3 case 13 => 0x45df5c75 case 14 => 0xdcd60dcf case _ => 0xabd13d59
  }

  function Row3(lo: bv4): bv32 {
    match lo
    case 0 => 0x26d930ac case 1 => 0x51de003a case 2 => 0xc8d75180 case 3 => 0xbfd06116
    case 4 => 0x21b4f4b5 case 5 => 0x56b3c423 case 6 => 0xcfba9599 case 7 => 0xb8bda50f
    case 8 => 0x2802b89e case 9 => 0x5f058808 case 10 => 0xc60cd9b2 case 11 => 0xb10be924
    case 12 => 0x2f6f7c87 case 13 => 0x58684c11 case 14 => 0xc1611dab case _ => 0xb6662d3d
  }

  function Row4(lo: bv4): bv32 {
    match lo
    case 0 => 0x76dc4190 case 1 => 0x01db7106 case 2 => 0x98d220bc case 3 => 0xefd5102a
    case 4 => 0x71b18589 case 5 => 0x06b6b51f case 6 => 0x9fbfe4a5 case 7 => 0xe8b8d433
    case 8 => 0x7807c9a2 case 9 => 0x0f00f934 case 10 => 0x9609a88e case 11 => 0xe10e9818
    case 12 => 0x7f6a0dbb case 13 => 0x086d3d2d case 14 => 0x91646c97 case _ => 0xe6635c01
  }

  function Row5(lo: bv4): bv32 {
    match lo
    case 0 => 0x6b6b51f4 case 1 => 0x1c6c6162 case 2 => 0x856530d8 case 3 => 0xf262004e
    case 4 => 0x6c0695ed case 5 => 0x1b01a57b case 6 => 0x8208f4c1 case 7 => 0xf50fc457
    case 8 => 0x65b0d9c6 case 9 => 0x12b7e950 case 10 => 0x8bbeb8ea case 11 => 0xfcb9887c
    case 12 => 0x62dd1ddf case 13 => 0x15da2d49 case 14 => 0x8cd37cf3 case _ => 0xfbd44c65
  }

  function Row6(lo: bv4): bv32 {
    match lo
    case 0 => 0x4db26158 case 1 => 0x3ab551ce case 2 => 0xa3bc0074 case 3 => 0xd4bb30e2
    case 4 => 0x4adfa541 case 5 => 0x3dd895d7 case 6 => 0xa4d1c46d case 7 => 0xd3d6f4fb
    case 8 => 0x4369e96a case 9 => 0x346ed9fc case 10 => 0xad678846 case 11 => 0xda60b8d0
    case 12 => 0x44042d73 case 13 => 0x33031de5 case 14 => 0xaa0a4c5f case _ => 0xdd0d7cc9
  }

  function Row7(lo: bv4): bv32 {
    match lo
    case 0 => 0x5005713c case 1 => 0x270241aa case 2 => 0xbe0b1010 case 3 => 0xc90c2086
    case 4 => 0x5768b525 case 5 => 0x206f85b3 case 6 => 0xb966d409 case 7 => 0xce61e49f
    case 8 => 0x5edef90e case 9 => 0x29d9c998 case 10 => 0xb0d09822 case 11 => 0xc7d7a8b4
    case 12 => 0x59b33d17 case 13 => 0x2eb40d81 case 14 => 0xb7bd5c3b case _ => 0xc0ba6cad
  }

  function Row8(lo: bv4): bv32 {
    match lo
    case 0 => 0xedb88320 case 1 => 0x9abfb3b6 case 2 => 0x03b6e20c case 3 => 0x74b1d29a
    case 4 => 0xead54739 case 5 => 0x9dd277af case 6 => 0x04db2615 case 7 => 0x73dc1683
    case 8 => 0xe3630b12 case 9 => 0x94643b84 case 10 => 0x0d6d6a3e case 11 => 0x7a6a5aa8
    case 12 => 0xe40ecf0b case 13 => 0x9309ff9d case 14 => 0x0a00ae27 case _ => 0x7d079eb1
  }

  function Row9(lo: bv4): bv32 {
    match lo
    case 0 => 0xf00f9344 case 1 => 0x8708a3d2 case 2 => 0x1e01f268 case 3 => 0x6906c2fe
    case 4 => 0xf762575d case 5 => 0x806567cb case 6 => 0x196c3671 case 7 => 0x6e6b06e7
    case 8 => 0xfed41b76 case 9 => 0x89d32be0 case 10 => 0x10da7a5a case 11 => 0x67dd4acc
    case 12 => 0xf9b9df6f case 13 => 0x8ebeeff9 case 14 => 0x17b7be43 case _ => 0x60b08ed5
  }

  function RowA(lo: bv4): bv32 {
    match lo
    case 0 => 0xd6d6a3e8 case 1 => 0xa1d1937e case 2 => 0x38d8c2c4 case 3 => 0x4fdff252
    case 4 => 0xd1bb67f1 case 5 => 0xa6bc5767 case 6 => 0x3fb506dd case 7 => 0x48b2364b
    case 8 => 0xd80d2bda case 9 => 0xaf0a1b4c case 10 => 0x36034af6 case 11 => 0x41047a60
    case 12 => 0xdf60efc3 case 13 => 0xa867df55 case 14 => 0x316e8eef case _ => 0x4669be79
  }

  function RowB(lo: bv4): bv32 {
    match lo
    case 0 => 0xcb61b38c case 1 => 0xbc66831a case 2 => 0x256fd2a0 case 3 => 0x5268e236
    case 4 => 0xcc0c7795 case 5 => 0xbb0b4703 case 6 => 0x220216b9 case 7 => 0x5505262f
    case 8 => 0xc5ba3bbe case 9 => 0xb2bd0b28 case 10 => 0x2bb45a92 case 11 => 0x5cb36a04
    case 12 => 0xc2d7ffa7 case 13 => 0xb5d0cf31 case 14 => 0x2cd99e8b case _ => 0x5bdeae1d
  }

  function RowC(lo: bv4): bv32 {
    match lo
    case 0 => 0x9b64c2b0 case 1 => 0xec63f226 case 2 => 0x756aa39c case 3 => 0x026d930a
    case 4 => 0x9c0906a9 case 5 => 0xeb0e363f case 6 => 0x72076785 case 7 => 0x05005713
    case 8 => 0x95bf4a82 case 9 => 0xe2b87a14 case 10 => 0x7bb12bae case 11 => 0x0cb61b38
    case 12 => 0x92d28e9b case 13 => 0xe5d5be0d case 14 => 0x7cdcefb7 case _ => 0x0bdbdf21
  }

  function RowD(lo: bv4): bv32 {
    match lo
    case 0 => 0x86d3d2d4 case 1 => 0xf1d4e242 case 2 => 0x68ddb3f8 case 3 => 0x1fda836e
    case 4 => 0x81be16cd case 5 => 0xf6b9265b case 6 => 0x6fb077e1 case 7 => 0x18b74777
    case 8 => 0x88085ae6 case 9 => 0xff0f6a70 case 10 => 0x66063bca case 11 => 0x11010b5c
    case 12 => 0x8f659eff case 13 => 0xf862ae69 case 14 => 0x616bffd3 case _ => 0x166ccf45
  }

  function RowE(lo: bv4): bv32 {
    match lo
    case 0 => 0xa00ae278 case 1 => 0xd70dd2ee case 2 => 0x4e048354 case 3 => 0x3903b3c2
    case 4 => 0xa7672661 case 5 => 0xd06016f7 case 6 => 0x4969474d case 7 => 0x3e6e77db
    case 8 => 0xaed16a4a case 9 => 0xd9d65adc case 10 => 0x40df0b66 case 11 => 0x37d83bf0
    case 12 => 0xa9bcae53 case 13 => 0xdebb9ec5 case 14 => 0x47b2cf7f case _ => 0x30b5ffe9
  }

  function RowF(lo: bv4): bv32 {
    match lo
    case 0 => 0xbdbdf21c case 1 => 0xcabac28a case 2 => 0x53b39330 case 3 => 0x24b4a3a6
    case 4 => 0xbad03605 case 5 => 0xcdd70693 case 6 => 0x54de5729 case 7 => 0x23d967bf
    case 8 => 0xb3667a2e case 9 => 0xc4614ab8 case 10 => 0x5d681b02 case 11 => 0x2a6f2b94
    case 12 => 0xb40bbe37 case 13 => 0xc30c8ea1 case 14 => 0x5a05df1b case _ => 0x2d02ef8d
  }

  function Entry(hi: bv4, lo: bv4): bv32 {
    match hi
    case 0 => Row0(lo)
    case 1 => Row1(lo)
    case 2 => Row2(lo)
    case 3 => Row3(lo)
    case 4 => Row4(lo)
    case 5 => Row5(lo)
    case 6 => Row6(lo)
    case 7 => Row7(lo)
    case 8 => Row8(lo)
    case 9 => Row9(lo)
    case 10 => RowA(lo)
    case 11 => RowB(lo)
    case 12 => RowC(lo)
    case 13 => RowD(lo)
    case 14 => RowE(lo)
    case _ => RowF(lo)
  }

  function Crc32Table(index: bv8): bv32 {
    Entry((index >> 4) as bv4, (index & 0xF) as bv4)
  }

  function Shift8(c: bv32): bv32 {
    Shift(Shift(Shift(Shift(Shift(Shift(Shift(Shift(c))))))))
  }

  lemma Shift8Xor(a: bv32, b: bv32)
    ensures Shift8(Xor(a, b)) == Xor(Shift8(a), Shift8(b))
  {
    hide Shift, Xor;
    ShiftXor(a, b);
    var a1, b1 := Shift(a), Shift(b);
    ShiftXor(a1, b1);
    var a2, b2 := Shift(a1), Shift(b1);
    ShiftXor(a2, b2);
    var a3, b3 := Shift(a2), Shift(b2);
    ShiftXor(a3, b3);
    var a4, b4 := Shift(a3), Shift(b3);
    ShiftXor(a4, b4);
    var a5, b5 := Shift(a4), Shift(b4);
    ShiftXor(a5, b5);
    var a6, b6 := Shift(a5), Shift(b5);
    ShiftXor(a6, b6);
    ShiftXor(Shift(a6), Shift(b6));
  }

  function LowNibble(lo: bv4): bv32 { lo as bv32 }

  function HighNibble(hi: bv4): bv32 { (hi as bv32) << 4 }

  lemma FirstRow(lo: bv4)
    ensures Entry(0, lo) == Row0(lo) == Shift8(LowNibble(lo))
  {
    match lo
    case 0 => assert Shift8(0) == 0x00000000;
    case 1 => assert Shift8(1) == 0x77073096;
    case 2 => assert Shift8(2) == 0xee0e612c;
    case 3 => assert Shift8(3) == 0x990951ba;
    case 4 => assert Shift8(4) == 0x076dc419;
    case 5 => assert Shift8(5) == 0x706af48f;
    case 6 => assert Shift8(6) == 0xe963a535;
    case 7 => assert Shift8(7) == 0x9e6495a3;
    case 8 => assert Shift8(8) == 0x0edb8832;
    case 9 => assert Shift8(9) == 0x79dcb8a4;
    case 10 => assert Shift8(10) == 0xe0d5e91e;
    case 11 => assert Shift8(11) == 0x97d2d988;
    case 12 => assert Shift8(12) == 0x09b64c2b;
    case 13 => assert Shift8(13) == 0x7eb17cbd;
    case 14 => assert Shift8(14) == 0xe7b82d07;
    case _ => assert Shift8(15) == 0x90bf1d91;
  }

  lemma Row1IsShift8(lo: bv4)
    ensures Entry(1, lo) == Xor(Shift8(0x10), Row0(lo))
  {
    assert Entry(1, lo) == Row1(lo);
    assert Shift8(0x10) == Row1(0);
  }

  lemma Row2IsShift8(lo: bv4)
    ensures Entry(2, lo) == Xor(Shift8(0x20), Row0(lo))
  {
    assert Entry(2, lo) == Row2(lo);
    assert Shift8(0x20) == Row2(0);
  }

  lemma Row3IsShift8(lo: bv4)
    ensures Entry(3, lo) == Xor(Shift8(0x30), Row0(lo))
  {
    assert Entry(3, lo) == Row3(lo);
    assert Shift8(0x30) == Row3(0);
  }

  lemma Row4IsShift8(lo: bv4)
    ensures Entry(4, lo) == Xor(Shift8(0x40), Row0(lo))
  {
    assert Entry(4, lo) == Row4(lo);
    assert Shift8(0x40) == Row4(0);
  }

  lemma Row5IsShift8(lo: bv4)
    ensures Entry(5, lo) == Xor(Shift8(0x50), Row0(lo))
  {
    assert Entry(5, lo) == Row5(lo);
    assert Shift8(0x50) == Row5(0);
  }

  lemma Row6IsShift8(lo: bv4)
    ensures Entry(6, lo) == Xor(Shift8(0x60), Row0(lo))
  {
    assert Entry(6, lo) == Row6(lo);
    assert Shift8(0x60) == Row6(0);
  }

  lemma Row7IsShift8(lo: bv4)
    ensures Entry(7, lo) == Xor(Shift8(0x70), Row0(lo))
  {
    assert Entry(7, lo) == Row7(lo);
    assert Shift8(0x70) == Row7(0);
  }

  lemma Row8IsShift8(lo: bv4)
    ensures Entry(8, lo) == Xor(Shift8(0x80), Row0(lo))
  {
    assert Entry(8, lo) == Row8(lo);
    assert Shift8(0x80) == Row8(0);
  }

  lemma Row9IsShift8(lo: bv4)
    ensures Entry(9, lo) == Xor(Shift8(0x90), Row0(lo))
  {
    assert Entry(9, lo) == Row9(lo);
    assert Shift8(0x90) == Row9(0);
  }

  lemma RowAIsShift8(lo: bv4)
    ensures Entry(10, lo) == Xor(Shift8(0xA0), Row0(lo))
  {
    assert Entry(10, lo) == RowA(lo);
    assert Shift8(0xA0) == RowA(0);
  }

  lemma RowBIsShift8(lo: bv4)
    ensures Entry(11, lo) == Xor(Shift8(0xB0), Row0(lo))
  {
    assert Entry(11, lo) == RowB(lo);
    assert Shift8(0xB0) == RowB(0);
  }

  lemma RowCIsShift8(lo: bv4)
    ensures Entry(12, lo) == Xor(Shift8(0xC0), Row0(lo))
  {
    assert Entry(12, lo) == RowC(lo);
    assert Shift8(0xC0) == RowC(0);
  }

  lemma RowDIsShift8(lo: bv4)
    ensures Entry(13, lo) == Xor(Shift8(0xD0), Row0(lo))
  {
    assert Entry(13, lo) == RowD(lo);
    assert Shift8(0xD0) == RowD(0);
  }

  lemma RowEIsShift8(lo: bv4)
    ensures Entry(14, lo) == Xor(Shift8(0xE0), Row0(lo))
  {
    assert Entry(14, lo) == RowE(lo);
    assert Shift8(0xE0) == RowE(0);
  }

  lemma RowFIsShift8(lo: bv4)
    ensures Entry(15, lo) == Xor(Shift8(0xF0), Row0(lo))
  {
    assert Entry(15, lo) == RowF(lo);
    assert Shift8(0xF0) == RowF(0);
  }

  lemma HighNibbles()
    ensures HighNibble(0) == 0x00 && HighNibble(1) == 0x10 && HighNibble(2) == 0x20 && HighNibble(3) == 0x30
    ensures HighNibble(4) == 0x40 && HighNibble(5) == 0x50 && HighNibble(6) == 0x60 && HighNibble(7) == 0x70
    ensures HighNibble(8) == 0x80 && HighNibble(9) == 0x90 && HighNibble(10) == 0xA0 && HighNibble(11) == 0xB0
    ensures HighNibble(12) == 0xC0 && HighNibble(13) == 0xD0 && HighNibble(14) == 0xE0 && HighNibble(15) == 0xF0
  {}

  lemma ShiftZero()
    ensures Shift8(0) == 0
  {}

  lemma EntryIsShift8(hi: bv4, lo: bv4)
    ensures Entry(hi, lo) == Xor(Shift8(HighNibble(hi)), Row0(lo))
  {
    hide *;
    HighNibbles();
    match hi
    case 0 => FirstRow(lo); ShiftZero(); XorZero(Row0(lo)); XorCommutes(0, Row0(lo));
    case 1 => Row1IsShift8(lo);
    case 2 => Row2IsShift8(lo);
    case 3 => Row3IsShift8(lo);
    case 4 => Row4IsShift8(lo);
    case 5 => Row5IsShift8(lo);
    case 6 => Row6IsShift8(lo);
    case 7 => Row7IsShift8(lo);
    case 8 => Row8IsShift8(lo);
    case 9 => Row9IsShift8(lo);
    case 10 => RowAIsShift8(lo);
    case 11 => RowBIsShift8(lo);
    case 12 => RowCIsShift8(lo);
    case 13 => RowDIsShift8(lo);
    case 14 => RowEIsShift8(lo);
    case _ => RowFIsShift8(lo);
  }

  lemma NibbleSplit(index: bv8)
    ensures Wide(index) == Xor(HighNibble((index >> 4) as bv4), LowNibble((index & 0xF) as bv4))
  {}

  /** Every table entry is the register after eight steps from the index. */
  lemma TableIsShift8(index: bv8)
    ensures Crc32Table(index) == Shift8(Wide(index))
  {
    hide Entry, Shift8, HighNibble, LowNibble, Xor, Wide, Row0;
    var hi, lo := (index >> 4) as bv4, (index & 0xF) as bv4;
    EntryIsShift8(hi, lo);
    FirstRow(lo);
    NibbleSplit(index);
    Shift8Xor(HighNibble(hi), LowNibble(lo));
  }
}
