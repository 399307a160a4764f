/**
 The CRC-32 of src/lib/crc32.c.

 The reference is a shift register that takes the message one bit at a time, as
 section 8.1.1.6.2 of ITU-T V.42 describes it (reflected: low bit of each byte
 first). The program's loop goes a byte at a time through a table of 256 terms;
 `Crc32Buf` proves that the two agree on every message. The second half shows what
 the checksum is for: two messages that differ in one burst of at most four bytes
 never share it.
 */
module Crc32 {
  import opened Bytes

  const POLYNOMIAL: bv32 := 0xedb88320

  // Named so that a proof can hide the bit-vector arithmetic behind them.
  function Xor(a: bv32, b: bv32): bv32 {
    a ^ b
  }

  function Complement(c: bv32): bv32 {
    !c
  }

  function Widen(octet: byte): bv32 {
    octet as bv32
  }

  function Up8(c: bv32): bv32 {
    c << 8
  }

  function Down8(c: bv32): bv32 {
    c >> 8
  }

  function LowByte(c: bv32): byte {
    (c & 0xff) as bv8
  }

  function Down1(c: bv32): bv32 {
    c >> 1
  }

  predicate Odd(c: bv32) {
    c & 1 == 1
  }

  predicate ThreeBytes(c: bv32) {
    c < 0x1000000
  }

  function LowBit(octet: byte): bool {
    octet & 1 == 1
  }

  function Halve(octet: byte): byte {
    octet >> 1
  }

  // ----- The reference: one message bit at a time -----

  /** The register moved right once, with or without the feedback terms. */
  function Shifted(register: bv32, feedback: bool): bv32 {
    if feedback then Xor(Down1(register), POLYNOMIAL) else Down1(register)
  }

  /** Shift the register once, feeding one message bit into its low end. */
  function ShiftIn(register: bv32, bit: bool): bv32 {
    Shifted(register, Odd(register) != bit)
  }

  /** Shift in the eight bits of `octet`, lowest first. */
  function ShiftInOctet(register: bv32, octet: byte): bv32 {
    var o1 := Halve(octet);
    var o2 := Halve(o1);
    var o3 := Halve(o2);
    var o4 := Halve(o3);
    var o5 := Halve(o4);
    var o6 := Halve(o5);
    var o7 := Halve(o6);
    var r4 := ShiftIn(ShiftIn(ShiftIn(ShiftIn(register, LowBit(octet)), LowBit(o1)), LowBit(o2)), LowBit(o3));
    ShiftIn(ShiftIn(ShiftIn(ShiftIn(r4, LowBit(o4)), LowBit(o5)), LowBit(o6)), LowBit(o7))
  }

  function ShiftInMessage(register: bv32, message: seq<byte>): bv32
    decreases message
  {
    if message == [] then register
    else ShiftInMessage(ShiftInOctet(register, message[0]), message[1..])
  }

  /** Preset to all ones, shift the message through, complement. */
  function Checksum(message: seq<byte>): bv32 {
    Complement(ShiftInMessage(0xffffffff, message))
  }

  // ----- The program: one byte at a time through the table -----

  /** crc_32_tab, sixteen entries to a row: entry i is row i / 16, column i % 16. */
  const CRC_32_TAB: seq<seq<bv32>> := [
    [0x00000000, 0x77073096, 0xee0e612c, 0x990951ba, 0x076dc419, 0x706af48f, 0xe963a535, 0x9e6495a3,
     0x0edb8832, 0x79dcb8a4, 0xe0d5e91e, 0x97d2d988, 0x09b64c2b, 0x7eb17cbd, 0xe7b82d07, 0x90bf1d91],
    [0x1db71064, 0x6ab020f2, 0xf3b97148, 0x84be41de, 0x1adad47d, 0x6ddde4eb, 0xf4d4b551, 0x83d385c7,
     0x136c9856, 0x646ba8c0, 0xfd62f97a, 0x8a65c9ec, 0x14015c4f, 0x63066cd9, 0xfa0f3d63, 0x8d080df5],
    [0x3b6e20c8, 0x4c69105e, 0xd56041e4, 0xa2677172, 0x3c03e4d1, 0x4b04d447, 0xd20d85fd, 0xa50ab56b,
     0x35b5a8fa, 0x42b2986c, 0xdbbbc9d6, 0xacbcf940, 0x32d86ce3, 0x45df5c75, 0xdcd60dcf, 0xabd13d59],
    [0x26d930ac, 0x51de003a, 0xc8d75180, 0xbfd06116, 0x21b4f4b5, 0x56b3c423, 0xcfba9599, 0xb8bda50f,
     0x2802b89e, 0x5f058808, 0xc60cd9b2, 0xb10be924, 0x2f6f7c87, 0x58684c11, 0xc1611dab, 0xb6662d3d],
    [0x76dc4190, 0x01db7106, 0x98d220bc, 0xefd5102a, 0x71b18589, 0x06b6b51f, 0x9fbfe4a5, 0xe8b8d433,
     0x7807c9a2, 0x0f00f934, 0x9609a88e, 0xe10e9818, 0x7f6a0dbb, 0x086d3d2d, 0x91646c97, 0xe6635c01],
    [0x6b6b51f4, 0x1c6c6162, 0x856530d8, 0xf262004e, 0x6c0695ed, 0x1b01a57b, 0x8208f4c1, 0xf50fc457,
     0x65b0d9c6, 0x12b7e950, 0x8bbeb8ea, 0xfcb9887c, 0x62dd1ddf, 0x15da2d49, 0x8cd37cf3, 0xfbd44c65],
    [0x4db26158, 0x3ab551ce, 0xa3bc0074, 0xd4bb30e2, 0x4adfa541, 0x3dd895d7, 0xa4d1c46d, 0xd3d6f4fb,
     0x4369e96a, 0x346ed9fc, 0xad678846, 0xda60b8d0, 0x44042d73, 0x33031de5, 0xaa0a4c5f, 0xdd0d7cc9],
    [0x5005713c, 0x270241aa, 0xbe0b1010, 0xc90c2086, 0x5768b525, 0x206f85b3, 0xb966d409, 0xce61e49f,
     0x5edef90e, 0x29d9c998, 0xb0d09822, 0xc7d7a8b4, 0x59b33d17, 0x2eb40d81, 0xb7bd5c3b, 0xc0ba6cad],
    [0xedb88320, 0x9abfb3b6, 0x03b6e20c, 0x74b1d29a, 0xead54739, 0x9dd277af, 0x04db2615, 0x73dc1683,
     0xe3630b12, 0x94643b84, 0x0d6d6a3e, 0x7a6a5aa8, 0xe40ecf0b, 0x9309ff9d, 0x0a00ae27, 0x7d079eb1],
    [0xf00f9344, 0x8708a3d2, 0x1e01f268, 0x6906c2fe, 0xf762575d, 0x806567cb, 0x196c3671, 0x6e6b06e7,
     0xfed41b76, 0x89d32be0, 0x10da7a5a, 0x67dd4acc, 0xf9b9df6f, 0x8ebeeff9, 0x17b7be43, 0x60b08ed5],
    [0xd6d6a3e8, 0xa1d1937e, 0x38d8c2c4, 0x4fdff252, 0xd1bb67f1, 0xa6bc5767, 0x3fb506dd, 0x48b2364b,
     0xd80d2bda, 0xaf0a1b4c, 0x36034af6, 0x41047a60, 0xdf60efc3, 0xa867df55, 0x316e8eef, 0x4669be79],
    [0xcb61b38c, 0xbc66831a, 0x256fd2a0, 0x5268e236, 0xcc0c7795, 0xbb0b4703, 0x220216b9, 0x5505262f,
     0xc5ba3bbe, 0xb2bd0b28, 0x2bb45a92, 0x5cb36a04, 0xc2d7ffa7, 0xb5d0cf31, 0x2cd99e8b, 0x5bdeae1d],
    [0x9b64c2b0, 0xec63f226, 0x756aa39c, 0x026d930a, 0x9c0906a9, 0xeb0e363f, 0x72076785, 0x05005713,
     0x95bf4a82, 0xe2b87a14, 0x7bb12bae, 0x0cb61b38, 0x92d28e9b, 0xe5d5be0d, 0x7cdcefb7, 0x0bdbdf21],
    [0x86d3d2d4, 0xf1d4e242, 0x68ddb3f8, 0x1fda836e, 0x81be16cd, 0xf6b9265b, 0x6fb077e1, 0x18b74777,
     0x88085ae6, 0xff0f6a70, 0x66063bca, 0x11010b5c, 0x8f659eff, 0xf862ae69, 0x616bffd3, 0x166ccf45],
    [0xa00ae278, 0xd70dd2ee, 0x4e048354, 0x3903b3c2, 0xa7672661, 0xd06016f7, 0x4969474d, 0x3e6e77db,
     0xaed16a4a, 0xd9d65adc, 0x40df0b66, 0x37d83bf0, 0xa9bcae53, 0xdebb9ec5, 0x47b2cf7f, 0x30b5ffe9],
    [0xbdbdf21c, 0xcabac28a, 0x53b39330, 0x24b4a3a6, 0xbad03605, 0xcdd70693, 0x54de5729, 0x23d967bf,
     0xb3667a2e, 0xc4614ab8, 0x5d681b02, 0x2a6f2b94, 0xb40bbe37, 0xc30c8ea1, 0x5a05df1b, 0x2d02ef8d]
  ]

  lemma TableShape()
    ensures |CRC_32_TAB| == 16
    ensures forall r :: 0 <= r < 16 ==> |CRC_32_TAB[r]| == 16
  {
  }

  function TableEntry(i: byte): bv32 {
    TableShape();
    CRC_32_TAB[(i >> 4) as int][(i & 0xf) as int]
  }

  /** UPDC32 */
  function Updc32(octet: byte, crc: bv32): bv32 {
    Xor(TableEntry(LowByte(Xor(crc, Widen(octet)))), Down8(crc))
  }

  method Crc32Buf(buf: seq<byte>) returns (crc: bv32)
    ensures crc == Checksum(buf)
  {
    hide Updc32, ShiftInOctet;
    var crc32: bv32 := 0xffffffff;
    var i := 0;
    while i < |buf|
      invariant 0 <= i <= |buf|
      invariant ShiftInMessage(crc32, buf[i..]) == ShiftInMessage(0xffffffff, buf)
    {
      TableStepIsEightShifts(crc32, buf[i]);
      assert buf[i..][1..] == buf[i + 1..];
      crc32 := Updc32(buf[i], crc32);
      i := i + 1;
    }
    crc := Complement(crc32);
  }

  // ----- The register as a linear map -----

  /** One shift with a zero message bit. */
  function Step(c: bv32): bv32 {
    Shifted(c, Odd(c))
  }

  function EightSteps(c: bv32): bv32 {
    Step(Step(Step(Step(Step(Step(Step(Step(c))))))))
  }

  lemma Down1Xor(a: bv32, b: bv32)
    ensures Down1(Xor(a, b)) == Xor(Down1(a), Down1(b))
  {
  }

  lemma OddXor(a: bv32, b: bv32)
    ensures Odd(Xor(a, b)) <==> Odd(a) != Odd(b)
  {
  }

  lemma XorCommutes(a: bv32, b: bv32)
    ensures Xor(a, b) == Xor(b, a)
  {
  }

  lemma XorZero(c: bv32)
    ensures Xor(c, 0) == c
  {
  }

  lemma XorAssociative(a: bv32, b: bv32, c: bv32)
    ensures Xor(Xor(a, b), c) == Xor(a, Xor(b, c))
  {
  }

  lemma XorSelf(a: bv32)
    ensures Xor(a, a) == 0
  {
  }

  lemma XorSwap(a: bv32, b: bv32, p: bv32)
    ensures Xor(Xor(a, b), p) == Xor(Xor(a, p), b)
  {
    hide Xor;
    XorAssociative(a, b, p);
    XorAssociative(a, p, b);
    XorCommutes(b, p);
  }

  lemma XorBoth(a: bv32, b: bv32, p: bv32)
    ensures Xor(Xor(a, p), Xor(b, p)) == Xor(a, b)
    ensures Xor(a, Xor(b, p)) == Xor(Xor(a, b), p)
  {
    hide Xor;
    XorAssociative(a, p, Xor(b, p));
    XorCommutes(b, p);
    XorAssociative(p, p, b);
    XorSelf(p);
    XorZero(b);
    XorCommutes(0, b);
    XorAssociative(a, b, p);
  }

  lemma StepLinear(a: bv32, b: bv32)
    ensures Step(Xor(a, b)) == Xor(Step(a), Step(b))
  {
    hide Xor, Down1, Odd;
    Down1Xor(a, b);
    OddXor(a, b);
    XorSwap(Down1(a), Down1(b), POLYNOMIAL);
    XorBoth(Down1(a), Down1(b), POLYNOMIAL);
  }

  lemma EightStepsLinear(a: bv32, b: bv32)
    ensures EightSteps(Xor(a, b)) == Xor(EightSteps(a), EightSteps(b))
  {
    hide Step, Xor;
    var a1, b1 := Step(a), Step(b);
    var a2, b2 := Step(a1), Step(b1);
    var a3, b3 := Step(a2), Step(b2);
    var a4, b4 := Step(a3), Step(b3);
    var a5, b5 := Step(a4), Step(b4);
    var a6, b6 := Step(a5), Step(b5);
    var a7, b7 := Step(a6), Step(b6);
    StepLinear(a, b);
    StepLinear(a1, b1);
    StepLinear(a2, b2);
    StepLinear(a3, b3);
    StepLinear(a4, b4);
    StepLinear(a5, b5);
    StepLinear(a6, b6);
    StepLinear(a7, b7);
  }

  lemma StepInjective(c: bv32, d: bv32)
    requires Step(c) == Step(d)
    ensures c == d
  {
  }

  lemma EightStepsInjective(c: bv32, d: bv32)
    requires EightSteps(c) == EightSteps(d)
    ensures c == d
  {
    hide Step;
    var c1, d1 := Step(c), Step(d);
    var c2, d2 := Step(c1), Step(d1);
    var c3, d3 := Step(c2), Step(d2);
    var c4, d4 := Step(c3), Step(d3);
    var c5, d5 := Step(c4), Step(d4);
    var c6, d6 := Step(c5), Step(d5);
    var c7, d7 := Step(c6), Step(d6);
    StepInjective(c7, d7);
    StepInjective(c6, d6);
    StepInjective(c5, d5);
    StepInjective(c4, d4);
    StepInjective(c3, d3);
    StepInjective(c2, d2);
    StepInjective(c1, d1);
    StepInjective(c, d);
  }

  /** Eight steps bring bits eight places up down to the low end. */
  lemma EightStepsOfShifted(y: bv32)
    requires ThreeBytes(y)
    ensures EightSteps(Up8(y)) == y
  {
  }

  lemma SplitLowByte(c: bv32)
    ensures c == Xor(Widen(LowByte(c)), Up8(Down8(c))) && ThreeBytes(Down8(c))
  {
  }

  lemma EightStepsSplit(c: bv32)
    ensures EightSteps(c) == Xor(EightSteps(Widen(LowByte(c))), Down8(c))
  {
    hide EightSteps, Xor, Widen, LowByte, Up8, Down8, ThreeBytes;
    SplitLowByte(c);
    EightStepsLinear(Widen(LowByte(c)), Up8(Down8(c)));
    EightStepsOfShifted(Down8(c));
  }

  // ----- The table holds eight steps of every byte -----

  const LOW_ROW: seq<bv32> := [
    0x00000000, 0x77073096, 0xee0e612c, 0x990951ba, 0x076dc419, 0x706af48f, 0xe963a535, 0x9e6495a3,
    0x0edb8832, 0x79dcb8a4, 0xe0d5e91e, 0x97d2d988, 0x09b64c2b, 0x7eb17cbd, 0xe7b82d07, 0x90bf1d91
  ]

  function RowFrom(head: bv32): seq<bv32> {
    [Xor(head, 0x00000000), Xor(head, 0x77073096), Xor(head, 0xee0e612c), Xor(head, 0x990951ba),
     Xor(head, 0x076dc419), Xor(head, 0x706af48f), Xor(head, 0xe963a535), Xor(head, 0x9e6495a3),
     Xor(head, 0x0edb8832), Xor(head, 0x79dcb8a4), Xor(head, 0xe0d5e91e), Xor(head, 0x97d2d988),
     Xor(head, 0x09b64c2b), Xor(head, 0x7eb17cbd), Xor(head, 0xe7b82d07), Xor(head, 0x90bf1d91)]
  }

  lemma RowsShareAPattern(r: nat)
    requires r < 16
    ensures |CRC_32_TAB| == 16 && |CRC_32_TAB[r]| == 16 && CRC_32_TAB[r] == RowFrom(CRC_32_TAB[r][0])
  {
  }

  lemma LowEntries0()
    ensures EightSteps(0x0) == 0x00000000 && EightSteps(0x1) == 0x77073096
    ensures EightSteps(0x2) == 0xee0e612c && EightSteps(0x3) == 0x990951ba
  {
  }

  lemma LowEntries1()
    ensures EightSteps(0x4) == 0x076dc419 && EightSteps(0x5) == 0x706af48f
    ensures EightSteps(0x6) == 0xe963a535 && EightSteps(0x7) == 0x9e6495a3
  {
  }

  lemma LowEntries2()
    ensures EightSteps(0x8) == 0x0edb8832 && EightSteps(0x9) == 0x79dcb8a4
    ensures EightSteps(0xa) == 0xe0d5e91e && EightSteps(0xb) == 0x97d2d988
  {
  }

  lemma LowEntries3()
    ensures EightSteps(0xc) == 0x09b64c2b && EightSteps(0xd) == 0x7eb17cbd
    ensures EightSteps(0xe) == 0xe7b82d07 && EightSteps(0xf) == 0x90bf1d91
  {
  }

  lemma HighEntries0()
    ensures EightSteps(0x0) == 0x00000000 && EightSteps(0x10) == 0x1db71064
    ensures EightSteps(0x20) == 0x3b6e20c8 && EightSteps(0x30) == 0x26d930ac
  {
  }

  lemma HighEntries1()
    ensures EightSteps(0x40) == 0x76dc4190 && EightSteps(0x50) == 0x6b6b51f4
    ensures EightSteps(0x60) == 0x4db26158 && EightSteps(0x70) == 0x5005713c
  {
  }

  lemma HighEntries2()
    ensures EightSteps(0x80) == 0xedb88320 && EightSteps(0x90) == 0xf00f9344
    ensures EightSteps(0xa0) == 0xd6d6a3e8 && EightSteps(0xb0) == 0xcb61b38c
  {
  }

  lemma HighEntries3()
    ensures EightSteps(0xc0) == 0x9b64c2b0 && EightSteps(0xd0) == 0x86d3d2d4
    ensures EightSteps(0xe0) == 0xa00ae278 && EightSteps(0xf0) == 0xbdbdf21c
  {
  }

  lemma LowEntries(j: byte)
    requires j < 16
    ensures LOW_ROW[j as int] == EightSteps(Widen(j))
  {
    hide EightSteps;
    LowEntries0();
    LowEntries1();
    LowEntries2();
    LowEntries3();
  }

  lemma RowPattern(head: bv32, j: byte)
    requires j < 16
    ensures RowFrom(head)[j as int] == Xor(head, LOW_ROW[j as int])
  {
    hide Xor;
  }

  lemma RowHead(h: byte)
    requires h < 16
    ensures |CRC_32_TAB| == 16 && |CRC_32_TAB[h as int]| == 16
    ensures CRC_32_TAB[h as int][0] == EightSteps(Widen(h << 4))
  {
    hide EightSteps;
    HighEntries0();
    HighEntries1();
    HighEntries2();
    HighEntries3();
  }

  lemma Nibbles(i: byte)
    ensures Widen(i) == Xor(Widen((i >> 4) << 4), Widen(i & 0xf))
  {
  }

  lemma TableIsEightSteps(i: byte)
    ensures TableEntry(i) == EightSteps(Widen(i))
  {
    hide EightSteps, Xor, Widen, RowFrom;
    var h, j := i >> 4, i & 0xf;
    TableShape();
    RowHead(h);
    RowsShareAPattern(h as int);
    RowPattern(EightSteps(Widen(h << 4)), j);
    LowEntries(j);
    Nibbles(i);
    EightStepsLinear(Widen(h << 4), Widen(j));
  }

  // ----- Table-driven and bit-by-bit agree -----

  lemma WidenHalve(octet: byte)
    ensures Down1(Widen(octet)) == Widen(Halve(octet))
    ensures Odd(Widen(octet)) <==> LowBit(octet)
  {
  }

  /** Message bits may be mixed in ahead of time, when they reach the low end. */
  lemma StepWithPendingBits(c: bv32, pending: byte)
    ensures Step(Xor(c, Widen(pending))) == Xor(ShiftIn(c, LowBit(pending)), Widen(Halve(pending)))
  {
    hide Xor, Down1, Odd, Widen, Halve, LowBit;
    WidenHalve(pending);
    Down1Xor(c, Widen(pending));
    OddXor(c, Widen(pending));
    XorSwap(Down1(c), Down1(Widen(pending)), POLYNOMIAL);
  }

  lemma NothingPending(c: bv32, octet: byte)
    ensures Xor(c, Widen(Halve(Halve(Halve(Halve(Halve(Halve(Halve(Halve(octet)))))))))) == c
  {
  }

  lemma ShiftInOctetIsEightSteps(c: bv32, octet: byte)
    ensures ShiftInOctet(c, octet) == EightSteps(Xor(c, Widen(octet)))
  {
    hide Step, ShiftIn, Xor, Widen, LowBit, Halve;
    var o1 := Halve(octet);
    var o2 := Halve(o1);
    var o3 := Halve(o2);
    var o4 := Halve(o3);
    var o5 := Halve(o4);
    var o6 := Halve(o5);
    var o7 := Halve(o6);
    var c1 := ShiftIn(c, LowBit(octet));
    var c2 := ShiftIn(c1, LowBit(o1));
    var c3 := ShiftIn(c2, LowBit(o2));
    var c4 := ShiftIn(c3, LowBit(o3));
    var c5 := ShiftIn(c4, LowBit(o4));
    var c6 := ShiftIn(c5, LowBit(o5));
    var c7 := ShiftIn(c6, LowBit(o6));
    StepWithPendingBits(c, octet);
    StepWithPendingBits(c1, o1);
    StepWithPendingBits(c2, o2);
    StepWithPendingBits(c3, o3);
    StepWithPendingBits(c4, o4);
    StepWithPendingBits(c5, o5);
    StepWithPendingBits(c6, o6);
    StepWithPendingBits(c7, o7);
    NothingPending(ShiftIn(c7, LowBit(o7)), octet);
  }

  lemma TableStepIsEightShifts(c: bv32, octet: byte)
    ensures Updc32(octet, c) == ShiftInOctet(c, octet)
  {
    hide EightSteps, TableEntry, ShiftInOctet, Xor, Widen, Down8, LowByte;
    var mixed := Xor(c, Widen(octet));
    TableIsEightSteps(LowByte(mixed));
    EightStepsSplit(mixed);
    ShiftInOctetIsEightSteps(c, octet);
    HighBytesKeep(c, octet);
  }

  lemma HighBytesKeep(c: bv32, octet: byte)
    ensures Down8(Xor(c, Widen(octet))) == Down8(c)
  {
  }

  // ----- One burst of at most four bytes always shows -----

  lemma {:induction false} ShiftInMessageConcat(c: bv32, a: seq<byte>, b: seq<byte>)
    ensures ShiftInMessage(c, a + b) == ShiftInMessage(ShiftInMessage(c, a), b)
    decreases a
  {
    hide ShiftInOctet;
    if a == [] {
      assert a + b == b;
    } else {
      assert (a + b)[1..] == a[1..] + b;
      ShiftInMessageConcat(ShiftInOctet(c, a[0]), a[1..], b);
    }
  }

  lemma XorCancel(c: bv32, x: bv32, y: bv32)
    ensures Xor(x, c) == Xor(y, c) ==> x == y
    ensures Xor(c, x) == Xor(c, y) ==> x == y
  {
  }

  lemma {:induction false} ShiftInMessageInjective(c: bv32, d: bv32, message: seq<byte>)
    requires ShiftInMessage(c, message) == ShiftInMessage(d, message)
    ensures c == d
    decreases message
  {
    hide ShiftInOctet, EightSteps, Xor, Widen;
    if message == [] {
    } else {
      var octet := message[0];
      ShiftInMessageInjective(ShiftInOctet(c, octet), ShiftInOctet(d, octet), message[1..]);
      ShiftInOctetIsEightSteps(c, octet);
      ShiftInOctetIsEightSteps(d, octet);
      EightStepsInjective(Xor(c, Widen(octet)), Xor(d, Widen(octet)));
      XorCancel(Widen(octet), c, d);
    }
  }

  /** Up to four bytes as one little-endian word. */
  function Word(s: seq<byte>): bv32
    requires |s| <= 4
  {
    if s == [] then 0 else Xor(Widen(s[0]), Up8(Word(s[1..])))
  }

  function Steps(c: bv32, n: nat): bv32
    decreases n
  {
    if n == 0 then c else Steps(EightSteps(c), n - 1)
  }

  lemma {:induction false} WordBound(s: seq<byte>)
    requires |s| <= 4
    ensures |s| == 0 ==> Word(s) == 0
    ensures |s| == 1 ==> Word(s) < 0x100
    ensures |s| == 2 ==> Word(s) < 0x10000
    ensures |s| == 3 ==> ThreeBytes(Word(s))
  {
    if s == [] {
    } else {
      WordBound(s[1..]);
    }
  }

  lemma {:induction false} ShortMessageIsOneWord(c: bv32, s: seq<byte>)
    requires |s| <= 4
    ensures ShiftInMessage(c, s) == Steps(Xor(c, Word(s)), |s|)
    decreases s
  {
    hide EightSteps, ShiftInOctet, Xor, Widen, Up8;
    if s == [] {
      assert Xor(c, 0) == c by { XorZero(c); }
    } else {
      var rest := Word(s[1..]);
      ShiftInOctetIsEightSteps(c, s[0]);
      ShortMessageIsOneWord(ShiftInOctet(c, s[0]), s[1..]);
      WordBound(s[1..]);
      EightStepsLinear(Xor(c, Widen(s[0])), Up8(rest));
      EightStepsOfShifted(rest);
      XorAssociative(c, Widen(s[0]), Up8(rest));
    }
  }

  lemma {:induction false} StepsInjective(c: bv32, d: bv32, n: nat)
    requires Steps(c, n) == Steps(d, n)
    ensures c == d
    decreases n
  {
    hide EightSteps;
    if n == 0 {
    } else {
      StepsInjective(EightSteps(c), EightSteps(d), n - 1);
      EightStepsInjective(c, d);
    }
  }

  lemma {:induction false} WordInjective(s: seq<byte>, t: seq<byte>)
    requires |s| == |t| <= 4 && Word(s) == Word(t)
    ensures s == t
  {
    hide Xor, Widen, Up8;
    if s == [] {
    } else {
      WordBound(s[1..]);
      WordBound(t[1..]);
      SameByteAndRest(s[0], t[0], Word(s[1..]), Word(t[1..]));
      WordInjective(s[1..], t[1..]);
      assert s == [s[0]] + s[1..] && t == [t[0]] + t[1..];
    }
  }

  lemma SameByteAndRest(a: byte, b: byte, x: bv32, y: bv32)
    requires ThreeBytes(x) && ThreeBytes(y)
    requires Xor(Widen(a), Up8(x)) == Xor(Widen(b), Up8(y))
    ensures a == b && x == y
  {
  }

  lemma ComplementInjective(a: bv32, b: bv32)
    requires Complement(a) == Complement(b)
    ensures a == b
  {
  }

  /** Messages that differ, but only inside one window of at most four bytes, differ in checksum. */
  lemma BurstChangesChecksum(before: seq<byte>, s: seq<byte>, t: seq<byte>, after: seq<byte>)
    requires |s| == |t| <= 4 && s != t
    ensures Checksum(before + s + after) != Checksum(before + t + after)
  {
    hide Steps, Word, Xor, ShiftInMessage, Complement;
    var start: bv32 := 0xffffffff;
    var c := ShiftInMessage(start, before);
    ShiftInMessageConcat(start, before + s, after);
    ShiftInMessageConcat(start, before + t, after);
    ShiftInMessageConcat(start, before, s);
    ShiftInMessageConcat(start, before, t);
    var x, y := ShiftInMessage(c, s), ShiftInMessage(c, t);
    if Checksum(before + s + after) == Checksum(before + t + after) {
      ComplementInjective(ShiftInMessage(x, after), ShiftInMessage(y, after));
      ShiftInMessageInjective(x, y, after);
      ShortMessageIsOneWord(c, s);
      ShortMessageIsOneWord(c, t);
      StepsInjective(Xor(c, Word(s)), Xor(c, Word(t)), |s|);
      XorCancel(c, Word(s), Word(t));
      WordInjective(s, t);
    }
  }

  // ----- The check value -----

  lemma OneWord(c: bv32, word: seq<byte>, rest: seq<byte>)
    requires |word| <= 4
    ensures ShiftInMessage(c, word + rest) == ShiftInMessage(Steps(Xor(c, Word(word)), |word|), rest)
  {
    hide Word, EightSteps, ShiftInOctet;
    ShiftInMessageConcat(c, word, rest);
    ShortMessageIsOneWord(c, word);
  }

  const DIGITS: seq<byte> := [0x31, 0x32, 0x33, 0x34, 0x35, 0x36, 0x37, 0x38, 0x39]

  lemma FirstDigits()
    ensures Steps(Xor(0xffffffff, Word([0x31, 0x32, 0x33, 0x34])), 4) == 0x641c1f5c
  {
  }

  lemma NextDigits()
    ensures Steps(Xor(0x641c1f5c, Word([0x35, 0x36, 0x37, 0x38])), 4) == 0x651f2550
  {
  }

  lemma LastDigit()
    ensures Steps(Xor(0x651f2550, Word([0x39])), 1) == 0x340bc6d9
  {
  }

  /** The checksum of the digits 1 to 9, by which variants of CRC-32 are told apart. */
  lemma CheckValue()
    ensures Checksum(DIGITS) == 0xcbf43926
  {
    hide Word, Steps, Xor, ShiftInMessage;
    var first: seq<byte>, next: seq<byte> := [0x31, 0x32, 0x33, 0x34], [0x35, 0x36, 0x37, 0x38];
    var last: seq<byte> := [0x39];
    OneWord(0xffffffff, first, next + last);
    OneWord(0x641c1f5c, next, last);
    OneWord(0x651f2550, last, []);
    FirstDigits();
    NextDigits();
    LastDigit();
    assert DIGITS == first + (next + last);
    assert last + [] == last;
    NothingShiftedIn(0x340bc6d9);
  }

  lemma NothingShiftedIn(c: bv32)
    ensures ShiftInMessage(c, []) == c
  {
  }
}
