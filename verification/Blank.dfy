/** A device that holds zeros where its hint blocks will be is blank: zeros fail the check of a hint block. */
module BlankDevice {
  import opened Bytes
  import opened Layout
  import opened Crc32
  import opened Codec
  import opened Ring

  const ZERO_HINT_BYTES: seq<byte> := ZERO_WORD + ZERO_WORD + ZERO_WORD + ZERO_WORD + ZERO_WORD + ZERO_WORD

  lemma WordOfZeros(c: bv32)
    ensures Xor(c, Word(ZERO_WORD)) == c
  {
  }

  lemma FourZeros(c: bv32, rest: seq<byte>)
    ensures ShiftInMessage(c, ZERO_WORD + rest) == ShiftInMessage(Steps(c, 4), rest)
  {
    hide Word, Steps, ShiftInMessage;
    OneWord(c, ZERO_WORD, rest);
    WordOfZeros(c);
  }

  lemma Steps0()
    ensures Steps(0xffffffff, 4) == 0xdebb20e3
  {
  }

  lemma Steps4()
    ensures Steps(0xdebb20e3, 4) == 0x9add2096
  {
  }

  lemma Steps8()
    ensures Steps(0x9add2096, 4) == 0x842a3990
  {
  }

  lemma Steps12()
    ensures Steps(0x842a3990, 4) == 0x1344b4aa
  {
  }

  lemma Steps16()
    ensures Steps(0x1344b4aa, 4) == 0xf02a6472
  {
  }

  lemma Steps20()
    ensures Steps(0xf02a6472, 4) == 0x5c3e35df
  {
  }

  /** The checksum of a hint block of zeros is not zero. */
  lemma ChecksumOfZeros()
    ensures Checksum(ZERO_HINT_BYTES) == 0xa3c1ca20
  {
    hide Steps, ShiftInMessage;
    var z := ZERO_WORD;
    FourZeros(0xffffffff, z + z + z + z + z);
    FourZeros(0xdebb20e3, z + z + z + z);
    FourZeros(0x9add2096, z + z + z);
    FourZeros(0x842a3990, z + z);
    FourZeros(0x1344b4aa, z);
    FourZeros(0xf02a6472, []);
    Steps0();
    Steps4();
    Steps8();
    Steps12();
    Steps16();
    Steps20();
    assert ZERO_HINT_BYTES == z + (z + z + z + z + z);
    assert z + z + z + z + z == z + (z + z + z + z);
    assert z + z + z + z == z + (z + z + z);
    assert z + z + z == z + (z + z);
    assert z == z + [];
    NothingShiftedIn(0x5c3e35df);
  }

  lemma ZerosFail()
    ensures HintCheck(ZERO_HINT_BYTES) != 0
  {
    hide Checksum, GetU64, Difference;
    ChecksumOfZeros();
    assert ZERO_HINT_BYTES[..20] + ZERO_WORD == ZERO_HINT_BYTES;
    assert ZERO_HINT_BYTES[20..] == ZERO_WORD;
    assert GetU32(ZERO_WORD) == 0;
    EqualHashes(0, 0xa3c1ca20);
  }

  lemma ZeroSlotsAreBlank(g: Geometry, image: seq<byte>)
    requires Sized(g, image)
    requires forall k :: 0 <= k < Regions(g) ==> Cell(g, image, k, Slots(g))[..HINT_BLOCK_SIZE] == ZERO_HINT_BYTES
    requires forall k :: 0 <= k < Regions(g) ==> Cell(g, image, k, Half(g))[..HINT_BLOCK_SIZE] == ZERO_HINT_BYTES
    ensures Blank(g, image)
  {
    hide HintCheck, Cell;
    ZerosFail();
  }
}
