/**
 Blocks as bytes: the layouts of src/lib/blocks.h, the checksummed forms that
 src/lib/write.c stores and the checks of src/lib/validate.c.
 */
module Codec {
  import opened Bytes
  import opened Crc32
  import opened Layout

  const BLOCK_HEADER_SIZE := 32
  const HINT_BLOCK_SIZE := 24

  datatype BlockHeader = BlockHeader(
    timestamp: u64, applicationData: u64, dataLength: u64, pad: bv32, hash: bv32)

  datatype HintBlock = HintBlock(
    previousBlockPos: u64, previousTaggedBlockPos: u64, pad: bv32, hash: bv32)

  const ZERO_HINT := HintBlock(0, 0, 0, 0)

  /** A log entry: what a caller writes and what a read prints. */
  datatype Entry = Entry(timestamp: u64, applicationData: u64, payload: seq<byte>)

  // ----- Layout of the structures -----

  function HeaderFields(timestamp: u64, applicationData: u64, dataLength: u64, pad: bv32): (s: seq<byte>)
    ensures |s| == 28
  {
    PutU64(timestamp) + PutU64(applicationData) + PutU64(dataLength) + PutU32(pad)
  }

  function HeaderBytes(h: BlockHeader): (s: seq<byte>)
    ensures |s| == BLOCK_HEADER_SIZE
  {
    HeaderFields(h.timestamp, h.applicationData, h.dataLength, h.pad) + PutU32(h.hash)
  }

  function HeaderOf(buf: seq<byte>): BlockHeader
    requires BLOCK_HEADER_SIZE <= |buf|
  {
    BlockHeader(GetU64(buf[..8]), GetU64(buf[8..16]), GetU64(buf[16..24]), GetU32(buf[24..28]), GetU32(buf[28..32]))
  }

  function HintFields(previous: u64, previousTagged: u64, pad: bv32): (s: seq<byte>)
    ensures |s| == 20
  {
    PutU64(previous) + PutU64(previousTagged) + PutU32(pad)
  }

  function HintBytes(h: HintBlock): (s: seq<byte>)
    ensures |s| == HINT_BLOCK_SIZE
  {
    HintFields(h.previousBlockPos, h.previousTaggedBlockPos, h.pad) + PutU32(h.hash)
  }

  function HintOf(buf: seq<byte>): HintBlock
    requires |buf| == HINT_BLOCK_SIZE
  {
    HintBlock(GetU64(buf[..8]), GetU64(buf[8..16]), GetU32(buf[16..20]), GetU32(buf[20..]))
  }

  lemma HeaderRoundTrip(h: BlockHeader, rest: seq<byte>)
    ensures HeaderOf(HeaderBytes(h) + rest) == h
  {
    hide PutU64, GetU64, PutU32, GetU32;
    var buf := HeaderBytes(h) + rest;
    assert buf[..8] == PutU64(h.timestamp);
    assert buf[8..16] == PutU64(h.applicationData);
    assert buf[16..24] == PutU64(h.dataLength);
    assert buf[24..28] == PutU32(h.pad);
    assert buf[28..32] == PutU32(h.hash);
    U64RoundTrip(h.timestamp);
    U64RoundTrip(h.applicationData);
    U64RoundTrip(h.dataLength);
    U32RoundTrip(h.pad);
    U32RoundTrip(h.hash);
  }

  lemma HintRoundTrip(h: HintBlock)
    ensures HintOf(HintBytes(h)) == h
  {
    hide PutU64, GetU64, PutU32, GetU32;
    var buf := HintBytes(h);
    assert buf[..8] == PutU64(h.previousBlockPos);
    assert buf[8..16] == PutU64(h.previousTaggedBlockPos);
    assert buf[16..20] == PutU32(h.pad);
    assert buf[20..] == PutU32(h.hash);
    U64RoundTrip(h.previousBlockPos);
    U64RoundTrip(h.previousTaggedBlockPos);
    U32RoundTrip(h.pad);
    U32RoundTrip(h.hash);
  }

  /** Where the fields of struct bdl_block_header lie. */
  lemma HeaderLayout(h: BlockHeader)
    ensures var s := HeaderBytes(h);
            && s[..8] == LittleEndian(h.timestamp, 8)
            && s[8..16] == LittleEndian(h.applicationData, 8)
            && s[16..24] == LittleEndian(h.dataLength, 8)
            && s[24..28] == PutU32(h.pad)
            && s[28..] == PutU32(h.hash)
  {
    hide PutU32, LittleEndian;
  }

  /** And those of struct bdl_hintblock. */
  lemma HintLayout(h: HintBlock)
    ensures var s := HintBytes(h);
            && s[..8] == LittleEndian(h.previousBlockPos, 8)
            && s[8..16] == LittleEndian(h.previousTaggedBlockPos, 8)
            && s[16..20] == PutU32(h.pad)
            && s[20..] == PutU32(h.hash)
  {
    hide PutU32, LittleEndian;
  }

  // ----- Checks -----

  /** crypt_check_hash: zero exactly when the stored hash is that of the data. */
  function HashDifference(data: seq<byte>, hash: bv32): bv32 {
    Difference(hash, Checksum(data))
  }

  function Difference(a: bv32, b: bv32): bv32 {
    a - b
  }

  lemma DifferenceIs(a: bv32, b: bv32)
    ensures Difference(a, b) == a - b
  {
  }

  lemma HashDifferenceIs(data: seq<byte>, hash: bv32)
    ensures HashDifference(data, hash) == Difference(hash, Checksum(data))
    ensures HashDifference(data, hash) == hash - Checksum(data)
  {
    hide Checksum, Difference;
    DifferenceIs(hash, Checksum(data));
  }

  /** The bytes validate_block hashes, for a block whose length field says `total` bytes. */
  function HashedPart(buf: seq<byte>, total: nat): seq<byte>
    requires BLOCK_HEADER_SIZE <= total <= |buf|
  {
    buf[..28] + ZERO_WORD + buf[32..total]
  }

  /** validate_block: 1 when the length cannot be right, otherwise the difference of the hashes. */
  function BlockCheck(buf: seq<byte>): bv32
    requires BLOCK_HEADER_SIZE <= |buf|
  {
    var header := HeaderOf(buf);
    var total := BLOCK_HEADER_SIZE + header.dataLength;
    if total > |buf| then 1
    else HashDifference(HashedPart(buf, total), header.hash)
  }

  /** validate_hintblock */
  function HintCheck(buf: seq<byte>): bv32
    requires |buf| == HINT_BLOCK_SIZE
  {
    var hint := HintOf(buf);
    if hint.pad != 0 then 1 else HashDifference(buf[..20] + ZERO_WORD, hint.hash)
  }

  /** crypt_hash_data, for the one algorithm there is. */
  method HashData(data: seq<byte>) returns (hash: bv32)
    ensures hash == Checksum(data)
  {
    hash := Crc32Buf(data);
  }

  /** crypt_check_hash */
  method CheckHash(data: seq<byte>, hash: bv32) returns (result: bv32)
    ensures result == HashDifference(data, hash)
    ensures result == hash - Checksum(data)
  {
    hide *;
    var test := HashData(data);
    HashDifferenceIs(data, hash);
    result := Difference(hash, test);
  }

  method ValidateBlock(buf: seq<byte>) returns (result: bv32)
    requires BLOCK_HEADER_SIZE <= |buf|
    ensures result == BlockCheck(buf)
  {
    var header := HeaderOf(buf);
    var total := BLOCK_HEADER_SIZE + header.dataLength;
    if total > |buf| {
      return 1;
    }
    var copy := new byte[total](i requires 0 <= i < total => buf[i]);
    copy[28], copy[29], copy[30], copy[31] := 0, 0, 0, 0;
    assert copy[..] == buf[..28] + ZERO_WORD + buf[32..total];
    result := CheckHash(copy[..], header.hash);
  }

  method ValidateHint(buf: seq<byte>) returns (result: bv32)
    requires |buf| == HINT_BLOCK_SIZE
    ensures result == HintCheck(buf)
  {
    var header := HintOf(buf);
    var copy := new byte[HINT_BLOCK_SIZE](i requires 0 <= i < HINT_BLOCK_SIZE => buf[i]);
    copy[20], copy[21], copy[22], copy[23] := 0, 0, 0, 0;
    assert copy[..] == buf[..20] + ZERO_WORD;
    result := CheckHash(copy[..], header.hash);
    if header.pad != 0 {
      result := 1;
    }
  }

  // ----- Checksummed forms -----

  /** Header and data as write_checksum_and_put_block hashes and stores them. */
  function SealedBlock(h: BlockHeader, data: seq<byte>): (s: seq<byte>)
    ensures |s| == BLOCK_HEADER_SIZE + |data|
  {
    var hash := Checksum(HeaderBytes(h.(hash := 0)) + data);
    HeaderBytes(h.(hash := hash)) + data
  }

  /** A hint block as write_update_hintblock hashes and stores it. */
  function SealedHint(h: HintBlock): (s: seq<byte>)
    ensures |s| == HINT_BLOCK_SIZE
  {
    HintBytes(h.(hash := Checksum(HintBytes(h.(hash := 0)))))
  }

  lemma ZeroWordIsZero()
    ensures PutU32(0) == ZERO_WORD
  {
  }

  lemma ZeroDifference(a: bv32, b: bv32)
    requires Difference(a, b) == 0
    ensures a == b
  {
  }

  lemma EqualHashes(a: bv32, b: bv32)
    ensures Difference(a, b) == 0 <==> a == b
  {
    if Difference(a, b) == 0 {
      ZeroDifference(a, b);
    }
  }

  lemma HashedBlockParts(h: BlockHeader, hash: bv32, data: seq<byte>, padding: seq<byte>)
    ensures var buf := HeaderBytes(h.(hash := hash)) + data + padding;
            && HeaderOf(buf) == h.(hash := hash)
            && buf[..28] + ZERO_WORD + buf[32..32 + |data|] == HeaderBytes(h.(hash := 0)) + data
            && buf[32..32 + |data|] == data
  {
    hide HeaderOf, HeaderFields, PutU32;
    var bytes := HeaderBytes(h.(hash := hash));
    assert bytes + data + padding == bytes + (data + padding);
    HeaderRoundTrip(h.(hash := hash), data + padding);
    ZeroWordIsZero();
  }

  lemma SealedBlockParts(h: BlockHeader, data: seq<byte>, padding: seq<byte>)
    ensures var buf := SealedBlock(h, data) + padding;
            && HeaderOf(buf) == h.(hash := Checksum(HeaderBytes(h.(hash := 0)) + data))
            && buf[..28] + ZERO_WORD + buf[32..32 + |data|] == HeaderBytes(h.(hash := 0)) + data
            && buf[32..32 + |data|] == data
  {
    hide Checksum, HeaderOf, HeaderBytes;
    HashedBlockParts(h, Checksum(HeaderBytes(h.(hash := 0)) + data), data, padding);
  }

  /** A block just sealed passes the check, and its header and data are read back. */
  lemma SealedBlockChecks(h: BlockHeader, data: seq<byte>, padding: seq<byte>)
    requires h.dataLength == |data|
    ensures BlockCheck(SealedBlock(h, data) + padding) == 0
    ensures HeaderOf(SealedBlock(h, data) + padding) == h.(hash := HeaderOf(SealedBlock(h, data) + padding).hash)
    ensures (SealedBlock(h, data) + padding)[32..32 + |data|] == data
  {
    hide Checksum, HeaderOf, HeaderBytes, SealedBlock, Difference;
    var hashed := HeaderBytes(h.(hash := 0)) + data;
    SealedBlockParts(h, data, padding);
    EqualHashes(Checksum(hashed), Checksum(hashed));
  }

  lemma SealedHintChecks(h: HintBlock)
    requires h.pad == 0
    ensures HintCheck(SealedHint(h)) == 0
    ensures HintOf(SealedHint(h)) == h.(hash := HintOf(SealedHint(h)).hash)
  {
    hide Checksum;
    var hashed := HintBytes(h.(hash := 0));
    var sealed := h.(hash := Checksum(hashed));
    HintRoundTrip(sealed);
    hide HintOf, HintFields, PutU32;
    ZeroWordIsZero();
    assert SealedHint(h)[..20] + ZERO_WORD == hashed;
    EqualHashes(sealed.hash, Checksum(hashed));
  }

  /** A hint block whose pad is not zero is refused, though its hash is right. */
  lemma PadIsRefused(h: HintBlock)
    requires h.pad != 0
    ensures HintCheck(SealedHint(h)) == 1
  {
    hide Checksum;
    HintRoundTrip(h.(hash := Checksum(HintBytes(h.(hash := 0)))));
    hide HintOf, HintBytes;
  }

  // ----- What a slot holds after a write -----

  predicate Fits(g: Geometry, e: Entry) {
    |e.payload| <= g.blockSize - BLOCK_HEADER_SIZE
  }

  function EntryHeader(g: Geometry, e: Entry): BlockHeader
    requires Fits(g, e)
  {
    BlockHeader(e.timestamp, e.applicationData, |e.payload|, 0, 0)
  }

  /** The bytes of the slot an entry is stored in. */
  function EntryCell(g: Geometry, e: Entry): (s: seq<byte>)
    requires Fits(g, e)
    ensures |s| == g.blockSize
  {
    SealedBlock(EntryHeader(g, e), e.payload) +
    Repeat(g.padCharacter, g.blockSize - BLOCK_HEADER_SIZE - |e.payload|)
  }

  /** The bytes of a hint slot whose region was last written at `previous`. */
  function HintCell(g: Geometry, previous: u64): (s: seq<byte>)
    ensures |s| == g.blockSize
  {
    SealedHint(HintBlock(previous, 0, 0, 0)) + Repeat(g.padCharacter, g.blockSize - HINT_BLOCK_SIZE)
  }

  function EntryOf(buf: seq<byte>): Entry
    requires BLOCK_HEADER_SIZE <= |buf|
    requires BLOCK_HEADER_SIZE + HeaderOf(buf).dataLength <= |buf|
  {
    var h := HeaderOf(buf);
    Entry(h.timestamp, h.applicationData, buf[32..32 + h.dataLength])
  }

  /** Byte by byte, what the slot of a stored entry holds. */
  lemma EntryCellBytes(g: Geometry, e: Entry)
    requires Fits(g, e)
    ensures var cell, n := EntryCell(g, e), |e.payload|;
            && cell[..8] == LittleEndian(e.timestamp, 8)
            && cell[8..16] == LittleEndian(e.applicationData, 8)
            && cell[16..24] == LittleEndian(n, 8)
            && cell[24..28] == [0, 0, 0, 0]
            && cell[28..32] == PutU32(Checksum(cell[..28] + [0, 0, 0, 0] + e.payload))
            && cell[32..32 + n] == e.payload
            && forall i :: 32 + n <= i < g.blockSize ==> cell[i] == g.padCharacter
  {
    hide PutU32, LittleEndian, Checksum;
    ZeroWordIsZero();
    var h := EntryHeader(g, e);
    var hash := Checksum(HeaderBytes(h) + e.payload);
    var cell := EntryCell(g, e);
    HeaderLayout(h.(hash := hash));
    assert cell[..32] == HeaderBytes(h.(hash := hash));
    assert h.(hash := 0) == h;
    assert cell[..28] + [0, 0, 0, 0] + e.payload == HeaderBytes(h) + e.payload;
  }

  /** And what the slot of a hint block holds. */
  lemma HintCellBytes(g: Geometry, previous: u64)
    ensures var cell := HintCell(g, previous);
            && cell[..8] == LittleEndian(previous, 8)
            && cell[8..20] == LittleEndian(0, 8) + [0, 0, 0, 0]
            && cell[20..24] == PutU32(Checksum(cell[..20] + [0, 0, 0, 0]))
            && forall i :: 24 <= i < g.blockSize ==> cell[i] == g.padCharacter
  {
    hide PutU32, LittleEndian, Checksum;
    ZeroWordIsZero();
    var hint := HintBlock(previous, 0, 0, 0);
    var cell := HintCell(g, previous);
    assert cell[..24] == SealedHint(hint);
    assert cell[..20] + [0, 0, 0, 0] == HintBytes(hint);
  }

  lemma EntryCellReadsBack(g: Geometry, e: Entry)
    requires Fits(g, e)
    ensures BlockCheck(EntryCell(g, e)) == 0
    ensures HeaderOf(EntryCell(g, e)) == EntryHeader(g, e).(hash := HeaderOf(EntryCell(g, e)).hash)
    ensures EntryOf(EntryCell(g, e)) == e
  {
    hide HeaderOf, BlockCheck, SealedBlock;
    SealedBlockChecks(EntryHeader(g, e), e.payload,
                      Repeat(g.padCharacter, g.blockSize - BLOCK_HEADER_SIZE - |e.payload|));
  }

  lemma HintCellReadsBack(g: Geometry, previous: u64)
    ensures HintCheck(HintCell(g, previous)[..HINT_BLOCK_SIZE]) == 0
    ensures HintOf(HintCell(g, previous)[..HINT_BLOCK_SIZE]).previousBlockPos == previous
    ensures HintOf(HintCell(g, previous)[..HINT_BLOCK_SIZE]).previousTaggedBlockPos == 0
    ensures HintOf(HintCell(g, previous)[..HINT_BLOCK_SIZE]).pad == 0
  {
    hide HintOf, HintCheck, SealedHint;
    var hint := HintBlock(previous, 0, 0, 0);
    SealedHintChecks(hint);
    assert HintCell(g, previous)[..HINT_BLOCK_SIZE] == SealedHint(hint);
  }

  // ----- Damage is noticed -----

  /** `s` and `t` agree everywhere outside the `width` bytes from `pos` on. */
  predicate SameOutside(s: seq<byte>, t: seq<byte>, pos: nat, width: nat)
    requires |s| == |t| && pos + width <= |s|
  {
    s[..pos] == t[..pos] && s[pos + width..] == t[pos + width..]
  }

  lemma BurstInWindow(s: seq<byte>, t: seq<byte>, pos: nat, width: nat)
    requires |s| == |t| && pos + width <= |s| && width <= 4
    requires SameOutside(s, t, pos, width) && s != t
    ensures Checksum(s) != Checksum(t)
  {
    hide Checksum;
    var a, b := s[pos..pos + width], t[pos..pos + width];
    assert s == s[..pos] + a + s[pos + width..];
    assert t == s[..pos] + b + s[pos + width..];
    BurstChangesChecksum(s[..pos], a, b, s[pos + width..]);
  }

  lemma SlicesOutside(s: seq<byte>, t: seq<byte>, pos: nat, width: nat, from: nat, to: nat)
    requires |s| == |t| && pos + width <= |s| && from <= to <= |s|
    requires SameOutside(s, t, pos, width)
    requires to <= pos || pos + width <= from
    ensures s[from..to] == t[from..to]
  {
    forall i | from <= i < to
      ensures s[i] == t[i]
    {
      if i < pos {
        assert s[..pos][i] == t[..pos][i];
      } else {
        assert s[pos + width..][i - pos - width] == t[pos + width..][i - pos - width];
      }
    }
  }

  lemma HintFieldDamage(good: seq<byte>, bad: seq<byte>, pos: nat, width: nat)
    requires |good| == |bad| == HINT_BLOCK_SIZE
    requires width <= 4 && pos + width <= 20
    requires SameOutside(good, bad, pos, width) && good != bad
    ensures good[20..] == bad[20..]
    ensures Checksum(good[..20] + ZERO_WORD) != Checksum(bad[..20] + ZERO_WORD)
  {
    hide Checksum;
    var s, t := good[..20] + ZERO_WORD, bad[..20] + ZERO_WORD;
    SlicesOutside(good, bad, pos, width, 20, 24);
    SlicesOutside(good, bad, pos, width, pos + width, 20);
    SlicesOutside(good, bad, pos, width, 0, pos);
    assert good[20..24] == good[20..] && bad[20..24] == bad[20..];
    assert good == good[..20] + good[20..] && bad == bad[..20] + bad[20..];
    assert good[..20] == s[..20] && bad[..20] == t[..20];
    assert s[pos + width..] == good[pos + width..20] + ZERO_WORD;
    assert t[pos + width..] == bad[pos + width..20] + ZERO_WORD;
    assert s[..pos] == good[..pos] && t[..pos] == bad[..pos];
    BurstInWindow(s, t, pos, width);
  }

  lemma HintHashDamage(good: seq<byte>, bad: seq<byte>, pos: nat, width: nat)
    requires |good| == |bad| == HINT_BLOCK_SIZE
    requires 20 <= pos && pos + width <= 24
    requires SameOutside(good, bad, pos, width) && good != bad
    ensures good[..20] == bad[..20]
    ensures GetU32(good[20..]) != GetU32(bad[20..])
  {
    hide GetU32;
    SlicesOutside(good, bad, pos, width, 0, 20);
    assert good == good[..20] + good[20..] && bad == bad[..20] + bad[20..];
    if GetU32(good[20..]) == GetU32(bad[20..]) {
      GetU32Injective(good[20..], bad[20..]);
      assert false;
    }
  }

  /** Damage to at most four consecutive bytes of a good hint block, in its fields or in its hash, is reported. */
  lemma HintDamageIsReported(good: seq<byte>, bad: seq<byte>, pos: nat, width: nat)
    requires |good| == |bad| == HINT_BLOCK_SIZE && HintCheck(good) == 0
    requires width <= 4 && (pos + width <= 20 || (20 <= pos && pos + width <= 24))
    requires SameOutside(good, bad, pos, width) && good != bad
    ensures HintCheck(bad) != 0
  {
    hide Checksum, GetU64, GetU32, Difference, SameOutside;
    EqualHashes(GetU32(good[20..]), Checksum(good[..20] + ZERO_WORD));
    EqualHashes(GetU32(bad[20..]), Checksum(bad[..20] + ZERO_WORD));
    if pos + width <= 20 {
      HintFieldDamage(good, bad, pos, width);
    } else {
      HintHashDamage(good, bad, pos, width);
    }
  }

  lemma HashedHeaderDamage(good: seq<byte>, bad: seq<byte>, total: nat, pos: nat, width: nat)
    requires BLOCK_HEADER_SIZE <= total <= |good| == |bad|
    requires width <= 4 && pos + width <= 28
    requires SameOutside(good, bad, pos, width) && good != bad
    ensures Checksum(HashedPart(good, total)) != Checksum(HashedPart(bad, total))
  {
    hide Checksum;
    var s, t := HashedPart(good, total), HashedPart(bad, total);
    assert s[..pos] == t[..pos] by {
      assert s[..pos] == good[..pos] && t[..pos] == bad[..pos];
    }
    assert s[pos + width..] == t[pos + width..] by {
      SlicesOutside(good, bad, pos, width, pos + width, 28);
      SlicesOutside(good, bad, pos, width, 32, total);
      assert s[pos + width..] == good[pos + width..28] + ZERO_WORD + good[32..total];
      assert t[pos + width..] == bad[pos + width..28] + ZERO_WORD + bad[32..total];
    }
    assert s != t by {
      SlicesOutside(good, bad, pos, width, 28, |good|);
      assert good == good[..28] + good[28..] && bad == bad[..28] + bad[28..];
      assert s[..28] == good[..28] && t[..28] == bad[..28];
    }
    BurstInWindow(s, t, pos, width);
  }

  lemma PayloadDamage(good: seq<byte>, bad: seq<byte>, total: nat, pos: nat, width: nat)
    requires BLOCK_HEADER_SIZE <= total <= |good| == |bad|
    requires width <= 4 && 32 <= pos && pos + width <= total
    requires SameOutside(good, bad, pos, width) && good != bad
    ensures Checksum(HashedPart(good, total)) != Checksum(HashedPart(bad, total))
  {
    hide Checksum;
    var s, t := HashedPart(good, total), HashedPart(bad, total);
    assert s[..pos] == t[..pos] by {
      SlicesOutside(good, bad, pos, width, 0, 28);
      SlicesOutside(good, bad, pos, width, 32, pos);
      assert s[..pos] == good[..28] + ZERO_WORD + good[32..pos];
      assert t[..pos] == bad[..28] + ZERO_WORD + bad[32..pos];
    }
    assert s[pos + width..] == t[pos + width..] by {
      SlicesOutside(good, bad, pos, width, pos + width, total);
      assert s[pos + width..] == good[pos + width..total] && t[pos + width..] == bad[pos + width..total];
    }
    assert s != t by {
      SlicesOutside(good, bad, pos, width, 0, 32);
      SlicesOutside(good, bad, pos, width, total, |good|);
      assert good == good[..32] + good[32..total] + good[total..];
      assert bad == bad[..32] + bad[32..total] + bad[total..];
      assert s[32..] == good[32..total] && t[32..] == bad[32..total];
    }
    BurstInWindow(s, t, pos, width);
  }

  /** The header fields outside the window read the same. */
  lemma LengthAndHashKept(good: seq<byte>, bad: seq<byte>, pos: nat, width: nat)
    requires BLOCK_HEADER_SIZE <= |good| == |bad| && pos + width <= |good|
    requires pos + width <= 16 || (24 <= pos && pos + width <= 28) || 32 <= pos
    requires SameOutside(good, bad, pos, width)
    ensures HeaderOf(good).dataLength == HeaderOf(bad).dataLength
    ensures HeaderOf(good).hash == HeaderOf(bad).hash
  {
    hide GetU64, GetU32;
    SlicesOutside(good, bad, pos, width, 16, 24);
    SlicesOutside(good, bad, pos, width, 28, 32);
  }

  /**
   Damage to at most four consecutive bytes of a good data block is reported, when it
   lies in the fields outside data_length and hash or in the payload.
   */
  lemma BlockDamageIsReported(good: seq<byte>, bad: seq<byte>, pos: nat, width: nat)
    requires BLOCK_HEADER_SIZE <= |good| == |bad|
    requires BlockCheck(good) == 0 && BLOCK_HEADER_SIZE + HeaderOf(good).dataLength <= |good|
    requires width <= 4
    requires || pos + width <= 16
             || (24 <= pos && pos + width <= 28)
             || (32 <= pos && pos + width <= BLOCK_HEADER_SIZE + HeaderOf(good).dataLength)
    requires SameOutside(good, bad, pos, width) && good != bad
    ensures BlockCheck(bad) != 0
  {
    hide Checksum, HeaderOf, Difference, SameOutside;
    var total := BLOCK_HEADER_SIZE + HeaderOf(good).dataLength;
    LengthAndHashKept(good, bad, pos, width);
    if pos + width <= 28 {
      HashedHeaderDamage(good, bad, total, pos, width);
    } else {
      PayloadDamage(good, bad, total, pos, width);
    }
    EqualHashes(HeaderOf(good).hash, Checksum(HashedPart(good, total)));
    EqualHashes(HeaderOf(bad).hash, Checksum(HashedPart(bad, total)));
  }

  lemma AnyDifference(hash: bv32, c: bv32) returns (stored: bv32)
    ensures stored == hash + c && Difference(stored, hash) == c
  {
    stored := hash + c;
  }

  function GoodHash(g: Geometry, e: Entry): bv32
    requires Fits(g, e)
  {
    Checksum(HeaderBytes(EntryHeader(g, e)) + e.payload)
  }

  /** A block that reads as `e`, with any hash. */
  function HashedCell(g: Geometry, e: Entry, hash: bv32): (s: seq<byte>)
    requires Fits(g, e)
    ensures |s| == g.blockSize
  {
    HeaderBytes(EntryHeader(g, e).(hash := hash)) + e.payload +
    Repeat(g.padCharacter, g.blockSize - BLOCK_HEADER_SIZE - |e.payload|)
  }

  lemma HashedCellReadsAs(g: Geometry, e: Entry, hash: bv32)
    requires Fits(g, e)
    ensures BlockCheck(HashedCell(g, e, hash)) == Difference(hash, GoodHash(g, e))
    ensures BLOCK_HEADER_SIZE + HeaderOf(HashedCell(g, e, hash)).dataLength <= g.blockSize
    ensures EntryOf(HashedCell(g, e, hash)) == e
  {
    hide Checksum, HeaderOf, HeaderBytes, Difference;
    var padding := Repeat(g.padCharacter, g.blockSize - BLOCK_HEADER_SIZE - |e.payload|);
    HashedBlockParts(EntryHeader(g, e), hash, e.payload, padding);
  }

  /** The check comes out as what the stored hash is above the computed one, modulo 2^32. */
  lemma CheckIsExcess(g: Geometry, e: Entry, good: bv32, c: bv32) returns (hash: bv32)
    requires Fits(g, e) && good == GoodHash(g, e)
    ensures hash == good + c
    ensures BlockCheck(HashedCell(g, e, hash)) == c
  {
    hide *;
    hash := AnyDifference(good, c);
    HashedCellReadsAs(g, e, hash);
  }

  /** Whatever entry and whatever outcome of the check: some block reads as the one and checks as the other. */
  lemma AnyBlock(g: Geometry, e: Entry, c: bv32) returns (cell: seq<byte>)
    requires Fits(g, e)
    ensures |cell| == g.blockSize && BlockCheck(cell) == c
    ensures BLOCK_HEADER_SIZE + HeaderOf(cell).dataLength <= g.blockSize && EntryOf(cell) == e
  {
    hide BlockCheck, HeaderOf, HashedCell, GoodHash, Difference;
    var hash := AnyDifference(GoodHash(g, e), c);
    cell := HashedCell(g, e, hash);
    HashedCellReadsAs(g, e, hash);
  }
}
