/**
 Single blocks on the device: storing a checksummed data block, reading and updating
 hint blocks, and finding out what a region holds (src/lib/blocks.c:102-223 and
 src/lib/write.c:205-325).

 For each operation a function says what it does to the bytes of the device, whatever
 they are; the method of the same purpose is the program's code, proved to do that.
 */
module Blocks {
  import opened Bytes
  import opened Layout
  import opened Io
  import opened Codec
  import Crc32

  datatype Status = Done | Failed | Exited

  // ----- Storing a block -----

  function Padding(g: Geometry, length: nat): seq<byte>
    requires length <= g.blockSize
  {
    Repeat(g.padCharacter, g.blockSize - length)
  }

  /** write_put_and_pad_block */
  function PutPadded(g: Geometry, image: seq<byte>, pos: nat, data: seq<byte>): (r: Stored)
    requires |data| <= g.blockSize
    ensures |r.image| == |image|
  {
    WriteAt(image, pos, data, Padding(g, |data|))
  }

  method WritePutAndPadBlock(file: IoFile, g: Geometry, pos: nat, data: seq<byte>) returns (code: int)
    requires file.Valid() && |data| <= g.blockSize
    modifies file.Footprint()
    ensures file.Valid()
    ensures file.journal == old(file.journal) + if code == 0 then [file.Image()] else []
    ensures file.Image() == PutPadded(g, old(file.Image()), pos, data).image
    ensures code == if PutPadded(g, old(file.Image()), pos, data).ok then 0 else 1
  {
    var padding := Repeat(g.padCharacter, g.blockSize - |data|);
    code := file.WriteBlock(pos, data, padding);
  }

  /** write_checksum_and_put_block: hash header and data with a zeroed hash field, then store both. */
  method WriteChecksumAndPutBlock(file: IoFile, g: Geometry, header: BlockHeader, data: seq<byte>, pos: nat)
    returns (code: int)
    requires file.Valid() && BLOCK_HEADER_SIZE + |data| <= g.blockSize
    modifies file.Footprint()
    ensures file.Valid()
    ensures file.journal == old(file.journal) + if code == 0 then [file.Image()] else []
    ensures file.Image() == PutPadded(g, old(file.Image()), pos, SealedBlock(header, data)).image
    ensures code == if PutPadded(g, old(file.Image()), pos, SealedBlock(header, data)).ok then 0 else 1
  {
    hide HeaderBytes;
    var newHeader := header.(hash := 0);
    var hash := HashData(HeaderBytes(newHeader) + data);
    newHeader := newHeader.(hash := hash);
    var hashData := HeaderBytes(newHeader) + data;
    assert hashData == SealedBlock(header, data);
    code := WritePutAndPadBlock(file, g, pos, hashData);
  }

  /** block_get_validate_block: the slot at `pos` and the result of its check. */
  method GetValidateBlock(file: IoFile, g: Geometry, pos: nat) returns (code: int, buf: seq<byte>, result: bv32)
    modifies file`seek
    ensures code == if ReadAt(file.Image(), pos, g.blockSize).Some? then 0 else 1
    ensures code == 0 ==> buf == ReadAt(file.Image(), pos, g.blockSize).value && result == BlockCheck(buf)
  {
    code, buf := file.ReadBlock(pos, g.blockSize);
    if code != 0 {
      return code, buf, 1;
    }
    result := ValidateBlock(buf);
  }

  // ----- Hint blocks -----

  datatype HintRead = HintRead(hint: HintBlock, check: bv32)

  /** block_get_valid_hintblock: the structure at `pos` and the result of its check. */
  function HintAt(image: seq<byte>, pos: nat): Option<HintRead> {
    match ReadAt(image, pos, HINT_BLOCK_SIZE)
    case None => None
    case Some(buf) => Some(HintRead(HintOf(buf), HintCheck(buf)))
  }

  method GetValidHintblock(file: IoFile, pos: nat) returns (code: int, hint: HintBlock, result: bv32)
    modifies file`seek
    ensures code == if HintAt(file.Image(), pos).Some? then 0 else 1
    ensures code == 0 ==> HintAt(file.Image(), pos) == Some(HintRead(hint, result))
  {
    var buf;
    code, buf := file.ReadBlock(pos, HINT_BLOCK_SIZE);
    if code != 0 {
      return code, ZERO_HINT, 0;
    }
    hint := HintOf(buf);
    result := ValidateHint(buf);
  }

  /** The hint block that replaces what was read: only a valid predecessor is preserved. */
  function Renewed(found: HintRead, previous: u64, previousTagged: u64): HintBlock {
    var base := if found.check == 0 then found.hint else ZERO_HINT;
    HintBlock(previous, if previousTagged != 0 then previousTagged else base.previousTaggedBlockPos, base.pad, 0)
  }

  /** One round of write_update_hintblock, for the hint block at `pos`. */
  function PutHint(g: Geometry, image: seq<byte>, previous: u64, previousTagged: u64, pos: nat): (r: Stored)
    ensures |r.image| == |image|
  {
    match HintAt(image, pos)
    case None => Stored(image, false)
    case Some(found) => PutPadded(g, image, pos, SealedHint(Renewed(found, previous, previousTagged)))
  }

  /** write_update_hintblock: the hint block, then its backup. */
  function UpdateHint(g: Geometry, image: seq<byte>, previous: u64, previousTagged: u64, pos: nat,
                      backupPos: nat): (r: Stored)
    ensures |r.image| == |image|
  {
    var first := PutHint(g, image, previous, previousTagged, pos);
    if !first.ok || backupPos == pos then first
    else PutHint(g, first.image, previous, previousTagged, backupPos)
  }

  lemma NothingToRenew(g: Geometry, image: seq<byte>, previous: u64, previousTagged: u64, pos: nat)
    ensures HintAt(image, pos).None? ==> PutHint(g, image, previous, previousTagged, pos) == Stored(image, false)
  {
  }

  lemma RenewalOf(g: Geometry, image: seq<byte>, previous: u64, previousTagged: u64, pos: nat, found: HintRead)
    requires HintAt(image, pos) == Some(found)
    ensures PutHint(g, image, previous, previousTagged, pos) ==
            PutPadded(g, image, pos, SealedHint(Renewed(found, previous, previousTagged)))
  {
  }

  lemma SealedForm(hint: HintBlock, hash: bv32)
    requires hint.hash == 0 && hash == Crc32.Checksum(HintBytes(hint))
    ensures HintBytes(hint.(hash := hash)) == SealedHint(hint)
  {
    assert hint.(hash := 0) == hint;
  }

  /** One round of write_update_hintblock. */
  method RenewHintblock(file: IoFile, g: Geometry, previous: u64, previousTagged: u64, pos: nat) returns (code: int)
    requires file.Valid()
    modifies file.Footprint()
    ensures file.Valid()
    ensures file.journal == old(file.journal) + if code == 0 then [file.Image()] else []
    ensures file.Image() == PutHint(g, old(file.Image()), previous, previousTagged, pos).image
    ensures code == if PutHint(g, old(file.Image()), previous, previousTagged, pos).ok then 0 else 1
  {
    hide HintBytes, HintOf, HintCheck, HintAt, PutPadded, PutHint, SealedHint;
    NothingToRenew(g, file.Image(), previous, previousTagged, pos);
    var res, hint, result := GetValidHintblock(file, pos);
    if res != 0 {
      return 1;
    }
    ghost var read := HintRead(hint, result);
    RenewalOf(g, file.Image(), previous, previousTagged, pos, read);
    if result != 0 {
      hint := ZERO_HINT;
    }
    hint := hint.(previousBlockPos := previous, hash := 0);
    if previousTagged != 0 {
      hint := hint.(previousTaggedBlockPos := previousTagged);
    }
    assert hint == Renewed(read, previous, previousTagged);
    var hash := HashData(HintBytes(hint));
    SealedForm(hint, hash);
    code := WritePutAndPadBlock(file, g, pos, HintBytes(hint.(hash := hash)));
  }

  method WriteUpdateHintblock(file: IoFile, g: Geometry, previous: u64, previousTagged: u64, pos: nat, backupPos: nat)
    returns (code: int)
    requires file.Valid()
    modifies file.Footprint()
    ensures file.Valid()
    ensures file.Image() == UpdateHint(g, old(file.Image()), previous, previousTagged, pos, backupPos).image
    ensures code == if UpdateHint(g, old(file.Image()), previous, previousTagged, pos, backupPos).ok then 0 else 1
    ensures code == 0 && backupPos == pos ==> file.journal == old(file.journal) + [file.Image()]
    ensures code == 0 && backupPos != pos ==>
              file.journal == old(file.journal) +
                              [PutHint(g, old(file.Image()), previous, previousTagged, pos).image, file.Image()]
    decreases if backupPos != pos then 1 else 0
  {
    hide PutHint;
    code := RenewHintblock(file, g, previous, previousTagged, pos);
    if code != 0 {
      return 1;
    }
    if backupPos != pos {
      code := WriteUpdateHintblock(file, g, previous, previousTagged, backupPos, backupPos);
      if code != 0 {
        return 1;
      }
    }
    return 0;
  }

  // ----- What a region holds -----

  /**
   struct bdl_hintblock_state. While `valid` is false nothing reads `hint`, which then
   is ZERO_HINT here.
   */
  datatype HintState = HintState(
    valid: bool, blockstartMin: nat, blockstartMax: nat, location: nat, backupLocation: nat,
    highestTimestamp: u64, hint: HintBlock)

  const ZERO_STATE := HintState(false, 0, 0, 0, 0, 0, ZERO_HINT)

  datatype Probe = Probe(image: seq<byte>, status: Status, state: HintState)

  /** The last block a hint points to decides whether the region is in use. */
  function Settle(g: Geometry, image: seq<byte>, base: HintState, hint: HintBlock): (p: Probe)
    ensures |p.image| == |image|
  {
    match ReadAt(image, hint.previousBlockPos, g.blockSize)
    case None => Probe(image, Failed, base)
    case Some(buf) =>
      if BlockCheck(buf) != 0 then Probe(image, Done, base)
      else Probe(image, Done, base.(valid := true, highestTimestamp := HeaderOf(buf).timestamp, hint := hint))
  }

  function Unsettled(pos: nat, min: nat, max: nat): HintState
    requires HALF_SPACING <= pos
  {
    HintState(false, min, max, pos, pos - HALF_SPACING, 0, ZERO_HINT)
  }

  /** block_hintblock_recover_backup, once the primary hint block has failed its check. */
  function Recover(g: Geometry, image: seq<byte>, base: HintState): (p: Probe)
    ensures |p.image| == |image|
  {
    match HintAt(image, base.backupLocation)
    case None => Probe(image, Failed, base)
    case Some(backup) =>
      if backup.check != 0 then Probe(image, Done, base)
      else
        var put := UpdateHint(g, image, backup.hint.previousBlockPos, backup.hint.previousTaggedBlockPos,
                              base.location, base.location + HALF_SPACING);
        if !put.ok then Probe(put.image, Failed, base)
        else
          match HintAt(put.image, base.location)
          case None => Probe(put.image, Failed, base)
          case Some(again) => Settle(g, put.image, base, again.hint)
  }

  /** block_get_hintblock_state */
  function ProbeAt(g: Geometry, image: seq<byte>, pos: nat, min: nat, max: nat): (p: Probe)
    requires HALF_SPACING <= pos
    ensures |p.image| == |image|
  {
    var base := Unsettled(pos, min, max);
    match HintAt(image, pos)
    case None => Probe(image, Failed, base)
    case Some(primary) =>
      if primary.check != 0 then Recover(g, image, base)
      else if primary.hint.previousBlockPos > max || primary.hint.previousBlockPos < min then Probe(image, Done, base)
      else Settle(g, image, base, primary.hint)
  }

  /** Where there is nothing to read, the scan fails and has changed nothing. */
  lemma UnreadableFails(g: Geometry, image: seq<byte>, pos: nat, min: nat, max: nat)
    requires HALF_SPACING <= pos && |image| <= pos + 24
    ensures ProbeAt(g, image, pos, min, max) == Probe(image, Failed, Unsettled(pos, min, max))
  {
  }

  /** block_hintblock_get_last_block, and what its caller makes of it. */
  method SettleState(file: IoFile, g: Geometry, base: HintState, hint: HintBlock) returns (code: int, state: HintState)
    modifies file`seek
    ensures file.Image() == old(file.Image())
    ensures Settle(g, file.Image(), base, hint) == Probe(file.Image(), if code == 0 then Done else Failed, state)
  {
    hide HeaderOf, BlockCheck;
    var res, buf, result := GetValidateBlock(file, g, hint.previousBlockPos);
    if res != 0 {
      return 1, base;
    }
    if result != 0 {
      return 0, base;
    }
    return 0, base.(valid := true, highestTimestamp := HeaderOf(buf).timestamp, hint := hint);
  }

  /** block_hintblock_recover_backup: `result` is zero when a backup was found and written back. */
  method HintblockRecoverBackup(file: IoFile, g: Geometry, base: HintState) returns (code: int, result: bv32)
    requires file.Valid()
    modifies file.Footprint()
    ensures file.Valid()
    ensures code != 0 ==> Recover(g, old(file.Image()), base) == Probe(file.Image(), Failed, base)
    ensures code == 0 && result != 0 ==>
              && file.Image() == old(file.Image())
              && Recover(g, old(file.Image()), base) == Probe(file.Image(), Done, base)
    ensures code == 0 && result == 0 ==> file.queue.Ranges() == [] && file.unsyncedWriteBytes == 0
    ensures code == 0 && result == 0 ==>
              Recover(g, old(file.Image()), base) ==
              match HintAt(file.Image(), base.location)
              case None => Probe(file.Image(), Failed, base)
              case Some(again) => Settle(g, file.Image(), base, again.hint)
  {
    hide HintAt, UpdateHint, Settle;
    var res, hint, check := GetValidHintblock(file, base.backupLocation);
    if res != 0 {
      return 1, 1;
    }
    if check != 0 {
      return 0, check;
    }
    res := WriteUpdateHintblock(file, g, hint.previousBlockPos, hint.previousTaggedBlockPos,
                                base.location, base.location + HALF_SPACING);
    if res != 0 {
      return 1, 1;
    }
    file.Sync();
    return 0, 0;
  }

  method GetHintblockState(file: IoFile, g: Geometry, pos: nat, min: nat, max: nat)
    returns (code: int, state: HintState)
    requires file.Valid() && HALF_SPACING <= pos
    modifies file.Footprint()
    ensures file.Valid()
    ensures ProbeAt(g, old(file.Image()), pos, min, max) ==
            Probe(file.Image(), if code == 0 then Done else Failed, state)
  {
    hide HintOf, HintCheck, Settle, Recover;
    state := Unsettled(pos, min, max);
    var res, hint, result := GetValidHintblock(file, pos);
    if res != 0 {
      return 1, state;
    }
    if result != 0 {
      res, result := HintblockRecoverBackup(file, g, state);
      if res != 0 {
        return 1, state;
      }
      if result != 0 {
        return 0, state;
      }
      res, hint, result := GetValidHintblock(file, pos);
      if res != 0 {
        return 1, state;
      }
    } else if hint.previousBlockPos > max || hint.previousBlockPos < min {
      return 0, state;
    }
    code, state := SettleState(file, g, state, hint);
  }
}
