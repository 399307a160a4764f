# Block Device Logger: verification

A Dafny model of the log-structured ring that Block Device Logger keeps on a device, with
proofs of what it is for: an append-only log in bounded space that can be read back in order,
survives interrupted writes and lost hint blocks; and of what becomes of it when data blocks go
bad, where the checksums protect less than its documentation says.

A device is a header followed by regions of 8 MiB. A region holds data blocks of a fixed size,
a hint block at its end that points to the last data block written, and a backup of the hint
block half way in. Writes fill regions one after the other; when all are full, the one whose
last timestamp is smallest is started over. Reads and updates look for the oldest region that
matters and walk the ring from there.

## How it is built

| file | what it holds |
|---|---|
| `Bytes.dfy`, `Crc32.dfy`, `Codec.dfy` | little-endian fields, the checksum, blocks as bytes and their checks |
| `Layout.dfy` | positions of slots, hint blocks, backups and data blocks |
| `Io.dfy` | the memory-mapped device and its sync queue, as classes |
| `Blocks.dfy`, `Traversal.dfy`, `Writing.dfy`, `Reading.dfy`, `Updating.dfy` | the program's operations as methods over the device, each proved to do what a function on the bytes says, for all bytes |
| `Ring.dfy`, `Simulation.dfy`, `Machine.dfy` | what the bytes mean (one sequence of entries per region), and the proof that scans, walks, writes, reads and updates do to the bytes what a small machine does to those sequences |
| `Undamaged.dfy`, `Runs.dfy`, `Decisions.dfy` | exact bytes after each call, runs of calls, what every run keeps, what decides a write |
| `Queue.dfy`, `Log.dfy` | the ring as a bounded queue: on increasing runs every call is answered as a plain log says |
| `Crash.dfy`, `Loss.dfy`, `Corruption.dfy`, `Blank.dfy` | interrupted writes, retries, lost hint blocks, corrupt data blocks, fresh devices |
| `Session.dfy` | the calls of a session, with contracts about what the regions hold and, while the writes are in order, about the log alone |

Three levels are connected by all-inputs lemmas: bytes (`Represents`) to entries per region
(`RunIsPlay`), and those to the log (`PlayIsLogPlay`); `DeviceIsALog` is the composition. Losing
hint blocks and stopping a write halfway are changes of the bytes that `Represents` survives, so
their consequences hold for whole later runs.

Callbacks passed as function pointers are values of the types `BlockCallback` and `HintCallback`,
with the data they keep between calls; `VisitBlock` and `VisitHint` are the calls. Printed
entries are collected in a sequence. The clock is a field of the write request. The test of an
update is a pure function. `exit` is an outcome (`Exits`), so that "never exits" can be proved.

## Hypotheses

- `Geometry`: the block size is 512, 1024, 2048, 4096 or 8192, which are exactly the accepted sizes
  that divide half a region (`SupportedSizesDivide`; sizes such as 768 are accepted by the program
  but never meet its equality tests for the backup slot, so that data and backup overwrite each
  other, `BackupOverwritesData`), at least one region, every hint block can
  be written (its block ends before the last byte of the device), and fewer than 2^31 bytes,
  because positions are narrowed to `int`.
- `Blank`: no hint block and no backup passes its check at the start; zeros qualify
  (`ZeroSlotsAreBlank`).
- `Increasing`, where a result says so: every stored timestamp is above all before it and below
  0xffffffffffffffff, which the program compares with strictly.
- Structures are laid out as on a little-endian machine.

## Where the code and its documentation differ

The model follows the code.

- README.md:28-29 says that new timestamps must be larger than all existing ones. The code compares
  with the last entry of the chosen region only (src/lib/write.c:369). `DeviceKeepsOrderExactly`
  says exactly when that suffices: while the region last written has room, or is the only one.
- README.md:18-19 and README.md:46-48 say that corrupt data blocks are considered free space. The
  check leaves the difference of stored and computed hash in `result` (src/lib/crypt.c:74), and the
  walk takes that number for its verdict (src/lib/blocks.c:404, src/lib/blocks.c:418): 1 ends the
  walk in front of the block, 2 lets the block be printed and ends the walk behind it, and any other
  difference lets the block be printed in its place. `CorruptIsFreeSpaceExactly` proves that a read
  withholds a corrupt block in front of the last of its region if and only if its check comes out as
  1, `CorruptIsPrinted` gives a failing block for every entry and every other difference, and
  `CorruptIsPrintedWitness` a whole run. A corrupt block that the hint points to makes its region
  count as unused, the good blocks in it too (`CorruptLastBlock`, `BadLastBlockIsStartedOver`). An
  update stores a corrupt block it selects with a fitting hash (`UpdateSealsCorruptBlock`). To a
  write none of them but the last of a region is free space (`DamageDecidesNothing`).
- README.md:15 gives regions 128 MB; the constant is 8 MiB (src/lib/defaults.h:55).
- A lost hint block is recovered unnoticed only under a condition, which `LossIsInvisibleExactly`
  proves to be exact: the second copy that the recovery writes is aimed half a region further on
  instead of at the backup (src/lib/blocks.c:149). In front of an unused region that one counts as
  used for one scan (`LossBeforeUnusedShows`); at the end of the device one call fails
  (`LossAtTheEndCostsOneCall`).

## Model

| member | source | states |
|---|---|---|
| Crc32.Crc32Buf | src/lib/crc32.c:103-111 | the table-driven loop computes, for every message, the checksum defined by shifting its bits one at a time through the register with polynomial 0xEDB88320, all ones at the start, complemented at the end |
| Crc32.TableIsEightSteps | src/lib/crc32.c:55-99 | each of the 256 table entries is eight shifts of its index |
| Crc32.TableStepIsEightShifts | src/lib/crc32.c:101 | one table step is the eight bit shifts of the byte |
| Crc32.BurstChangesChecksum | src/lib/crc32.c:101-111 | messages that differ only inside four consecutive bytes differ in checksum |
| Crc32.CheckValue | src/lib/crc32.c:101-111 | the checksum of the digits 1 to 9 is 0xcbf43926 |
| Codec.HashData | src/lib/crypt.c:40-64 | the hash of a block is the checksum of its bytes |
| Codec.CheckHash | src/lib/crypt.c:66-77 | the result of a hash check is the stored hash minus the computed one, modulo 2^32 |
| Codec.EqualHashes | src/lib/crypt.c:74 | that difference is zero exactly when the hashes are equal |
| Codec.CheckIsExcess | src/lib/crypt.c:74 | a block whose stored hash is c above the computed one checks as c, for every c |
| Codec.ValidateBlock | src/lib/validate.c:35-64 | copies the block, zeroes its hash field and reports 1 for an impossible length, else the hash difference |
| Codec.ValidateHint | src/lib/validate.c:66-93 | the same for a hint block, where a nonzero pad reports 1 |
| Codec.SealedBlockChecks | src/lib/write.c:286-325 | header and data hashed with a zeroed hash field pass the check and read back |
| Codec.PadIsRefused | src/lib/validate.c:66-93 | a hint block with a nonzero pad is refused although its hash is right |
| Codec.HeaderLayout | src/lib/blocks.h:60-74 | where each field of a block header lies, least significant byte first |
| Codec.HintLayout | src/lib/blocks.h:76-87 | the same for a hint block |
| Bytes.LittleEndianAt | src/lib/blocks.h:60-87 | byte i of a stored number is its i-th digit to base 256 |
| Bytes.GetU32Sum | src/lib/blocks.h:60-87 | a 32-bit field reads as the sum of its bytes times powers of 256 |
| Codec.EntryCellBytes | src/lib/write.c:286-325 | byte by byte, what the slot of a stored entry holds: the fields, zeros for the pad, the checksum of header and data taken with a zeroed hash, the payload, and the pad character up to the block size |
| Codec.HintCellBytes | src/lib/write.c:242-268 | the same for a stored hint block |
| Codec.EntryCellReadsBack | src/lib/write.c:286-325 | the slot of a stored entry passes its check and gives back timestamp, application data, length and payload |
| Codec.HintCellReadsBack | src/lib/write.c:242-268 | a stored hint block passes its check and gives back the position, with no tag and no pad |
| Codec.HintDamageIsReported | src/lib/validate.c:66-93 | any change within four consecutive bytes of the fields, or of the hash, of a valid hint block makes the check nonzero |
| Codec.BlockDamageIsReported | src/lib/validate.c:35-64 | any change within four consecutive bytes of a valid data block, in the fields other than length and hash or in the payload, makes the check nonzero |
| Codec.AnyBlock | src/lib/crypt.c:74 | for every entry and every difference there is a block that reads as the one and checks as the other |
| Bytes.BitAndDigits | src/lib/update.c:45 | the mask test looks at the binary digits both numbers have |
| Bytes.MaskHits | src/lib/update.c:45 | so it passes exactly when they have a binary digit in common |
| Bytes.DigitIsQuotient | src/lib/update.c:45 | and digit i of n is the parity of n divided by 2^i |
| Layout.SupportedSizesDivide | src/lib/write.c:77 | of the accepted block sizes exactly five put a slot where the equality test for the backup looks |
| Layout.BackupIsStraddled | src/lib/write.c:77 | with any other accepted size no slot meets the test, and one data slot of every region lies across the backup |
| Layout.BackupOverwritesData | src/lib/write.c:75-79 | the block in that slot and the backup overwrite each other, whichever is stored second |
| Layout.Positions | src/lib/defaults.h:54-56 | in bytes, where hint blocks, backups and the data blocks of a region are, in writing order around the backup, and how many of each there are |
| BlankDevice.ZeroSlotsAreBlank | src/lib/defaults.h:45-52 | a device with zeros where its hint blocks go counts as unused everywhere |
| Io.SyncQueue.Update | src/lib/io.c:222-257 | the queue becomes exactly what `Enqueued` says, or is unchanged when 1 is returned |
| Io.EnqueuedCoversExactly | src/lib/io.c:222-257 | an accepted range adds its own bytes to those the queue covers, and nothing else; at most 16 entries |
| Io.EnqueuedExactly | src/lib/io.c:222-257 | the first entry that the range begins or ends in, or right behind, becomes the hull of both; else the range is appended, or refused at 16 |
| Io.NeighboursMerge | src/lib/io.c:233 | a range that begins where the only entry ends leaves one entry |
| Io.RefusedExactlyWhenFull | src/lib/io.c:247-249 | a range is refused exactly when 16 entries are taken and it begins or ends in, or right behind, none of them |
| Io.SeriesCoversExactly | src/lib/io.c:222-257 | over any series without refusal the queue covers exactly the bytes written |
| Io.WriteKeepsExact | src/lib/io.c:290-314 | as long as the queue accepts the ranges it covers exactly the bytes written since the last sync, which comes when 65536 bytes have been counted |
| Io.SyncHandsAll | src/lib/io.c:259-288 | a sync of such a queue leaves no byte waiting |
| Io.AlignedToPages | src/lib/io.c:263-274 | a queued range is handed to msync from the page on that its first byte lies in, up to its end |
| Io.RefusedStaysPending | src/lib/io.c:309-311 | a refused range is left outside the queue: its bytes wait, but for those the page rounding of the old ranges takes in |
| Io.SeriesLosesNothing | src/lib/io.c:290-314 | over any series of accepted writes, with the syncs among them, every byte written is queued or has been handed to msync |
| Io.IoFile.Sync | src/lib/io.c:259-288 | for each queued range, in order, msync gets the one that starts on the page of 4096 bytes its first byte lies in and ends where it ends; queue and byte count are emptied and exactly the bytes in those ranges no longer wait |
| Io.IoFile.Seek | src/lib/io.c:183-199 | positions from the size on are refused and leave the position |
| Io.IoFile.Read | src/lib/io.c:201-220 | reads up to, but not including, the last byte of the device |
| Io.IoFile.Write | src/lib/io.c:290-314 | changes exactly the bytes written; queue, byte count, waiting bytes and handed ranges become what `AfterWrite` says: queued, or synced when the queue refuses or enough has come together |
| Io.IoFile.ReadBlock | src/lib/io.c:350-362 | the bytes at the position, or an error at the bound |
| Io.IoFile.WriteBlock | src/lib/io.c:316-348 | data, then padding, with the bound checked for each; a failing padding leaves the data written; queue and counts follow the two writes |
| Io.WriteAtExactly | src/lib/io.c:316-348 | byte by byte: all of data and padding when both fit, the data alone when only it does, nothing otherwise |
| Io.BlockIsWrites | src/lib/io.c:316-348 | to the queue a block is the write of its data and that of its padding, as far as they fit |
| Blocks.WritePutAndPadBlock | src/lib/write.c:205-217 | data padded to the block size is stored at the position |
| Blocks.WriteChecksumAndPutBlock | src/lib/write.c:286-325 | stores the sealed form of header and data, padded |
| Blocks.GetValidateBlock | src/lib/blocks.c:65-100 | the slot at the position and the result of its check |
| Blocks.GetValidHintblock | src/lib/blocks.c:102-123 | the hint structure at the position and the result of its check |
| Blocks.WriteUpdateHintblock | src/lib/write.c:219-284 | renews the hint block and then the backup, keeping the tag of a valid predecessor only |
| Blocks.SettleState | src/lib/blocks.c:39-63 | a region counts as used exactly when the block its hint points to is valid, and reports that block's timestamp |
| Blocks.HintblockRecoverBackup | src/lib/blocks.c:125-160 | a valid backup is written to the hint block and to half a region behind it, and synced |
| Blocks.GetHintblockState | src/lib/blocks.c:162-223 | the state of a region on any bytes: valid hint in range, recovered hint, or unused |
| Blocks.UnreadableFails | src/lib/blocks.c:178-181 | a scan fails where there is no hint block to read |
| Ring.BlockRoundTrip | src/lib/write.c:286-325 | a block stored and read back has check zero, the same header and data, and no byte outside it changed |
| Ring.StoredHintsReadBack | src/lib/write.c:219-284 | on any bytes, hint block and backup just stored pass their checks with the new position and the new tag, or without one that of a valid predecessor |
| Ring.RecoveryKeepsTag | src/lib/blocks.c:144-151 | a recovered hint block has the position and the tag of its backup |
| Ring.WriteCell | src/lib/blocks.c:241-246 | slots of the grid never overlap: writing one replaces its bytes and no other slot's |
| Ring.ProbeFindsContents | src/lib/blocks.c:162-223 | a scan of a region reports what it holds, restores its hint block if that was lost, and otherwise changes no byte |
| Ring.ProbeOutside | src/lib/blocks.c:199-201 | a valid hint block that points outside its region leaves the region unused, and the scan changes nothing |
| Traversal.BlockCallbackCall | src/lib/update.c:38-84 | the block callbacks: filter, emit or rewrite, limit, break |
| Traversal.ProcessBlock | src/lib/blocks.c:394-423 | one block of a walk: read, check, stop on 1, call back |
| Traversal.LoopBlocks | src/lib/blocks.c:357-427 | the walk over the data blocks of a region, around the backup slot and up to the last written |
| Traversal.UnreadableBlockFails | src/lib/blocks.c:394-402 | a walk fails at a block that cannot be read |
| Traversal.WalkStaysInRegion | src/lib/blocks.c:385-388 | a hint that points behind its region, as a restored one can, does not lead the walk out of it |
| Traversal.HintCallbackCall | src/lib/read.c:61-132 | the region callbacks: unused, outside the range, matched, limit reached |
| Traversal.ProcessRegion | src/lib/blocks.c:253-278 | one round of the region loop |
| Traversal.LoopHintblocksWorker | src/lib/blocks.c:225-284 | the loop over hint positions visits the regions in order with the bounds of each, and never takes its exits |
| Traversal.LoopHintblocksLargeDevice | src/lib/blocks.c:286-355 | the two rounds over the device amount to one visit of each region in ring order, until a callback breaks |
| Traversal.TraversalIsARing | src/lib/blocks.c:286-355 | begun anywhere, on any bytes, an unbroken traversal visits each region exactly once, each as far along as it lies around the ring |
| Writing.WriteFindLocation | src/lib/write.c:146-203 | first a region with room, else the oldest one, on any bytes |
| Writing.WritePlanning | src/lib/write.c:348-408 | timestamp correction and refusal, size check, location checks, in the program's order |
| Writing.WritePutBlock | src/lib/write.c:327-432 | the whole write, with its return codes and exits, on any bytes; its last three block writes are the data block, the hint block and the backup, in this order, which is the one the results on interrupted writes are about |
| Reading.BlockFindOldestHintblock | src/lib/blocks.c:514-544 | the oldest matching region in front of the first unused one, on any bytes |
| Reading.ReadBlocks | src/lib/read.c:134-200 | the whole read, on any bytes |
| Updating.UpdateApplicationData | src/lib/update.c:131-194 | the whole update, on any bytes |
| Simulation.WalkIsAPass | src/lib/blocks.c:385-424 | the walk over block positions is a pass over the entries from that slot on, and touches data slots only |
| Simulation.TraversalIsATour | src/lib/blocks.c:286-355 | a traversal of the bytes is a tour of the entries; scans change no byte of an undamaged device |
| Machine.FreeAsRoom | src/lib/write.c:48-96 | the free-room test on positions finds room exactly when the region holds fewer entries than fit, and gives the slot after them, around the backup |
| Machine.LocationIsTarget | src/lib/write.c:146-203 | a write goes to the first region with room, else to the first one with the smallest last timestamp |
| Machine.PlanIsIntention | src/lib/write.c:348-408 | the plan of a write follows from the entries alone, and the exits for impossible locations are never taken |
| Machine.DataStage | src/lib/write.c:410-418 | after the first block write the device holds the old entries, or the first of a full region is replaced |
| Machine.PrimaryStage | src/lib/write.c:242-268 | after the second it holds the new entries |
| Machine.BackupStage | src/lib/write.c:270-281 | the third changes nothing in what it holds |
| Machine.WriteIsPlacing | src/lib/write.c:327-432 | a write appends to a region or starts a full one over, and returns 0 exactly when it does |
| Machine.ReadIsAPass | src/lib/read.c:134-200 | reads always return 0, print the pass of the machine and keep what the device holds |
| Machine.UpdateIsAPass | src/lib/update.c:131-194 | updates always return 0, count and change what the pass of the machine does |
| Undamaged.WriteExactly | src/lib/write.c:327-432 | the exact bytes after a write: three slots when it stores, none when it refuses |
| Undamaged.WriteFootprint | src/lib/write.c:410-429 | no byte outside the data slot, the hint block and the backup changes |
| Undamaged.UpdateExactly | src/lib/update.c:38-84 | an update leaves all hint blocks, backups, the header and the tail as they are |
| Undamaged.HintsAgree | src/lib/write.c:270-281 | on an undamaged device the hint block and the backup of a region in use hold the same bytes |
| Undamaged.ReadExactly | src/lib/read.c:134-200 | a read of an undamaged device changes no byte |
| Runs.RunIsPlay | src/lib/write.c:327-432 | every run of calls is answered as the machine answers it, whichever recoverable hint blocks are lost |
| Runs.EveryRunKeeps | src/lib/blocks.c:162-223 | after every run, whatever its timestamps below the sentinel: hint blocks and backups in order, used regions first, at most one with room, timestamps ascending in each |
| Runs.UsedSlotsAreValid | src/lib/blocks.c:385-392 | then every slot up to the hinted one, but the backup's, holds a valid block no newer than the reported timestamp |
| Queue.TargetInQueue | src/lib/write.c:104-117 | on increasing runs a full ring starts over the region with the oldest entries, and the timestamp to beat is given by the log alone |
| Queue.SkippingIsPassing | src/lib/read.c:84-90 | skipping a region by its last timestamp loses nothing |
| Queue.PassedIsPassedLog | src/lib/read.c:134-200 | starting at the oldest matching region, skipping regions and dropping the second round come to a pass over the live log in order |
| Log.EmitPrintsMatches | src/lib/read.c:41-59 | a read prints the entries not older than asked for, up to the limit |
| Log.MatchingIsSuffix | src/lib/read.c:41-59 | where timestamps pass the asked one once and for all, these are the entries from there on |
| Log.StopAtIsFirst | src/lib/update.c:79-81 | an update stops at the first entry not older than asked for that shares a binary digit with the mask and whose test says to stop, and at no other; what lies behind is not touched, and what lies before is not spared for it |
| Log.RewriteTouches | src/lib/update.c:38-84 | an update changes an entry, in its application data only, and counts it if and only if it is not older than asked for, shares a binary digit with the mask, its test says to update, and no earlier entry of that kind said to stop |
| Log.DeviceIsALog | README.md:22-29 | from a blank device, every increasing run of writes, reads and updates gets exactly the replies of a bounded log |
| Log.BoundedQueue | src/lib/write.c:146-203 | after n successful writes a full read prints the last Keep(n) entries, oldest first, each with the data and application data it was written with and the given timestamp or the one just above the bound, where Keep is n up to the capacity and then all regions but one plus the last one's share |
| Log.LiveAfterWrite | src/lib/write.c:104-117 | a write to a full ring drops exactly the oldest region's entries from the live log, any other write drops none |
| Log.OrderIsEnforcedExactly | src/lib/write.c:369-384 | the log admits nothing older exactly while the region last written has room or is the only one |
| Log.DeviceKeepsOrderExactly | src/lib/write.c:369-384 | on the device, after any increasing run: everything it accepts next is newer than all entries exactly in that case; otherwise it accepts and stores something that is not |
| Decisions.TimestampDecision | src/lib/write.c:369-384 | which timestamps are refused, with which code, and that an accepted one becomes the larger of the given one and the last plus one, at most faketimestamp plus one above the given |
| Decisions.TimestampWraps | src/lib/write.c:378 | the correction fails to go above the last timestamp exactly when that is the largest of all, and then wraps to zero |
| Decisions.TargetExactly | src/lib/write.c:146-203 | the region written to: the first with room, without one the first with the smallest last timestamp |
| Decisions.StoredTimestamp | src/lib/write.c:348-392 | the whole table for a write on a device in any reachable state: 1 and 2 for the timestamp, then 3 for the size, and otherwise which timestamp is stored where, zero standing for the clock |
| Decisions.ClockOrGiven | src/lib/write.c:359 | above the last timestamp of its region an entry gets the given timestamp, and that of the clock when zero is given |
| Decisions.GivesUpExactly | src/lib/write.c:195-202 | a write exits exactly on devices of less than 256 MiB and when every region is full and ends with the largest timestamp |
| Decisions.RefusalChangesNothing | src/lib/write.c:348-392 | a write that does not store leaves an undamaged device as it is, byte for byte |
| Decisions.Eviction | src/lib/write.c:104-117 | the region started over has the smallest last timestamp, its entries go, one comes, and the slots of all other regions keep their bytes |
| Decisions.StartExactly | src/lib/blocks.c:483-544 | reads and updates start from the first region with the smallest last timestamp among those that reach back far enough in front of the first unused one |
| Crash.CrashIsOldOrNew | src/lib/write.c:410-431 | stopped after any of its block writes, a write leaves a device that answers every later run as before it or as after it, unless it was starting a full ring over and only its data block was written |
| Crash.CrashAfterAnyRun | src/lib/write.c:410-431 | the same after any increasing run on a blank device |
| Crash.CrashWhileRestarting | src/lib/write.c:410-418 | in that one case reads print the new entry in place of the oldest, as far as they reach back to its region, and the old log otherwise |
| Crash.NextWriteAfterCrash | src/lib/write.c:410-431 | in that one case the next write starts the same region over, and from then on every call is answered as if the interrupted write had never begun |
| Crash.CrashWhileRestartingAfterAnyRun | src/lib/write.c:410-418 | the same after any increasing run; read in full, the old log with its oldest entry replaced |
| Crash.RetryCompletes | src/lib/write.c:327-432 | repeating a write with its own timestamp that stopped after the data block ends in the same bytes as if it had not stopped |
| Loss.LosingKeepsContents | src/lib/blocks.c:183-194 | hint blocks that fail their check can be lost, several at a time when no two are neighbours, without changing what the device holds |
| Loss.LossIsInvisible | src/lib/blocks.c:125-160 | after the loss of a hint block in front of a used region every later run is answered as without it, and the next write decides the same |
| Loss.LossAfterAnyRun | src/lib/blocks.c:125-160 | the same after any run on a blank device |
| Loss.RecoveryRestores | src/lib/blocks.c:144-151 | the scan that meets the loss reports the region as if it had not happened, puts back the bytes of the hint block, and of all slots changes one more, the backup of the next region |
| Loss.RecoveryStoppedHalfway | src/lib/blocks.c:144-151 | stopped between its two block writes the recovery leaves the device holding what it held, without the loss |
| Loss.LossIsInvisibleExactly | src/lib/blocks.c:144-151 | the scans report what they did before exactly when the next region is in use, or the copy fits behind the last one |
| Loss.LossBeforeUnusedShows | src/lib/blocks.c:162-223 | in front of an unused region the next scan takes that region for used, or fails; the one after it sees through the stray hint block and finds it unused again |
| Loss.WildBackupFails | src/lib/blocks.c:183-209 | a backup that points behind the device makes the scan that restores it fail, and the next one counts the region as unused |
| Loss.LossAtTheEndFails | src/lib/blocks.c:144-151 | at the end of the device the recovery fails, with every slot back as it was |
| Loss.LossAtTheEndCostsOneCall | src/lib/blocks.c:144-155 | that costs one call: the first to come there returns 1 and prints, counts or stores nothing, and every later one is answered as if the hint block had not been lost |
| Corruption.ReadIsShares | src/lib/blocks.c:385-424 | a read of a device with any number of bad data blocks, none of them the last of its region, prints region by region what the blocks read as, up to the first that stops it |
| Corruption.DamageDecidesNothing | src/lib/write.c:348-408 | such blocks do not change what a write decides: they are not free space to it |
| Corruption.BadBlockInLog | src/lib/blocks.c:394-423 | with one such block, a read that visits its region prints the live log up to it (check 1), up to and including what it reads as (check 2), or with that in its place (any other); other reads do not notice |
| Corruption.CorruptIsFreeSpaceExactly | src/lib/blocks.c:404-411 | after any increasing run, a read in full withholds a corrupt block, and all behind it, exactly when its check comes out as 1 |
| Corruption.WrongHashDecides | src/lib/crypt.c:74 | in terms of the stored hash: one above the computed one ends a read in full in front of the block, two above behind it, any other wrong hash leaves it printed in its place |
| Corruption.CorruptIsPrinted | src/lib/blocks.c:404-420 | for every entry and every check but 0, 1 and 2 there is a corrupt block that a read prints as that entry |
| Corruption.CorruptIsPrintedWitness | src/lib/blocks.c:404-420 | a run of two writes, after which one such block makes a read print an entry that was never written |
| Corruption.BadLastBlockRead | src/lib/blocks.c:204-213 | when the last block of a region goes bad, reads start in front of the region and end when they come to it |
| Corruption.BadLastBlockInLog | src/lib/blocks.c:204-213 | the same in terms of the log, read in full: the chunks in front of that region from the oldest of them, and nothing when it is the first region |
| Corruption.BadLastBlockDecides | src/lib/write.c:48-96 | writes decide as if that region had never been used |
| Corruption.BadLastBlockIsStartedOver | src/lib/write.c:410-431 | a write that goes there drops the whole region and leaves the device in order |
| Corruption.CorruptLastBlock | src/lib/blocks.c:204-213 | what reads print and writes decide after any run on a blank device when a last block goes bad |
| Corruption.UpdateSealsCorruptBlock | src/lib/update.c:62-77 | an update that selects a corrupt block stores it with a hash that fits |
| Session.BdlSession.constructor | src/lib/session.c:34-57 | a session on a blank device starts with an empty log |
| Session.BdlSession.Open | src/lib/session.c:34-57 | a session on a device that holds entries, in whatever order of time |
| Session.BdlSession.Reopen | src/lib/session.c:34-57 | a session on a device that an increasing run has left continues its log |
| Session.BdlSession.WriteBlock | src/lib/interface.c:60-73 | any write appends to a region, starts one over or is refused as the regions say, and as the log says while the writes before it were in order |
| Session.BdlSession.ReadBlocks | src/lib/interface.c:53-58 | any read prints the pass over the regions; in order, the first matching live entries |
| Session.BdlSession.UpdateApplicationData | src/lib/interface.c:75-83 | any update changes and counts what the pass over the regions does; in order, exactly the touched live entries |

## Left out

- Files, `mmap`, `msync`, `ioctl` and the device size: the device is an array of bytes; the path without a memory map is not modelled.
- The master header: it is taken as valid, and its checks (src/lib/validate.c:96-156) and initialisation (src/lib/init.c) are not part of this model.
- Small devices: unimplemented in the program, which exits; the model does so too.
- Clearing a device (src/lib/clear.c): it blanks hint blocks but not backups, so a later scan brings entries back; nothing is claimed about it.
- Command line, interactive sessions, reference counting and the format of printed blocks: plumbing; positions and hashes in the printed line are left out.
- Codec.ValidateBlock: the program adds header size and length in 64 bits; the model does not wrap, so a stored length within 32 of 2^64 counts as too long. Such a length occurs in no block the program writes; on a corrupt block that has one the program zeroes a hash field outside its copy, and what happens then is not defined.
- Codec.HashData: the return for a hash algorithm other than CRC-32 is not modelled; the algorithm comes from the master header, which is taken as valid.
- Traversal.BlockCallbackCall: the position, the pad and the hash in a printed line are left out; what is printed is timestamp, application data and payload.
- Writing.WritePutBlock: the master header, read first, is taken as valid, so the returns for an unreadable or invalid one do not occur.
- Reading.ReadBlocks: the same.
- Updating.UpdateApplicationData: the same.
- Corruption.BadBlockInLog: runs of several calls after a data block has gone bad are not followed, only the next read, write decision or rewritten block; with several bad blocks reads are described by regions (`ReadIsShares`), not by the log.
- An update stopped after some of its rewrites, although each of them alone leaves a device in order (`RoundRepresents`).
- The content of `hint` in the state of an unused region: the program leaves there what it last read and never looks at it; the model has zeros.
- Torn writes inside one block, several processes on one device, and devices of 2 GiB or more.
- LossIsInvisible: two neighbouring hint blocks lost at once are not covered, because recovering the first overwrites the backup of the second.
- DeviceIsALog: `previous_tagged_block_pos` is always 0 here, as in all calls of the program.
