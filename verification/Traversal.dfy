/**
 Walking the data blocks of a region and the regions of the ring (src/lib/blocks.c:225-427),
 with the callbacks that the scans, reads and updates pass to the walks.

 A callback and the data it keeps between calls is a value of `BlockCallback` or
 `HintCallback`; `VisitBlock` and `VisitHint` are the calls through the function pointer.
 */
module Traversal {
  import opened Bytes
  import opened Layout
  import opened Io
  import opened Codec
  import opened Blocks

  const LOOP_OK: bv32 := 0
  const LOOP_ERR: bv32 := 1
  const LOOP_BREAK: bv32 := 2

  // ----- The callbacks -----

  datatype UpdateInfo = UpdateInfo(doUpdate: int, doBreak: int, newAppdata: u64)

  datatype BlockCallback =
    | Emit(gteq: u64, limit: u64, output: seq<Entry>)
    | Rewrite(gteq: u64, mask: u64, test: Entry -> UpdateInfo, count: nat)

  datatype HintCallback =
    | CheckFree(argumentInt: int, blockLocation: nat)
    | CheckTimestamps(initialized: bool, minTimestamp: u64, oldest: HintState)
    | FindOldest(gteq: u64, smallestTimestamp: u64, smallest: HintState)
    | OverBlocks(blocks: BlockCallback)

  // ----- One data block -----

  datatype BlockStep = BlockStep(image: seq<byte>, callback: BlockCallback, result: bv32, status: Status)

  function Emitted(callback: BlockCallback, e: Entry): seq<Entry>
    requires callback.Emit?
  {
    if e.timestamp >= callback.gteq then callback.output + [e] else callback.output
  }

  predicate LimitReached(callback: BlockCallback) {
    callback.Emit? && callback.limit != 0 && |callback.output| >= callback.limit
  }

  predicate Selected(callback: BlockCallback, e: Entry)
    requires callback.Rewrite?
  {
    e.timestamp >= callback.gteq && BitAnd(e.applicationData, callback.mask) != 0
  }

  /** read_block_loop_callback and update_block_loop_callback, for the block `buf` at `pos`. */
  function VisitBlock(g: Geometry, image: seq<byte>, pos: nat, buf: seq<byte>, callback: BlockCallback,
                      result: bv32): (s: BlockStep)
    requires |buf| == g.blockSize && BLOCK_HEADER_SIZE + HeaderOf(buf).dataLength <= |buf|
    ensures |s.image| == |image|
  {
    hide SealedBlock, HeaderOf, BitAnd;
    var e := EntryOf(buf);
    match callback
    case Emit(_, limit, _) =>
      var next := callback.(output := Emitted(callback, e));
      BlockStep(image, next, if limit != 0 && |next.output| == limit then LOOP_BREAK else result, Done)
    case Rewrite(_, _, test, count) =>
      if !Selected(callback, e) then BlockStep(image, callback, LOOP_OK, Done)
      else
        var info := test(e);
        var verdict := if info.doBreak == 1 then LOOP_BREAK else LOOP_OK;
        if info.doUpdate != 1 then BlockStep(image, callback, verdict, Done)
        else
          var put := PutPadded(g, image, pos,
                               SealedBlock(HeaderOf(buf).(applicationData := info.newAppdata), e.payload));
          if !put.ok then BlockStep(put.image, callback, LOOP_ERR, Failed)
          else BlockStep(put.image, callback.(count := count + 1), verdict, Done)
  }

  method BlockCallbackCall(file: IoFile, g: Geometry, pos: nat, buf: seq<byte>, callback: BlockCallback, given: bv32)
    returns (code: int, next: BlockCallback, result: bv32)
    requires file.Valid()
    requires |buf| == g.blockSize && BLOCK_HEADER_SIZE + HeaderOf(buf).dataLength <= |buf|
    modifies file.Footprint()
    ensures file.Valid()
    ensures VisitBlock(g, old(file.Image()), pos, buf, callback, given) ==
            BlockStep(file.Image(), next, result, if code == 0 then Done else Failed)
  {
    hide HeaderOf, SealedBlock, PutPadded;
    var e := EntryOf(buf);
    next, result := callback, given;
    match callback {
      case Emit(gteq, limit, output) =>
        if e.timestamp >= gteq {
          next := callback.(output := output + [e]);
        }
        if limit != 0 && |next.output| == limit {
          result := LOOP_BREAK;
        }
        return 0, next, result;
      case Rewrite(gteq, mask, test, count) =>
        result := LOOP_OK;
        if e.timestamp < gteq || BitAnd(e.applicationData, mask) == 0 {
          return 0, next, result;
        }
        var info := test(e);
        if info.doUpdate == 1 {
          var newHeader := HeaderOf(buf).(applicationData := info.newAppdata);
          var put := WriteChecksumAndPutBlock(file, g, newHeader, e.payload, pos);
          if put != 0 {
            return 1, callback, LOOP_ERR;
          }
          next := callback.(count := count + 1);
        }
        if info.doBreak == 1 {
          result := LOOP_BREAK;
        }
        return 0, next, result;
    }
  }

  // ----- The data blocks of a region -----

  predicate WithinRegion(state: HintState, i: nat) {
    i <= state.blockstartMax && i <= state.hint.previousBlockPos
  }

  /** The body of the loop of block_loop_blocks, for the block at position `i`. */
  function BlockAt(g: Geometry, image: seq<byte>, i: nat, callback: BlockCallback, result: bv32): (s: BlockStep)
    ensures |s.image| == |image|
  {
    match ReadAt(image, i, g.blockSize)
    case None => BlockStep(image, callback, result, Failed)
    case Some(buf) =>
      if BlockCheck(buf) == 1 then BlockStep(image, callback, LOOP_BREAK, Done)
      else
        CheckedLength(buf);
        var step := VisitBlock(g, image, i, buf, callback, BlockCheck(buf));
        if step.status == Done && step.result == LOOP_ERR then step.(status := Failed) else step
  }

  /** block_loop_blocks, from position `i` on. */
  function WalkBlocks(g: Geometry, image: seq<byte>, state: HintState, i: nat, callback: BlockCallback,
                      result: bv32): (s: BlockStep)
    ensures |s.image| == |image|
    decreases state.blockstartMax + g.blockSize - i
  {
    if !WithinRegion(state, i) then BlockStep(image, callback, result, Done)
    else if i == state.backupLocation then WalkBlocks(g, image, state, i + g.blockSize, callback, result)
    else
      var step := BlockAt(g, image, i, callback, result);
      if step.status != Done || step.result == LOOP_BREAK then step
      else WalkBlocks(g, step.image, state, i + g.blockSize, step.callback, step.result)
  }

  /** A block that cannot be read fails the walk. */
  lemma UnreadableBlockFails(g: Geometry, image: seq<byte>, i: nat, callback: BlockCallback, result: bv32)
    requires |image| <= i + g.blockSize
    ensures BlockAt(g, image, i, callback, result) == BlockStep(image, callback, result, Failed)
  {
  }

  /** A hint that points behind the region, as a restored one can, does not lead the walk out of it. */
  lemma {:induction false} WalkStaysInRegion(g: Geometry, image: seq<byte>, state: HintState, i: nat,
                                             callback: BlockCallback, result: bv32)
    ensures var end := Min(state.hint.previousBlockPos, state.blockstartMax);
            WalkBlocks(g, image, state, i, callback, result) ==
            WalkBlocks(g, image, state.(hint := state.hint.(previousBlockPos := end)), i, callback, result)
    decreases state.blockstartMax + g.blockSize - i
  {
    hide BlockAt;
    if !WithinRegion(state, i) {
    } else if i == state.backupLocation {
      WalkStaysInRegion(g, image, state, i + g.blockSize, callback, result);
    } else {
      var step := BlockAt(g, image, i, callback, result);
      if step.status == Done && step.result != LOOP_BREAK {
        WalkStaysInRegion(g, step.image, state, i + g.blockSize, step.callback, step.result);
      }
    }
  }

  lemma CheckedLength(buf: seq<byte>)
    requires BLOCK_HEADER_SIZE <= |buf| && BlockCheck(buf) != 1
    ensures BLOCK_HEADER_SIZE + HeaderOf(buf).dataLength <= |buf|
  {
  }

  method ProcessBlock(file: IoFile, g: Geometry, i: nat, callback: BlockCallback, given: bv32)
    returns (code: int, next: BlockCallback, result: bv32)
    requires file.Valid()
    modifies file.Footprint()
    ensures file.Valid()
    ensures BlockAt(g, old(file.Image()), i, callback, given) ==
            BlockStep(file.Image(), next, result, if code == 0 then Done else Failed)
  {
    hide HeaderOf, BlockCheck, VisitBlock;
    next, result := callback, given;
    var res, buf, check := GetValidateBlock(file, g, i);
    if res != 0 {
      return 1, next, result;
    }
    if check == 1 {
      return 0, next, LOOP_BREAK;
    }
    CheckedLength(buf);
    code, next, result := BlockCallbackCall(file, g, i, buf, next, check);
    if code == 0 && result == LOOP_ERR {
      code := 1;
    }
  }

  method LoopBlocks(file: IoFile, g: Geometry, state: HintState, callback: BlockCallback)
    returns (code: int, next: BlockCallback, result: bv32)
    requires file.Valid()
    modifies file.Footprint()
    ensures file.Valid()
    ensures WalkBlocks(g, old(file.Image()), state, state.blockstartMin, callback, LOOP_OK) ==
            BlockStep(file.Image(), next, result, if code == 0 then Done else Failed)
  {
    hide BlockAt;
    next, result := callback, LOOP_OK;
    ghost var start := file.Image();
    var i := state.blockstartMin;
    while i <= state.blockstartMax && i <= state.hint.previousBlockPos
      invariant file.Valid()
      invariant WalkBlocks(g, start, state, state.blockstartMin, callback, LOOP_OK) ==
                WalkBlocks(g, file.Image(), state, i, next, result)
      decreases state.blockstartMax + g.blockSize - i
    {
      if i == state.backupLocation {
        i := i + g.blockSize;
        continue;
      }
      code, next, result := ProcessBlock(file, g, i, next, result);
      if code != 0 || result == LOOP_BREAK {
        return code, next, result;
      }
      i := i + g.blockSize;
    }
    return 0, next, result;
  }

  // ----- One region -----

  datatype HintStep = HintStep(image: seq<byte>, callback: HintCallback, result: bv32, status: Status)

  /** Where the next block goes, given the last one written: the backup slot is stepped over. */
  function NextPos(g: Geometry, state: HintState): nat {
    var next := state.hint.previousBlockPos + g.blockSize;
    if next == state.backupLocation then next + g.blockSize else next
  }

  /** write_check_free_hintblock and the callback around it. */
  function VisitFree(g: Geometry, state: HintState): (HintCallback, bv32) {
    if !state.valid then (CheckFree(0, state.blockstartMin), LOOP_BREAK)
    else if state.hint.previousBlockPos + g.blockSize <= state.blockstartMax then
      (CheckFree(0, NextPos(g, state)), LOOP_BREAK)
    else (CheckFree(1, state.blockstartMin), LOOP_OK)
  }

  /** write_hintblock_check_timestamps: the first region with the smallest last timestamp. */
  function VisitTimestamps(state: HintState, callback: HintCallback): (HintCallback, bv32)
    requires callback.CheckTimestamps?
  {
    if state.highestTimestamp < callback.minTimestamp
    then (CheckTimestamps(true, state.highestTimestamp, state), LOOP_OK)
    else (callback, LOOP_OK)
  }

  /** block_find_oldest_hintblock_loop_callback; the last case leaves the result as it finds it. */
  function VisitOldest(state: HintState, callback: HintCallback, result: bv32): (HintCallback, bv32)
    requires callback.FindOldest?
  {
    if !state.valid then (callback, LOOP_BREAK)
    else if state.highestTimestamp < callback.gteq then (callback, LOOP_OK)
    else if state.highestTimestamp < callback.smallestTimestamp
    then (callback.(smallestTimestamp := state.highestTimestamp, smallest := state), result)
    else (callback, result)
  }

  /** read_hintblock_loop_callback and update_hintblock_loop_callback. */
  function VisitOverBlocks(g: Geometry, image: seq<byte>, state: HintState, blocks: BlockCallback): (s: HintStep)
    ensures |s.image| == |image|
  {
    if !state.valid then HintStep(image, OverBlocks(blocks), LOOP_BREAK, Done)
    else if state.highestTimestamp < blocks.gteq then HintStep(image, OverBlocks(blocks), LOOP_OK, Done)
    else
      var walk := WalkBlocks(g, image, state, state.blockstartMin, blocks, LOOP_OK);
      if walk.status == Done && LimitReached(walk.callback) then
        if |walk.callback.output| > walk.callback.limit
        then HintStep(walk.image, OverBlocks(walk.callback), walk.result, Exited)
        else HintStep(walk.image, OverBlocks(walk.callback), LOOP_BREAK, Done)
      else HintStep(walk.image, OverBlocks(walk.callback), walk.result, walk.status)
  }

  function VisitHint(g: Geometry, image: seq<byte>, state: HintState, callback: HintCallback,
                     result: bv32): (s: HintStep)
    ensures |s.image| == |image|
  {
    match callback
    case CheckFree(_, _) =>
      var (next, r) := VisitFree(g, state);
      HintStep(image, next, r, Done)
    case CheckTimestamps(_, _, _) =>
      var (next, r) := VisitTimestamps(state, callback);
      HintStep(image, next, r, Done)
    case FindOldest(_, _, _) =>
      var (next, r) := VisitOldest(state, callback, result);
      HintStep(image, next, r, Done)
    case OverBlocks(blocks) => VisitOverBlocks(g, image, state, blocks)
  }

  method HintCallbackCall(file: IoFile, g: Geometry, state: HintState, callback: HintCallback, given: bv32)
    returns (status: Status, next: HintCallback, result: bv32)
    requires file.Valid()
    modifies file.Footprint()
    ensures file.Valid()
    ensures VisitHint(g, old(file.Image()), state, callback, given) == HintStep(file.Image(), next, result, status)
  {
    hide WalkBlocks;
    next, result, status := callback, given, Done;
    match callback {
      case CheckFree(_, _) =>
        var pair := VisitFree(g, state);
        next, result := pair.0, pair.1;
      case CheckTimestamps(_, _, _) =>
        var pair := VisitTimestamps(state, callback);
        next, result := pair.0, pair.1;
      case FindOldest(_, _, _) =>
        var pair := VisitOldest(state, callback, given);
        next, result := pair.0, pair.1;
      case OverBlocks(blocks) =>
        if !state.valid {
          return Done, callback, LOOP_BREAK;
        }
        if state.highestTimestamp < blocks.gteq {
          return Done, callback, LOOP_OK;
        }
        var code, walked, r := LoopBlocks(file, g, state, blocks);
        next, result := OverBlocks(walked), r;
        if code != 0 {
          return Failed, next, result;
        }
        if walked.Emit? && walked.limit != 0 && |walked.output| >= walked.limit {
          if |walked.output| > walked.limit {
            return Exited, next, result;
          }
          result := LOOP_BREAK;
        }
    }
  }

  // ----- The regions of the ring -----

  datatype Traversal = Traversal(image: seq<byte>, callback: HintCallback, state: HintState, result: bv32,
                                 status: Status)

  function Sweep(lo: nat, hi: nat): (ks: seq<nat>)
    requires lo <= hi
    ensures |ks| == hi - lo
    ensures forall i :: 0 <= i < |ks| ==> ks[i] == lo + i
    decreases hi - lo
  {
    if lo == hi then [] else [lo] + Sweep(lo + 1, hi)
  }

  /** Every region once, in ring order, starting at `first`. */
  function Rotation(g: Geometry, first: nat): (ks: seq<nat>)
    requires first <= Regions(g)
    ensures |ks| == Regions(g) && forall i :: 0 <= i < |ks| ==> ks[i] < Regions(g)
  {
    Sweep(first, Regions(g)) + Sweep(0, first)
  }

  function ProbeRegion(g: Geometry, image: seq<byte>, k: nat): (p: Probe)
    ensures |p.image| == |image|
  {
    ProbeAt(g, image, HintPos(g, k), FirstPos(g, k), LastPos(g, k))
  }

  /** Probe and visit one region: the body of the loop of block_loop_hintblocks_worker. */
  function RegionAt(g: Geometry, image: seq<byte>, k: nat, callback: HintCallback, result: bv32): (t: Traversal)
    ensures |t.image| == |image|
  {
    var probe := ProbeRegion(g, image, k);
    if probe.status != Done then Traversal(probe.image, callback, probe.state, result, probe.status)
    else
      var step := VisitHint(g, probe.image, probe.state, callback, result);
      Traversal(step.image, step.callback, probe.state, step.result,
                if step.status == Done && step.result == LOOP_ERR then Failed else step.status)
  }

  /** Visit the regions `ks` one after the other, until one of them breaks. */
  function VisitRegions(g: Geometry, image: seq<byte>, ks: seq<nat>, callback: HintCallback, state: HintState,
                        result: bv32): (t: Traversal)
    ensures |t.image| == |image|
    decreases |ks|
  {
    if ks == [] then Traversal(image, callback, state, result, Done)
    else
      var step := RegionAt(g, image, ks[0], callback, result);
      if step.status != Done || step.result == LOOP_BREAK then step
      else VisitRegions(g, step.image, ks[1..], step.callback, step.state, step.result)
  }

  lemma {:induction false} VisitRegionsConcat(
    g: Geometry, image: seq<byte>, a: seq<nat>, b: seq<nat>, callback: HintCallback, state: HintState, result: bv32)
    requires result != LOOP_BREAK
    ensures VisitRegions(g, image, a + b, callback, state, result) ==
            var t := VisitRegions(g, image, a, callback, state, result);
            if t.status != Done || t.result == LOOP_BREAK then t
            else VisitRegions(g, t.image, b, t.callback, t.state, t.result)
    decreases |a|
  {
    hide RegionAt;
    if a == [] {
      assert a + b == b;
    } else {
      assert (a + b)[1..] == a[1..] + b;
      var step := RegionAt(g, image, a[0], callback, result);
      if step.status == Done && step.result != LOOP_BREAK {
        VisitRegionsConcat(g, step.image, a[1..], b, step.callback, step.state, step.result);
      }
    }
  }

  /** A position is that of a hint block in front of the device's end exactly for the regions it has. */
  lemma HintPosInside(g: Geometry, k: nat)
    ensures HintPos(g, k) < g.deviceSize <==> k < Regions(g)
  {
  }

  method ProcessRegion(file: IoFile, g: Geometry, i: nat, min: nat, max: nat, callback: HintCallback, given: bv32,
                       ghost k: nat)
    returns (status: Status, next: HintCallback, state: HintState, result: bv32)
    requires file.Valid()
    requires i == HintPos(g, k) && min == FirstPos(g, k) && max == LastPos(g, k)
    modifies file.Footprint()
    ensures file.Valid()
    ensures RegionAt(g, old(file.Image()), k, callback, given) == Traversal(file.Image(), next, state, result, status)
  {
    hide ProbeAt, VisitHint;
    next, result := callback, given;
    var res;
    res, state := GetHintblockState(file, g, i, min, max);
    if res != 0 {
      return Failed, next, state, result;
    }
    status, next, result := HintCallbackCall(file, g, state, next, result);
    if status == Done && result == LOOP_ERR {
      status := Failed;
    }
  }

  lemma VisitSweep(g: Geometry, image: seq<byte>, lo: nat, hi: nat, callback: HintCallback, state: HintState,
                   result: bv32)
    requires lo < hi
    ensures VisitRegions(g, image, Sweep(lo, hi), callback, state, result) ==
            var step := RegionAt(g, image, lo, callback, result);
            if step.status != Done || step.result == LOOP_BREAK then step
            else VisitRegions(g, step.image, Sweep(lo + 1, hi), step.callback, step.state, step.result)
  {
  }

  lemma NothingLeft(g: Geometry, image: seq<byte>, k: nat, callback: HintCallback, state: HintState, result: bv32)
    ensures VisitRegions(g, image, Sweep(k, k), callback, state, result) ==
            Traversal(image, callback, state, result, Done)
  {
  }

  /** block_loop_hintblocks_worker, over the regions `lo` .. `hi`-1. */
  method LoopHintblocksWorker(
    file: IoFile, g: Geometry, loopBegin: nat, loopEnd: nat, callback: HintCallback, state: HintState, given: bv32,
    ghost lo: nat, ghost hi: nat)
    returns (status: Status, next: HintCallback, last: HintState, result: bv32)
    requires file.Valid() && file.memory.Length == g.deviceSize
    requires lo <= hi <= Regions(g) && loopBegin == HintPos(g, lo)
    requires loopEnd == if hi == Regions(g) then g.deviceSize else HintPos(g, hi)
    modifies file.Footprint()
    ensures file.Valid()
    ensures VisitRegions(g, old(file.Image()), Sweep(lo, hi), callback, state, given) ==
            Traversal(file.Image(), next, last, result, status)
  {
    hide RegionAt, VisitRegions;
    next, last, result := callback, state, given;
    ghost var start := file.Image();
    if loopEnd > file.memory.Length {
      return Exited, next, last, result;
    }
    var blockstartMin := loopBegin - SPACING + g.blockSize;
    var i := loopBegin;
    ghost var k := lo;
    while i < loopEnd
      invariant file.Valid()
      invariant lo <= k <= hi && i == HintPos(g, k) && blockstartMin == FirstPos(g, k)
      invariant VisitRegions(g, start, Sweep(lo, hi), callback, state, given) ==
                VisitRegions(g, file.Image(), Sweep(k, hi), next, last, result)
      decreases loopEnd - i
    {
      HintPosInside(g, k);
      var blockstartMax := i - g.blockSize;
      if blockstartMin < g.headerSize {
        return Exited, next, last, result;
      }
      VisitSweep(g, file.Image(), k, hi, next, last, result);
      status, next, last, result := ProcessRegion(file, g, i, blockstartMin, blockstartMax, next, result, k);
      if status != Done || result == LOOP_BREAK {
        return status, next, last, result;
      }
      blockstartMin := i + g.blockSize;
      i := i + SPACING;
      k := k + 1;
    }
    HintPosInside(g, k);
    NothingLeft(g, file.Image(), k, next, last, result);
    return Done, next, last, result;
  }

  /** What block_loop_hintblocks_large_device does, started at region `first`. */
  function Loop(g: Geometry, image: seq<byte>, first: nat, callback: HintCallback): (t: Traversal)
    requires first < Regions(g)
    ensures |t.image| == |image|
  {
    hide RegionAt;
    VisitRegions(g, image, Rotation(g, first), callback, ZERO_STATE, LOOP_OK)
  }

  /**
   block_loop_hintblocks_large_device: two rounds over the device amount to visiting
   every region once in ring order, until a callback breaks. Region `m` is where
   `first` says to begin; region 0 when there is no `first`.
   */
  method LoopHintblocksLargeDevice(file: IoFile, g: Geometry, first: Option<HintState>, callback: HintCallback,
                                   ghost m: nat)
    returns (status: Status, next: HintCallback, last: HintState, result: bv32)
    requires file.Valid() && file.memory.Length == g.deviceSize
    requires m < Regions(g)
    requires first.None? ==> m == 0
    requires first.Some? ==> first.value.valid && first.value.location == HintPos(g, m)
    modifies file.Footprint()
    ensures file.Valid()
    ensures Loop(g, old(file.Image()), m, callback) == Traversal(file.Image(), next, last, result, status)
  {
    hide VisitRegions;
    next, last, result := callback, ZERO_STATE, LOOP_OK;
    ghost var start := file.Image();
    var loopBeginOrig := g.headerSize + SPACING;
    var loopBegin := loopBeginOrig;
    var loopEnd := g.deviceSize;
    if first.Some? {
      if !first.value.valid {
        return Exited, next, last, result;
      }
      loopBegin := first.value.location;
    }
    VisitRegionsConcat(g, start, Sweep(m, Regions(g)), Sweep(0, m), next, last, result);
    status, next, last, result := LoopHintblocksWorker(file, g, loopBegin, loopEnd, next, last, result, m, Regions(g));
    if status != Done {
      return status, next, last, result;
    }
    if loopBegin != loopBeginOrig && result != LOOP_BREAK {
      loopEnd := loopBegin;
      loopBegin := loopBeginOrig;
      status, next, last, result := LoopHintblocksWorker(file, g, loopBegin, loopEnd, next, last, result, 0, m);
    } else if result != LOOP_BREAK {
      NothingLeft(g, file.Image(), 0, next, last, result);
    }
  }

  // ----- What a callback's data can be after a traversal -----

  /** The state of some region of the device, in use or not. */
  predicate AtRegion(g: Geometry, state: HintState, k: nat) {
    && k < Regions(g)
    && state.location == HintPos(g, k)
    && state.backupLocation == BackupPos(g, k)
    && state.blockstartMin == FirstPos(g, k)
    && state.blockstartMax == LastPos(g, k)
  }

  predicate OnRing(g: Geometry, state: HintState) {
    0 <= RegionOf(g, state.location) && AtRegion(g, state, RegionOf(g, state.location))
  }

  /** The same callback: only what it has collected may differ. */
  ghost predicate SameTask(a: BlockCallback, b: BlockCallback) {
    match a
    case Emit(gteq, limit, _) => b.Emit? && b.gteq == gteq && b.limit == limit
    case Rewrite(gteq, mask, test, _) => b.Rewrite? && b.gteq == gteq && b.mask == mask && b.test == test
  }

  /** Same callback, with data that describes regions of this device. */
  ghost predicate Plausible(g: Geometry, callback: HintCallback, origin: HintCallback) {
    match origin
    case CheckFree(_, _) => callback.CheckFree? && callback.blockLocation <= g.deviceSize
    case CheckTimestamps(_, _, _) => callback.CheckTimestamps? && (callback.initialized ==> OnRing(g, callback.oldest))
    case FindOldest(_, _, _) => callback.FindOldest? && (callback.smallest.valid ==> OnRing(g, callback.smallest))
    case OverBlocks(blocks) => callback.OverBlocks? && SameTask(blocks, callback.blocks)
  }

  lemma ProbeIsAtRegion(g: Geometry, image: seq<byte>, k: nat)
    requires k < Regions(g)
    ensures AtRegion(g, ProbeRegion(g, image, k).state, k) && OnRing(g, ProbeRegion(g, image, k).state)
  {
    hide UpdateHint, HintAt, BlockCheck, HeaderOf;
    RegionOfHintPos(g, k);
  }

  lemma BlockKeepsTask(g: Geometry, image: seq<byte>, i: nat, callback: BlockCallback, result: bv32)
    ensures SameTask(callback, BlockAt(g, image, i, callback, result).callback)
  {
    hide HeaderOf, BlockCheck, PutPadded, SealedBlock, Selected;
  }

  lemma {:induction false} WalkKeepsTask(g: Geometry, image: seq<byte>, state: HintState, i: nat,
                                         callback: BlockCallback, result: bv32)
    ensures SameTask(callback, WalkBlocks(g, image, state, i, callback, result).callback)
    decreases state.blockstartMax + g.blockSize - i
  {
    hide BlockAt;
    if !WithinRegion(state, i) {
    } else {
      if i == state.backupLocation {
        WalkKeepsTask(g, image, state, i + g.blockSize, callback, result);
      } else {
        var step := BlockAt(g, image, i, callback, result);
        BlockKeepsTask(g, image, i, callback, result);
        WalkKeepsTask(g, step.image, state, i + g.blockSize, step.callback, step.result);
      }
    }
  }

  lemma VisitIsPlausible(g: Geometry, image: seq<byte>, state: HintState, callback: HintCallback, origin: HintCallback,
                         result: bv32)
    requires OnRing(g, state) && Plausible(g, callback, origin)
    ensures Plausible(g, VisitHint(g, image, state, callback, result).callback, origin)
  {
    hide WalkBlocks;
    if callback.OverBlocks? {
      WalkKeepsTask(g, image, state, state.blockstartMin, callback.blocks, LOOP_OK);
    }
  }

  lemma {:induction false} TraversalIsPlausible(
    g: Geometry, image: seq<byte>, ks: seq<nat>, callback: HintCallback, origin: HintCallback, state: HintState,
    result: bv32)
    requires forall i :: 0 <= i < |ks| ==> ks[i] < Regions(g)
    requires Plausible(g, callback, origin)
    ensures Plausible(g, VisitRegions(g, image, ks, callback, state, result).callback, origin)
    decreases |ks|
  {
    hide ProbeRegion, VisitHint, Plausible, OnRing;
    if ks == [] {
    } else {
      var probe := ProbeRegion(g, image, ks[0]);
      ProbeIsAtRegion(g, image, ks[0]);
      VisitIsPlausible(g, probe.image, probe.state, callback, origin, result);
      var step := RegionAt(g, image, ks[0], callback, result);
      TraversalIsPlausible(g, step.image, ks[1..], step.callback, origin, step.state, step.result);
    }
  }

  /** The state it leaves is that of the last region visited. */
  lemma {:induction false} TraversalEndsOnRing(
    g: Geometry, image: seq<byte>, ks: seq<nat>, callback: HintCallback, state: HintState, result: bv32)
    requires ks != [] && forall i :: 0 <= i < |ks| ==> ks[i] < Regions(g)
    ensures OnRing(g, VisitRegions(g, image, ks, callback, state, result).state)
    decreases |ks|
  {
    hide ProbeRegion, VisitHint, OnRing;
    ProbeIsAtRegion(g, image, ks[0]);
    var step := RegionAt(g, image, ks[0], callback, result);
    if |ks| == 1 {
      assert ks[1..] == [];
    } else {
      TraversalEndsOnRing(g, step.image, ks[1..], step.callback, step.state, step.result);
    }
  }

  lemma LoopEndsOnRing(g: Geometry, image: seq<byte>, first: nat, callback: HintCallback)
    requires first < Regions(g)
    ensures OnRing(g, Loop(g, image, first, callback).state)
  {
    hide VisitRegions, OnRing;
    TraversalEndsOnRing(g, image, Rotation(g, first), callback, ZERO_STATE, LOOP_OK);
  }

  lemma LoopIsPlausible(g: Geometry, image: seq<byte>, first: nat, callback: HintCallback)
    requires first < Regions(g) && Plausible(g, callback, callback)
    ensures Plausible(g, Loop(g, image, first, callback).callback, callback)
  {
    hide VisitRegions, Plausible;
    TraversalIsPlausible(g, image, Rotation(g, first), callback, callback, ZERO_STATE, LOOP_OK);
  }

  // ----- The ring traversal covers every region once -----

  /** The regions that a traversal actually visits. */
  function Visited(g: Geometry, image: seq<byte>, ks: seq<nat>, callback: HintCallback, result: bv32): (vs: seq<nat>)
    ensures vs <= ks
    decreases |ks|
  {
    hide RegionAt;
    if ks == [] then []
    else
      var step := RegionAt(g, image, ks[0], callback, result);
      if step.status != Done || step.result == LOOP_BREAK then [ks[0]]
      else [ks[0]] + Visited(g, step.image, ks[1..], step.callback, step.result)
  }

  lemma {:induction false} UnbrokenVisitsAll(
    g: Geometry, image: seq<byte>, ks: seq<nat>, callback: HintCallback, state: HintState, result: bv32)
    requires var t := VisitRegions(g, image, ks, callback, state, result); t.status == Done && t.result != LOOP_BREAK
    ensures Visited(g, image, ks, callback, result) == ks
    decreases |ks|
  {
    hide RegionAt;
    if ks == [] {
    } else {
      var step := RegionAt(g, image, ks[0], callback, result);
      UnbrokenVisitsAll(g, step.image, ks[1..], step.callback, step.state, step.result);
    }
  }

  /**
   Begun at any region, on any bytes whatsoever: a traversal that nothing breaks visits
   every region exactly once, region k as many places on as it lies on around the ring.
   */
  lemma TraversalIsARing(g: Geometry, image: seq<byte>, first: nat, callback: HintCallback, k: nat)
    requires first < Regions(g) && k < Regions(g)
    requires var t := Loop(g, image, first, callback); t.status == Done && t.result != LOOP_BREAK
    ensures var vs := Visited(g, image, Rotation(g, first), callback, LOOP_OK);
            && |vs| == Regions(g)
            && forall i :: 0 <= i < |vs| ==>
                 (vs[i] == k <==> i == if first <= k then k - first else k + Regions(g) - first)
  {
    hide VisitRegions, Visited;
    UnbrokenVisitsAll(g, image, Rotation(g, first), callback, ZERO_STATE, LOOP_OK);
  }
}
