/**
 Data blocks that go bad. A walk over a region stops in front of a block whose check
 comes out as 1, prints one whose check comes out as 2 and stops behind it, and prints
 any other as if it were in order: the difference of the hashes serves as the verdict.
 A bad block that the hint points to makes its whole region count as unused.
 */
module Corruption {
  import opened Bytes
  import opened Layout
  import opened Codec
  import opened Blocks
  import opened Traversal
  import opened Writing
  import opened Reading
  import opened Ring
  import opened Simulation
  import opened Machine
  import opened Undamaged
  import opened Runs
  import opened Queue
  import opened Log
  import opened Crash
  import opened Loss

  // ----- What a read takes out of data blocks, whatever their bytes -----

  /** The entries that are read, and whether a block among them stops the walk. */
  datatype Legible = Legible(entries: seq<Entry>, stops: bool)

  function EntryIn(cell: seq<byte>): Entry
    requires BLOCK_HEADER_SIZE <= |cell| && BlockCheck(cell) != 1
  {
    CheckedLength(cell);
    EntryOf(cell)
  }

  /** Data blocks `d` .. `n`-1 of region `k`. */
  function LegibleFrom(g: Geometry, image: seq<byte>, k: nat, d: nat, n: nat): Legible
    requires Sized(g, image) && k < Regions(g) && d <= n <= Capacity(g)
    decreases n - d
  {
    if d == n then Legible([], false)
    else
      var cell := Cell(g, image, k, SlotOf(g, d));
      if BlockCheck(cell) == 1 then Legible([], true)
      else if BlockCheck(cell) == 2 then Legible([EntryIn(cell)], true)
      else
        var rest := LegibleFrom(g, image, k, d + 1, n);
        Legible([EntryIn(cell)] + rest.entries, rest.stops)
  }

  lemma BlockAtCell(g: Geometry, image: seq<byte>, k: nat, d: nat, callback: BlockCallback, result: bv32)
    requires Sized(g, image) && k < Regions(g) && d < Capacity(g) && callback.Emit?
    ensures var cell := Cell(g, image, k, SlotOf(g, d));
            BlockAt(g, image, DataPos(g, k, d), callback, result) ==
            if BlockCheck(cell) == 1 then BlockStep(image, callback, LOOP_BREAK, Done)
            else
              var v := VisitEntry(callback, EntryIn(cell));
              BlockStep(image, v.callback, if v.broke then LOOP_BREAK else BlockCheck(cell), Done)
  {
    hide BlockCheck, HeaderOf, Cell, SlotPos;
    ReadCell(g, image, k, SlotOf(g, d));
  }

  /** One round of the walk, at a data slot up to the last written. */
  lemma WalkCell(g: Geometry, image: seq<byte>, contents: Contents, k: nat, d: nat, callback: BlockCallback,
                 result: bv32)
    requires Sized(g, image) && Shaped(g, contents) && k < Regions(g) && d < |contents[k]| && callback.Emit?
    ensures var cell := Cell(g, image, k, SlotOf(g, d));
            WalkBlocks(g, image, StateOf(g, contents, k), DataPos(g, k, d), callback, result) ==
            if BlockCheck(cell) == 1 then BlockStep(image, callback, LOOP_BREAK, Done)
            else
              var v := VisitEntry(callback, EntryIn(cell));
              if v.broke || BlockCheck(cell) == 2 then BlockStep(image, v.callback, LOOP_BREAK, Done)
              else
                var next := SlotPos(g, k, SlotOf(g, d) + 1);
                WalkBlocks(g, image, StateOf(g, contents, k), next, v.callback, BlockCheck(cell))
  {
    hide StateOf, BlockAt, VisitEntry, WithinRegion, SlotPos, Half, BlockCheck, Cell;
    WalkBounds(g, contents, k, SlotOf(g, d));
    NextSlot(g, k, SlotOf(g, d));
    BlockAtCell(g, image, k, d, callback, result);
  }

  lemma LegibleHead(g: Geometry, image: seq<byte>, k: nat, d: nat, n: nat, callback: BlockCallback)
    requires Sized(g, image) && k < Regions(g) && d < n <= Capacity(g)
    ensures var cell := Cell(g, image, k, SlotOf(g, d));
            var seen := LegibleFrom(g, image, k, d, n);
            var pass := WalkEntries(seen.entries, callback);
            if BlockCheck(cell) == 1 then seen == Legible([], true) && pass == Walked([], callback, false)
            else
              var v := VisitEntry(callback, EntryIn(cell));
              var rest := LegibleFrom(g, image, k, d + 1, n);
              if v.broke then pass.callback == v.callback && pass.broke
              else if BlockCheck(cell) == 2 then seen.stops && pass.callback == v.callback
              else
                && seen.stops == rest.stops
                && pass.callback == WalkEntries(rest.entries, v.callback).callback
                && pass.broke == WalkEntries(rest.entries, v.callback).broke
  {
    hide BlockCheck, Cell, EntryIn, VisitEntry;
    var cell := Cell(g, image, k, SlotOf(g, d));
    if BlockCheck(cell) != 1 {
      var e := EntryIn(cell);
      var rest := LegibleFrom(g, image, k, d + 1, n).entries;
      assert ([e] + rest)[1..] == rest;
      assert [e][1..] == [];
    }
  }

  /** The walk from the slot of the d-th data block on is a pass over what is legible from there on. */
  lemma {:induction false} WalkIsLegible(g: Geometry, image: seq<byte>, contents: Contents, k: nat, j: nat,
                                         callback: BlockCallback, result: bv32)
    requires Sized(g, image) && Shaped(g, contents) && k < Regions(g) && contents[k] != [] && callback.Emit?
    requires BlockCheck(Cell(g, image, k, SlotOf(g, |contents[k]| - 1))) == 0
    requires 1 <= j <= Slots(g) && DataBefore(g, j) <= |contents[k]|
    ensures var d, n := DataBefore(g, j), |contents[k]|;
            var seen := LegibleFrom(g, image, k, d, n);
            var pass := WalkEntries(seen.entries, callback);
            WalkBlocks(g, image, StateOf(g, contents, k), SlotPos(g, k, j), callback, result) ==
            BlockStep(image, pass.callback,
                      if pass.broke || seen.stops then LOOP_BREAK else if d == n then result else LOOP_OK, Done)
    decreases Slots(g) - j
  {
    hide StateOf, WalkBlocks, BlockCheck, VisitEntry, SlotPos, Half, Cell, EntryIn, LegibleFrom, WalkEntries;
    var d, n := DataBefore(g, j), |contents[k]|;
    if d == n {
      WalkEnds(g, image, contents, k, j, callback, result);
      NothingLegible(g, image, k, n, callback);
    } else if j == Half(g) {
      WalkPastBackup(g, image, contents, k, callback, result);
      WalkIsLegible(g, image, contents, k, j + 1, callback, result);
    } else {
      SlotOfInverse(g, d, j);
      var cell := Cell(g, image, k, SlotOf(g, d));
      WalkCell(g, image, contents, k, d, callback, result);
      LegibleHead(g, image, k, d, n, callback);
      if BlockCheck(cell) != 1 {
        WalkIsLegible(g, image, contents, k, j + 1, VisitEntry(callback, EntryIn(cell)).callback, BlockCheck(cell));
      }
    }
  }

  lemma NothingLegible(g: Geometry, image: seq<byte>, k: nat, n: nat, callback: BlockCallback)
    requires Sized(g, image) && k < Regions(g) && n <= Capacity(g)
    ensures LegibleFrom(g, image, k, n, n) == Legible([], false)
    ensures WalkEntries([], callback) == Walked([], callback, false)
  {
  }

  // ----- Scans look at hint blocks and last blocks only -----

  /** Scans find in the device what `contents` says, and the last block of every region in use is in order. */
  ghost predicate ScansAs(g: Geometry, image: seq<byte>, contents: Contents) {
    && Sized(g, image) && Shaped(g, contents)
    && forall k :: 0 <= k < Regions(g) ==> RegionScansAs(g, image, contents, k)
  }

  ghost predicate RegionScansAs(g: Geometry, image: seq<byte>, contents: Contents, k: nat)
    requires Sized(g, image) && Shaped(g, contents) && k < Regions(g)
  {
    && ProbeRegion(g, image, k) == Probe(image, Done, StateOf(g, contents, k))
    && (contents[k] != [] ==> BlockCheck(Cell(g, image, k, SlotOf(g, |contents[k]| - 1))) == 0)
  }

  lemma ScanStaysAScan(g: Geometry, contents: Contents, k: nat, callback: HintCallback, result: bv32)
    requires Shaped(g, contents) && k < Regions(g) && !callback.OverBlocks?
    ensures MeetRegion(g, contents, k, callback, result).contents == contents
    ensures !MeetRegion(g, contents, k, callback, result).callback.OverBlocks?
  {
    hide StateOf;
  }

  lemma {:induction false} ScanIsATour(
    g: Geometry, image: seq<byte>, contents: Contents, ks: seq<nat>, callback: HintCallback, state: HintState,
    result: bv32)
    requires ScansAs(g, image, contents) && !callback.OverBlocks? && result != LOOP_ERR
    requires forall i :: 0 <= i < |ks| ==> ks[i] < Regions(g)
    ensures var tour := TourRegions(g, contents, ks, callback, state, result);
            VisitRegions(g, image, ks, callback, state, result) ==
            Traversal(image, tour.callback, tour.state, tour.result, Done)
    decreases |ks|
  {
    hide ProbeRegion, StateOf, BlockCheck, Cell, VisitFree, VisitOldest, VisitTimestamps;
    if ks == [] {
    } else {
      assert RegionScansAs(g, image, contents, ks[0]);
      NoErrors(g, contents, ks[0], callback, result);
      ScanStaysAScan(g, contents, ks[0], callback, result);
      var met := MeetRegion(g, contents, ks[0], callback, result);
      if met.result != LOOP_BREAK {
        ScanIsATour(g, image, contents, ks[1..], met.callback, StateOf(g, contents, ks[0]), met.result);
      }
    }
  }

  lemma LoopScans(g: Geometry, image: seq<byte>, contents: Contents, callback: HintCallback)
    requires ScansAs(g, image, contents) && !callback.OverBlocks?
    ensures Shaped(g, contents)
    ensures var tour := TourRegions(g, contents, Sweep(0, Regions(g)), callback, ZERO_STATE, LOOP_OK);
            var t := Loop(g, image, 0, callback);
            t.image == image && t.callback == tour.callback && t.state == tour.state && t.status == Done
  {
    hide VisitRegions, TourRegions, RegionScansAs;
    WholeSweep(g);
    ScanIsATour(g, image, contents, Rotation(g, 0), callback, ZERO_STATE, LOOP_OK);
  }

  /** Where a write goes depends on what scans find alone. */
  lemma LocationFromScan(g: Geometry, image: seq<byte>, contents: Contents)
    requires ScansAs(g, image, contents) && SMALL_SIZE_THRESHOLD <= g.deviceSize
    ensures Shaped(g, contents)
    ensures var place := FindLocation(g, image);
            && place.image == image
            && match Target(g, contents)
               case None => place.status == Exited
               case Some(k) =>
                 place.status == Done && place.state == StateOf(g, contents, k) &&
                 place.pos == DataPos(g, k, NextSlotOf(g, contents[k]))
  {
    hide ScansAs, Loop, StateOf, DataPos, TourRegions;
    LoopScans(g, image, contents, CheckFree(0, 0));
    LoopScans(g, image, contents, CheckTimestamps(false, U64_MAX, ZERO_STATE));
    TourForRoom(g, contents, 0, CheckFree(0, 0), ZERO_STATE);
    TourForOldest(g, contents, 0, Regions(g), ZERO_STATE);
    var o := OldestRegion(g, contents, 0, Regions(g));
    if o < Regions(g) {
      StateFields(g, contents, o);
    }
  }

  /** And so does everything a write decides. */
  lemma PlanFromScan(g: Geometry, image: seq<byte>, contents: Contents, request: Request)
    requires ScansAs(g, image, contents)
    ensures Shaped(g, contents)
    ensures PlanWrite(g, image, request) ==
            Planned(image, match Intention(g, contents, request)
                           case Decline(ending) => Stop(ending)
                           case Intend(k, e) => PlanFor(g, contents, k, e))
  {
    hide RegionScansAs, FindLocation, StateOf, Target, DataPos;
    if SMALL_SIZE_THRESHOLD <= g.deviceSize {
      LocationFromScan(g, image, contents);
      if Target(g, contents).Some? {
        var k := Target(g, contents).value;
        StateFields(g, contents, k);
        DataPosIsSafe(g, k, NextSlotOf(g, contents[k]));
      }
    } else {
      SmallDevice(g, image);
    }
  }

  lemma SmallDevice(g: Geometry, image: seq<byte>)
    requires g.deviceSize < SMALL_SIZE_THRESHOLD
    ensures FindLocation(g, image) == Place(image, Exited, 0, ZERO_STATE)
  {
  }

  lemma FoundFromScan(g: Geometry, image: seq<byte>, contents: Contents, gteq: u64)
    requires ScansAs(g, image, contents)
    ensures Shaped(g, contents)
    ensures var found := FindOldestRegion(g, image, gteq);
            var m := StartRegion(g, contents, gteq);
            && found.status == Done && found.image == image
            && (found.state.valid <==> m < Regions(g))
            && (m < Regions(g) ==> RegionOf(g, found.state.location) == m)
  {
    hide ScansAs, Loop, StateOf, TourRegions;
    LoopScans(g, image, contents, FindOldest(gteq, U64_MAX, ZERO_STATE));
    TourForMatch(g, contents, gteq, 0, Regions(g), ZERO_STATE);
    var m := StartRegion(g, contents, gteq);
    if m < Regions(g) {
      StateFields(g, contents, m);
      RegionOfHintPos(g, m);
    }
  }

  // ----- Reads -----

  /** What region `k` contributes to a read, and whether it ends there. */
  function Share(g: Geometry, image: seq<byte>, contents: Contents, k: nat, gteq: u64): Legible
    requires Sized(g, image) && Shaped(g, contents) && k < Regions(g)
  {
    if contents[k] == [] then Legible([], true)
    else if LastTimestamp(contents[k]) < gteq then Legible([], false)
    else
      var seen := LegibleFrom(g, image, k, 0, |contents[k]|);
      Legible(Matching(seen.entries, gteq), seen.stops)
  }

  /** What a read of the regions `ks` prints, as far as it comes. */
  function Shares(g: Geometry, image: seq<byte>, contents: Contents, ks: seq<nat>, gteq: u64): seq<Entry>
    requires Sized(g, image) && Shaped(g, contents) && forall i :: 0 <= i < |ks| ==> ks[i] < Regions(g)
    decreases |ks|
  {
    if ks == [] then []
    else
      var share := Share(g, image, contents, ks[0], gteq);
      if share.stops then share.entries else share.entries + Shares(g, image, contents, ks[1..], gteq)
  }

  /** Visiting one region prints its share. */
  lemma RegionPrints(g: Geometry, image: seq<byte>, contents: Contents, k: nat, callback: BlockCallback, result: bv32)
    requires ScansAs(g, image, contents) && k < Regions(g) && callback.Emit? && Unsaturated(callback)
    ensures Sized(g, image) && Shaped(g, contents)
    ensures var share := Share(g, image, contents, k, callback.gteq);
            var t := RegionAt(g, image, k, OverBlocks(callback), result);
            && t.image == image && t.status == Done && t.result != LOOP_ERR
            && t.callback.OverBlocks? && SameTask(callback, t.callback.blocks)
            && t.callback.blocks.output == FirstOf(callback.output + share.entries, callback.limit)
            && (t.result == LOOP_BREAK <==>
                  share.stops || (callback.limit != 0 && callback.limit <= |callback.output + share.entries|))
  {
    hide StateOf, WalkBlocks, WalkEntries, Matching, LastTimestamp, ProbeRegion, BlockCheck, Cell, LegibleFrom,
         FirstPos;
    assert RegionScansAs(g, image, contents, k);
    StateFields(g, contents, k);
    NamedSlots(g, k);
    assert callback.output + [] == callback.output;
    if contents[k] != [] && callback.gteq <= LastTimestamp(contents[k]) {
      var seen := LegibleFrom(g, image, k, 0, |contents[k]|);
      WalkIsLegible(g, image, contents, k, 1, callback, LOOP_OK);
      PassStopsAtLimit(seen.entries, callback);
      EmitPrintsMatches(seen.entries, callback);
      LimitReachedExactly(seen.entries, callback);
    }
  }

  lemma {:induction false} LimitReachedExactly(entries: seq<Entry>, callback: BlockCallback)
    requires callback.Emit? && Unsaturated(callback)
    ensures WalkEntries(entries, callback).broke <==>
            callback.limit != 0 && callback.limit <= |callback.output + Matching(entries, callback.gteq)|
    decreases |entries|
  {
    hide Emitted, Matching;
    if entries == [] {
      NothingMatches(callback);
    } else {
      OneMoreEmitted(entries, callback);
      var v := VisitEntry(callback, entries[0]);
      if !v.broke {
        StillUnsaturated(callback, entries[0]);
        LimitReachedExactly(entries[1..], v.callback);
      } else {
        assert |v.callback.output| == callback.limit;
      }
    }
  }

  lemma {:induction false} TourOfShares(
    g: Geometry, image: seq<byte>, contents: Contents, ks: seq<nat>, callback: BlockCallback, state: HintState,
    result: bv32)
    requires ScansAs(g, image, contents) && callback.Emit? && Unsaturated(callback) && result != LOOP_BREAK
    requires forall i :: 0 <= i < |ks| ==> ks[i] < Regions(g)
    ensures Sized(g, image) && Shaped(g, contents)
    ensures var t := VisitRegions(g, image, ks, OverBlocks(callback), state, result);
            && t.image == image && t.status == Done && t.callback.OverBlocks? && t.callback.blocks.Emit?
            && t.callback.blocks.output ==
               FirstOf(callback.output + Shares(g, image, contents, ks, callback.gteq), callback.limit)
    decreases |ks|
  {
    hide RegionScansAs, RegionAt, Share, FirstOf, SameTask;
    if ks == [] {
      assert callback.output + [] == callback.output;
      LimitCuts(callback.output, [], callback.limit);
    } else {
      var share := Share(g, image, contents, ks[0], callback.gteq);
      RegionPrints(g, image, contents, ks[0], callback, result);
      var t := RegionAt(g, image, ks[0], OverBlocks(callback), result);
      AfterRegion(callback, share.entries, t.callback.blocks);
      if t.result != LOOP_BREAK {
        var rest := Shares(g, image, contents, ks[1..], callback.gteq);
        TourOfShares(g, image, contents, ks[1..], t.callback.blocks, t.state, t.result);
        assert (callback.output + share.entries) + rest == callback.output + (share.entries + rest);
      } else if !share.stops {
        var rest := Shares(g, image, contents, ks[1..], callback.gteq);
        FirstOfFirstOf(callback.output + share.entries, rest, callback.limit);
        assert (callback.output + share.entries) + rest == callback.output + (share.entries + rest);
      }
    }
  }

  lemma AfterRegion(callback: BlockCallback, more: seq<Entry>, next: BlockCallback)
    requires callback.Emit? && SameTask(callback, next)
    requires next.output == FirstOf(callback.output + more, callback.limit)
    ensures next.Emit? && next.gteq == callback.gteq && next.limit == callback.limit
    ensures !(callback.limit != 0 && callback.limit <= |callback.output + more|) ==>
              Unsaturated(next) && next.output == callback.output + more
  {
  }

  /** A read of a device whose hint blocks and last blocks are in order, whatever the other data blocks hold. */
  lemma ReadIsShares(g: Geometry, image: seq<byte>, contents: Contents, gteq: u64, limit: u64)
    requires ScansAs(g, image, contents)
    ensures Sized(g, image) && Shaped(g, contents)
    ensures var r := StartRegion(g, contents, gteq);
            ReadEntries(g, image, gteq, limit) ==
            Report(image, Returns(0),
                   if r == Regions(g) then [] else FirstOf(Shares(g, image, contents, Rotation(g, r), gteq), limit))
  {
    hide ScansAs, FindOldestRegion, StartRegion, VisitRegions, Shares, FirstOf, Shaped, Rotation;
    ScansShaped(g, image, contents);
    FoundFromScan(g, image, contents, gteq);
    var r := StartRegion(g, contents, gteq);
    if r < Regions(g) {
      var callback := Emit(gteq, limit, []);
      TourOfShares(g, image, contents, Rotation(g, r), callback, ZERO_STATE, LOOP_OK);
      assert [] + Shares(g, image, contents, Rotation(g, r), gteq) == Shares(g, image, contents, Rotation(g, r), gteq);
    }
  }

  lemma ScansShaped(g: Geometry, image: seq<byte>, contents: Contents)
    requires ScansAs(g, image, contents)
    ensures Sized(g, image) && Shaped(g, contents) && |contents| == Regions(g)
  {
  }

  // ----- Bad blocks in front of the last one of their region -----

  /** The slots that scans look at: hint blocks, backups, and the last data block of a region in use. */
  predicate Scanned(g: Geometry, contents: Contents, l: nat, i: nat)
    requires l < |contents|
  {
    i == Half(g) || i == Slots(g) || (contents[l] != [] && i == SlotOf(g, |contents[l]| - 1))
  }

  /** Any number of other data blocks overwritten with anything. */
  ghost predicate DamagedBetween(g: Geometry, image: seq<byte>, image': seq<byte>, contents: Contents)
    requires Shaped(g, contents)
  {
    && Sized(g, image) && Sized(g, image')
    && forall l: nat, i: nat :: IsSlot(g, l, i) && Scanned(g, contents, l, i) ==>
                                  Cell(g, image', l, i) == Cell(g, image, l, i)
  }

  /** A scan of a region depends on those slots alone. */
  lemma SameScan(g: Geometry, image: seq<byte>, image': seq<byte>, contents: Contents, k: nat)
    requires Represents(g, image, contents, {}) && Sized(g, image') && k < Regions(g)
    requires |contents| == Regions(g)
    requires forall i: nat :: IsSlot(g, k, i) && Scanned(g, contents, k, i) ==>
               Cell(g, image', k, i) == Cell(g, image, k, i)
    ensures Shaped(g, contents) && RegionScansAs(g, image', contents, k)
  {
    hide Cell, HintCell, EntryCell, HintFails, LastWritten, ProbeRegion, Settle, BlockCheck;
    assert RegionHolds(g, image, contents, {}, k);
    if contents[k] == [] {
      ProbeIdle(g, image', k);
    } else {
      var n := |contents[k]|;
      ProbeSettles(g, image', k, n);
      SettleOnEntry(g, image', Unsettled(HintPos(g, k), FirstPos(g, k), LastPos(g, k)), k, n, contents[k][n - 1]);
      EntryCellReadsBack(g, contents[k][n - 1]);
    }
  }

  lemma DamageScans(g: Geometry, image: seq<byte>, image': seq<byte>, contents: Contents)
    requires Represents(g, image, contents, {}) && Shaped(g, contents) && DamagedBetween(g, image, image', contents)
    ensures ScansAs(g, image', contents)
  {
    hide Represents, RegionScansAs, Cell, Scanned;
    forall k | 0 <= k < Regions(g)
      ensures RegionScansAs(g, image', contents, k)
    {
      SameScan(g, image, image', contents, k);
    }
  }

  /** A write decides as if the blocks were in order. */
  lemma DamageDecidesNothing(g: Geometry, image: seq<byte>, image': seq<byte>, contents: Contents, request: Request)
    requires Represents(g, image, contents, {}) && Shaped(g, contents) && DamagedBetween(g, image, image', contents)
    ensures PlanWrite(g, image', request) == Planned(image', PlanWrite(g, image, request).plan)
  {
    hide Represents, DamagedBetween, PlanWrite, Intention;
    RepresentsShaped(g, image, contents, {});
    DamageScans(g, image, image', contents);
    PlanFromScan(g, image', contents, request);
    var lost := PlanIsIntention(g, image, contents, {}, request);
  }

  // ----- One of them -----

  predicate Stops(junk: seq<byte>)
    requires BLOCK_HEADER_SIZE <= |junk|
  {
    BlockCheck(junk) == 1 || BlockCheck(junk) == 2
  }

  /** Entries as a read finds them when the block of entry `p` has become `junk`. */
  function Through(entries: seq<Entry>, p: nat, junk: seq<byte>): seq<Entry>
    requires p < |entries| && BLOCK_HEADER_SIZE <= |junk|
  {
    if BlockCheck(junk) == 1 then entries[..p]
    else if BlockCheck(junk) == 2 then entries[..p] + [EntryIn(junk)]
    else entries[p := EntryIn(junk)]
  }

  lemma ThroughBehind(a: seq<Entry>, b: seq<Entry>, p: nat, junk: seq<byte>)
    requires BLOCK_HEADER_SIZE <= |junk|
    ensures p < |b| ==> Through(a + b, |a| + p, junk) == a + Through(b, p, junk)
    ensures p < |a| ==> Through(a + b, p, junk) == Through(a, p, junk) + if Stops(junk) then [] else b
  {
    hide BlockCheck, EntryIn;
    if p < |b| {
      assert (a + b)[..|a| + p] == a + b[..p];
    }
    if p < |a| {
      assert (a + b)[..p] == a[..p];
    }
  }

  function Overwritten(g: Geometry, image: seq<byte>, k: nat, d: nat, junk: seq<byte>): (s: seq<byte>)
    requires Sized(g, image) && k < Regions(g) && d < Capacity(g) && |junk| == g.blockSize
    ensures Sized(g, s)
  {
    Splice(image, DataPos(g, k, d), junk)
  }

  lemma OverwrittenCells(g: Geometry, image: seq<byte>, k: nat, d: nat, junk: seq<byte>, l: nat, i: nat)
    requires Sized(g, image) && k < Regions(g) && d < Capacity(g) && |junk| == g.blockSize && IsSlot(g, l, i)
    ensures Cell(g, Overwritten(g, image, k, d, junk), l, i) ==
            if (l, i) == (k, SlotOf(g, d)) then junk else Cell(g, image, l, i)
  {
    hide Cell;
    WriteCell(g, image, k, SlotOf(g, d), junk, l, i);
  }

  lemma OverwrittenIsBetween(g: Geometry, image: seq<byte>, contents: Contents, k: nat, d: nat, junk: seq<byte>)
    requires Sized(g, image) && Shaped(g, contents) && k < Regions(g) && d + 1 < |contents[k]| && |junk| == g.blockSize
    ensures DamagedBetween(g, image, Overwritten(g, image, k, d, junk), contents)
  {
    hide Cell, Overwritten;
    forall l: nat, i: nat | IsSlot(g, l, i) && Scanned(g, contents, l, i)
      ensures Cell(g, Overwritten(g, image, k, d, junk), l, i) == Cell(g, image, l, i)
    {
      OverwrittenCells(g, image, k, d, junk, l, i);
      SlotOfInverse(g, d, i);
      if contents[l] != [] {
        SlotOfInverse(g, |contents[l]| - 1, i);
      }
    }
  }

  lemma {:induction false} LegibleInOrder(g: Geometry, image: seq<byte>, k: nat, entries: seq<Entry>, d: nat)
    requires Sized(g, image) && k < Regions(g) && d <= |entries| && EntriesFit(g, entries)
    requires forall c :: d <= c < |entries| ==> Cell(g, image, k, SlotOf(g, c)) == EntryCell(g, entries[c])
    ensures LegibleFrom(g, image, k, d, |entries|) == Legible(entries[d..], false)
    decreases |entries| - d
  {
    hide Cell, EntryCell, BlockCheck, HeaderOf;
    if d == |entries| {
    } else {
      EntryCellReadsBack(g, entries[d]);
      LegibleInOrder(g, image, k, entries, d + 1);
      assert entries[d..] == [entries[d]] + entries[d + 1..];
    }
  }

  lemma OverwrittenData(g: Geometry, image: seq<byte>, k: nat, entries: seq<Entry>, d: nat, junk: seq<byte>, c: nat)
    requires Sized(g, image) && k < Regions(g) && d < |entries| && c < |entries| && EntriesFit(g, entries)
    requires |junk| == g.blockSize && DataHolds(g, image, k, entries)
    ensures Cell(g, Overwritten(g, image, k, d, junk), k, SlotOf(g, c)) ==
            if c == d then junk else EntryCell(g, entries[c])
  {
    hide Cell, EntryCell, Overwritten;
    OverwrittenCells(g, image, k, d, junk, k, SlotOf(g, c));
    SlotOfInverse(g, c, SlotOf(g, c));
    SlotOfInverse(g, d, SlotOf(g, d));
  }

  lemma LegibleAtJunk(g: Geometry, image: seq<byte>, k: nat, entries: seq<Entry>, d: nat, junk: seq<byte>)
    requires Sized(g, image) && k < Regions(g) && d < |entries| && EntriesFit(g, entries) && |junk| == g.blockSize
    requires forall c :: d <= c < |entries| ==>
                           Cell(g, image, k, SlotOf(g, c)) == if c == d then junk else EntryCell(g, entries[c])
    ensures LegibleFrom(g, image, k, d, |entries|) == Legible(Through(entries[d..], 0, junk), Stops(junk))
  {
    hide Cell, EntryCell, BlockCheck, EntryIn;
    LegibleInOrder(g, image, k, entries, d + 1);
    assert entries[d..] == [entries[d]] + entries[d + 1..];
  }

  lemma LegibleEntry(g: Geometry, image: seq<byte>, k: nat, d: nat, n: nat, e: Entry)
    requires Sized(g, image) && k < Regions(g) && d < n <= Capacity(g) && Fits(g, e)
    requires Cell(g, image, k, SlotOf(g, d)) == EntryCell(g, e)
    ensures var rest := LegibleFrom(g, image, k, d + 1, n);
            LegibleFrom(g, image, k, d, n) == Legible([e] + rest.entries, rest.stops)
  {
    hide Cell, EntryCell, BlockCheck, EntryIn;
    EntryReadsBack(g, e);
  }

  lemma {:induction false} LegibleThrough(g: Geometry, image: seq<byte>, k: nat, entries: seq<Entry>, d: nat,
                                          junk: seq<byte>, c: nat)
    requires Sized(g, image) && k < Regions(g) && c <= d < |entries| && EntriesFit(g, entries) && |junk| == g.blockSize
    requires forall i :: c <= i < |entries| ==>
                           Cell(g, image, k, SlotOf(g, i)) == if i == d then junk else EntryCell(g, entries[i])
    ensures LegibleFrom(g, image, k, c, |entries|) == Legible(Through(entries[c..], d - c, junk), Stops(junk))
    decreases d - c
  {
    hide Cell, EntryCell, BlockCheck, EntryIn, Through, Stops, LegibleFrom;
    if c == d {
      LegibleAtJunk(g, image, k, entries, d, junk);
    } else {
      LegibleEntry(g, image, k, c, |entries|, entries[c]);
      LegibleThrough(g, image, k, entries, d, junk, c + 1);
      ThroughBehind([entries[c]], entries[c + 1..], d - c - 1, junk);
      assert entries[c..] == [entries[c]] + entries[c + 1..];
    }
  }

  lemma EntryReadsBack(g: Geometry, e: Entry)
    requires Fits(g, e)
    ensures BlockCheck(EntryCell(g, e)) == 0 && EntryIn(EntryCell(g, e)) == e
  {
    hide BlockCheck, EntryCell, HeaderOf;
    EntryCellReadsBack(g, e);
  }

  lemma {:induction false} NoneMatching(entries: seq<Entry>, gteq: u64)
    requires NoMatch(entries, gteq)
    ensures Matching(entries, gteq) == []
    decreases |entries|
  {
    if entries == [] {
    } else {
      NoneMatching(entries[1..], gteq);
    }
  }

  lemma {:induction false} MatchingConcat(a: seq<Entry>, b: seq<Entry>, gteq: u64)
    ensures Matching(a + b, gteq) == Matching(a, gteq) + Matching(b, gteq)
    decreases |a|
  {
    if a == [] {
      assert a + b == b;
    } else {
      assert (a + b)[1..] == a[1..] + b;
      MatchingConcat(a[1..], b, gteq);
      var head := if a[0].timestamp >= gteq then [a[0]] else [];
      assert head + (Matching(a[1..], gteq) + Matching(b, gteq)) == (head + Matching(a[1..], gteq)) + Matching(b, gteq);
    }
  }

  /** The share of one region, when at most block `d` of region `k` is bad. */
  lemma ShareThrough(g: Geometry, image: seq<byte>, contents: Contents, l: nat, k: nat, d: nat, junk: seq<byte>,
                     gteq: u64)
    requires Represents(g, image, contents, {}) && k < Regions(g) && d + 1 < |contents[k]| && |junk| == g.blockSize
    requires l < Regions(g) && contents[l] != [] && Ascending(contents[l])
    ensures Sized(g, image) && Shaped(g, contents)
    ensures Share(g, Overwritten(g, image, k, d, junk), contents, l, gteq) ==
            if l == k && gteq <= LastTimestamp(contents[k])
            then Legible(Matching(Through(contents[k], d, junk), gteq), Stops(junk))
            else Legible(Matching(contents[l], gteq), false)
  {
    hide Cell, EntryCell, HintHolds, Overwritten, BlockCheck, LegibleFrom, Through, Stops, Matching;
    assert RegionHolds(g, image, contents, {}, l);
    assert contents[l][0..] == contents[l];
    if LastTimestamp(contents[l]) < gteq {
      NoneMatching(contents[l], gteq);
    } else if l == k {
      forall c | 0 <= c < |contents[k]|
        ensures Cell(g, Overwritten(g, image, k, d, junk), k, SlotOf(g, c)) ==
                if c == d then junk else EntryCell(g, contents[k][c])
      {
        OverwrittenData(g, image, k, contents[k], d, junk, c);
      }
      LegibleThrough(g, Overwritten(g, image, k, d, junk), k, contents[k], d, junk, 0);
    } else {
      forall c | 0 <= c < |contents[l]|
        ensures Cell(g, Overwritten(g, image, k, d, junk), l, SlotOf(g, c)) == EntryCell(g, contents[l][c])
      {
        OverwrittenCells(g, image, k, d, junk, l, SlotOf(g, c));
      }
      LegibleInOrder(g, Overwritten(g, image, k, d, junk), l, contents[l], 0);
    }
  }

  /** The entries of the regions `ks`, one region after the other. */
  function Joined(contents: Contents, ks: seq<nat>): seq<Entry>
    requires forall i :: 0 <= i < |ks| ==> ks[i] < |contents|
    decreases |ks|
  {
    if ks == [] then [] else contents[ks[0]] + Joined(contents, ks[1..])
  }

  /** What a read prints of regions in use, each of them in the order of time, one block of which is bad. */
  lemma {:induction false} SharesThrough(g: Geometry, image: seq<byte>, contents: Contents, ks: seq<nat>,
                                         k: nat, d: nat, junk: seq<byte>, gteq: u64)
    returns (q: nat)
    requires Represents(g, image, contents, {}) && k < Regions(g) && d + 1 < |contents[k]| && |junk| == g.blockSize
    requires forall i :: 0 <= i < |ks| ==> ks[i] < Regions(g) && contents[ks[i]] != [] && Ascending(contents[ks[i]])
    requires forall i, j :: 0 <= i < j < |ks| ==> ks[i] != ks[j]
    ensures Sized(g, image) && Shaped(g, contents)
    ensures var read := Shares(g, Overwritten(g, image, k, d, junk), contents, ks, gteq);
            if k in ks && gteq <= LastTimestamp(contents[k])
            then
              && q < |Joined(contents, ks)| && Joined(contents, ks)[q] == contents[k][d]
              && read == Matching(Through(Joined(contents, ks), q, junk), gteq)
            else read == Matching(Joined(contents, ks), gteq)
    decreases |ks|
  {
    hide Represents, Overwritten, BlockCheck, Through, Stops, Matching, Share, Ascending, LastTimestamp;
    RepresentsShaped(g, image, contents, {});
    q := 0;
    if ks == [] {
      NoneMatching([], gteq);
    } else {
      var l, rest := ks[0], Joined(contents, ks[1..]);
      ShareThrough(g, image, contents, l, k, d, junk, gteq);
      q := SharesThrough(g, image, contents, ks[1..], k, d, junk, gteq);
      MatchingConcat(contents[l], rest, gteq);
      if l == k {
        q := d;
        ThroughBehind(contents[k], rest, d, junk);
        MatchingConcat(Through(contents[k], d, junk), rest, gteq);
        assert Through(contents[k], d, junk) + [] == Through(contents[k], d, junk);
      } else if k in ks[1..] && gteq <= LastTimestamp(contents[k]) {
        ThroughBehind(contents[l], rest, q, junk);
        MatchingConcat(contents[l], Through(rest, q, junk), gteq);
        q := |contents[l]| + q;
      }
    }
  }

  // ----- The same, in terms of the log -----

  lemma SlicesJoin(log: seq<Entry>, a: nat, b: nat, c: nat)
    requires a <= b <= c <= |log|
    ensures log[a..b] + log[b..c] == log[a..c]
    ensures log[a..b] + log[b..] == log[a..]
    ensures log[b..|log|] == log[b..]
  {
  }

  lemma {:induction false} JoinedConcat(contents: Contents, a: seq<nat>, b: seq<nat>)
    requires forall i :: 0 <= i < |a| ==> a[i] < |contents|
    requires forall i :: 0 <= i < |b| ==> b[i] < |contents|
    ensures Joined(contents, a + b) == Joined(contents, a) + Joined(contents, b)
    decreases |a|
  {
    if a == [] {
      assert a + b == b;
    } else {
      assert (a + b)[0] == a[0] && (a + b)[1..] == a[1..] + b;
      JoinedConcat(contents, a[1..], b);
    }
  }

  lemma EndsMeet(g: Geometry, log: seq<Entry>, c: nat, n: nat)
    requires 2 <= n
    ensures EndOf(g, log, c + 1, n - 1) == EndOf(g, log, c, n)
  {
  }

  lemma JoinedHead(contents: Contents, a: nat, b: nat)
    requires a < b <= |contents|
    ensures Joined(contents, Sweep(a, b)) == contents[a] + Joined(contents, Sweep(a + 1, b))
  {
    assert Sweep(a, b)[1..] == Sweep(a + 1, b);
  }

  lemma NothingJoined(contents: Contents, a: nat)
    ensures Joined(contents, Sweep(a, a)) == []
  {
  }

  /** Regions with consecutive chunks hold a part of the log. */
  lemma {:induction false} SweepJoined(g: Geometry, contents: Contents, log: seq<Entry>, m: nat, cur: nat, a: nat,
                                       b: nat)
    requires QueueView(g, contents, log, m, cur) && a < b <= Regions(g) && (b <= cur + 1 || cur < a)
    requires contents[a] != [] && 0 <= ChunkOf(g, m, cur, a)
    ensures var c := ChunkOf(g, m, cur, a);
            && At(g, c) <= EndOf(g, log, c, b - a) <= |log|
            && Joined(contents, Sweep(a, b)) == log[At(g, c)..EndOf(g, log, c, b - a)]
    ensures forall i :: a <= i < b ==> contents[i] != []
    decreases b - a
  {
    hide At, QueueView, EndOf, Joined, Sweep;
    var c := ChunkOf(g, m, cur, a);
    QueueShape(g, contents, log, m, cur);
    ChunkOfRegion(g, contents, log, m, cur, a);
    JoinedHead(contents, a, b);
    if a + 1 == b {
      NothingJoined(contents, b);
      assert contents[a] + [] == contents[a];
    } else {
      NextIsUsed(g, contents, log, m, cur, a, b);
      SweepJoined(g, contents, log, m, cur, a + 1, b);
      EndsMeet(g, log, c, b - a);
      AtOrder(g, c, c + 1);
      var mid, hi := At(g, c + 1), EndOf(g, log, c, b - a);
      SlicesJoin(log, At(g, c), mid, hi);
    }
  }

  lemma ChunkOfRegion(g: Geometry, contents: Contents, log: seq<Entry>, m: nat, cur: nat, k: nat)
    requires QueueView(g, contents, log, m, cur) && k < Regions(g) && contents[k] != []
    ensures var c := ChunkOf(g, m, cur, k);
            && 0 <= c && At(g, c) <= EndOf(g, log, c, 1) <= |log|
            && EndOf(g, log, c, 1) == At(g, c) + |contents[k]|
            && contents[k] == log[At(g, c)..EndOf(g, log, c, 1)]
  {
    hide At;
    AtOrder(g, ChunkOf(g, m, cur, k), 0);
  }

  lemma ToLastDistinct(g: Geometry, cur: nat, r: nat)
    requires cur < Regions(g) && r < Regions(g)
    ensures forall i, j :: 0 <= i < j < |ToLast(g, cur, r)| ==> ToLast(g, cur, r)[i] != ToLast(g, cur, r)[j]
  {
  }

  /** From the start region up to the last one written, the regions are in use and hold the rest of the log. */
  lemma ToLastJoined(g: Geometry, contents: Contents, log: seq<Entry>, m: nat, cur: nat, r: nat)
    requires QueueView(g, contents, log, m, cur) && r < Regions(g) && contents[r] != []
    ensures var c := ChunkOf(g, m, cur, r);
            && 0 <= c && At(g, c) <= |log|
            && Joined(contents, ToLast(g, cur, r)) == log[At(g, c)..]
    ensures forall i :: 0 <= i < |ToLast(g, cur, r)| ==> contents[ToLast(g, cur, r)[i]] != []
  {
    hide At, QueueView, Chunk, Joined;
    QueueShape(g, contents, log, m, cur);
    QueueBounds(g, contents, log, m, cur);
    RegionFacts(g, contents, log, m, cur, r);
    if r <= cur {
      AtOrder(g, m, m);
      SweepJoined(g, contents, log, m, cur, r, cur + 1);
      SlicesJoin(log, At(g, ChunkOf(g, m, cur, r)), |log|, |log|);
    } else {
      ThroughTheEndJoined(g, contents, log, m, cur, r);
    }
  }

  lemma ThroughTheEndJoined(g: Geometry, contents: Contents, log: seq<Entry>, m: nat, cur: nat, r: nat)
    requires QueueView(g, contents, log, m, cur) && cur < r < Regions(g) && contents[r] != []
    ensures var c := ChunkOf(g, m, cur, r);
            && 0 <= c && At(g, c) <= |log|
            && Joined(contents, Sweep(r, Regions(g)) + Sweep(0, cur + 1)) == log[At(g, c)..]
    ensures var ks := Sweep(r, Regions(g)) + Sweep(0, cur + 1);
            forall i :: 0 <= i < |ks| ==> contents[ks[i]] != []
  {
    hide At, QueueView, Chunk, Joined;
    QueueShape(g, contents, log, m, cur);
    QueueBounds(g, contents, log, m, cur);
    RegionFacts(g, contents, log, m, cur, r);
    RegionFacts(g, contents, log, m, cur, 0);
    AtOrder(g, 0, m);
    AtOrder(g, m, m);
    AtOrder(g, m - cur, m);
    SweepJoined(g, contents, log, m, cur, r, Regions(g));
    SweepJoined(g, contents, log, m, cur, 0, cur + 1);
    JoinedConcat(contents, Sweep(r, Regions(g)), Sweep(0, cur + 1));
    var lo, mid := At(g, ChunkOf(g, m, cur, r)), At(g, m - cur);
    SlicesJoin(log, lo, mid, |log|);
  }

  /** Idle regions contribute nothing, wherever in the ring they come. */
  lemma {:induction false} IdleSharesNothing(g: Geometry, image: seq<byte>, contents: Contents, a: seq<nat>,
                                             b: seq<nat>, gteq: u64)
    requires Sized(g, image) && Shaped(g, contents)
    requires forall i :: 0 <= i < |a| ==> a[i] < Regions(g)
    requires forall i :: 0 <= i < |b| ==> b[i] < Regions(g) && Idle(g, contents, b[i], gteq)
    ensures Shares(g, image, contents, a + b, gteq) == Shares(g, image, contents, a, gteq)
    decreases |a| + |b|
  {
    hide LegibleFrom, Matching, LastTimestamp;
    if a == [] {
      assert a + b == b;
      if b == [] {
      } else {
        IdleSharesNothing(g, image, contents, a, b[1..], gteq);
        assert a + b[1..] == b[1..];
      }
    } else {
      assert (a + b)[0] == a[0] && (a + b)[1..] == a[1..] + b;
      IdleSharesNothing(g, image, contents, a[1..], b, gteq);
    }
  }

  lemma RotationCovers(g: Geometry, r: nat, k: nat)
    requires r < Regions(g) && k < Regions(g)
    ensures k in Rotation(g, r)
  {
    var i := if r <= k then k - r else Regions(g) - r + k;
    assert Rotation(g, r)[i] == k;
  }

  /** A region that a read visits lies between the start region and the last one written. */
  lemma VisitedIsToLast(g: Geometry, contents: Contents, log: seq<Entry>, m: nat, cur: nat, k: nat, gteq: u64)
    requires QueueView(g, contents, log, m, cur) && Ascending(log) && k < Regions(g)
    requires contents[k] != [] && gteq <= LastTimestamp(contents[k])
    ensures var r := StartRegion(g, contents, gteq);
            r < Regions(g) && k in ToLast(g, cur, r)
  {
    hide At, QueueView, StartRegion, Chunk, LastTimestamp, ToLast, PastLast, Rotation;
    QueueShape(g, contents, log, m, cur);
    var r := StartRegion(g, contents, gteq);
    if r == Regions(g) {
      BeforeStartIsIdle(g, contents, log, m, cur, gteq, k);
      assert false;
    }
    RotationCovers(g, r, k);
    RotationParts(g, cur, r);
    if k !in ToLast(g, cur, r) {
      var i :| 0 <= i < |PastLast(g, cur, r)| && PastLast(g, cur, r)[i] == k;
      SameTimesReflexive(g, contents);
      PastLastIsIdle(g, contents, log, m, cur, gteq, contents, i);
      assert false;
    }
  }

  lemma SameTimesReflexive(g: Geometry, contents: Contents)
    requires |contents| == Regions(g)
    ensures SameTimes(g, contents, contents)
  {
  }

  /** An entry of a region, as an entry of the live log. */
  lemma EntryIsLive(g: Geometry, contents: Contents, log: seq<Entry>, m: nat, cur: nat, k: nat, d: nat) returns (p: nat)
    requires QueueView(g, contents, log, m, cur) && k < Regions(g) && d < |contents[k]|
    ensures p < |Live(g, log)| && Live(g, log)[p] == contents[k][d]
  {
    hide At, QueueView, Chunk, Keep;
    QueueShape(g, contents, log, m, cur);
    QueueBounds(g, contents, log, m, cur);
    LiveIsFromOldestChunk(g, log, m);
    RegionFacts(g, contents, log, m, cur, k);
    ChunkOfRegion(g, contents, log, m, cur, k);
    var c := ChunkOf(g, m, cur, k);
    AtOrder(g, OldestChunk(g, m), c);
    assert contents[k][d] == log[At(g, c) + d];
    p := At(g, c) + d - At(g, OldestChunk(g, m));
  }

  lemma RegionAscends(g: Geometry, contents: Contents, log: seq<Entry>, m: nat, cur: nat, k: nat)
    requires QueueView(g, contents, log, m, cur) && Ascending(log) && k < Regions(g) && contents[k] != []
    ensures Ascending(contents[k])
  {
    hide At, QueueView;
    ChunkOfRegion(g, contents, log, m, cur, k);
  }

  /** The live entries in front of the start region do not match. */
  lemma LiveFromStart(g: Geometry, contents: Contents, log: seq<Entry>, m: nat, cur: nat, gteq: u64)
    returns (head: seq<Entry>)
    requires QueueView(g, contents, log, m, cur) && Ascending(log)
    ensures NoMatch(head, gteq)
    ensures var r := StartRegion(g, contents, gteq);
            if r == Regions(g) then Live(g, log) == head
            else
              var c := ChunkOf(g, m, cur, r);
              0 <= c && At(g, c) <= |log| && Live(g, log) == head + log[At(g, c)..]
  {
    hide At, QueueView, Chunk, Keep, StartRegion, Ascending;
    QueueShape(g, contents, log, m, cur);
    QueueBounds(g, contents, log, m, cur);
    LiveIsFromOldestChunk(g, log, m);
    var r, lo, hi := StartRegion(g, contents, gteq), At(g, OldestChunk(g, m)), |log|;
    if r < Regions(g) {
      RegionFacts(g, contents, log, m, cur, r);
      AtOrder(g, OldestChunk(g, m), ChunkOf(g, m, cur, r));
      hi := At(g, ChunkOf(g, m, cur, r));
    }
    head := log[lo..hi];
    forall i | 0 <= i < |head|
      ensures head[i].timestamp < gteq
    {
      assert head[i] == log[lo + i];
      NoMatchBeforeStart(g, contents, log, m, cur, gteq, lo + i);
    }
    SlicesJoin(log, lo, hi, |log|);
  }

  /** The tour of a device with one bad block, in terms of what its regions hold from the start region on. */
  lemma SharesOfRotation(g: Geometry, image: seq<byte>, contents: Contents, log: seq<Entry>, m: nat, cur: nat,
                         k: nat, d: nat, junk: seq<byte>, gteq: u64)
    returns (q: nat)
    requires Represents(g, image, contents, {}) && k < Regions(g) && d + 1 < |contents[k]| && |junk| == g.blockSize
    requires QueueView(g, contents, log, m, cur) && Ascending(log) && StartRegion(g, contents, gteq) < Regions(g)
    ensures Sized(g, image) && Shaped(g, contents)
    ensures var r := StartRegion(g, contents, gteq);
            var c := ChunkOf(g, m, cur, r);
            && 0 <= c && At(g, c) <= |log|
            && var tail := log[At(g, c)..];
               var read := Shares(g, Overwritten(g, image, k, d, junk), contents, Rotation(g, r), gteq);
               if gteq <= LastTimestamp(contents[k])
               then q < |tail| && tail[q] == contents[k][d] && read == Matching(Through(tail, q, junk), gteq)
               else read == Matching(tail, gteq)
  {
    hide Represents, At, QueueView, Chunk, StartRegion, LastTimestamp, Overwritten, Through, Matching, Shares, Joined,
         Rotation, ToLast, PastLast, BlockCheck, Idle, Ascending, SameTimes;
    RepresentsShaped(g, image, contents, {});
    QueueShape(g, contents, log, m, cur);
    var r := StartRegion(g, contents, gteq);
    var ks, rest := ToLast(g, cur, r), PastLast(g, cur, r);
    ToLastJoined(g, contents, log, m, cur, r);
    ToLastDistinct(g, cur, r);
    RotationParts(g, cur, r);
    SameTimesReflexive(g, contents);
    forall i | 0 <= i < |rest|
      ensures Idle(g, contents, rest[i], gteq)
    {
      PastLastIsIdle(g, contents, log, m, cur, gteq, contents, i);
    }
    forall i | 0 <= i < |ks|
      ensures Ascending(contents[ks[i]])
    {
      RegionAscends(g, contents, log, m, cur, ks[i]);
    }
    IdleSharesNothing(g, Overwritten(g, image, k, d, junk), contents, ks, rest, gteq);
    q := SharesThrough(g, image, contents, ks, k, d, junk, gteq);
    if gteq <= LastTimestamp(contents[k]) {
      VisitedIsToLast(g, contents, log, m, cur, k, gteq);
    }
  }

  /**
   A data block that is not the last of its region goes bad. A read that visits the region
   prints the live log up to it, when the check comes out as 1; up to it and including what
   the bad block reads as, when it comes out as 2; and the whole log with what the bad
   block reads as in its place otherwise. Other reads do not notice.
   */
  lemma BadBlockInLog(g: Geometry, image: seq<byte>, contents: Contents, log: seq<Entry>, m: nat, cur: nat,
                      k: nat, d: nat, junk: seq<byte>, gteq: u64, limit: u64)
    returns (p: nat)
    requires Represents(g, image, contents, {}) && k < Regions(g) && d + 1 < |contents[k]| && |junk| == g.blockSize
    requires QueueView(g, contents, log, m, cur) && Ascending(log)
    ensures Sized(g, image)
    ensures p < |Live(g, log)| && Live(g, log)[p] == contents[k][d]
    ensures var found := if gteq <= LastTimestamp(contents[k]) then Through(Live(g, log), p, junk) else Live(g, log);
            ReadEntries(g, Overwritten(g, image, k, d, junk), gteq, limit) ==
            Report(Overwritten(g, image, k, d, junk), Returns(0), FirstOf(Matching(found, gteq), limit))
  {
    hide Represents, At, QueueView, Chunk, StartRegion, LastTimestamp, Overwritten, Through, Matching, Shares, Rotation,
         BlockCheck, Ascending, Live, FirstOf, ReadEntries, DamagedBetween, ScansAs;
    RepresentsShaped(g, image, contents, {});
    OverwrittenIsBetween(g, image, contents, k, d, junk);
    DamageScans(g, image, Overwritten(g, image, k, d, junk), contents);
    ReadIsShares(g, Overwritten(g, image, k, d, junk), contents, gteq, limit);
    p := EntryIsLive(g, contents, log, m, cur, k, d);
    var head := LiveFromStart(g, contents, log, m, cur, gteq);
    NoneMatching(head, gteq);
    var r := StartRegion(g, contents, gteq);
    if r == Regions(g) {
      if gteq <= LastTimestamp(contents[k]) {
        VisitedIsToLast(g, contents, log, m, cur, k, gteq);
        assert false;
      }
      NothingIsFirst(limit);
    } else {
      var tail := log[At(g, ChunkOf(g, m, cur, r))..];
      var q := SharesOfRotation(g, image, contents, log, m, cur, k, d, junk, gteq);
      if gteq <= LastTimestamp(contents[k]) {
        LiveIsDistinct(g, log, p, |head| + q);
        ThroughBehind(head, tail, q, junk);
        MatchingConcat(head, Through(tail, q, junk), gteq);
        assert [] + Matching(Through(tail, q, junk), gteq) == Matching(Through(tail, q, junk), gteq);
      } else {
        MatchingConcat(head, tail, gteq);
        assert [] + Matching(tail, gteq) == Matching(tail, gteq);
      }
    }
  }

  lemma NothingIsFirst(limit: nat)
    ensures FirstOf([], limit) == []
  {
  }

  lemma LiveIsDistinct(g: Geometry, log: seq<Entry>, p: nat, q: nat)
    requires Ascending(log) && p < |Live(g, log)| && q < |Live(g, log)| && Live(g, log)[p] == Live(g, log)[q]
    ensures p == q
  {
    hide Keep;
    var from := |log| - Keep(g, |log|);
    assert Live(g, log)[p] == log[from + p] && Live(g, log)[q] == log[from + q];
  }

  // ----- What that means for the promise that corrupt blocks are free space -----

  /**
   After any increasing run on a blank device a data block, not the last of its region,
   becomes corrupt. A read in full withholds it, and then everything behind it, exactly
   when its check comes out as 1; otherwise it prints what the block reads as.
   */
  lemma CorruptIsFreeSpaceExactly(g: Geometry, image: seq<byte>, ops: seq<Op>, k: nat, d: nat, junk: seq<byte>)
    returns (p: nat)
    requires Blank(g, image) && Increasing(g, [], ops) && k < Regions(g)
    requires d + 1 < |Play(g, NoEntries(g), ops).0[k]|
    requires |junk| == g.blockSize && BlockCheck(junk) != 0
    ensures Sized(g, Run(g, image, ops).0) && d < Capacity(g)
    ensures var live := Live(g, LogPlay(g, [], ops).0);
            var r := ReadEntries(g, Overwritten(g, Run(g, image, ops).0, k, d, junk), 0, 0);
            && p < |live| && live[p] == Play(g, NoEntries(g), ops).0[k][d]
            && r.ending == Returns(0)
            && r.output == Through(live, p, junk)
            && (r.output == live[..p] <==> BlockCheck(junk) == 1)
            && (BlockCheck(junk) != 1 ==> p < |r.output| && r.output[p] == EntryIn(junk))
  {
    hide Blank, Represents, QueueView, Ascending, LogFits, Run, LogPlay, Increasing, Play, ReadEntries, Overwritten,
         BlockCheck, EntryIn, Live, Matching;
    BlankHoldsNothing(g, image);
    EmptyQueue(g);
    NoEntriesFit(g);
    var lost := RunIsPlay(g, image, NoEntries(g), {}, ops);
    var m, cur := PlayIsLogPlay(g, NoEntries(g), [], 0, 0, ops);
    var contents, log := Play(g, NoEntries(g), ops).0, LogPlay(g, [], ops).0;
    QueueShape(g, contents, log, m, cur);
    assert lost == {};
    p := BadBlockInLog(g, Run(g, image, ops).0, contents, log, m, cur, k, d, junk, 0, 0);
    AllMatchZero(Through(Live(g, log), p, junk));
  }

  /**
   In terms of the hash stored in the block: one above the computed one ends a read in front
   of the block, two above behind it, and with any other wrong hash it is printed in its place.
   */
  lemma WrongHashDecides(g: Geometry, image: seq<byte>, ops: seq<Op>, k: nat, d: nat, e: Entry, good: bv32, c: bv32)
    returns (p: nat, hash: bv32)
    requires Blank(g, image) && Increasing(g, [], ops) && k < Regions(g)
    requires d + 1 < |Play(g, NoEntries(g), ops).0[k]|
    requires Fits(g, e) && good == GoodHash(g, e) && c != 0
    ensures hash == good + c
    ensures Sized(g, Run(g, image, ops).0) && d < Capacity(g)
    ensures var live := Live(g, LogPlay(g, [], ops).0);
            && p < |live| && live[p] == Play(g, NoEntries(g), ops).0[k][d]
            && ReadEntries(g, Overwritten(g, Run(g, image, ops).0, k, d, HashedCell(g, e, hash)), 0, 0).output ==
               if c == 1 then live[..p] else if c == 2 then live[..p] + [e] else live[p := e]
  {
    hide Blank, Run, LogPlay, Increasing, Play, ReadEntries, Overwritten, BlockCheck, GoodHash, HashedCell, HeaderOf,
         Live;
    hash := CheckIsExcess(g, e, good, c);
    HashedCellReadsAs(g, e, hash);
    p := CorruptIsFreeSpaceExactly(g, image, ops, k, d, HashedCell(g, e, hash));
  }

  lemma AnyBlockIn(g: Geometry, e: Entry, c: bv32) returns (junk: seq<byte>)
    requires Fits(g, e) && c != 1
    ensures |junk| == g.blockSize && BlockCheck(junk) == c && EntryIn(junk) == e
  {
    hide BlockCheck, HeaderOf;
    junk := AnyBlock(g, e, c);
  }

  /**
   The failing cases: whatever entry `e` and whatever outcome `c` of the check but 0, 1
   and 2, there is a block which checks as `c` and which a read prints as `e`, in the
   place of the entry that was written.
   */
  lemma CorruptIsPrinted(g: Geometry, image: seq<byte>, ops: seq<Op>, k: nat, d: nat, e: Entry, c: bv32)
    returns (p: nat, junk: seq<byte>)
    requires Blank(g, image) && Increasing(g, [], ops) && k < Regions(g)
    requires d + 1 < |Play(g, NoEntries(g), ops).0[k]|
    requires Fits(g, e) && c != 0 && c != 1 && c != 2
    ensures Sized(g, Run(g, image, ops).0) && d < Capacity(g) && |junk| == g.blockSize && BlockCheck(junk) == c
    ensures var live := Live(g, LogPlay(g, [], ops).0);
            && p < |live| && live[p] == Play(g, NoEntries(g), ops).0[k][d]
            && ReadEntries(g, Overwritten(g, Run(g, image, ops).0, k, d, junk), 0, 0).output == live[p := e]
  {
    hide Blank, Run, LogPlay, Increasing, Play, ReadEntries, Overwritten, BlockCheck, EntryIn, Live;
    junk := AnyBlockIn(g, e, c);
    p := CorruptIsFreeSpaceExactly(g, image, ops, k, d, junk);
  }

  /** Two entries are written, the first goes bad, and a read prints an entry that nobody wrote. */
  lemma CorruptIsPrintedWitness(g: Geometry, image: seq<byte>, e: Entry) returns (junk: seq<byte>)
    requires Blank(g, image) && SMALL_SIZE_THRESHOLD <= g.deviceSize && Fits(g, e)
    ensures var ops := [Op.Write(Request([], 0, 1, 0, 0)), Op.Write(Request([], 0, 2, 0, 0))];
            && Sized(g, Run(g, image, ops).0)
            && |junk| == g.blockSize && BlockCheck(junk) == 3
            && ReadEntries(g, Overwritten(g, Run(g, image, ops).0, 0, 0, junk), 0, 0).output == [e, Entry(2, 0, [])]
  {
    hide Blank, Run, ReadEntries, Overwritten, BlockCheck, QueueView, Play, LogPlay, Increasing, Live, EntryIn;
    var ops := [Op.Write(Request([], 0, 1, 0, 0)), Op.Write(Request([], 0, 2, 0, 0))];
    TwoWrites(g);
    EmptyQueue(g);
    NoEntriesFit(g);
    var m, cur := PlayIsLogPlay(g, NoEntries(g), [], 0, 0, ops);
    TwoEntries(g, Play(g, NoEntries(g), ops).0, LogPlay(g, [], ops).0, m, cur);
    var p;
    p, junk := CorruptIsPrinted(g, image, ops, 0, 0, e, 3);
  }

  lemma TwoWrites(g: Geometry)
    requires SMALL_SIZE_THRESHOLD <= g.deviceSize
    ensures var ops := [Op.Write(Request([], 0, 1, 0, 0)), Op.Write(Request([], 0, 2, 0, 0))];
            && Increasing(g, [], ops)
            && LogPlay(g, [], ops).0 == [Entry(1, 0, []), Entry(2, 0, [])]
  {
    hide At;
    var first, second := Request([], 0, 1, 0, 0), Request([], 0, 2, 0, 0);
    assert Admit(g, [], first) == Append(Entry(1, 0, []));
    assert InLast(g, 1) == 1 && 1 < Capacity(g);
    assert Bound(g, [Entry(1, 0, [])]) == 1;
    assert Admit(g, [Entry(1, 0, [])], second) == Append(Entry(2, 0, []));
    assert LogAct(g, [], Op.Write(first)).0 == [Entry(1, 0, [])];
    assert LogAct(g, [Entry(1, 0, [])], Op.Write(second)).0 == [Entry(1, 0, []), Entry(2, 0, [])];
  }

  lemma TwoEntries(g: Geometry, contents: Contents, log: seq<Entry>, m: nat, cur: nat)
    requires QueueView(g, contents, log, m, cur) && |log| == 2
    ensures contents[0] == log && Live(g, log) == log
  {
    hide At;
    AtOrder(g, 0, m);
    AtOrder(g, 1, m);
    AtOrder(g, 1, Regions(g));
  }

  // ----- A bad block at the end of a region -----

  /** The last block of a region decides whether the region is in use: when it goes bad, scans find the region
      unused. */
  lemma BadLastScans(g: Geometry, image: seq<byte>, contents: Contents, k: nat, junk: seq<byte>, l: nat)
    requires Represents(g, image, contents, {}) && k < Regions(g) && contents[k] != [] && l < Regions(g)
    requires |junk| == g.blockSize && BlockCheck(junk) != 0
    ensures Sized(g, image) && Shaped(g, contents[k := []])
    ensures RegionScansAs(g, Overwritten(g, image, k, |contents[k]| - 1, junk), contents[k := []], l)
  {
    hide Represents, Cell, HintCell, EntryCell, LastWritten, ProbeRegion, Settle, BlockCheck, Overwritten, StateOf;
    RepresentsShaped(g, image, contents, {});
    var n := |contents[k]|;
    var image' := Overwritten(g, image, k, n - 1, junk);
    if l == k {
      OverwrittenCells(g, image, k, n - 1, junk, k, SlotOf(g, n - 1));
      OverwrittenCells(g, image, k, n - 1, junk, k, Slots(g));
      UsedHint(g, image, contents, k);
      ProbeSettles(g, image', k, n);
      SettleOnJunk(g, image', k, n);
      NothingSettled(g, contents[k := []], k);
    } else {
      forall i: nat | IsSlot(g, l, i)
        ensures Cell(g, image', l, i) == Cell(g, image, l, i)
      {
        OverwrittenCells(g, image, k, n - 1, junk, l, i);
      }
      SameScan(g, image, image', contents, l);
      StateElsewhere(g, contents, k, l);
    }
  }

  lemma NothingSettled(g: Geometry, contents: Contents, k: nat)
    requires Shaped(g, contents) && k < Regions(g) && contents[k] == []
    ensures StateOf(g, contents, k) == Unsettled(HintPos(g, k), FirstPos(g, k), LastPos(g, k))
  {
  }

  lemma StateElsewhere(g: Geometry, contents: Contents, k: nat, l: nat)
    requires Shaped(g, contents) && k < Regions(g) && l < Regions(g) && l != k
    ensures Shaped(g, contents[k := []])
    ensures StateOf(g, contents[k := []], l) == StateOf(g, contents, l)
  {
  }

  lemma SettleOnJunk(g: Geometry, image: seq<byte>, k: nat, n: nat)
    requires Sized(g, image) && k < Regions(g) && 1 <= n <= Capacity(g)
    requires BlockCheck(Cell(g, image, k, SlotOf(g, n - 1))) != 0
    ensures var base := Unsettled(HintPos(g, k), FirstPos(g, k), LastPos(g, k));
            Settle(g, image, base, HintOfRegion(g, LastWritten(g, k, n))) == Probe(image, Done, base)
  {
    hide HintOf, Cell, HintCell, BlockCheck, HeaderOf;
    HintOfRegionPoints(g, LastWritten(g, k, n));
    ReadCell(g, image, k, SlotOf(g, n - 1));
  }

  lemma BadLastScansAs(g: Geometry, image: seq<byte>, contents: Contents, k: nat, junk: seq<byte>)
    requires Represents(g, image, contents, {}) && k < Regions(g) && contents[k] != []
    requires |junk| == g.blockSize && BlockCheck(junk) != 0
    ensures Sized(g, image) && Shaped(g, contents)
    ensures ScansAs(g, Overwritten(g, image, k, |contents[k]| - 1, junk), contents[k := []])
  {
    hide Represents, RegionScansAs, BlockCheck, Overwritten;
    RepresentsShaped(g, image, contents, {});
    var image', contents' := Overwritten(g, image, k, |contents[k]| - 1, junk), contents[k := []];
    forall l | 0 <= l < Regions(g)
      ensures Shaped(g, contents') && RegionScansAs(g, image', contents', l)
    {
      BadLastScans(g, image, contents, k, junk, l);
    }
  }

  /** Scans for the start region stop at the first unused one. */
  lemma {:induction false} StartsBeforeGap(g: Geometry, contents: Contents, gteq: u64, i: nat, best: nat, k: nat)
    requires |contents| == Regions(g) && i <= k < Regions(g) && best <= Regions(g) && contents[k] == []
    ensures var o := OldestMatch(g, contents, gteq, i, best);
            o == best || o < k
    decreases k - i
  {
    hide LastTimestamp;
    if i == k || contents[i] == [] {
    } else {
      StartsBeforeGap(g, contents, gteq, i + 1, best, k);
      StartsBeforeGap(g, contents, gteq, i + 1, Better(g, contents, i, best), k);
    }
  }

  /** What a read finds from region `r` on, up to the region that has become unused. */
  lemma {:induction false} SharesToGap(g: Geometry, image: seq<byte>, contents: Contents, k: nat, junk: seq<byte>,
                                       r: nat, rest: seq<nat>, gteq: u64)
    requires Represents(g, image, contents, {}) && r <= k < Regions(g) && contents[k] != []
    requires |junk| == g.blockSize
    requires forall i :: r <= i < k ==> contents[i] != [] && Ascending(contents[i])
    requires forall i :: 0 <= i < |rest| ==> rest[i] < Regions(g)
    ensures Sized(g, image) && Shaped(g, contents[k := []])
    ensures var image' := Overwritten(g, image, k, |contents[k]| - 1, junk);
            Shares(g, image', contents[k := []], Sweep(r, k) + ([k] + rest), gteq) ==
            Matching(Joined(contents, Sweep(r, k)), gteq)
    decreases k - r
  {
    hide Represents, Overwritten, BlockCheck, Matching, Share, Ascending, LastTimestamp;
    RepresentsShaped(g, image, contents, {});
    var image' := Overwritten(g, image, k, |contents[k]| - 1, junk);
    if r == k {
      assert Sweep(r, k) + ([k] + rest) == [k] + rest;
      NoShare(g, image', contents[k := []], k, gteq);
      NoneMatching([], gteq);
    } else {
      var ks := Sweep(r, k) + ([k] + rest);
      assert ks[0] == r && ks[1..] == Sweep(r + 1, k) + ([k] + rest);
      assert Sweep(r, k)[1..] == Sweep(r + 1, k);
      ShareBeforeGap(g, image, contents, k, junk, r, gteq);
      SharesToGap(g, image, contents, k, junk, r + 1, rest, gteq);
      MatchingConcat(contents[r], Joined(contents, Sweep(r + 1, k)), gteq);
    }
  }

  lemma NoShare(g: Geometry, image: seq<byte>, contents: Contents, k: nat, gteq: u64)
    requires Sized(g, image) && Shaped(g, contents) && k < Regions(g) && contents[k] == []
    ensures Share(g, image, contents, k, gteq) == Legible([], true)
  {
  }

  lemma ShareBeforeGap(g: Geometry, image: seq<byte>, contents: Contents, k: nat, junk: seq<byte>, l: nat, gteq: u64)
    requires Represents(g, image, contents, {}) && k < Regions(g) && contents[k] != [] && |junk| == g.blockSize
    requires l < Regions(g) && l != k && contents[l] != [] && Ascending(contents[l])
    ensures Sized(g, image) && Shaped(g, contents[k := []])
    ensures Share(g, Overwritten(g, image, k, |contents[k]| - 1, junk), contents[k := []], l, gteq) ==
            Legible(Matching(contents[l], gteq), false)
  {
    hide Cell, EntryCell, HintHolds, Overwritten, BlockCheck, LegibleFrom, Matching;
    assert RegionHolds(g, image, contents, {}, l);
    assert contents[l][0..] == contents[l];
    var image' := Overwritten(g, image, k, |contents[k]| - 1, junk);
    if LastTimestamp(contents[l]) < gteq {
      NoneMatching(contents[l], gteq);
    } else {
      forall c | 0 <= c < |contents[l]|
        ensures Cell(g, image', l, SlotOf(g, c)) == EntryCell(g, contents[l][c])
      {
        OverwrittenCells(g, image, k, |contents[k]| - 1, junk, l, SlotOf(g, c));
      }
      LegibleInOrder(g, image', l, contents[l], 0);
    }
  }

  /** What reads print of a device on which region `k` has become unused, and those in front of it have not. */
  function ToGap(g: Geometry, contents: Contents, k: nat, gteq: u64, limit: u64): seq<Entry>
    requires |contents| == Regions(g) && k < Regions(g)
  {
    var r := StartRegion(g, contents[k := []], gteq);
    if k <= r then [] else FirstOf(Matching(Joined(contents, Sweep(r, k)), gteq), limit)
  }

  /**
   The last data block of a region goes bad, on a device in any state a run can lead to.
   Reads start from a region in front of it, if they find one that matches there, and end
   when they come to it: whatever it and the regions behind it hold is withheld.
   */
  lemma BadLastBlockRead(g: Geometry, image: seq<byte>, contents: Contents, k: nat, junk: seq<byte>, gteq: u64,
                         limit: u64)
    requires |contents| == Regions(g) && k < Regions(g) && contents[k] != [] && |contents[k]| <= Capacity(g)
    requires |junk| == g.blockSize && BlockCheck(junk) != 0 && Sized(g, image)
    requires Represents(g, image, contents, {}) && Orderly(g, contents)
    ensures var image' := Overwritten(g, image, k, |contents[k]| - 1, junk);
            ReadEntries(g, image', gteq, limit) == Report(image', Returns(0), ToGap(g, contents, k, gteq, limit))
  {
    hide Represents, ScansAs, Overwritten, BlockCheck, Matching, Joined, Shares, FirstOf, Ascending, OldestMatch,
         ReadEntries, LastTimestamp;
    RepresentsShaped(g, image, contents, {});
    var contents' := contents[k := []];
    BadLastScansAs(g, image, contents, k, junk);
    ReadIsShares(g, Overwritten(g, image, k, |contents[k]| - 1, junk), contents', gteq, limit);
    StartsBeforeGap(g, contents', gteq, 0, Regions(g), k);
    var r := StartRegion(g, contents', gteq);
    if r < Regions(g) {
      var rest := Sweep(k + 1, Regions(g)) + Sweep(0, r);
      RotationAround(g, r, k);
      SharesToGap(g, image, contents, k, junk, r, rest, gteq);
    }
  }

  lemma RotationAround(g: Geometry, r: nat, k: nat)
    requires r <= k < Regions(g)
    ensures Rotation(g, r) == Sweep(r, k) + ([k] + (Sweep(k + 1, Regions(g)) + Sweep(0, r)))
  {
    hide Sweep, Regions;
    SweepParts(r, k, Regions(g));
    SweepParts(k, k + 1, Regions(g));
    assert Sweep(k, k + 1) == [k];
    assert Rotation(g, r) == Sweep(r, k) + ([k] + Sweep(k + 1, Regions(g))) + Sweep(0, r);
  }

  /** And writes take the region for free: they decide as if it had never been used. */
  lemma BadLastBlockDecides(g: Geometry, image: seq<byte>, contents: Contents, k: nat, junk: seq<byte>,
                            request: Request)
    requires Represents(g, image, contents, {}) && k < Regions(g) && contents[k] != []
    requires |junk| == g.blockSize && BlockCheck(junk) != 0
    ensures Sized(g, image) && Shaped(g, contents) && Shaped(g, contents[k := []])
    ensures PlanWrite(g, Overwritten(g, image, k, |contents[k]| - 1, junk), request) ==
            Planned(Overwritten(g, image, k, |contents[k]| - 1, junk),
                    match Intention(g, contents[k := []], request)
                    case Decline(ending) => Stop(ending)
                    case Intend(l, e) => PlanFor(g, contents[k := []], l, e))
  {
    hide Represents, ScansAs, Overwritten, BlockCheck, PlanWrite, Intention;
    BadLastScansAs(g, image, contents, k, junk);
    PlanFromScan(g, Overwritten(g, image, k, |contents[k]| - 1, junk), contents[k := []], request);
  }

  /** Both, after any run on a blank device whose timestamps stay below the sentinel. */
  lemma CorruptLastBlock(g: Geometry, image: seq<byte>, ops: seq<Op>, k: nat, junk: seq<byte>, gteq: u64, limit: u64,
                         request: Request)
    requires Blank(g, image) && RunBelowSentinel(g, NoEntries(g), ops) && k < Regions(g)
    requires Play(g, NoEntries(g), ops).0[k] != []
    requires |junk| == g.blockSize && BlockCheck(junk) != 0
    ensures var contents := Play(g, NoEntries(g), ops).0;
            && Sized(g, Run(g, image, ops).0) && Shaped(g, contents) && Shaped(g, contents[k := []])
            && |contents[k]| <= Capacity(g)
            && var image' := Overwritten(g, Run(g, image, ops).0, k, |contents[k]| - 1, junk);
               && ReadEntries(g, image', gteq, limit) == Report(image', Returns(0), ToGap(g, contents, k, gteq, limit))
               && PlanWrite(g, image', request) ==
                  Planned(image', match Intention(g, contents[k := []], request)
                                  case Decline(ending) => Stop(ending)
                                  case Intend(l, e) => PlanFor(g, contents[k := []], l, e))
  {
    hide Blank, Represents, Backed, Orderly, Run, Play, RunBelowSentinel, Overwritten, ReadEntries, PlanWrite,
         Intention, ToGap, BlockCheck;
    EveryRunKeeps(g, image, ops);
    var device, contents := Run(g, image, ops).0, Play(g, NoEntries(g), ops).0;
    RepresentsShaped(g, device, contents, {});
    assert EntriesFit(g, contents[k]);
    BadLastBlockRead(g, device, contents, k, junk, gteq, limit);
    BadLastBlockDecides(g, device, contents, k, junk, request);
  }

  /** The slots after a write has started the region over, with `bytes` in the place of its backup. */
  function StartedOver(g: Geometry, image: seq<byte>, k: nat, e: Entry, bytes: seq<byte>): (s: seq<byte>)
    requires Sized(g, image) && k < Regions(g) && Fits(g, e) && |bytes| == g.blockSize
    ensures Sized(g, s)
  {
    NamedSlots(g, k);
    var data := Splice(image, DataPos(g, k, 0), EntryCell(g, e));
    Splice(Splice(data, HintPos(g, k), HintCell(g, LastWritten(g, k, 1))), BackupPos(g, k), bytes)
  }

  lemma StartedOverCells(g: Geometry, image: seq<byte>, k: nat, e: Entry, bytes: seq<byte>, l: nat, i: nat)
    requires Sized(g, image) && k < Regions(g) && Fits(g, e) && |bytes| == g.blockSize && IsSlot(g, l, i)
    ensures Cell(g, StartedOver(g, image, k, e, bytes), l, i) ==
            if (l, i) == (k, Half(g)) then bytes
            else if (l, i) == (k, Slots(g)) then HintCell(g, LastWritten(g, k, 1))
            else if (l, i) == (k, SlotOf(g, 0)) then EntryCell(g, e)
            else Cell(g, image, l, i)
  {
    hide Cell, EntryCell, HintCell, LastWritten, Splice;
    NamedSlots(g, k);
    var data := Splice(image, DataPos(g, k, 0), EntryCell(g, e));
    var hint := Splice(data, HintPos(g, k), HintCell(g, LastWritten(g, k, 1)));
    WriteCell(g, image, k, SlotOf(g, 0), EntryCell(g, e), l, i);
    WriteCell(g, data, k, Slots(g), HintCell(g, LastWritten(g, k, 1)), l, i);
    WriteCell(g, hint, k, Half(g), bytes, l, i);
  }

  lemma StartingOverWrites(g: Geometry, image: seq<byte>, contents: Contents, k: nat, e: Entry, earlier: u64,
                           request: Request)
    returns (bytes: seq<byte>)
    requires Sized(g, image) && Shaped(g, contents) && k < Regions(g) && contents[k] == [] && Fits(g, e)
    requires PlanWrite(g, image, request) == Planned(image, PlanFor(g, contents, k, e))
    requires Cell(g, image, k, Slots(g)) == HintCell(g, earlier)
    ensures |bytes| == g.blockSize
    ensures WriteEntry(g, image, request) == Written(StartedOver(g, image, k, e, bytes), Returns(0))
  {
    hide Cell, HintCell, HintFails, SealedBlock, PutPadded, PutHint, PlanWrite, StateOf, LastWritten, Splice;
    StateFields(g, contents, k);
    DataPosIsSafe(g, k, 0);
    NamedSlots(g, k);
    PutPaddedInside(g, image, DataPos(g, k, 0), SealedBlock(EntryHeader(g, e), e.payload));
    var data := Splice(image, DataPos(g, k, 0), EntryCell(g, e));
    WriteCell(g, image, k, SlotOf(g, 0), EntryCell(g, e), k, Slots(g));
    PutHintInSlot(g, data, LastWritten(g, k, 1), k, Slots(g), earlier);
    var hint := Splice(data, HintPos(g, k), HintCell(g, LastWritten(g, k, 1)));
    bytes := PutHintFillsSlot(g, hint, LastWritten(g, k, 1), BackupPos(g, k));
  }

  lemma StartedOverRepresents(g: Geometry, image: seq<byte>, contents: Contents, k: nat, junk: seq<byte>, e: Entry,
                              bytes: seq<byte>)
    requires Represents(g, image, contents, {}) && k < Regions(g) && contents[k] != [] && Fits(g, e)
    requires |junk| == g.blockSize && |bytes| == g.blockSize
    ensures Sized(g, image) && Shaped(g, contents)
    ensures Represents(g, StartedOver(g, Overwritten(g, image, k, |contents[k]| - 1, junk), k, e, bytes),
                       contents[k := [e]], {})
  {
    hide Cell, EntryCell, HintCell, HintFails, LastWritten, StartedOver, Overwritten;
    var image' := Overwritten(g, image, k, |contents[k]| - 1, junk);
    var after, contents' := StartedOver(g, image', k, e, bytes), contents[k := [e]];
    forall l: nat, i: nat | IsSlot(g, l, i)
      ensures Cell(g, after, l, i) ==
              if (l, i) == (k, Half(g)) then bytes
              else if (l, i) == (k, Slots(g)) then HintCell(g, LastWritten(g, k, 1))
              else if (l, i) == (k, SlotOf(g, 0)) then EntryCell(g, e)
              else Cell(g, image', l, i)
      ensures l != k ==> Cell(g, image', l, i) == Cell(g, image, l, i)
    {
      StartedOverCells(g, image', k, e, bytes, l, i);
      OverwrittenCells(g, image, k, |contents[k]| - 1, junk, l, i);
    }
    assert Shaped(g, contents');
    forall l | 0 <= l < Regions(g)
      ensures RegionHolds(g, after, contents', {}, l)
    {
      assert RegionHolds(g, image, contents, {}, l);
      if l == k {
        assert DataHolds(g, after, k, [e]);
      } else {
        RegionKept(g, image, after, contents, contents', {}, {}, l);
      }
    }
  }

  /** A write that goes there drops the whole region, the blocks in order among them, and leaves the device in order. */
  lemma BadLastBlockIsStartedOver(g: Geometry, image: seq<byte>, contents: Contents, k: nat, junk: seq<byte>,
                                  request: Request)
    requires Represents(g, image, contents, {}) && k < Regions(g) && contents[k] != []
    requires |junk| == g.blockSize && BlockCheck(junk) != 0
    requires |contents| == Regions(g) && Intention(g, contents[k := []], request).Intend?
    requires Intention(g, contents[k := []], request).k == k
    ensures Sized(g, image) && Shaped(g, contents)
    ensures var w := WriteEntry(g, Overwritten(g, image, k, |contents[k]| - 1, junk), request);
            && w.ending == Returns(0)
            && Represents(g, w.image, contents[k := [Intention(g, contents[k := []], request).entry]], {})
  {
    hide Represents, Overwritten, BlockCheck, PlanWrite, Intention, WriteEntry, Cell, HintCell, StartedOver,
         LastWritten;
    BadLastBlockDecides(g, image, contents, k, junk, request);
    var image' := Overwritten(g, image, k, |contents[k]| - 1, junk);
    var e := Intention(g, contents[k := []], request).entry;
    OverwrittenCells(g, image, k, |contents[k]| - 1, junk, k, Slots(g));
    UsedHint(g, image, contents, k);
    var bytes := StartingOverWrites(g, image', contents[k := []], k, e, LastWritten(g, k, |contents[k]|), request);
    StartedOverRepresents(g, image, contents, k, junk, e, bytes);
  }

  lemma QueueIsOrderly(g: Geometry, contents: Contents, log: seq<Entry>, m: nat, cur: nat)
    requires QueueView(g, contents, log, m, cur) && Ascending(log)
    ensures |contents| == Regions(g) && Orderly(g, contents)
  {
    hide At, QueueView, Chunk, Ascending;
    QueueShape(g, contents, log, m, cur);
    forall k | 0 <= k < Regions(g)
      ensures contents[k] == [] <==> (m < Regions(g) && cur < k) || log == []
      ensures k != cur && contents[k] != [] ==> !HasRoom(g, contents[k])
      ensures Ascending(contents[k])
    {
      RegionFacts(g, contents, log, m, cur, k);
      AtOrder(g, 0, m);
      QueueBounds(g, contents, log, m, cur);
      if contents[k] == [] {
        NothingAscends();
      } else {
        RegionAscends(g, contents, log, m, cur, k);
      }
    }
  }

  lemma NothingAscends()
    ensures Ascending([])
  {
  }

  /** Where a read in full starts: at the oldest chunk in front of the region that has become unused. */
  lemma StartBeforeGap(g: Geometry, contents: Contents, log: seq<Entry>, m: nat, cur: nat, k: nat)
    requires QueueView(g, contents, log, m, cur) && Ascending(log)
    requires 0 < k < Regions(g) && contents[k] != []
    ensures var r := if cur + 1 < k then cur + 1 else 0;
            contents[r] != [] && StartRegion(g, contents[k := []], 0) == r
  {
    hide At, QueueView, Chunk, LastTimestamp, OldestMatch, Ascending;
    QueueShape(g, contents, log, m, cur);
    QueueIsOrderly(g, contents, log, m, cur);
    var r := if cur + 1 < k then cur + 1 else 0;
    var contents' := contents[k := []];
    var o := StartRegion(g, contents', 0);
    LastInLog(g, contents, log, m, cur, r);
    RegionFacts(g, contents, log, m, cur, k);
    MatchIsSmallest(g, contents', 0, 0, Regions(g), r);
    StartsBeforeGap(g, contents', 0, 0, Regions(g), k);
    BelowSentinelInLog(g, contents, log, m, cur, r);
    if o != r {
      LaterIsNewer(g, contents, log, m, cur, r, o);
    }
  }

  lemma BelowSentinelInLog(g: Geometry, contents: Contents, log: seq<Entry>, m: nat, cur: nat, k: nat)
    requires QueueView(g, contents, log, m, cur) && Ascending(log) && k < Regions(g) && contents[k] != []
    ensures LastTimestamp(contents[k]) < U64_MAX
  {
    hide QueueView;
    QueueShape(g, contents, log, m, cur);
    RegionAscends(g, contents, log, m, cur, k);
    LastBelowSentinel(contents[k]);
  }

  /**
   The same in terms of the log: read in full, the device prints the chunks of the regions
   in front of the bad one, from the oldest of them that the ring has in one piece.
   */
  lemma BadLastBlockInLog(g: Geometry, image: seq<byte>, contents: Contents, log: seq<Entry>, m: nat, cur: nat,
                          k: nat, junk: seq<byte>, limit: u64)
    requires Represents(g, image, contents, {}) && k < Regions(g) && contents[k] != []
    requires QueueView(g, contents, log, m, cur) && Ascending(log)
    requires |junk| == g.blockSize && BlockCheck(junk) != 0
    ensures Sized(g, image) && Shaped(g, contents)
    ensures var r := if cur + 1 < k then cur + 1 else 0;
            var c := ChunkOf(g, m, cur, r);
            var output := ReadEntries(g, Overwritten(g, image, k, |contents[k]| - 1, junk), 0, limit).output;
            if k == 0 then output == []
            else
              && 0 <= c && At(g, c) <= EndOf(g, log, c, k - r) <= |log|
              && output == FirstOf(log[At(g, c)..EndOf(g, log, c, k - r)], limit)
  {
    hide Represents, At, QueueView, Chunk, Overwritten, BlockCheck, Matching, Joined, FirstOf, Ascending, OldestMatch,
         ReadEntries, LastTimestamp, EndOf, Orderly;
    RepresentsShaped(g, image, contents, {});
    QueueIsOrderly(g, contents, log, m, cur);
    assert EntriesFit(g, contents[k]);
    BadLastBlockRead(g, image, contents, k, junk, 0, limit);
    if k > 0 {
      var r := if cur + 1 < k then cur + 1 else 0;
      StartBeforeGap(g, contents, log, m, cur, k);
      ChunkOfRegion(g, contents, log, m, cur, r);
      SweepJoined(g, contents, log, m, cur, r, k);
      AllMatchZero(Joined(contents, Sweep(r, k)));
    }
  }

  // ----- Updates -----

  /** What the callback of an update stores in the place of a block it selects. */
  function Resealed(callback: BlockCallback, cell: seq<byte>): seq<byte>
    requires callback.Rewrite? && BLOCK_HEADER_SIZE <= |cell| && BlockCheck(cell) != 1
  {
    var e := EntryIn(cell);
    SealedBlock(HeaderOf(cell).(applicationData := callback.test(e).newAppdata), e.payload)
  }

  lemma VisitReseals(g: Geometry, image: seq<byte>, pos: nat, cell: seq<byte>, callback: BlockCallback, result: bv32)
    requires |cell| == g.blockSize && BlockCheck(cell) != 1 && callback.Rewrite?
    requires BLOCK_HEADER_SIZE + HeaderOf(cell).dataLength <= |cell|
    requires Selected(callback, EntryIn(cell)) && callback.test(EntryIn(cell)).doUpdate == 1
    ensures |Resealed(callback, cell)| <= g.blockSize
    ensures var put := PutPadded(g, image, pos, Resealed(callback, cell));
            var step := VisitBlock(g, image, pos, cell, callback, result);
            put.ok ==>
              && step.status == Done && step.callback == callback.(count := callback.count + 1)
              && step.image == put.image && step.result != LOOP_ERR
  {
    hide BlockCheck, HeaderOf, SealedBlock, PutPadded, Selected;
  }

  lemma BlockAtReseals(g: Geometry, image: seq<byte>, k: nat, d: nat, callback: BlockCallback, result: bv32)
    requires Sized(g, image) && k < Regions(g) && d < Capacity(g) && callback.Rewrite?
    requires BlockCheck(Cell(g, image, k, SlotOf(g, d))) != 1
    requires var e := EntryIn(Cell(g, image, k, SlotOf(g, d)));
             Selected(callback, e) && callback.test(e).doUpdate == 1
    ensures var resealed := Resealed(callback, Cell(g, image, k, SlotOf(g, d)));
            var step := BlockAt(g, image, DataPos(g, k, d), callback, result);
            && |resealed| <= g.blockSize
            && step.status == Done && step.callback == callback.(count := callback.count + 1)
            && step.image == PutPadded(g, image, DataPos(g, k, d), resealed).image
  {
    hide BlockCheck, HeaderOf, SlotPos, SealedBlock, PutPadded, Selected, Cell, VisitBlock, EntryIn, Resealed;
    var cell := Cell(g, image, k, SlotOf(g, d));
    ReadCell(g, image, k, SlotOf(g, d));
    SlotInside(g, k, SlotOf(g, d));
    CheckedLength(cell);
    VisitReseals(g, image, DataPos(g, k, d), cell, callback, BlockCheck(cell));
    PutPaddedInside(g, image, DataPos(g, k, d), Resealed(callback, cell));
  }

  /** An update that selects a corrupt block stores it again with a hash that fits: from then on it counts as good. */
  lemma UpdateSealsCorruptBlock(g: Geometry, image: seq<byte>, k: nat, d: nat, callback: BlockCallback, result: bv32)
    requires Sized(g, image) && k < Regions(g) && d < Capacity(g) && callback.Rewrite?
    requires BlockCheck(Cell(g, image, k, SlotOf(g, d))) != 1
    requires var e := EntryIn(Cell(g, image, k, SlotOf(g, d)));
             Selected(callback, e) && callback.test(e).doUpdate == 1
    ensures var e := EntryIn(Cell(g, image, k, SlotOf(g, d)));
            var step := BlockAt(g, image, DataPos(g, k, d), callback, result);
            && step.status == Done && step.callback == callback.(count := callback.count + 1)
            && Sized(g, step.image)
            && BlockCheck(Cell(g, step.image, k, SlotOf(g, d))) == 0
            && EntryIn(Cell(g, step.image, k, SlotOf(g, d))) == e.(applicationData := callback.test(e).newAppdata)
  {
    hide BlockCheck, HeaderOf, SlotPos, SealedBlock, PutPadded, Selected, Cell, BlockAt;
    var cell := Cell(g, image, k, SlotOf(g, d));
    var e := EntryIn(cell);
    var header := HeaderOf(cell).(applicationData := callback.test(e).newAppdata);
    BlockAtReseals(g, image, k, d, callback, result);
    CheckedLength(cell);
    SlotInside(g, k, SlotOf(g, d));
    BlockRoundTrip(g, image, DataPos(g, k, d), header, e.payload, 0);
    ReadCell(g, BlockAt(g, image, DataPos(g, k, d), callback, result).image, k, SlotOf(g, d));
  }
}
