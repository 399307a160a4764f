/**
 The ring as a machine over its contents: where a write goes, what it stores, what
 reads print and what updates change, without positions, hint blocks or bytes; and
 the proof that the program on the device is this machine.
 */
module Machine {
  import opened Bytes
  import opened Layout
  import opened Io
  import opened Codec
  import opened Blocks
  import opened Traversal
  import opened Writing
  import opened Reading
  import opened Updating
  import opened Ring
  import opened Simulation

  function TourFrom(g: Geometry, contents: Contents, first: nat, callback: HintCallback): Tour
    requires Shaped(g, contents) && first < Regions(g)
  {
    TourRegions(g, contents, Rotation(g, first), callback, ZERO_STATE, LOOP_OK)
  }

  lemma LoopIsATour(g: Geometry, image: seq<byte>, contents: Contents, lost: set<nat>, first: nat,
                    callback: HintCallback)
    returns (lost': set<nat>)
    requires Represents(g, image, contents, lost) && Ready(callback) && first < Regions(g)
    ensures Shaped(g, contents)
    ensures var tour := TourFrom(g, contents, first, callback);
            var t := Loop(g, image, first, callback);
            && t.status == Done && t.callback == tour.callback && t.state == tour.state
            && Represents(g, t.image, tour.contents, lost')
            && (Scans(callback) && lost == {} ==> t.image == image)
            && (Scans(callback) ==> tour.contents == contents)
            && (lost == {} ==> OnlyData(g, image, t.image))
    ensures lost' <= lost
  {
    hide Represents, VisitRegions, TourRegions, Ready, Scans, OnlyData;
    RepresentsShaped(g, image, contents, lost);
    lost' := TraversalIsATour(g, image, contents, lost, Rotation(g, first), callback, ZERO_STATE, LOOP_OK);
  }

  // ----- Which region a write goes to -----

  predicate HasRoom(g: Geometry, entries: seq<Entry>) {
    |entries| < Capacity(g)
  }

  /** The first region from `k` on that has room, or the number of regions. */
  function FirstWithRoom(g: Geometry, contents: Contents, k: nat): (f: nat)
    requires |contents| == Regions(g) && k <= Regions(g)
    ensures k <= f <= Regions(g)
    ensures f < Regions(g) ==> HasRoom(g, contents[f])
    ensures forall i :: k <= i < f ==> !HasRoom(g, contents[i])
    decreases Regions(g) - k
  {
    if k == Regions(g) || HasRoom(g, contents[k]) then k else FirstWithRoom(g, contents, k + 1)
  }

  /** The data slot of the next write to a region: behind its entries, or the first again when it is full. */
  function NextSlotOf(g: Geometry, entries: seq<Entry>): (d: nat)
    ensures d < Capacity(g)
  {
    if HasRoom(g, entries) then |entries| else 0
  }

  lemma WholeSweep(g: Geometry)
    ensures Rotation(g, 0) == Sweep(0, Regions(g))
  {
  }

  lemma StateFields(g: Geometry, contents: Contents, k: nat)
    requires Shaped(g, contents) && k < Regions(g)
    ensures var state := StateOf(g, contents, k);
            && state.blockstartMin == DataPos(g, k, 0) == FirstPos(g, k)
            && state.location == HintPos(g, k)
            && state.backupLocation == BackupPos(g, k)
            && state.highestTimestamp == LastTimestamp(contents[k])
            && (state.valid <==> contents[k] != [])
  {
  }

  lemma FreeAsRoom(g: Geometry, contents: Contents, k: nat)
    requires Shaped(g, contents) && k < Regions(g)
    ensures VisitFree(g, StateOf(g, contents, k)) ==
            if HasRoom(g, contents[k]) then (CheckFree(0, DataPos(g, k, |contents[k]|)), LOOP_BREAK)
            else (CheckFree(1, FirstPos(g, k)), LOOP_OK)
  {
    hide HintOfRegion, SlotPos;
    var n := |contents[k]|;
    NamedSlots(g, k);
    if n > 0 {
      HintOfRegionPoints(g, LastWritten(g, k, n));
      NextSlot(g, k, SlotOf(g, n - 1));
      if SlotOf(g, n - 1) + 1 < Slots(g) {
        NextSlot(g, k, SlotOf(g, n - 1) + 1);
      }
      SlotNear(g, k, SlotOf(g, n - 1) + 1, Half(g));
      SlotNear(g, k, SlotOf(g, n - 1) + 1, Slots(g) - 1);
    }
  }

  /** Positions of slots compare as the slots do. */
  lemma SlotNear(g: Geometry, k: nat, i: nat, j: nat)
    requires 1 <= i <= Slots(g) && 1 <= j <= Slots(g)
    ensures SlotPos(g, k, i) <= SlotPos(g, k, j) <==> i <= j
    ensures SlotPos(g, k, i) == SlotPos(g, k, j) <==> i == j
  {
    if i < j {
      SlotsApart(g, k, i, k, j);
    } else if j < i {
      SlotsApart(g, k, j, k, i);
    }
  }

  lemma {:induction false} TourForRoom(g: Geometry, contents: Contents, k: nat, callback: HintCallback,
                                       state: HintState)
    requires Shaped(g, contents) && k <= Regions(g) && callback.CheckFree?
    ensures var f := FirstWithRoom(g, contents, k);
            var tour := TourRegions(g, contents, Sweep(k, Regions(g)), callback, state, LOOP_OK);
            if f < Regions(g) then
              var found := CheckFree(0, DataPos(g, f, |contents[f]|));
              tour == Tour(contents, found, StateOf(g, contents, f), LOOP_BREAK)
            else
              && tour.callback.CheckFree?
              && tour.callback.argumentInt == if k == Regions(g) then callback.argumentInt else 1
    decreases Regions(g) - k
  {
    hide StateOf, VisitFree, DataPos;
    if k == Regions(g) {
    } else {
      FreeAsRoom(g, contents, k);
      assert Sweep(k, Regions(g))[1..] == Sweep(k + 1, Regions(g));
      var met := MeetRegion(g, contents, k, callback, LOOP_OK);
      if !HasRoom(g, contents[k]) {
        TourForRoom(g, contents, k + 1, met.callback, StateOf(g, contents, k));
      }
    }
  }

  /** The timestamp to beat: that of the best region so far, or the sentinel while there is none. */
  function BestTimestamp(g: Geometry, contents: Contents, best: nat): u64
    requires |contents| == Regions(g) && best <= Regions(g)
  {
    if best < Regions(g) then LastTimestamp(contents[best]) else U64_MAX
  }

  /** The first of `best` and the regions from `k` on whose last timestamp is smallest and below the sentinel. */
  function OldestRegion(g: Geometry, contents: Contents, k: nat, best: nat): (o: nat)
    requires |contents| == Regions(g) && k <= Regions(g) && best <= Regions(g)
    ensures o <= Regions(g) && (o == best || k <= o)
    ensures BestTimestamp(g, contents, o) <= BestTimestamp(g, contents, best)
    ensures forall i :: k <= i < Regions(g) ==> BestTimestamp(g, contents, o) <= LastTimestamp(contents[i])
    ensures o != best ==> o < Regions(g) && BestTimestamp(g, contents, o) < BestTimestamp(g, contents, best)
    decreases Regions(g) - k
  {
    if k == Regions(g) then best
    else OldestRegion(g, contents, k + 1, Better(g, contents, k, best))
  }

  function TimestampsSoFar(g: Geometry, contents: Contents, best: nat): HintCallback
    requires Shaped(g, contents) && best <= Regions(g)
  {
    if best < Regions(g) then CheckTimestamps(true, LastTimestamp(contents[best]), StateOf(g, contents, best))
    else CheckTimestamps(false, U64_MAX, ZERO_STATE)
  }

  function Better(g: Geometry, contents: Contents, k: nat, best: nat): nat
    requires |contents| == Regions(g) && k < Regions(g) && best <= Regions(g)
  {
    if LastTimestamp(contents[k]) < BestTimestamp(g, contents, best) then k else best
  }

  lemma MeetForOldest(g: Geometry, contents: Contents, k: nat, best: nat)
    requires Shaped(g, contents) && k < Regions(g) && best <= Regions(g)
    ensures MeetRegion(g, contents, k, TimestampsSoFar(g, contents, best), LOOP_OK) ==
            Met(contents, TimestampsSoFar(g, contents, Better(g, contents, k, best)), LOOP_OK)
  {
    hide LastTimestamp, StateOf;
    StateFields(g, contents, k);
  }

  lemma {:induction false} TourForOldest(g: Geometry, contents: Contents, k: nat, best: nat, state: HintState)
    requires Shaped(g, contents) && k <= Regions(g) && best <= Regions(g)
    ensures var ks, start := Sweep(k, Regions(g)), TimestampsSoFar(g, contents, best);
            var tour := TourRegions(g, contents, ks, start, state, LOOP_OK);
            tour.callback == TimestampsSoFar(g, contents, OldestRegion(g, contents, k, best))
    decreases Regions(g) - k
  {
    hide MeetRegion, StateOf, TimestampsSoFar;
    if k == Regions(g) {
    } else {
      assert Sweep(k, Regions(g))[1..] == Sweep(k + 1, Regions(g));
      MeetForOldest(g, contents, k, best);
      TourForOldest(g, contents, k + 1, Better(g, contents, k, best), StateOf(g, contents, k));
    }
  }

  /** The region a write goes to; none when all are full and all end with the largest timestamp. */
  function Target(g: Geometry, contents: Contents): (r: Option<nat>)
    requires |contents| == Regions(g)
    ensures r.Some? ==> r.value < Regions(g)
  {
    var f := FirstWithRoom(g, contents, 0);
    if f < Regions(g) then Some(f)
    else
      var o := OldestRegion(g, contents, 0, Regions(g));
      if o < Regions(g) then Some(o) else None
  }

  lemma LocationIsTarget(g: Geometry, image: seq<byte>, contents: Contents, lost: set<nat>) returns (lost': set<nat>)
    requires Represents(g, image, contents, lost) && SMALL_SIZE_THRESHOLD <= g.deviceSize
    ensures Shaped(g, contents)
    ensures var place := FindLocation(g, image);
            && Represents(g, place.image, contents, lost')
            && (lost == {} ==> place.image == image)
            && match Target(g, contents)
               case None => place.status == Exited
               case Some(k) =>
                 place.status == Done && place.state == StateOf(g, contents, k) &&
                 place.pos == DataPos(g, k, NextSlotOf(g, contents[k]))
    ensures lost' <= lost
  {
    hide Represents, Loop, StateOf, DataPos;
    RepresentsShaped(g, image, contents, lost);
    lost' := LoopIsATour(g, image, contents, lost, 0, CheckFree(0, 0));
    WholeSweep(g);
    TourForRoom(g, contents, 0, CheckFree(0, 0), ZERO_STATE);
    if FirstWithRoom(g, contents, 0) == Regions(g) {
      var image' := Loop(g, image, 0, CheckFree(0, 0)).image;
      lost' := LoopIsATour(g, image', contents, lost', 0, CheckTimestamps(false, U64_MAX, ZERO_STATE));
      TourForOldest(g, contents, 0, Regions(g), ZERO_STATE);
      var o := OldestRegion(g, contents, 0, Regions(g));
      if o < Regions(g) {
        StateFields(g, contents, o);
      }
    }
  }

  // ----- Which entry it stores -----

  /** The region and the entry of an accepted write, or how the call ends instead. */
  datatype Intent = Intend(k: nat, entry: Entry) | Decline(ending: Ending)

  function Intention(g: Geometry, contents: Contents, request: Request): (i: Intent)
    requires |contents| == Regions(g)
    ensures i.Intend? ==> i.k < Regions(g) && Fits(g, i.entry)
  {
    if g.deviceSize < SMALL_SIZE_THRESHOLD then Decline(Exits)
    else
      match Target(g, contents)
      case None => Decline(Exits)
      case Some(k) =>
        match Decide(LastTimestamp(contents[k]), request.Given(), request.faketimestamp)
        case Refuse(code) => Decline(Returns(code))
        case Accept(timestamp) =>
          if |request.data| > g.blockSize - BLOCK_HEADER_SIZE then Decline(Returns(WRITE_ERR_SIZE))
          else Intend(k, Entry(timestamp, request.applicationData, request.data))
  }

  function PlanFor(g: Geometry, contents: Contents, k: nat, e: Entry): Plan
    requires Shaped(g, contents) && k < Regions(g)
  {
    Go(e, DataPos(g, k, NextSlotOf(g, contents[k])), StateOf(g, contents, k))
  }

  /** write_put_block plans what the machine intends; none of its checks for funny write locations fires. */
  lemma PlanIsIntention(g: Geometry, image: seq<byte>, contents: Contents, lost: set<nat>, request: Request)
    returns (lost': set<nat>)
    requires Represents(g, image, contents, lost)
    ensures Shaped(g, contents)
    ensures var planned := PlanWrite(g, image, request);
            && Represents(g, planned.image, contents, lost')
            && (lost == {} ==> planned.image == image)
            && match Intention(g, contents, request)
               case Decline(ending) => planned.plan == Stop(ending)
               case Intend(k, e) => planned.plan == PlanFor(g, contents, k, e)
    ensures lost' <= lost
  {
    hide Represents, Loop, StateOf, Target, DataPos;
    RepresentsShaped(g, image, contents, lost);
    lost' := lost;
    if SMALL_SIZE_THRESHOLD <= g.deviceSize {
      lost' := LocationIsTarget(g, image, contents, lost);
      if Target(g, contents).Some? {
        var k := Target(g, contents).value;
        StateFields(g, contents, k);
        DataPosIsSafe(g, k, NextSlotOf(g, contents[k]));
      }
    }
  }

  lemma DataPosIsSafe(g: Geometry, k: nat, d: nat)
    requires k < Regions(g) && d < Capacity(g)
    ensures g.headerSize <= DataPos(g, k, d)
    ensures g.headerSize + g.blockSize <= HintPos(g, k)
    ensures DataPos(g, k, d) != BackupPos(g, k) && HintPos(g, k) != BackupPos(g, k)
  {
    hide SlotPos;
    NamedSlots(g, k);
    SlotNear(g, k, SlotOf(g, d), Half(g));
  }

  // ----- The three block writes -----

  /** The contents once the write is complete: a region with room grows, a full one starts over. */
  function Placed(g: Geometry, contents: Contents, k: nat, e: Entry): Contents
    requires |contents| == Regions(g) && k < Regions(g)
  {
    contents[k := if HasRoom(g, contents[k]) then contents[k] + [e] else [e]]
  }

  /** The contents after the data block alone: the new entry shows only if it overwrote an old one. */
  function Torn(g: Geometry, contents: Contents, k: nat, e: Entry): Contents
    requires |contents| == Regions(g) && k < Regions(g)
  {
    if HasRoom(g, contents[k]) then contents else contents[k := contents[k][0 := e]]
  }

  lemma PlacedIsShaped(g: Geometry, contents: Contents, k: nat, e: Entry)
    requires Shaped(g, contents) && k < Regions(g) && Fits(g, e)
    ensures Shaped(g, Placed(g, contents, k, e)) && Shaped(g, Torn(g, contents, k, e))
  {
  }

  function DataImage(g: Geometry, image: seq<byte>, contents: Contents, k: nat, e: Entry): (s: seq<byte>)
    requires Sized(g, image) && |contents| == Regions(g) && k < Regions(g) && Fits(g, e)
    ensures Sized(g, s)
  {
    Splice(image, DataPos(g, k, NextSlotOf(g, contents[k])), EntryCell(g, e))
  }

  /** After the first block write. */
  lemma DataStage(g: Geometry, image: seq<byte>, contents: Contents, lost: set<nat>, k: nat, e: Entry)
    requires Represents(g, image, contents, lost) && k < Regions(g) && Fits(g, e)
    ensures Shaped(g, contents)
    ensures PutData(g, image, PlanFor(g, contents, k, e)) == Stored(DataImage(g, image, contents, k, e), true)
    ensures Represents(g, DataImage(g, image, contents, k, e), Torn(g, contents, k, e), lost)
  {
    hide Cell, SealedBlock, PutPadded, RegionHolds, StateOf;
    RepresentsShaped(g, image, contents, lost);
    var d := NextSlotOf(g, contents[k]);
    PutPaddedInside(g, image, DataPos(g, k, d), SealedBlock(EntryHeader(g, e), e.payload));
    if HasRoom(g, contents[k]) {
      WriteFreeSlot(g, image, contents, lost, k, EntryCell(g, e));
    } else {
      ReplaceEntry(g, image, contents, lost, k, 0, e);
    }
  }

  /** Bytes behind the last entry of a region mean nothing. */
  lemma WriteFreeSlot(g: Geometry, image: seq<byte>, contents: Contents, lost: set<nat>, k: nat, bytes: seq<byte>)
    requires Represents(g, image, contents, lost) && k < Regions(g) && HasRoom(g, contents[k]) && |bytes| == g.blockSize
    ensures Represents(g, Splice(image, DataPos(g, k, |contents[k]|), bytes), contents, lost)
  {
    hide Cell, EntryCell, HintCell, HintFails, LastWritten;
    var n := |contents[k]|;
    var image' := Splice(image, DataPos(g, k, n), bytes);
    forall l: nat, i: nat | IsSlot(g, l, i)
      ensures Cell(g, image', l, i) == if (l, i) == (k, SlotOf(g, n)) then bytes else Cell(g, image, l, i)
    {
      WriteCell(g, image, k, SlotOf(g, n), bytes, l, i);
    }
    forall l | 0 <= l < Regions(g)
      ensures RegionHolds(g, image', contents, lost, l)
    {
      assert RegionHolds(g, image, contents, lost, l);
      if l == k {
        SameHint(g, image, image', contents, contents, lost, k);
      } else {
        RegionKept(g, image, image', contents, contents, lost, lost, l);
      }
    }
  }

  function NewHint(g: Geometry, contents: Contents, k: nat): u64
    requires |contents| == Regions(g) && k < Regions(g)
  {
    LastWritten(g, k, NextSlotOf(g, contents[k]) + 1)
  }

  function PrimaryImage(g: Geometry, image: seq<byte>, contents: Contents, k: nat, e: Entry): (s: seq<byte>)
    requires Sized(g, image) && |contents| == Regions(g) && k < Regions(g) && Fits(g, e)
    ensures Sized(g, s)
  {
    NamedSlots(g, k);
    Splice(DataImage(g, image, contents, k, e), HintPos(g, k), HintCell(g, NewHint(g, contents, k)))
  }

  /** The slots after two block writes. */
  lemma PrimaryCells(g: Geometry, image: seq<byte>, contents: Contents, k: nat, e: Entry, l: nat, i: nat)
    requires Sized(g, image) && |contents| == Regions(g) && k < Regions(g) && Fits(g, e) && IsSlot(g, l, i)
    ensures Cell(g, PrimaryImage(g, image, contents, k, e), l, i) ==
            if (l, i) == (k, Slots(g)) then HintCell(g, NewHint(g, contents, k))
            else if (l, i) == (k, SlotOf(g, NextSlotOf(g, contents[k]))) then EntryCell(g, e)
            else Cell(g, image, l, i)
  {
    hide Cell, EntryCell, HintCell, LastWritten;
    NamedSlots(g, k);
    WriteCell(g, image, k, SlotOf(g, NextSlotOf(g, contents[k])), EntryCell(g, e), l, i);
    WriteCell(g, DataImage(g, image, contents, k, e), k, Slots(g), HintCell(g, NewHint(g, contents, k)), l, i);
  }

  /** After the second. */
  lemma PrimaryStage(g: Geometry, image: seq<byte>, contents: Contents, lost: set<nat>, k: nat, e: Entry)
    requires Represents(g, image, contents, lost) && k < Regions(g) && Fits(g, e)
    ensures Represents(g, PrimaryImage(g, image, contents, k, e), Placed(g, contents, k, e), lost - {k})
  {
    hide Cell, EntryCell, HintCell, HintFails, LastWritten, PrimaryImage;
    var image' := PrimaryImage(g, image, contents, k, e);
    var contents' := Placed(g, contents, k, e);
    PlacedIsShaped(g, contents, k, e);
    forall l: nat, i: nat | IsSlot(g, l, i)
      ensures Cell(g, image', l, i) ==
              if (l, i) == (k, Slots(g)) then HintCell(g, NewHint(g, contents, k))
              else if (l, i) == (k, SlotOf(g, NextSlotOf(g, contents[k]))) then EntryCell(g, e)
              else Cell(g, image, l, i)
    {
      PrimaryCells(g, image, contents, k, e, l, i);
    }
    forall l | 0 <= l < Regions(g)
      ensures RegionHolds(g, image', contents', lost - {k}, l)
    {
      assert RegionHolds(g, image, contents, lost, l);
      if l == k {
        assert DataHolds(g, image', k, contents'[k]);
      } else {
        RegionKept(g, image, image', contents, contents', lost, lost - {k}, l);
      }
    }
  }

  /** The hint block that the second block write replaces. */
  lemma PrimaryPut(g: Geometry, image: seq<byte>, contents: Contents, lost: set<nat>, k: nat, e: Entry)
    requires Represents(g, image, contents, lost) && k < Regions(g) && Fits(g, e)
    ensures PutHint(g, DataImage(g, image, contents, k, e), NewHint(g, contents, k), 0, HintPos(g, k)) ==
            Stored(PrimaryImage(g, image, contents, k, e), true)
  {
    hide Cell, EntryCell, HintCell, HintFails, LastWritten, PutHint, DataHolds;
    assert RegionHolds(g, image, contents, lost, k);
    NamedSlots(g, k);
    WriteCell(g, image, k, SlotOf(g, NextSlotOf(g, contents[k])), EntryCell(g, e), k, Slots(g));
    var earlier := if contents[k] == [] then 0 else LastWritten(g, k, |contents[k]|);
    PutHintInSlot(g, DataImage(g, image, contents, k, e), NewHint(g, contents, k), k, Slots(g), earlier);
  }

  /** After the third; whatever the backup slot held before. */
  lemma BackupStage(g: Geometry, image: seq<byte>, contents: Contents, lost: set<nat>, k: nat, e: Entry)
    requires Represents(g, image, contents, lost) && k < Regions(g) && Fits(g, e)
    ensures var put := PutHint(g, PrimaryImage(g, image, contents, k, e), NewHint(g, contents, k), 0, BackupPos(g, k));
            put.ok && Represents(g, put.image, Placed(g, contents, k, e), lost - {k})
  {
    hide PutHint, PrimaryImage, Represents;
    RepresentsShaped(g, image, contents, lost);
    PrimaryStage(g, image, contents, lost, k, e);
    NamedSlots(g, k);
    var bytes := PutHintFillsSlot(g, PrimaryImage(g, image, contents, k, e), NewHint(g, contents, k), BackupPos(g, k));
    WriteBackup(g, PrimaryImage(g, image, contents, k, e), Placed(g, contents, k, e), lost - {k}, k, bytes);
  }

  /** The backup of a region in use means nothing as long as its hint block is in order. */
  lemma WriteBackup(g: Geometry, image: seq<byte>, contents: Contents, lost: set<nat>, k: nat, bytes: seq<byte>)
    requires Represents(g, image, contents, lost) && k < Regions(g) && contents[k] != [] && k !in lost
    requires |bytes| == g.blockSize
    ensures Represents(g, Splice(image, SlotPos(g, k, Half(g)), bytes), contents, lost)
  {
    hide Cell, EntryCell, HintCell, HintFails, LastWritten;
    var image' := Splice(image, SlotPos(g, k, Half(g)), bytes);
    forall l: nat, i: nat | IsSlot(g, l, i)
      ensures Cell(g, image', l, i) == if (l, i) == (k, Half(g)) then bytes else Cell(g, image, l, i)
    {
      WriteCell(g, image, k, Half(g), bytes, l, i);
    }
    forall l | 0 <= l < Regions(g)
      ensures RegionHolds(g, image', contents, lost, l)
    {
      assert RegionHolds(g, image, contents, lost, l);
      RegionKept(g, image, image', contents, contents, lost, lost, l);
    }
  }

  /** write_put_block does what the machine intends, and every refusal leaves an undamaged device as it is. */
  lemma WriteIsPlacing(g: Geometry, image: seq<byte>, contents: Contents, lost: set<nat>, request: Request)
    returns (lost': set<nat>)
    requires Represents(g, image, contents, lost)
    ensures Shaped(g, contents)
    ensures var w := WriteEntry(g, image, request);
            match Intention(g, contents, request)
            case Decline(ending) =>
              w.ending == ending && Represents(g, w.image, contents, lost') && (lost == {} ==> w.image == image)
            case Intend(k, e) =>
              w.ending == Returns(0) && Represents(g, w.image, Placed(g, contents, k, e), lost')
    ensures lost' <= lost
  {
    hide Represents, PlanWrite, StateOf, Intention, PutData, PutHint, PrimaryImage, DataImage, Placed;
    RepresentsShaped(g, image, contents, lost);
    lost' := PlanIsIntention(g, image, contents, lost, request);
    match Intention(g, contents, request)
    case Decline(_) =>
    case Intend(k, e) =>
      var planned := PlanWrite(g, image, request).image;
      DataStage(g, planned, contents, lost', k, e);
      PrimaryPut(g, planned, contents, lost', k, e);
      BackupStage(g, planned, contents, lost', k, e);
      StateFields(g, contents, k);
      DataPosIsSafe(g, k, NextSlotOf(g, contents[k]));
      lost' := lost' - {k};
  }

  // ----- Reads -----

  /** The first of `best` and the matching regions from `k` up to the first unused one whose last timestamp is
      smallest. */
  function OldestMatch(g: Geometry, contents: Contents, gteq: u64, k: nat, best: nat): (o: nat)
    requires |contents| == Regions(g) && k <= Regions(g) && best <= Regions(g)
    ensures o == best || (k <= o < Regions(g) && contents[o] != [] && gteq <= LastTimestamp(contents[o]))
    decreases Regions(g) - k
  {
    if k == Regions(g) || contents[k] == [] then best
    else if LastTimestamp(contents[k]) < gteq then OldestMatch(g, contents, gteq, k + 1, best)
    else OldestMatch(g, contents, gteq, k + 1, Better(g, contents, k, best))
  }

  function MatchSoFar(g: Geometry, contents: Contents, gteq: u64, best: nat): HintCallback
    requires Shaped(g, contents) && best <= Regions(g)
  {
    var state := if best < Regions(g) then StateOf(g, contents, best) else ZERO_STATE;
    FindOldest(gteq, BestTimestamp(g, contents, best), state)
  }

  lemma MeetForMatch(g: Geometry, contents: Contents, gteq: u64, k: nat, best: nat)
    requires Shaped(g, contents) && k < Regions(g) && best <= Regions(g)
    ensures MeetRegion(g, contents, k, MatchSoFar(g, contents, gteq, best), LOOP_OK) ==
            if contents[k] == [] then Met(contents, MatchSoFar(g, contents, gteq, best), LOOP_BREAK)
            else if LastTimestamp(contents[k]) < gteq then Met(contents, MatchSoFar(g, contents, gteq, best), LOOP_OK)
            else Met(contents, MatchSoFar(g, contents, gteq, Better(g, contents, k, best)), LOOP_OK)
  {
    hide LastTimestamp, StateOf;
    StateFields(g, contents, k);
  }

  lemma {:induction false} TourForMatch(g: Geometry, contents: Contents, gteq: u64, k: nat, best: nat, state: HintState)
    requires Shaped(g, contents) && k <= Regions(g) && best <= Regions(g)
    ensures var ks, start := Sweep(k, Regions(g)), MatchSoFar(g, contents, gteq, best);
            var tour := TourRegions(g, contents, ks, start, state, LOOP_OK);
            tour.callback == MatchSoFar(g, contents, gteq, OldestMatch(g, contents, gteq, k, best))
    decreases Regions(g) - k
  {
    hide MeetRegion, StateOf, MatchSoFar;
    if k == Regions(g) {
    } else {
      assert Sweep(k, Regions(g))[1..] == Sweep(k + 1, Regions(g));
      MeetForMatch(g, contents, gteq, k, best);
      if contents[k] != [] {
        var next := if LastTimestamp(contents[k]) < gteq then best else Better(g, contents, k, best);
        TourForMatch(g, contents, gteq, k + 1, next, StateOf(g, contents, k));
      }
    }
  }

  /** The region a read or an update starts from, or the number of regions. */
  function StartRegion(g: Geometry, contents: Contents, gteq: u64): (m: nat)
    requires |contents| == Regions(g)
    ensures m <= Regions(g)
    ensures m < Regions(g) ==> contents[m] != [] && gteq <= LastTimestamp(contents[m])
  {
    OldestMatch(g, contents, gteq, 0, Regions(g))
  }

  lemma FoundIsStart(g: Geometry, image: seq<byte>, contents: Contents, lost: set<nat>, gteq: u64)
    returns (lost': set<nat>)
    requires Represents(g, image, contents, lost)
    ensures Shaped(g, contents)
    ensures var found := FindOldestRegion(g, image, gteq);
            var m := StartRegion(g, contents, gteq);
            && found.status == Done
            && Represents(g, found.image, contents, lost')
            && (lost == {} ==> found.image == image)
            && (found.state.valid <==> m < Regions(g))
            && (m < Regions(g) ==> RegionOf(g, found.state.location) == m)
    ensures lost' <= lost
  {
    hide Represents, Loop, StateOf;
    RepresentsShaped(g, image, contents, lost);
    lost' := LoopIsATour(g, image, contents, lost, 0, FindOldest(gteq, U64_MAX, ZERO_STATE));
    WholeSweep(g);
    TourForMatch(g, contents, gteq, 0, Regions(g), ZERO_STATE);
    var m := StartRegion(g, contents, gteq);
    if m < Regions(g) {
      StateFields(g, contents, m);
      RegionOfHintPos(g, m);
    }
  }

  /** What a pass of `callback` over the device from its start region on comes to. */
  function Passed(g: Geometry, contents: Contents, callback: BlockCallback): (p: (Contents, BlockCallback))
    requires Shaped(g, contents)
    ensures SameTask(callback, p.1)
  {
    var m := StartRegion(g, contents, callback.gteq);
    if m == Regions(g) then (contents, callback)
    else
      var tour := TourFrom(g, contents, m, OverBlocks(callback));
      TourKeepsTask(g, contents, Rotation(g, m), OverBlocks(callback), ZERO_STATE, LOOP_OK);
      (tour.contents, tour.callback.blocks)
  }

  lemma {:induction false} PassKeepsTask(entries: seq<Entry>, callback: BlockCallback)
    ensures SameTask(callback, WalkEntries(entries, callback).callback)
    decreases |entries|
  {
    hide VisitEntry;
    if entries == [] {
    } else {
      PassKeepsTask(entries[1..], VisitEntry(callback, entries[0]).callback);
    }
  }

  lemma {:induction false} TourKeepsTask(g: Geometry, contents: Contents, ks: seq<nat>, callback: HintCallback,
                                         state: HintState, result: bv32)
    requires Shaped(g, contents) && forall i :: 0 <= i < |ks| ==> ks[i] < Regions(g)
    requires callback.OverBlocks?
    ensures var tour := TourRegions(g, contents, ks, callback, state, result);
            tour.callback.OverBlocks? && SameTask(callback.blocks, tour.callback.blocks)
    decreases |ks|
  {
    hide WalkEntries, StateOf;
    if ks == [] {
    } else {
      PassKeepsTask(contents[ks[0]], callback.blocks);
      MetIsShaped(g, contents, ks[0], callback, result);
      var met := MeetRegion(g, contents, ks[0], callback, result);
      TourKeepsTask(g, met.contents, ks[1..], met.callback, StateOf(g, contents, ks[0]), met.result);
    }
  }

  lemma ReadIsAPass(g: Geometry, image: seq<byte>, contents: Contents, lost: set<nat>, gteq: u64, limit: u64)
    returns (lost': set<nat>)
    requires Represents(g, image, contents, lost)
    ensures Shaped(g, contents)
    ensures var r := ReadEntries(g, image, gteq, limit);
            && r.ending == Returns(0)
            && Passed(g, contents, Emit(gteq, limit, [])).1.Emit?
            && r.output == Passed(g, contents, Emit(gteq, limit, [])).1.output
            && Represents(g, r.image, contents, lost')
            && (lost == {} ==> r.image == image)
    ensures lost' <= lost
  {
    hide Represents, Loop, FindOldestRegion, StartRegion, TourRegions, Rotation, Shaped;
    RepresentsShaped(g, image, contents, lost);
    lost' := FoundIsStart(g, image, contents, lost, gteq);
    var m := StartRegion(g, contents, gteq);
    if m < Regions(g) {
      lost' := LoopIsATour(g, FindOldestRegion(g, image, gteq).image, contents, lost', m,
                           OverBlocks(Emit(gteq, limit, [])));
    }
  }

  lemma UpdateIsAPass(g: Geometry, image: seq<byte>, contents: Contents, lost: set<nat>,
                      min: u64, mask: u64, test: Entry -> UpdateInfo) returns (lost': set<nat>)
    requires Represents(g, image, contents, lost)
    ensures Shaped(g, contents)
    ensures var u := UpdateEntries(g, image, min, mask, test);
            var passed := Passed(g, contents, Rewrite(min, mask, test, 0));
            && u.ending == Returns(0)
            && passed.1.Rewrite?
            && u.count == passed.1.count
            && Represents(g, u.image, passed.0, lost')
            && (lost == {} ==> OnlyData(g, image, u.image))
    ensures lost' <= lost
  {
    hide Represents, OnlyData, Loop, FindOldestRegion, StartRegion, TourRegions, Rotation, Shaped;
    RepresentsShaped(g, image, contents, lost);
    OnlyDataReflexive(g, image);
    lost' := FoundIsStart(g, image, contents, lost, min);
    var m := StartRegion(g, contents, min);
    if m < Regions(g) {
      lost' := LoopIsATour(g, FindOldestRegion(g, image, min).image, contents, lost', m,
                           OverBlocks(Rewrite(min, mask, test, 0)));
    }
  }
}
