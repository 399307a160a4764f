/**
 Hint blocks that go bad. A hint block that fails its check is restored from its backup
 by the next scan that meets it, unnoticed by every caller, as long as the second copy
 that the recovery writes does no harm.
 */
module Loss {
  import opened Bytes
  import opened Layout
  import Io
  import opened Codec
  import opened Blocks
  import opened Traversal
  import opened Writing
  import opened Ring
  import opened Simulation
  import opened Machine
  import opened Undamaged
  import opened Runs

  /** The device with the hint block of region `k` overwritten. */
  function Damaged(g: Geometry, image: seq<byte>, k: nat, junk: seq<byte>): (s: seq<byte>)
    requires Sized(g, image) && k < Regions(g) && |junk| == g.blockSize
    ensures Sized(g, s)
  {
    NamedSlots(g, k);
    Splice(image, HintPos(g, k), junk)
  }

  lemma DamagedCells(g: Geometry, image: seq<byte>, k: nat, junk: seq<byte>, l: nat, i: nat)
    requires Sized(g, image) && k < Regions(g) && |junk| == g.blockSize && IsSlot(g, l, i)
    ensures Cell(g, Damaged(g, image, k, junk), l, i) == if (l, i) == (k, Slots(g)) then junk else Cell(g, image, l, i)
  {
    hide Cell;
    NamedSlots(g, k);
    WriteCell(g, image, k, Slots(g), junk, l, i);
  }

  /** A region whose hint block can be lost: in use, with a good backup, and recoverable next to the other losses. */
  predicate CanLose(g: Geometry, image: seq<byte>, contents: Contents, lost: set<nat>, k: nat)
    requires Sized(g, image) && Shaped(g, contents) && k < Regions(g)
  {
    && contents[k] != [] && k !in lost
    && Cell(g, image, k, Half(g)) == HintCell(g, LastWritten(g, k, |contents[k]|))
    && Recoverable(g, contents, lost, k)
    && (0 < k ==> k - 1 !in lost)
  }

  lemma LosingKeepsContents(g: Geometry, image: seq<byte>, contents: Contents, lost: set<nat>, k: nat, junk: seq<byte>)
    requires Represents(g, image, contents, lost) && k < Regions(g) && CanLose(g, image, contents, lost, k)
    requires |junk| == g.blockSize && HintFails(junk)
    ensures Represents(g, Damaged(g, image, k, junk), contents, lost + {k})
  {
    hide Cell, EntryCell, HintCell, HintFails, LastWritten, Damaged;
    var image' := Damaged(g, image, k, junk);
    forall l: nat, i: nat | IsSlot(g, l, i)
      ensures Cell(g, image', l, i) == if (l, i) == (k, Slots(g)) then junk else Cell(g, image, l, i)
    {
      DamagedCells(g, image, k, junk, l, i);
    }
    forall l | 0 <= l < Regions(g)
      ensures RegionHolds(g, image', contents, lost + {k}, l)
    {
      assert RegionHolds(g, image, contents, lost, l);
      if l == k {
        assert DataHolds(g, image', k, contents[k]);
      } else {
        RegionKept(g, image, image', contents, contents, lost, lost + {k}, l);
      }
    }
  }

  /** Without the hint block of region `k` the device gives the same replies, and the next write decides the same. */
  predicate Unnoticed(g: Geometry, device: seq<byte>, k: nat, junk: seq<byte>, ops: seq<Op>, request: Request)
    requires Sized(g, device) && k < Regions(g) && |junk| == g.blockSize
  {
    && Run(g, Damaged(g, device, k, junk), ops).1 == Run(g, device, ops).1
    && PlanWrite(g, Damaged(g, device, k, junk), request).plan == PlanWrite(g, device, request).plan
  }

  /**
   The hint block of a region in use becomes any bytes that fail the check, while the
   next region is in use too (or the copy falls behind the last region). Every later run
   gets the replies it would have got without the loss, and the next write picks the
   same place, the same timestamp, or the same refusal.
   */
  lemma LossIsInvisible(g: Geometry, image: seq<byte>, contents: Contents, k: nat, junk: seq<byte>, ops: seq<Op>,
                        request: Request)
    requires Intact(g, image, contents) && k < Regions(g) && contents[k] != [] && Recoverable(g, contents, {}, k)
    requires |junk| == g.blockSize && HintFails(junk)
    ensures Unnoticed(g, image, k, junk, ops, request)
  {
    hide Represents, Run, Play, PlanWrite, Intention, HintFails, Damaged, Cell, HintCell, LastWritten;
    RepresentsShaped(g, image, contents, {});
    LosingKeepsContents(g, image, contents, {}, k, junk);
    var l0 := RunIsPlay(g, image, contents, {}, ops);
    var l1 := RunIsPlay(g, Damaged(g, image, k, junk), contents, {} + {k}, ops);
    var l2 := PlanIsIntention(g, image, contents, {}, request);
    var l3 := PlanIsIntention(g, Damaged(g, image, k, junk), contents, {} + {k}, request);
  }

  /** The same, after any run whatever on a blank device. */
  lemma LossAfterAnyRun(g: Geometry, image: seq<byte>, ops: seq<Op>, device: seq<byte>, contents: Contents, k: nat,
                        junk: seq<byte>, later: seq<Op>, request: Request)
    requires Blank(g, image) && device == Run(g, image, ops).0 && contents == Play(g, NoEntries(g), ops).0
    requires k < Regions(g) && contents[k] != [] && Recoverable(g, contents, {}, k)
    requires |junk| == g.blockSize && HintFails(junk)
    ensures Sized(g, device) && Unnoticed(g, device, k, junk, later, request)
  {
    hide Blank, Represents, Backed, Run, Play, HintFails, Recoverable, Unnoticed;
    BlankIsIntact(g, image);
    RunKeepsIntact(g, image, NoEntries(g), ops);
    RepresentsShaped(g, device, contents, {});
    LossIsInvisible(g, device, contents, k, junk, later, request);
  }

  /** The scan that meets the loss reports the region as if nothing had happened and puts back the very bytes of the
      hint block; of all slots it touches one more, the backup of the next region. */
  lemma RecoveryRestores(g: Geometry, image: seq<byte>, contents: Contents, k: nat, junk: seq<byte>, l: nat, i: nat)
    requires Intact(g, image, contents) && k < Regions(g) && contents[k] != [] && Recoverable(g, contents, {}, k)
    requires |junk| == g.blockSize && HintFails(junk)
    requires IsSlot(g, l, i) && (l, i) != (k + 1, Half(g))
    ensures var probe := ProbeRegion(g, Damaged(g, image, k, junk), k);
            && probe.status == Done && probe.state == StateOf(g, contents, k)
            && Cell(g, probe.image, l, i) == Cell(g, image, l, i)
  {
    hide Represents, HintFails, Damaged, Cell, HintCell, LastWritten, ProbeRegion;
    RepresentsShaped(g, image, contents, {});
    LosingKeepsContents(g, image, contents, {}, k, junk);
    var damaged := Damaged(g, image, k, junk);
    ProbeLost(g, damaged, contents, {} + {k}, k);
    RecoveredImage(g, damaged, contents, {} + {k}, k);
    UsedHint(g, image, contents, k);
    DamagedCells(g, image, k, junk, l, i);
  }

  lemma UsedHint(g: Geometry, image: seq<byte>, contents: Contents, k: nat)
    requires Represents(g, image, contents, {}) && k < Regions(g) && contents[k] != []
    ensures Cell(g, image, k, Slots(g)) == HintCell(g, LastWritten(g, k, |contents[k]|))
  {
    hide Cell, HintCell, LastWritten, DataHolds;
    assert RegionHolds(g, image, contents, {}, k);
  }

  lemma RecoveredImage(g: Geometry, image: seq<byte>, contents: Contents, lost: set<nat>, k: nat)
    requires Represents(g, image, contents, lost) && k < Regions(g) && k in lost && contents[k] != []
    ensures var image' := ProbeRegion(g, image, k).image;
            && Sized(g, image')
            && Cell(g, image', k, Slots(g)) == HintCell(g, LastWritten(g, k, |contents[k]|))
            && AgreeExcept(g, image, image', {(k, Slots(g)), (k + 1, Half(g))})
  {
    hide HintFails, Cell, HintCell, Settle, ProbeRegion, DataHolds, UpdateHint, LastWritten;
    assert RegionHolds(g, image, contents, lost, k);
    var previous := LastWritten(g, k, |contents[k]|);
    var image' := RecoveryWrites(g, image, contents, lost, k);
    ProbeRecovers(g, image, k, previous);
    SettleKeepsImage(g, image', k, previous);
  }

  lemma SettleKeepsImage(g: Geometry, image: seq<byte>, k: nat, previous: u64)
    ensures Settle(g, image, Unsettled(HintPos(g, k), FirstPos(g, k), LastPos(g, k)),
                   HintOfRegion(g, previous)).image == image
  {
  }

  /** Stopped between its two block writes, the recovery has done its work all the same. */
  lemma RecoveryStoppedHalfway(g: Geometry, image: seq<byte>, contents: Contents, lost: set<nat>, k: nat)
    requires Represents(g, image, contents, lost) && k < Regions(g) && k in lost && contents[k] != []
    ensures Shaped(g, contents)
    ensures var put := PutHint(g, image, LastWritten(g, k, |contents[k]|), 0, HintPos(g, k));
            put.ok && Represents(g, put.image, contents, lost - {k})
  {
    hide Cell, HintCell, HintFails, LastWritten, PutHint, DataHolds, Splice;
    assert RegionHolds(g, image, contents, lost, k);
    var previous := LastWritten(g, k, |contents[k]|);
    NamedSlots(g, k);
    PutHintInSlot(g, image, previous, k, Slots(g), previous);
    var image' := Splice(image, HintPos(g, k), HintCell(g, previous));
    forall l: nat, i: nat | IsSlot(g, l, i)
      ensures Cell(g, image', l, i) == if (l, i) == (k, Slots(g)) then HintCell(g, previous) else Cell(g, image, l, i)
    {
      WriteCell(g, image, k, Slots(g), HintCell(g, previous), l, i);
    }
    RecoveryKeepsContents(g, image, image', contents, lost, k);
  }

  // ----- Why the next region has to be in use -----

  function StrayImage(g: Geometry, image: seq<byte>, k: nat, previous: u64): (s: seq<byte>)
    requires Sized(g, image) && k + 1 < Regions(g)
    ensures Sized(g, s)
  {
    hide HintCell;
    NamedSlots(g, k);
    NamedSlots(g, k + 1);
    Splice(Splice(image, HintPos(g, k), HintCell(g, previous)), BackupPos(g, k + 1), HintCell(g, previous))
  }

  lemma StrayCells(g: Geometry, image: seq<byte>, k: nat, previous: u64, l: nat, i: nat)
    requires Sized(g, image) && k + 1 < Regions(g) && IsSlot(g, l, i)
    ensures Cell(g, StrayImage(g, image, k, previous), l, i) ==
            if (l, i) == (k + 1, Half(g)) || (l, i) == (k, Slots(g)) then HintCell(g, previous)
            else Cell(g, image, l, i)
  {
    hide Cell, HintCell;
    NamedSlots(g, k);
    NamedSlots(g, k + 1);
    WriteCell(g, image, k, Slots(g), HintCell(g, previous), l, i);
    WriteCell(g, Splice(image, HintPos(g, k), HintCell(g, previous)), k + 1, Half(g), HintCell(g, previous), l, i);
  }

  /** Recovery of a region followed by one whose backup slot holds no hint: the copy lands there. */
  lemma StrayRecovery(g: Geometry, image: seq<byte>, k: nat, previous: u64)
    requires Sized(g, image) && k + 1 < Regions(g)
    requires HintFails(Cell(g, image, k, Slots(g))) && Cell(g, image, k, Half(g)) == HintCell(g, previous)
    requires HintFails(Cell(g, image, k + 1, Half(g)))
    ensures ProbeRegion(g, image, k).image == StrayImage(g, image, k, previous)
  {
    hide HintFails, Cell, HintCell, Settle, ProbeRegion, PutHint;
    NamedSlots(g, k);
    NamedSlots(g, k + 1);
    ProbeRecovers(g, image, k, previous);
    PutHintInSlot(g, image, previous, k, Slots(g), previous);
    var first := Splice(image, HintPos(g, k), HintCell(g, previous));
    WriteCell(g, image, k, Slots(g), HintCell(g, previous), k + 1, Half(g));
    PutHintInSlot(g, first, previous, k + 1, Half(g), previous);
    StrayCells(g, image, k, previous, k, Slots(g));
    SettleKeepsImage(g, StrayImage(g, image, k, previous), k, previous);
  }

  /** After the recovery of the last region in use, its copy is in the backup slot of an unused region. */
  lemma RecoveryBeforeUnused(g: Geometry, image: seq<byte>, contents: Contents, k: nat, junk: seq<byte>)
    returns (image': seq<byte>)
    requires Intact(g, image, contents) && k + 1 < Regions(g) && contents[k] != [] && contents[k + 1] == []
    requires |junk| == g.blockSize && HintFails(junk)
    ensures ProbeRegion(g, Damaged(g, image, k, junk), k).image == image'
    ensures Sized(g, image')
    ensures Cell(g, image', k + 1, Half(g)) == HintCell(g, LastWritten(g, k, |contents[k]|))
    ensures HintFails(Cell(g, image', k + 1, Slots(g)))
    ensures DataHolds(g, image', k, contents[k])
  {
    hide HintFails, Cell, HintCell, EntryCell, LastWritten, Damaged, ProbeRegion, StrayImage;
    var damaged := Damaged(g, image, k, junk);
    var previous := LastWritten(g, k, |contents[k]|);
    assert RegionHolds(g, image, contents, {}, k);
    assert RegionHolds(g, image, contents, {}, k + 1);
    image' := StrayImage(g, damaged, k, previous);
    forall l: nat, i: nat | IsSlot(g, l, i)
      ensures Cell(g, damaged, l, i) == if (l, i) == (k, Slots(g)) then junk else Cell(g, image, l, i)
      ensures Cell(g, image', l, i) ==
              if (l, i) == (k + 1, Half(g)) || (l, i) == (k, Slots(g)) then HintCell(g, previous)
              else Cell(g, image, l, i)
    {
      DamagedCells(g, image, k, junk, l, i);
      StrayCells(g, damaged, k, previous, l, i);
    }
    StrayRecovery(g, damaged, k, previous);
  }

  /**
   After that a scan no longer finds the unused region unused: it restores a hint block there
   that points into the region before, or fails at the end of the device. The scan after that
   one does: it sees that the restored hint block points outside its region.
   */
  lemma LossBeforeUnusedShows(g: Geometry, image: seq<byte>, contents: Contents, k: nat, junk: seq<byte>)
    requires Intact(g, image, contents) && k + 1 < Regions(g) && contents[k] != [] && contents[k + 1] == []
    requires |junk| == g.blockSize && HintFails(junk)
    ensures var probe := ProbeRegion(g, ProbeRegion(g, Damaged(g, image, k, junk), k).image, k + 1);
            && (probe.status == Failed || probe.state.valid)
            && ProbeRegion(g, probe.image, k + 1) ==
               Probe(probe.image, Done, Unsettled(HintPos(g, k + 1), FirstPos(g, k + 1), LastPos(g, k + 1)))
  {
    hide HintOf, HintCheck, HintAt, Cell, HintCell, EntryCell, PutHint, LastWritten, DataHolds, ProbeRegion, BlockCheck,
         HeaderOf;
    var image' := RecoveryBeforeUnused(g, image, contents, k, junk);
    StrayBackupIsTaken(g, image', contents, k);
    ProbeOutside(g, ProbeRegion(g, image', k + 1).image, k + 1, LastWritten(g, k, |contents[k]|));
  }

  lemma StrayBackupIsTaken(g: Geometry, image: seq<byte>, contents: Contents, k: nat)
    requires Sized(g, image) && Shaped(g, contents) && k + 1 < Regions(g) && contents[k] != []
    requires Cell(g, image, k + 1, Half(g)) == HintCell(g, LastWritten(g, k, |contents[k]|))
    requires HintFails(Cell(g, image, k + 1, Slots(g)))
    requires DataHolds(g, image, k, contents[k])
    ensures var probe := ProbeRegion(g, image, k + 1);
            && (probe.status == Failed || probe.state.valid)
            && Sized(g, probe.image)
            && Cell(g, probe.image, k + 1, Slots(g)) == HintCell(g, LastWritten(g, k, |contents[k]|))
  {
    hide HintFails, Cell, HintCell, EntryCell, PutHint, ProbeRegion, LastWritten, HintOf, Settle;
    var previous := LastWritten(g, k, |contents[k]|);
    var d := |contents[k]| - 1;
    NamedSlots(g, k + 1);
    ProbeRecovers(g, image, k + 1, previous);
    PutHintInSlot(g, image, previous, k + 1, Slots(g), previous);
    var first := Splice(image, HintPos(g, k + 1), HintCell(g, previous));
    var q := HintPos(g, k + 1) + HALF_SPACING;
    WriteCell(g, image, k + 1, Slots(g), HintCell(g, previous), k, SlotOf(g, d));
    WriteCell(g, image, k + 1, Slots(g), HintCell(g, previous), k + 1, Slots(g));
    KeptInFront(g, first, previous, q, k, SlotOf(g, d));
    KeptInFront(g, first, previous, q, k + 1, Slots(g));
    var put := PutHint(g, first, previous, 0, q);
    if put.ok {
      var base := Unsettled(HintPos(g, k + 1), FirstPos(g, k + 1), LastPos(g, k + 1));
      SettleOnEntry(g, put.image, base, k, d + 1, contents[k][d]);
    }
  }

  lemma PutHintInside(g: Geometry, image: seq<byte>, previous: u64, pos: nat)
    requires PutHint(g, image, previous, 0, pos).ok
    ensures pos + g.blockSize < |image|
  {
    hide HintOf, HintCheck, SealedHint;
  }

  /** A hint block stored further on, whole or in part, leaves the slots in front of it. */
  lemma KeptInFront(g: Geometry, image: seq<byte>, previous: u64, pos: nat, l: nat, i: nat)
    requires Sized(g, image) && IsSlot(g, l, i) && HintPos(g, l) + g.blockSize <= pos
    ensures Sized(g, PutHint(g, image, previous, 0, pos).image)
    ensures Cell(g, PutHint(g, image, previous, 0, pos).image, l, i) == Cell(g, image, l, i)
  {
    hide HintOf, HintCheck, SealedHint;
    if HintAt(image, pos).Some? {
      var data := SealedHint(Renewed(HintAt(image, pos).value, previous, 0));
      Io.WriteKeepsFront(image, pos, data, Padding(g, |data|), SlotPos(g, l, i), SlotPos(g, l, i) + g.blockSize);
    }
  }

  /** A backup that points behind the end of the device is restored all the same, and the scan fails. The next one
      counts the region as unused. */
  lemma WildBackupFails(g: Geometry, image: seq<byte>, k: nat, previous: u64)
    requires Sized(g, image) && k < Regions(g) && g.deviceSize <= previous + g.blockSize
    requires HintFails(Cell(g, image, k, Slots(g))) && Cell(g, image, k, Half(g)) == HintCell(g, previous)
    ensures ProbeRegion(g, image, k).status == Failed
    ensures var next := ProbeRegion(g, ProbeRegion(g, image, k).image, k);
            next.status == Done && !next.state.valid
  {
    hide HintFails, Cell, HintCell, PutHint, ProbeRegion, HintOf, BlockCheck, HeaderOf;
    NamedSlots(g, k);
    ProbeRecovers(g, image, k, previous);
    PutHintInSlot(g, image, previous, k, Slots(g), previous);
    WriteCell(g, image, k, Slots(g), HintCell(g, previous), k, Slots(g));
    KeptInFront(g, Splice(image, HintPos(g, k), HintCell(g, previous)), previous, HintPos(g, k) + HALF_SPACING, k,
                Slots(g));
    HintOfRegionPoints(g, previous);
    ProbeOutside(g, ProbeRegion(g, image, k).image, k, previous);
  }

  // ----- At the end of the device -----

  /** The last region has lost its hint block, and there is no room behind it for the second copy. */
  ghost predicate LostAtTheEnd(g: Geometry, image: seq<byte>, contents: Contents, junk: seq<byte>) {
    && Intact(g, image, contents)
    && contents[Regions(g) - 1] != []
    && g.deviceSize <= HintPos(g, Regions(g) - 1) + HALF_SPACING + g.blockSize
    && |junk| == g.blockSize && HintFails(junk)
  }

  /** The recovery fails there, though not before it has put the hint block back: every slot is as it was. */
  lemma LossAtTheEndFails(g: Geometry, image: seq<byte>, contents: Contents, junk: seq<byte>, l: nat, i: nat)
    requires LostAtTheEnd(g, image, contents, junk) && IsSlot(g, l, i)
    ensures Sized(g, image)
    ensures var probe := ProbeRegion(g, Damaged(g, image, Regions(g) - 1, junk), Regions(g) - 1);
            && probe.status == Failed && Sized(g, probe.image)
            && Cell(g, probe.image, l, i) == Cell(g, image, l, i)
  {
    hide HintOf, HintCheck, HintAt, Cell, HintCell, EntryCell, Settle, PutHint, LastWritten, Damaged, ProbeRegion,
         DataHolds;
    var k := Regions(g) - 1;
    assert RegionHolds(g, image, contents, {}, k);
    var damaged := Damaged(g, image, k, junk);
    var previous := LastWritten(g, k, |contents[k]|);
    NamedSlots(g, k);
    DamagedCells(g, image, k, junk, k, Slots(g));
    DamagedCells(g, image, k, junk, k, Half(g));
    DamagedCells(g, image, k, junk, l, i);
    ProbeRecovers(g, damaged, k, previous);
    PutHintInSlot(g, damaged, previous, k, Slots(g), previous);
    WriteCell(g, damaged, k, Slots(g), HintCell(g, previous), l, i);
    var first := Splice(damaged, HintPos(g, k), HintCell(g, previous));
    KeptInFront(g, first, previous, HintPos(g, k) + HALF_SPACING, l, i);
    if PutHint(g, first, previous, 0, HintPos(g, k) + HALF_SPACING).ok {
      PutHintInside(g, first, previous, HintPos(g, k) + HALF_SPACING);
    }
  }

  lemma SameSlots(g: Geometry, image: seq<byte>, image': seq<byte>, contents: Contents)
    requires Intact(g, image, contents) && Sized(g, image')
    requires forall l: nat, i: nat :: IsSlot(g, l, i) ==> Cell(g, image', l, i) == Cell(g, image, l, i)
    ensures Intact(g, image', contents)
  {
    hide Cell, HintCell, EntryCell, HintFails, LastWritten;
    forall l | 0 <= l < Regions(g)
      ensures RegionHolds(g, image', contents, {}, l)
    {
      assert RegionHolds(g, image, contents, {}, l);
      RegionKept(g, image, image', contents, contents, {}, {}, l);
    }
  }

  lemma ScansInFront(g: Geometry, image: seq<byte>, contents: Contents, k: nat, junk: seq<byte>, l: nat)
    requires Intact(g, image, contents) && l < k < Regions(g) && contents[l] != [] && |junk| == g.blockSize
    ensures ProbeRegion(g, Damaged(g, image, k, junk), l) ==
            Probe(Damaged(g, image, k, junk), Done, StateOf(g, contents, l))
  {
    hide HintFails, Cell, HintCell, EntryCell, LastWritten, Damaged, ProbeRegion, StateOf, Settle;
    assert RegionHolds(g, image, contents, {}, l);
    var damaged := Damaged(g, image, k, junk);
    forall i: nat | IsSlot(g, l, i)
      ensures Cell(g, damaged, l, i) == Cell(g, image, l, i)
    {
      DamagedCells(g, image, k, junk, l, i);
    }
    ProbeSettles(g, damaged, l, |contents[l]|);
    SettleRegion(g, damaged, contents, l);
  }

  /** A scan that passes over used regions, and looking for room over full ones, fails at the first that fails it. */
  lemma {:induction false} ScanFails(g: Geometry, image: seq<byte>, contents: Contents, j: nat, k: nat,
                                     callback: HintCallback, state: HintState)
    requires Shaped(g, contents) && j <= k < Regions(g)
    requires forall l :: j <= l < k ==>
               contents[l] != [] && ProbeRegion(g, image, l) == Probe(image, Done, StateOf(g, contents, l))
    requires ProbeRegion(g, image, k).status == Failed
    requires callback.FindOldest? || callback.CheckFree?
    requires callback.CheckFree? ==> forall l :: j <= l < k ==> |contents[l]| == Capacity(g)
    ensures var t := VisitRegions(g, image, Sweep(j, Regions(g)), callback, state, LOOP_OK);
            t.status == Failed && t.image == ProbeRegion(g, image, k).image
    decreases k - j
  {
    hide ProbeRegion, StateOf, VisitRegions, VisitFree, WalkBlocks;
    VisitSweep(g, image, j, Regions(g), callback, state, LOOP_OK);
    if j < k {
      StateFields(g, contents, j);
      FreeAsRoom(g, contents, j);
      var step := RegionAt(g, image, j, callback, LOOP_OK);
      ScanFails(g, image, contents, j + 1, k, step.callback, step.state);
    }
  }

  /**
   What that costs: the first call that comes to the region, which returns 1 having printed,
   counted or stored nothing. Every later call is answered as if the hint block had never
   been lost.
   */
  lemma LossAtTheEndCostsOneCall(g: Geometry, image: seq<byte>, contents: Contents, junk: seq<byte>, op: Op,
                                 ops: seq<Op>)
    requires LostAtTheEnd(g, image, contents, junk)
    requires forall l :: 0 <= l < Regions(g) - 1 ==> contents[l] != []
    requires op.Write? ==>
               && 268435456 <= g.deviceSize
               && forall l :: 0 <= l < Regions(g) - 1 ==> |contents[l]| == Capacity(g)
    ensures Shaped(g, contents)
    ensures var failed := Execute(g, Damaged(g, image, Regions(g) - 1, junk), op);
            && failed.1 == (match op
                            case Write(_) => Wrote(Returns(1))
                            case Read(_, _) => Printed(Returns(1), [])
                            case Update(_, _, _) => Rewrote(Returns(1), 0))
            && Intact(g, failed.0, contents)
            && Run(g, failed.0, ops).1 == Play(g, contents, ops).1
  {
    hide Represents, Backed, HintFails, Damaged, Cell, ProbeRegion, StateOf, VisitRegions, Run, Play;
    RepresentsShaped(g, image, contents, {});
    var k := Regions(g) - 1;
    var damaged := Damaged(g, image, k, junk);
    var after := ProbeRegion(g, damaged, k).image;
    forall l: nat, i: nat | IsSlot(g, l, i)
      ensures ProbeRegion(g, damaged, k).status == Failed && Sized(g, after)
      ensures Cell(g, after, l, i) == Cell(g, image, l, i)
    {
      LossAtTheEndFails(g, image, contents, junk, l, i);
    }
    assert IsSlot(g, k, 1);
    SameSlots(g, image, after, contents);
    forall l | 0 <= l < k
      ensures ProbeRegion(g, damaged, l) == Probe(damaged, Done, StateOf(g, contents, l))
    {
      ScansInFront(g, image, contents, k, junk, l);
    }
    WholeSweep(g);
    ScanFails(g, damaged, contents, 0, k, if op.Write? then CheckFree(0, 0)
                                         else FindOldest(if op.Read? then op.gteq else op.min, U64_MAX, ZERO_STATE),
              ZERO_STATE);
    var lost := RunIsPlay(g, after, contents, {}, ops);
  }

  /**
   Exactly when the loss of a hint block goes unnoticed: a scan of the region and of the
   one after it reports what it did before if and only if the region after it is in use,
   or the region is the last and the copy still fits behind it.
   */
  lemma LossIsInvisibleExactly(g: Geometry, image: seq<byte>, contents: Contents, k: nat, junk: seq<byte>)
    requires Intact(g, image, contents) && k < Regions(g) && contents[k] != []
    requires |junk| == g.blockSize && HintFails(junk)
    ensures var probe := ProbeRegion(g, Damaged(g, image, k, junk), k);
            var next := ProbeRegion(g, probe.image, k + 1);
            (if k + 1 < Regions(g) then contents[k + 1] != []
             else HintPos(g, k) + HALF_SPACING + g.blockSize < g.deviceSize) <==>
            && probe.status == Done && probe.state == ProbeRegion(g, image, k).state
            && (k + 1 < Regions(g) ==> next.status == Done && next.state == ProbeRegion(g, image, k + 1).state)
  {
    hide Represents, HintFails, Damaged, Cell, HintCell, LastWritten, ProbeRegion, StateOf;
    RepresentsShaped(g, image, contents, {});
    ProbeFindsContents(g, image, contents, {}, k);
    if k + 1 < Regions(g) {
      ProbeFindsContents(g, image, contents, {}, k + 1);
    }
    if Recoverable(g, contents, {}, k) {
      LosingKeepsContents(g, image, contents, {}, k, junk);
      var damaged := Damaged(g, image, k, junk);
      ProbeFindsContents(g, damaged, contents, {} + {k}, k);
      if k + 1 < Regions(g) {
        ProbeFindsContents(g, ProbeRegion(g, damaged, k).image, contents, {} + {k} - {k}, k + 1);
      }
    } else if k + 1 < Regions(g) {
      LossBeforeUnusedShows(g, image, contents, k, junk);
      UnusedState(g, contents, k + 1);
    } else {
      LossAtTheEndFails(g, image, contents, junk, k, 1);
    }
  }

  lemma UnusedState(g: Geometry, contents: Contents, k: nat)
    requires Shaped(g, contents) && k < Regions(g) && contents[k] == []
    ensures !StateOf(g, contents, k).valid
  {
  }
}
