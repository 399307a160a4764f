/**
 Undamaged devices: every hint block and every backup is in order. On them the bytes
 after each call are known exactly.
 */
module Undamaged {
  import opened Bytes
  import opened Layout
  import opened Io
  import opened Codec
  import opened Blocks
  import opened Traversal
  import opened Writing
  import opened Reading
  import opened Updating
  import opened Ring
  import opened Simulation
  import opened Machine

  /** The backup of every region in use has the bytes of its hint block. */
  predicate Backed(g: Geometry, image: seq<byte>, contents: Contents)
    requires Sized(g, image) && Shaped(g, contents)
  {
    forall k :: 0 <= k < Regions(g) && contents[k] != [] ==>
                  Cell(g, image, k, Half(g)) == HintCell(g, LastWritten(g, k, |contents[k]|))
  }

  predicate Intact(g: Geometry, image: seq<byte>, contents: Contents) {
    Represents(g, image, contents, {}) && Backed(g, image, contents)
  }

  /** On an undamaged device the hint block and the backup of a region in use hold the same bytes. */
  lemma HintsAgree(g: Geometry, image: seq<byte>, contents: Contents, k: nat)
    requires Intact(g, image, contents) && k < Regions(g) && contents[k] != []
    ensures Cell(g, image, k, Half(g)) == Cell(g, image, k, Slots(g))
  {
    hide Cell, HintCell;
    assert RegionHolds(g, image, contents, {}, k);
  }

  lemma BlankIsIntact(g: Geometry, image: seq<byte>)
    requires Blank(g, image)
    ensures Intact(g, image, NoEntries(g))
  {
    hide Represents, Cell, HintCell;
    BlankHoldsNothing(g, image);
  }

  /** The bytes after a complete write. */
  function FinalImage(g: Geometry, image: seq<byte>, contents: Contents, k: nat, e: Entry): (s: seq<byte>)
    requires Sized(g, image) && |contents| == Regions(g) && k < Regions(g) && Fits(g, e)
    ensures Sized(g, s)
  {
    NamedSlots(g, k);
    Splice(PrimaryImage(g, image, contents, k, e), BackupPos(g, k), HintCell(g, NewHint(g, contents, k)))
  }

  lemma FinalCells(g: Geometry, image: seq<byte>, contents: Contents, k: nat, e: Entry, l: nat, i: nat)
    requires Sized(g, image) && |contents| == Regions(g) && k < Regions(g) && Fits(g, e) && IsSlot(g, l, i)
    ensures Cell(g, FinalImage(g, image, contents, k, e), l, i) ==
            if (l, i) == (k, Slots(g)) || (l, i) == (k, Half(g)) then HintCell(g, NewHint(g, contents, k))
            else if (l, i) == (k, SlotOf(g, NextSlotOf(g, contents[k]))) then EntryCell(g, e)
            else Cell(g, image, l, i)
  {
    hide Cell, EntryCell, HintCell, LastWritten, PrimaryImage;
    NamedSlots(g, k);
    PrimaryCells(g, image, contents, k, e, l, i);
    WriteCell(g, PrimaryImage(g, image, contents, k, e), k, Half(g), HintCell(g, NewHint(g, contents, k)), l, i);
  }

  lemma FinalIsBacked(g: Geometry, image: seq<byte>, contents: Contents, k: nat, e: Entry)
    requires Intact(g, image, contents) && k < Regions(g) && Fits(g, e)
    ensures Shaped(g, Placed(g, contents, k, e))
    ensures Backed(g, FinalImage(g, image, contents, k, e), Placed(g, contents, k, e))
  {
    hide Cell, EntryCell, HintCell, LastWritten, FinalImage, RegionHolds;
    PlacedIsShaped(g, contents, k, e);
    forall l | 0 <= l < Regions(g) && Placed(g, contents, k, e)[l] != []
      ensures Cell(g, FinalImage(g, image, contents, k, e), l, Half(g)) ==
              HintCell(g, LastWritten(g, l, |Placed(g, contents, k, e)[l]|))
    {
      FinalCells(g, image, contents, k, e, l, Half(g));
    }
  }

  lemma BackupPut(g: Geometry, image: seq<byte>, contents: Contents, k: nat, e: Entry)
    requires Intact(g, image, contents) && k < Regions(g) && Fits(g, e)
    ensures PutHint(g, PrimaryImage(g, image, contents, k, e), NewHint(g, contents, k), 0, BackupPos(g, k)) ==
            Stored(FinalImage(g, image, contents, k, e), true)
  {
    hide Cell, EntryCell, HintCell, HintFails, LastWritten, PutHint, DataHolds, PrimaryImage;
    assert RegionHolds(g, image, contents, {}, k);
    NamedSlots(g, k);
    PrimaryCells(g, image, contents, k, e, k, Half(g));
    var earlier := if contents[k] == [] then 0 else LastWritten(g, k, |contents[k]|);
    PutHintInSlot(g, PrimaryImage(g, image, contents, k, e), NewHint(g, contents, k), k, Half(g), earlier);
  }

  lemma FinalRepresents(g: Geometry, image: seq<byte>, contents: Contents, k: nat, e: Entry)
    requires Intact(g, image, contents) && k < Regions(g) && Fits(g, e)
    ensures Represents(g, FinalImage(g, image, contents, k, e), Placed(g, contents, k, e), {})
  {
    hide Represents, Backed, PutHint, FinalImage, PrimaryImage;
    BackupPut(g, image, contents, k, e);
    BackupStage(g, image, contents, {}, k, e);
    assert {} - {k} == {};
  }

  /** The bytes of an undamaged device after write_put_block: three slots when it stores, none when it refuses. */
  lemma WriteExactly(g: Geometry, image: seq<byte>, contents: Contents, request: Request)
    requires Intact(g, image, contents)
    ensures match Intention(g, contents, request)
            case Decline(ending) => WriteEntry(g, image, request) == Written(image, ending)
            case Intend(k, e) =>
              && WriteEntry(g, image, request) == Written(FinalImage(g, image, contents, k, e), Returns(0))
              && Intact(g, FinalImage(g, image, contents, k, e), Placed(g, contents, k, e))
  {
    hide Represents, Backed, PlanWrite, StateOf, Intention, PutData, PutHint, PrimaryImage, DataImage, FinalImage,
         Placed;
    var lost' := PlanIsIntention(g, image, contents, {}, request);
    match Intention(g, contents, request)
    case Decline(_) =>
    case Intend(k, e) =>
      DataStage(g, image, contents, {}, k, e);
      PrimaryPut(g, image, contents, {}, k, e);
      BackupPut(g, image, contents, k, e);
      FinalRepresents(g, image, contents, k, e);
      FinalIsBacked(g, image, contents, k, e);
      StateFields(g, contents, k);
      DataPosIsSafe(g, k, NextSlotOf(g, contents[k]));
  }

  /** Outside its three slots a write changes nothing: not the header, not another region, not the tail. */
  lemma WriteFootprint(g: Geometry, image: seq<byte>, contents: Contents, k: nat, e: Entry, at: nat)
    requires Sized(g, image) && |contents| == Regions(g) && k < Regions(g) && Fits(g, e) && at < |image|
    requires forall j :: j == SlotOf(g, NextSlotOf(g, contents[k])) || j == Half(g) || j == Slots(g) ==>
                           at < SlotPos(g, k, j) || SlotPos(g, k, j) + g.blockSize <= at
    ensures FinalImage(g, image, contents, k, e)[at] == image[at]
  {
    hide EntryCell, HintCell, SlotPos;
    NamedSlots(g, k);
    assert DataImage(g, image, contents, k, e)[at] == image[at];
    assert PrimaryImage(g, image, contents, k, e)[at] == image[at];
  }

  lemma UpdateKeepsBacked(g: Geometry, image: seq<byte>, image': seq<byte>, contents: Contents, contents': Contents)
    requires OnlyData(g, image, image') && Shaped(g, contents) && Shaped(g, contents') && Backed(g, image, contents)
    requires forall k :: 0 <= k < Regions(g) ==> |contents'[k]| == |contents[k]|
    ensures Backed(g, image', contents')
  {
  }

  lemma {:induction false} TourKeepsLengths(g: Geometry, contents: Contents, ks: seq<nat>, callback: HintCallback,
                                            state: HintState, result: bv32)
    requires Shaped(g, contents) && forall i :: 0 <= i < |ks| ==> ks[i] < Regions(g)
    ensures var tour := TourRegions(g, contents, ks, callback, state, result);
            && Shaped(g, tour.contents)
            && forall k :: 0 <= k < Regions(g) ==> |tour.contents[k]| == |contents[k]|
    decreases |ks|
  {
    hide WalkEntries, StateOf, VisitFree;
    if ks == [] {
    } else {
      MetIsShaped(g, contents, ks[0], callback, result);
      var met := MeetRegion(g, contents, ks[0], callback, result);
      if met.result != LOOP_BREAK {
        TourKeepsLengths(g, met.contents, ks[1..], met.callback, StateOf(g, contents, ks[0]), met.result);
      }
    }
  }

  lemma PassedKeepsLengths(g: Geometry, contents: Contents, callback: BlockCallback)
    requires Shaped(g, contents)
    ensures Shaped(g, Passed(g, contents, callback).0)
    ensures forall k :: 0 <= k < Regions(g) ==> |Passed(g, contents, callback).0[k]| == |contents[k]|
  {
    hide StartRegion, TourRegions;
    var m := StartRegion(g, contents, callback.gteq);
    if m < Regions(g) {
      TourKeepsLengths(g, contents, Rotation(g, m), OverBlocks(callback), ZERO_STATE, LOOP_OK);
    }
  }

  /** An update of an undamaged device leaves every hint block, every backup, the header and the tail as they are. */
  lemma UpdateExactly(g: Geometry, image: seq<byte>, contents: Contents, min: u64, mask: u64, test: Entry -> UpdateInfo)
    requires Intact(g, image, contents)
    ensures var u := UpdateEntries(g, image, min, mask, test);
            var passed := Passed(g, contents, Rewrite(min, mask, test, 0));
            && u.ending == Returns(0) && u.count == passed.1.count
            && Intact(g, u.image, passed.0)
            && OnlyData(g, image, u.image)
  {
    hide Represents, Passed, UpdateEntries, OnlyData, Backed;
    RepresentsShaped(g, image, contents, {});
    var lost' := UpdateIsAPass(g, image, contents, {}, min, mask, test);
    assert lost' == {};
    PassedKeepsLengths(g, contents, Rewrite(min, mask, test, 0));
    UpdateKeepsBacked(g, image, UpdateEntries(g, image, min, mask, test).image, contents,
                      Passed(g, contents, Rewrite(min, mask, test, 0)).0);
  }

  lemma ReadExactly(g: Geometry, image: seq<byte>, contents: Contents, gteq: u64, limit: u64)
    requires Intact(g, image, contents)
    ensures ReadEntries(g, image, gteq, limit) ==
            Report(image, Returns(0), Passed(g, contents, Emit(gteq, limit, [])).1.output)
  {
    hide Represents, Passed, ReadEntries, Backed;
    var lost' := ReadIsAPass(g, image, contents, {}, gteq, limit);
  }
}
