/**
 Runs of writes, reads and updates: the program on the device answers every call as
 the machine does, and what every run keeps, whatever timestamps it is given.
 */
module Runs {
  import opened Bytes
  import opened Layout
  import opened Codec
  import opened Blocks
  import opened Traversal
  import opened Writing
  import opened Reading
  import opened Updating
  import opened Ring
  import opened Simulation
  import opened Machine
  import opened Undamaged

  datatype Op =
    | Write(request: Request)
    | Read(gteq: u64, limit: u64)
    | Update(min: u64, mask: u64, test: Entry -> UpdateInfo)

  datatype Reply =
    | Wrote(ending: Ending)
    | Printed(ending: Ending, output: seq<Entry>)
    | Rewrote(ending: Ending, count: nat)

  // ----- On the device -----

  function Execute(g: Geometry, image: seq<byte>, op: Op): (seq<byte>, Reply) {
    match op
    case Write(request) =>
      var w := WriteEntry(g, image, request);
      (w.image, Wrote(w.ending))
    case Read(gteq, limit) =>
      var r := ReadEntries(g, image, gteq, limit);
      (r.image, Printed(r.ending, r.output))
    case Update(min, mask, test) =>
      var u := UpdateEntries(g, image, min, mask, test);
      (u.image, Rewrote(u.ending, u.count))
  }

  function Run(g: Geometry, image: seq<byte>, ops: seq<Op>): (seq<byte>, seq<Reply>)
    decreases |ops|
  {
    if ops == [] then (image, [])
    else
      var (image1, reply) := Execute(g, image, ops[0]);
      var (image2, replies) := Run(g, image1, ops[1..]);
      (image2, [reply] + replies)
  }

  // ----- On the contents -----

  function Act(g: Geometry, contents: Contents, op: Op): (a: (Contents, Reply))
    requires Shaped(g, contents)
    ensures Shaped(g, a.0)
  {
    match op
    case Write(request) =>
      (match Intention(g, contents, request)
       case Decline(ending) => (contents, Wrote(ending))
       case Intend(k, e) =>
         PlacedIsShaped(g, contents, k, e);
         (Placed(g, contents, k, e), Wrote(Returns(0))))
    case Read(gteq, limit) =>
      (contents, Printed(Returns(0), Passed(g, contents, Emit(gteq, limit, [])).1.output))
    case Update(min, mask, test) =>
      var passed := Passed(g, contents, Rewrite(min, mask, test, 0));
      PassedKeepsLengths(g, contents, Rewrite(min, mask, test, 0));
      (passed.0, Rewrote(Returns(0), passed.1.count))
  }

  function Play(g: Geometry, contents: Contents, ops: seq<Op>): (p: (Contents, seq<Reply>))
    requires Shaped(g, contents)
    ensures Shaped(g, p.0)
    decreases |ops|
  {
    if ops == [] then (contents, [])
    else
      var (contents1, reply) := Act(g, contents, ops[0]);
      var (contents2, replies) := Play(g, contents1, ops[1..]);
      (contents2, [reply] + replies)
  }

  // ----- They agree -----

  lemma ExecuteIsAct(g: Geometry, image: seq<byte>, contents: Contents, lost: set<nat>, op: Op)
    returns (lost': set<nat>)
    requires Represents(g, image, contents, lost)
    ensures Shaped(g, contents)
    ensures Execute(g, image, op).1 == Act(g, contents, op).1
    ensures Represents(g, Execute(g, image, op).0, Act(g, contents, op).0, lost')
    ensures lost' <= lost
  {
    hide Represents, WriteEntry, ReadEntries, UpdateEntries, Intention, Passed, OnlyData;
    RepresentsShaped(g, image, contents, lost);
    match op
    case Write(request) =>
      lost' := WriteIsPlacing(g, image, contents, lost, request);
    case Read(gteq, limit) =>
      lost' := ReadIsAPass(g, image, contents, lost, gteq, limit);
    case Update(min, mask, test) =>
      lost' := UpdateIsAPass(g, image, contents, lost, min, mask, test);
  }

  /** Every run on a device that represents some contents gets the replies of the machine, lost hint blocks or not. */
  lemma {:induction false} RunIsPlay(g: Geometry, image: seq<byte>, contents: Contents, lost: set<nat>, ops: seq<Op>)
    returns (lost': set<nat>)
    requires Represents(g, image, contents, lost)
    ensures Shaped(g, contents)
    ensures Run(g, image, ops).1 == Play(g, contents, ops).1
    ensures Represents(g, Run(g, image, ops).0, Play(g, contents, ops).0, lost')
    ensures lost' <= lost
    decreases |ops|
  {
    hide Represents, Execute, Act;
    RepresentsShaped(g, image, contents, lost);
    lost' := lost;
    if ops == [] {
    } else {
      lost' := ExecuteIsAct(g, image, contents, lost, ops[0]);
      lost' := RunIsPlay(g, Execute(g, image, ops[0]).0, Act(g, contents, ops[0]).0, lost', ops[1..]);
    }
  }

  lemma ExecuteKeepsIntact(g: Geometry, image: seq<byte>, contents: Contents, op: Op)
    requires Intact(g, image, contents)
    ensures Shaped(g, contents)
    ensures Intact(g, Execute(g, image, op).0, Act(g, contents, op).0)
  {
    hide Represents, Backed, WriteEntry, ReadEntries, UpdateEntries, Intention, Passed, OnlyData, FinalImage, Placed;
    RepresentsShaped(g, image, contents, {});
    match op
    case Write(request) => WriteExactly(g, image, contents, request);
    case Read(gteq, limit) => ReadExactly(g, image, contents, gteq, limit);
    case Update(min, mask, test) => UpdateExactly(g, image, contents, min, mask, test);
  }

  lemma {:induction false} RunKeepsIntact(g: Geometry, image: seq<byte>, contents: Contents, ops: seq<Op>)
    requires Intact(g, image, contents)
    ensures Shaped(g, contents)
    ensures Intact(g, Run(g, image, ops).0, Play(g, contents, ops).0)
    decreases |ops|
  {
    hide Represents, Backed, Execute, Act;
    RepresentsShaped(g, image, contents, {});
    if ops == [] {
    } else {
      ExecuteKeepsIntact(g, image, contents, ops[0]);
      RunKeepsIntact(g, Execute(g, image, ops[0]).0, Act(g, contents, ops[0]).0, ops[1..]);
    }
  }

  // ----- What every run keeps -----

  /** Timestamps strictly increase, and stay between 1 and the sentinel. */
  predicate Ascending(entries: seq<Entry>) {
    && (forall i, j :: 0 <= i < j < |entries| ==> entries[i].timestamp < entries[j].timestamp)
    && (forall i :: 0 <= i < |entries| ==> 1 <= entries[i].timestamp < U64_MAX)
  }

  /** Used regions come first, at most one of them has room, and each is in timestamp order. */
  predicate Orderly(g: Geometry, contents: Contents)
    requires |contents| == Regions(g)
  {
    && (forall i, j :: 0 <= i < j < Regions(g) && contents[j] != [] ==> contents[i] != [])
    && (forall i, j :: 0 <= i < j < Regions(g) && contents[i] != [] && contents[j] != [] ==>
          !HasRoom(g, contents[i]) || !HasRoom(g, contents[j]))
    && (forall k :: 0 <= k < Regions(g) ==> Ascending(contents[k]))
  }

  /** No write of the run stores the sentinel timestamp. */
  predicate BelowSentinel(g: Geometry, contents: Contents, op: Op)
    requires Shaped(g, contents)
  {
    op.Write? && Intention(g, contents, op.request).Intend? ==>
      Intention(g, contents, op.request).entry.timestamp < U64_MAX
  }

  predicate RunBelowSentinel(g: Geometry, contents: Contents, ops: seq<Op>)
    requires Shaped(g, contents)
    decreases |ops|
  {
    ops != [] ==> BelowSentinel(g, contents, ops[0]) && RunBelowSentinel(g, Act(g, contents, ops[0]).0, ops[1..])
  }

  /** The timestamp of an accepted write is above all that its region holds, and the region is the first with room
      unless all are full. */
  lemma IntentionFacts(g: Geometry, contents: Contents, request: Request)
    requires Shaped(g, contents) && Intention(g, contents, request).Intend?
    ensures var i := Intention(g, contents, request);
            && (LastTimestamp(contents[i.k]) < U64_MAX ==> LastTimestamp(contents[i.k]) < i.entry.timestamp)
            && (HasRoom(g, contents[i.k]) ==> forall l :: 0 <= l < i.k ==> !HasRoom(g, contents[l]))
            && (!HasRoom(g, contents[i.k]) ==> forall l :: 0 <= l < Regions(g) ==> !HasRoom(g, contents[l]))
  {
  }

  lemma AppendAscends(entries: seq<Entry>, e: Entry)
    requires Ascending(entries) && LastTimestamp(entries) < e.timestamp < U64_MAX
    ensures Ascending(entries + [e]) && Ascending([e])
  {
  }

  lemma LastBelowSentinel(entries: seq<Entry>)
    requires Ascending(entries)
    ensures LastTimestamp(entries) < U64_MAX
  {
  }

  lemma PlacingKeepsOrder(g: Geometry, contents: Contents, request: Request)
    requires Shaped(g, contents) && Orderly(g, contents) && BelowSentinel(g, contents, Write(request))
    requires Intention(g, contents, request).Intend?
    ensures var i := Intention(g, contents, request); Orderly(g, Placed(g, contents, i.k, i.entry))
  {
    hide Intention, Ascending;
    var k, e := Intention(g, contents, request).k, Intention(g, contents, request).entry;
    IntentionFacts(g, contents, request);
    LastBelowSentinel(contents[k]);
    AppendAscends(contents[k], e);
  }

  /** Same lengths, same timestamps. */
  predicate SameTimes(g: Geometry, contents: Contents, contents': Contents) {
    && |contents| == |contents'| == Regions(g)
    && (forall k :: 0 <= k < Regions(g) ==> |contents'[k]| == |contents[k]|)
    && (forall k, d :: 0 <= k < Regions(g) && 0 <= d < |contents[k]| ==>
          contents'[k][d].timestamp == contents[k][d].timestamp)
  }

  lemma {:induction false} TourKeepsTimes(g: Geometry, contents: Contents, ks: seq<nat>, callback: HintCallback,
                                          state: HintState, result: bv32)
    requires Shaped(g, contents) && forall i :: 0 <= i < |ks| ==> ks[i] < Regions(g)
    ensures SameTimes(g, contents, TourRegions(g, contents, ks, callback, state, result).contents)
    decreases |ks|
  {
    hide WalkEntries, StateOf, VisitFree, LastTimestamp;
    if ks == [] {
    } else {
      var met := MeetRegion(g, contents, ks[0], callback, result);
      if callback.OverBlocks? {
        PassFits(g, contents[ks[0]], callback.blocks);
      }
      MetIsShaped(g, contents, ks[0], callback, result);
      if met.result != LOOP_BREAK {
        TourKeepsTimes(g, met.contents, ks[1..], met.callback, StateOf(g, contents, ks[0]), met.result);
      }
    }
  }

  lemma PassedKeepsTimes(g: Geometry, contents: Contents, callback: BlockCallback)
    requires Shaped(g, contents)
    ensures SameTimes(g, contents, Passed(g, contents, callback).0)
  {
    hide StartRegion, TourRegions;
    var m := StartRegion(g, contents, callback.gteq);
    if m < Regions(g) {
      TourKeepsTimes(g, contents, Rotation(g, m), OverBlocks(callback), ZERO_STATE, LOOP_OK);
    }
  }

  lemma SameTimesKeepOrder(g: Geometry, contents: Contents, contents': Contents)
    requires |contents| == Regions(g) && Orderly(g, contents) && SameTimes(g, contents, contents')
    ensures Orderly(g, contents')
  {
  }

  lemma ActKeepsOrder(g: Geometry, contents: Contents, op: Op)
    requires Shaped(g, contents) && Orderly(g, contents) && BelowSentinel(g, contents, op)
    ensures Orderly(g, Act(g, contents, op).0)
  {
    hide Intention, Passed, Orderly, Placed;
    match op
    case Write(request) =>
      if Intention(g, contents, request).Intend? {
        PlacingKeepsOrder(g, contents, request);
      }
    case Read(_, _) =>
    case Update(min, mask, test) =>
      PassedKeepsTimes(g, contents, Rewrite(min, mask, test, 0));
      SameTimesKeepOrder(g, contents, Passed(g, contents, Rewrite(min, mask, test, 0)).0);
  }

  lemma {:induction false} PlayKeepsOrder(g: Geometry, contents: Contents, ops: seq<Op>)
    requires Shaped(g, contents) && Orderly(g, contents) && RunBelowSentinel(g, contents, ops)
    ensures Orderly(g, Play(g, contents, ops).0)
    decreases |ops|
  {
    hide Act, Orderly;
    if ops == [] {
    } else {
      ActKeepsOrder(g, contents, ops[0]);
      PlayKeepsOrder(g, Act(g, contents, ops[0]).0, ops[1..]);
    }
  }

  /**
   From a blank device, whatever is written, read and updated in whatever order and with
   whatever timestamps below the sentinel: the device stays undamaged and orderly.
   */
  lemma EveryRunKeeps(g: Geometry, image: seq<byte>, ops: seq<Op>)
    requires Blank(g, image) && RunBelowSentinel(g, NoEntries(g), ops)
    ensures Intact(g, Run(g, image, ops).0, Play(g, NoEntries(g), ops).0)
    ensures Orderly(g, Play(g, NoEntries(g), ops).0)
    ensures Run(g, image, ops).1 == Play(g, NoEntries(g), ops).1
  {
    hide Blank, Intact, Play, Run, RunBelowSentinel, Represents;
    BlankIsIntact(g, image);
    BlankHoldsNothing(g, image);
    RunKeepsIntact(g, image, NoEntries(g), ops);
    PlayKeepsOrder(g, NoEntries(g), ops);
    var lost := RunIsPlay(g, image, NoEntries(g), {}, ops);
  }

  /** The slots up to the last one written hold the entries. */
  lemma UsedSlot(g: Geometry, contents: Contents, k: nat, j: nat)
    requires Shaped(g, contents) && k < Regions(g) && contents[k] != []
    requires 1 <= j <= Slots(g) && j != Half(g)
    requires SlotPos(g, k, j) <= LastWritten(g, k, |contents[k]|) as nat
    ensures DataBefore(g, j) < |contents[k]|
    ensures SlotOf(g, DataBefore(g, j)) == j
  {
    hide SlotPos;
    SlotOfInverse(g, DataBefore(g, j), j);
    SlotOfInverse(g, |contents[k]| - 1, j);
    SlotNear(g, k, j, SlotOf(g, |contents[k]| - 1));
  }

  lemma NoneAboveLast(entries: seq<Entry>, d: nat)
    requires Ascending(entries) && d < |entries|
    ensures 1 <= entries[d].timestamp <= LastTimestamp(entries)
  {
  }

  /** In an undamaged, orderly device every slot up to the one the hint block points to, but the backup's, holds a
      valid block, and the timestamp a scan reports is the largest of them. */
  lemma UsedSlotsAreValid(g: Geometry, image: seq<byte>, contents: Contents, k: nat, j: nat)
    requires Intact(g, image, contents) && Orderly(g, contents) && k < Regions(g) && contents[k] != []
    requires 1 <= j <= Slots(g) && j != Half(g)
    requires SlotPos(g, k, j) <= ProbeRegion(g, image, k).state.hint.previousBlockPos
    ensures var state := ProbeRegion(g, image, k).state;
            && state.valid
            && BlockCheck(Cell(g, image, k, j)) == 0
            && 1 <= HeaderOf(Cell(g, image, k, j)).timestamp <= state.highestTimestamp
  {
    hide Backed, BlockCheck, HeaderOf, ProbeRegion, Cell, EntryCell, HintHolds, HintOfRegion, LastWritten, SlotPos,
         Half, SlotOf, Ascending, LastTimestamp;
    assert RegionHolds(g, image, contents, {}, k);
    ProbeUsed(g, image, contents, {}, k);
    HintOfRegionPoints(g, LastWritten(g, k, |contents[k]|));
    UsedSlot(g, contents, k, j);
    var d := DataBefore(g, j);
    EntryCellReadsBack(g, contents[k][d]);
    NoneAboveLast(contents[k], d);
  }
}
