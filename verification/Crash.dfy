/**
 Writes that stop halfway. write_put_block makes three block writes: the data block,
 the hint block, the backup. `Interrupted` is the device after the first of them.
 */
module Crash {
  import opened Bytes
  import opened Layout
  import opened Codec
  import opened Blocks
  import opened Traversal
  import opened Writing
  import opened Reading
  import opened Ring
  import opened Simulation
  import opened Machine
  import opened Undamaged
  import opened Runs
  import opened Queue
  import opened Log

  /** What an interrupted write leaves, in terms of entries. */
  function Left(g: Geometry, contents: Contents, k: nat, e: Entry, blocks: nat): Contents
    requires |contents| == Regions(g) && k < Regions(g)
  {
    if blocks == 0 then contents else if blocks == 1 then Torn(g, contents, k, e) else Placed(g, contents, k, e)
  }

  lemma InterruptedRepresents(g: Geometry, image: seq<byte>, contents: Contents, lost: set<nat>, request: Request,
                              blocks: nat)
    returns (lost': set<nat>)
    requires Represents(g, image, contents, lost)
    ensures Shaped(g, contents)
    ensures match Intention(g, contents, request)
            case Decline(_) => Represents(g, Interrupted(g, image, request, blocks), contents, lost')
            case Intend(k, e) => Represents(g, Interrupted(g, image, request, blocks), Left(g, contents, k, e, blocks),
                                            lost')
    ensures lost' <= lost
  {
    hide Represents, PlanWrite, StateOf, Intention, PutData, PutHint, PrimaryImage, DataImage, Placed, WriteEntry, Torn;
    RepresentsShaped(g, image, contents, lost);
    lost' := PlanIsIntention(g, image, contents, lost, request);
    match Intention(g, contents, request)
    case Decline(_) =>
    case Intend(k, e) =>
      var planned := PlanWrite(g, image, request).image;
      DataStage(g, planned, contents, lost', k, e);
      PrimaryPut(g, planned, contents, lost', k, e);
      StateFields(g, contents, k);
      if blocks == 2 {
        PrimaryStage(g, planned, contents, lost', k, e);
        lost' := lost' - {k};
      } else if blocks > 2 {
        lost' := WriteIsPlacing(g, image, contents, lost, request);
      }
  }

  // ----- Retrying -----

  /** Overwriting the first entry of a full region does not change what the next write does. */
  lemma SameTargetTorn(g: Geometry, contents: Contents, k: nat, e: Entry, i: nat, best: nat)
    requires Shaped(g, contents) && k < Regions(g) && i <= Regions(g) && best <= Regions(g)
    ensures FirstWithRoom(g, Torn(g, contents, k, e), i) == FirstWithRoom(g, contents, i)
    ensures OldestRegion(g, Torn(g, contents, k, e), i, best) == OldestRegion(g, contents, i, best)
    decreases Regions(g) - i
  {
    LastInTorn(g, contents, k, e);
    hide Torn, LastTimestamp;
    if i == Regions(g) {
    } else {
      SameTargetTorn(g, contents, k, e, i + 1, Better(g, contents, i, best));
    }
  }

  lemma LastInTorn(g: Geometry, contents: Contents, k: nat, e: Entry)
    requires Shaped(g, contents) && k < Regions(g)
    ensures |Torn(g, contents, k, e)| == Regions(g)
    ensures forall l :: 0 <= l < Regions(g) ==> |Torn(g, contents, k, e)[l]| == |contents[l]|
    ensures forall l :: 0 <= l < Regions(g) ==> LastTimestamp(Torn(g, contents, k, e)[l]) == LastTimestamp(contents[l])
    ensures forall l :: 0 <= l < Regions(g) && l != k ==> Torn(g, contents, k, e)[l] == contents[l]
  {
  }

  /**
   A write with a timestamp of its own that stopped after the data block can simply be
   repeated: the device ends up byte for byte as if it had not been interrupted.
   */
  lemma RetryCompletes(g: Geometry, image: seq<byte>, contents: Contents, request: Request, now: u64)
    requires Intact(g, image, contents) && request.timestamp != 0
    ensures WriteEntry(g, Interrupted(g, image, request, 1), request.(now := now)) == WriteEntry(g, image, request)
  {
    hide Represents, Backed, PlanWrite, StateOf, Decide, PutData, PrimaryImage, DataImage, Placed, FinalImage,
         WriteEntry, Target, Torn;
    RepresentsShaped(g, image, contents, {});
    var lost := PlanIsIntention(g, image, contents, {}, request);
    WriteExactly(g, image, contents, request);
    if Intention(g, contents, request).Intend? {
      var k, e := Intention(g, contents, request).k, Intention(g, contents, request).entry;
      DataStage(g, image, contents, {}, k, e);
      PlacedIsShaped(g, contents, k, e);
      TornIsBacked(g, image, contents, k, e);
      SameIntentionTorn(g, contents, request, k, e);
      WriteExactly(g, DataImage(g, image, contents, k, e), Torn(g, contents, k, e), request.(now := now));
      SameFinalImage(g, image, contents, k, e);
    } else {
      SameIntentionLater(g, contents, request, now);
      WriteExactly(g, image, contents, request.(now := now));
    }
  }

  lemma SameIntentionLater(g: Geometry, contents: Contents, request: Request, now: u64)
    requires Shaped(g, contents) && request.timestamp != 0
    ensures Intention(g, contents, request.(now := now)) == Intention(g, contents, request)
  {
  }

  lemma SameIntentionTorn(g: Geometry, contents: Contents, request: Request, k: nat, e: Entry)
    requires Shaped(g, contents) && k < Regions(g)
    ensures |Torn(g, contents, k, e)| == Regions(g)
    ensures Intention(g, Torn(g, contents, k, e), request) == Intention(g, contents, request)
    ensures forall now :: request.timestamp != 0 ==>
              Intention(g, Torn(g, contents, k, e), request.(now := now)) == Intention(g, contents, request)
  {
    hide Torn, FirstWithRoom, OldestRegion, LastTimestamp, Decide;
    LastInTorn(g, contents, k, e);
    SameTargetTorn(g, contents, k, e, 0, Regions(g));
  }

  lemma TornIsBacked(g: Geometry, image: seq<byte>, contents: Contents, k: nat, e: Entry)
    requires Intact(g, image, contents) && k < Regions(g) && Fits(g, e)
    ensures Shaped(g, Torn(g, contents, k, e))
    ensures Backed(g, DataImage(g, image, contents, k, e), Torn(g, contents, k, e))
  {
    hide Cell, EntryCell, HintCell, LastWritten, RegionHolds, Torn;
    PlacedIsShaped(g, contents, k, e);
    LastInTorn(g, contents, k, e);
    forall l | 0 <= l < Regions(g) && Torn(g, contents, k, e)[l] != []
      ensures Cell(g, DataImage(g, image, contents, k, e), l, Half(g)) ==
              HintCell(g, LastWritten(g, l, |Torn(g, contents, k, e)[l]|))
    {
      assert |Torn(g, contents, k, e)[l]| == |contents[l]|;
      WriteCell(g, image, k, SlotOf(g, NextSlotOf(g, contents[k])), EntryCell(g, e), l, Half(g));
    }
  }

  lemma SameFinalImage(g: Geometry, image: seq<byte>, contents: Contents, k: nat, e: Entry)
    requires Sized(g, image) && Shaped(g, contents) && k < Regions(g) && Fits(g, e)
    ensures |Torn(g, contents, k, e)| == Regions(g)
    ensures FinalImage(g, DataImage(g, image, contents, k, e), Torn(g, contents, k, e), k, e) ==
            FinalImage(g, image, contents, k, e)
  {
    hide EntryCell, HintCell, LastWritten, Torn, Splice;
    LastInTorn(g, contents, k, e);
    SpliceAgain(image, DataPos(g, k, NextSlotOf(g, contents[k])), EntryCell(g, e), EntryCell(g, e));
  }

  // ----- What a crash leaves of the log -----

  /** The ring is full: the next write starts its oldest region over. */
  predicate Restarting(g: Geometry, log: seq<Entry>) {
    log != [] && InLast(g, |log|) == Capacity(g) && At(g, Regions(g)) <= |log|
  }

  lemma RestartingIsFull(g: Geometry, contents: Contents, log: seq<Entry>, m: nat, cur: nat)
    requires QueueView(g, contents, log, m, cur)
    ensures Restarting(g, log) <==> FirstWithRoom(g, contents, 0) == Regions(g)
    ensures Restarting(g, log) ==> |log| == At(g, m) + Capacity(g) && Regions(g) <= m + 1
    ensures !Restarting(g, log) ==> HasRoom(g, contents[TargetOf(g, log, m, cur)])
  {
    hide At, Chunk, InLast, HasRoom;
    QueueBounds(g, contents, log, m, cur);
    QueueShape(g, contents, log, m, cur);
    RoomInQueue(g, contents, log, m, cur);
    AtOrder(g, 0, m);
    if At(g, m) < |log| {
      InLastOf(g, |log|, m);
    }
    AtOrder(g, m, m);
    AtOrder(g, m + 1, Regions(g));
    AtOrder(g, Regions(g), m + 1);
  }

  /**
   A write of an increasing run stopped after any number of its block writes, unless it
   stopped right after the data block that starts a full region over: from then on every
   call is answered as if it had never begun, or as if it had been completed.
   */
  lemma CrashIsOldOrNew(g: Geometry, image: seq<byte>, contents: Contents, lost: set<nat>, log: seq<Entry>, m: nat,
                        cur: nat, request: Request, blocks: nat, ops: seq<Op>)
    requires Represents(g, image, contents, lost)
    requires QueueView(g, contents, log, m, cur) && Ascending(log) && LogFits(g, log)
    requires Admit(g, log, request).Append? && Newer(log, Admit(g, log, request).entry)
    requires blocks == 1 ==> !Restarting(g, log)
    requires Increasing(g, if blocks <= 1 then log else log + [Admit(g, log, request).entry], ops)
    ensures Run(g, Interrupted(g, image, request, blocks), ops).1 ==
            LogPlay(g, if blocks <= 1 then log else log + [Admit(g, log, request).entry], ops).1
  {
    hide Represents, QueueView, Ascending, Interrupted, Run, LogPlay, Increasing, Intention, Admit, TargetOf, Play,
         HasRoom, Restarting, FirstWithRoom;
    var e := Admit(g, log, request).entry;
    QueueShape(g, contents, log, m, cur);
    IntentionIsAdmission(g, contents, log, m, cur, request);
    RestartingIsFull(g, contents, log, m, cur);
    var lost' := InterruptedRepresents(g, image, contents, lost, request, blocks);
    if blocks <= 1 {
      var l := RunIsPlay(g, Interrupted(g, image, request, blocks), contents, lost', ops);
      var m', cur' := PlayIsLogPlay(g, contents, log, m, cur, ops);
    } else {
      NewerAscends(log, e);
      var m1, cur1 := PlacedInQueue(g, contents, log, m, cur, e);
      var contents' := Placed(g, contents, TargetOf(g, log, m, cur), e);
      var l := RunIsPlay(g, Interrupted(g, image, request, blocks), contents', lost', ops);
      var m', cur' := PlayIsLogPlay(g, contents', log + [e], m1, cur1, ops);
    }
  }

  /** The same, for a write that follows any increasing run on a blank device. */
  lemma CrashAfterAnyRun(g: Geometry, image: seq<byte>, ops: seq<Op>, request: Request, blocks: nat, later: seq<Op>)
    requires Blank(g, image) && Increasing(g, [], ops)
    requires var log := LogPlay(g, [], ops).0;
             && Admit(g, log, request).Append? && Newer(log, Admit(g, log, request).entry)
             && (blocks == 1 ==> !Restarting(g, log))
             && Increasing(g, if blocks <= 1 then log else log + [Admit(g, log, request).entry], later)
    ensures var log := LogPlay(g, [], ops).0;
            Run(g, Interrupted(g, Run(g, image, ops).0, request, blocks), later).1 ==
            LogPlay(g, if blocks <= 1 then log else log + [Admit(g, log, request).entry], later).1
  {
    hide Blank, Represents, QueueView, Ascending, LogFits, Interrupted, Run, LogPlay, Increasing, Admit, Newer,
         Restarting, Play;
    BlankHoldsNothing(g, image);
    EmptyQueue(g);
    NoEntriesFit(g);
    var lost := RunIsPlay(g, image, NoEntries(g), {}, ops);
    var m, cur := PlayIsLogPlay(g, NoEntries(g), [], 0, 0, ops);
    CrashIsOldOrNew(g, Run(g, image, ops).0, Play(g, NoEntries(g), ops).0, lost, LogPlay(g, [], ops).0, m, cur, request,
                    blocks, later);
  }

  // ----- Reading while the oldest region is half overwritten -----

  /** The entries a read of the regions `ks` prints, region by region. */
  function MatchingAll(contents: Contents, ks: seq<nat>, gteq: u64): seq<Entry>
    requires forall i :: 0 <= i < |ks| ==> ks[i] < |contents|
    decreases |ks|
  {
    if ks == [] then []
    else
      (if LastTimestamp(contents[ks[0]]) < gteq then [] else Matching(contents[ks[0]], gteq)) +
      MatchingAll(contents, ks[1..], gteq)
  }

  lemma FirstOfFirstOf(a: seq<Entry>, b: seq<Entry>, limit: nat)
    ensures limit == 0 || |a| < limit ==> FirstOf(FirstOf(a, limit) + b, limit) == FirstOf(a + b, limit)
    ensures limit != 0 && limit <= |a| ==> FirstOf(a + b, limit) == FirstOf(a, limit)
  {
  }

  /** Reading one region prints its share. */
  lemma MeetPrints(g: Geometry, contents: Contents, k: nat, callback: BlockCallback, result: bv32)
    requires Shaped(g, contents) && k < Regions(g) && contents[k] != []
    requires callback.Emit? && Unsaturated(callback)
    ensures var met := MeetRegion(g, contents, k, OverBlocks(callback), result);
            var share := if LastTimestamp(contents[k]) < callback.gteq then []
                         else Matching(contents[k], callback.gteq);
            && met.contents == contents
            && met.callback.OverBlocks? && SameTask(callback, met.callback.blocks)
            && met.callback.blocks.output == FirstOf(callback.output + share, callback.limit)
            && (met.result == LOOP_BREAK ==> callback.limit != 0 && callback.limit <= |callback.output + share|)
            && (met.result != LOOP_BREAK ==> Unsaturated(met.callback.blocks) &&
                                             met.callback.blocks.output == callback.output + share)
  {
    hide WalkEntries, Matching, LastTimestamp, StateOf;
    PassStopsAtLimit(contents[k], callback);
    EmitPrintsMatches(contents[k], callback);
    assert callback.output + [] == callback.output;
  }

  lemma {:induction false} TourPrints(g: Geometry, contents: Contents, ks: seq<nat>, callback: BlockCallback,
                                      state: HintState, result: bv32)
    requires Shaped(g, contents) && forall i :: 0 <= i < |ks| ==> ks[i] < Regions(g) && contents[ks[i]] != []
    requires callback.Emit? && Unsaturated(callback)
    ensures var tour := TourRegions(g, contents, ks, OverBlocks(callback), state, result);
            && tour.callback.OverBlocks? && tour.callback.blocks.Emit?
            && tour.callback.blocks.output ==
               FirstOf(callback.output + MatchingAll(contents, ks, callback.gteq), callback.limit)
    decreases |ks|
  {
    hide MeetRegion, Matching, LastTimestamp, StateOf, FirstOf;
    if ks == [] {
      assert callback.output + [] == callback.output;
      LimitCuts(callback.output, [], callback.limit);
    } else {
      var share := if LastTimestamp(contents[ks[0]]) < callback.gteq then []
                   else Matching(contents[ks[0]], callback.gteq);
      var rest := MatchingAll(contents, ks[1..], callback.gteq);
      MeetPrints(g, contents, ks[0], callback, result);
      FirstOfFirstOf(callback.output + share, rest, callback.limit);
      assert (callback.output + share) + rest == callback.output + (share + rest);
      var met := MeetRegion(g, contents, ks[0], OverBlocks(callback), result);
      if met.result != LOOP_BREAK {
        TourPrints(g, contents, ks[1..], met.callback.blocks, StateOf(g, contents, ks[0]), met.result);
      }
    }
  }

  lemma PassedPrints(g: Geometry, contents: Contents, gteq: u64, limit: u64)
    requires Shaped(g, contents) && forall k :: 0 <= k < Regions(g) ==> contents[k] != []
    ensures var r := StartRegion(g, contents, gteq);
            Passed(g, contents, Emit(gteq, limit, [])).1.output ==
            if r == Regions(g) then [] else FirstOf(MatchingAll(contents, Rotation(g, r), gteq), limit)
  {
    hide TourRegions, MatchingAll, FirstOf, StartRegion;
    var r := StartRegion(g, contents, gteq);
    if r < Regions(g) {
      TourPrints(g, contents, Rotation(g, r), Emit(gteq, limit, []), ZERO_STATE, LOOP_OK);
      assert [] + MatchingAll(contents, Rotation(g, r), gteq) == MatchingAll(contents, Rotation(g, r), gteq);
    }
  }

  /** Region by region around the ring, a read finds the matching live entries in order. */
  lemma RingHoldsMatches(g: Geometry, contents: Contents, log: seq<Entry>, m: nat, cur: nat, gteq: u64)
    requires QueueView(g, contents, log, m, cur) && Ascending(log) && LogFits(g, log)
    requires forall k :: 0 <= k < Regions(g) ==> contents[k] != []
    ensures var r := StartRegion(g, contents, gteq);
            Matching(Live(g, log), gteq) == if r == Regions(g) then [] else MatchingAll(contents, Rotation(g, r), gteq)
  {
    hide QueueView, Passed, StartRegion, Matching, MatchingAll, Live, Ascending, WalkEntries;
    QueueShape(g, contents, log, m, cur);
    var callback := Emit(gteq, 0, []);
    PassedPrints(g, contents, gteq, 0);
    PassedIsPassedLog(g, contents, log, m, cur, callback);
    EmitPrintsMatches(Live(g, log), callback);
    assert [] + Matching(Live(g, log), gteq) == Matching(Live(g, log), gteq);
  }

  lemma {:induction false} SameStartTorn(g: Geometry, contents: Contents, k: nat, e: Entry, gteq: u64, i: nat,
                                         best: nat)
    requires Shaped(g, contents) && k < Regions(g) && i <= Regions(g) && best <= Regions(g)
    ensures |Torn(g, contents, k, e)| == Regions(g)
    ensures OldestMatch(g, Torn(g, contents, k, e), gteq, i, best) == OldestMatch(g, contents, gteq, i, best)
    decreases Regions(g) - i
  {
    hide Torn, LastTimestamp;
    LastInTorn(g, contents, k, e);
    if i == Regions(g) || contents[i] == [] {
    } else {
      assert |Torn(g, contents, k, e)[i]| == |contents[i]|;
      SameStartTorn(g, contents, k, e, gteq, i + 1, best);
      SameStartTorn(g, contents, k, e, gteq, i + 1, Better(g, contents, i, best));
    }
  }

  /** Where the changed region is skipped or not among `ks`, the share of the rest is as before. */
  lemma {:induction false} SameSharesTorn(g: Geometry, contents: Contents, k: nat, e: Entry, ks: seq<nat>, gteq: u64)
    requires Shaped(g, contents) && k < Regions(g) && forall i :: 0 <= i < |ks| ==> ks[i] < Regions(g)
    requires LastTimestamp(contents[k]) < gteq || k !in ks
    ensures |Torn(g, contents, k, e)| == Regions(g)
    ensures MatchingAll(Torn(g, contents, k, e), ks, gteq) == MatchingAll(contents, ks, gteq)
    decreases |ks|
  {
    hide Torn, LastTimestamp, Matching;
    LastInTorn(g, contents, k, e);
    if ks == [] {
    } else {
      SameSharesTorn(g, contents, k, e, ks[1..], gteq);
    }
  }

  lemma SharesHead(contents: Contents, ks: seq<nat>, gteq: u64)
    requires ks != [] && forall i :: 0 <= i < |ks| ==> ks[i] < |contents|
    requires gteq <= LastTimestamp(contents[ks[0]])
    ensures MatchingAll(contents, ks, gteq) == Matching(contents[ks[0]], gteq) + MatchingAll(contents, ks[1..], gteq)
  {
  }

  lemma CancelHead(h: seq<Entry>, a: seq<Entry>, b: seq<Entry>)
    requires h + a == h + b
    ensures a == b
  {
    assert (h + a)[|h|..] == a && (h + b)[|h|..] == b;
  }

  /** The first of the live entries replaced by the new one, as far as it matches. */
  lemma SharesTorn(g: Geometry, contents: Contents, t: nat, e: Entry, live: seq<Entry>, gteq: u64)
    requires Shaped(g, contents) && t < Regions(g) && !HasRoom(g, contents[t]) && gteq <= LastTimestamp(contents[t])
    requires gteq <= e.timestamp && live != [] && live[0] == contents[t][0]
    requires MatchingAll(contents, Rotation(g, t), gteq) == Matching(live, gteq)
    ensures |Torn(g, contents, t, e)| == Regions(g)
    ensures MatchingAll(Torn(g, contents, t, e), Rotation(g, t), gteq) == [e] + Matching(live[1..], gteq)
  {
    hide Matching, MatchingAll, LastTimestamp;
    var ks := Rotation(g, t);
    var entries, torn := contents[t], Torn(g, contents, t, e);
    assert ks[0] == t && t !in ks[1..];
    LastInTorn(g, contents, t, e);
    SharesHead(contents, ks, gteq);
    SharesHead(torn, ks, gteq);
    SameSharesTorn(g, contents, t, e, ks[1..], gteq);
    assert torn[t][0] == e && torn[t][1..] == entries[1..];
    MatchingHead(entries, gteq);
    MatchingHead(torn[t], gteq);
    MatchingHead(live, gteq);
    var head := if entries[0].timestamp >= gteq then [entries[0]] else [];
    var rest := MatchingAll(contents, ks[1..], gteq);
    assert (head + Matching(entries[1..], gteq)) + rest == head + (Matching(entries[1..], gteq) + rest);
    CancelHead(head, Matching(entries[1..], gteq) + rest, Matching(live[1..], gteq));
    assert ([e] + Matching(entries[1..], gteq)) + rest == [e] + (Matching(entries[1..], gteq) + rest);
  }

  /** A read that matches the last entry of the oldest region starts there. */
  lemma StartsAtOldest(g: Geometry, contents: Contents, log: seq<Entry>, m: nat, cur: nat, gteq: u64)
    requires QueueView(g, contents, log, m, cur) && Ascending(log)
    requires |log| == At(g, m) + Capacity(g) && Regions(g) <= m + 1
    requires NextCur(g, cur) < Regions(g) && gteq <= LastTimestamp(contents[NextCur(g, cur)])
    ensures contents[NextCur(g, cur)] != [] && StartRegion(g, contents, gteq) == NextCur(g, cur)
  {
    hide At, Chunk, LastTimestamp, StartRegion;
    var t, r := NextCur(g, cur), StartRegion(g, contents, gteq);
    OldestInQueue(g, contents, log, m, cur);
    RegionFacts(g, contents, log, m, cur, t);
    if r == Regions(g) || ChunkOf(g, m, cur, t) < ChunkOf(g, m, cur, r) {
      BeforeStartIsIdle(g, contents, log, m, cur, gteq, t);
    } else {
      RegionFacts(g, contents, log, m, cur, r);
    }
  }

  /** What a read prints when the write that starts the full ring over stopped after its data block. */
  function TornOutput(g: Geometry, log: seq<Entry>, e: Entry, gteq: u64, limit: u64): seq<Entry> {
    if gteq <= Bound(g, log) && Live(g, log) != [] then FirstOf([e] + Matching(Live(g, log)[1..], gteq), limit)
    else FirstOf(Matching(Live(g, log), gteq), limit)
  }

  lemma TornContentsPrint(g: Geometry, contents: Contents, log: seq<Entry>, m: nat, cur: nat, e: Entry, gteq: u64,
                          limit: u64)
    requires QueueView(g, contents, log, m, cur) && Ascending(log) && LogFits(g, log)
    requires Restarting(g, log) && Newer(log, e) && Fits(g, e)
    ensures TargetOf(g, log, m, cur) < Regions(g) && Shaped(g, Torn(g, contents, TargetOf(g, log, m, cur), e))
    ensures Passed(g, Torn(g, contents, TargetOf(g, log, m, cur), e), Emit(gteq, limit, [])).1.output ==
            TornOutput(g, log, e, gteq, limit)
  {
    hide At, QueueView, Passed, Matching, MatchingAll, Live, LastTimestamp, Torn, OldestMatch, FirstWithRoom, Keep,
         Bound, Restarting, FirstOf, Rotation;
    QueueShape(g, contents, log, m, cur);
    RestartingIsFull(g, contents, log, m, cur);
    var t := TargetOf(g, log, m, cur);
    var torn := Torn(g, contents, t, e);
    TargetInQueue(g, contents, log, m, cur);
    PlacedIsShaped(g, contents, t, e);
    LastInTorn(g, contents, t, e);
    forall k | 0 <= k < Regions(g)
      ensures contents[k] != [] && torn[k] != []
    {
      assert !HasRoom(g, contents[k]) && |torn[k]| == |contents[k]|;
    }
    PassedPrints(g, torn, gteq, limit);
    RingHoldsMatches(g, contents, log, m, cur, gteq);
    SameStartTorn(g, contents, t, e, gteq, 0, Regions(g));
    LiveAfterWrite(g, contents, log, m, cur, e);
    var r := StartRegion(g, contents, gteq);
    if gteq <= Bound(g, log) {
      StartsAtOldest(g, contents, log, m, cur, gteq);
      assert contents[t][0] == Live(g, log)[0];
      NewestIsAboveBound(g, contents, log, m, cur, t, e);
      SharesTorn(g, contents, t, e, Live(g, log), gteq);
    } else if r < Regions(g) {
      SameSharesTorn(g, contents, t, e, Rotation(g, r), gteq);
    } else {
      LimitCuts([], [], limit);
    }
  }

  lemma NewestIsAboveBound(g: Geometry, contents: Contents, log: seq<Entry>, m: nat, cur: nat, t: nat, e: Entry)
    requires QueueView(g, contents, log, m, cur) && Ascending(log) && t < Regions(g) && contents[t] != []
             && Newer(log, e)
    ensures LastTimestamp(contents[t]) < e.timestamp
  {
  }

  /**
   The one other case: the write that starts the full ring over stopped after its data
   block. Reads then print the old log with its oldest entry replaced by the new one,
   as long as they reach back to the region started over; later ones print the old log.
   */
  lemma CrashWhileRestarting(g: Geometry, image: seq<byte>, contents: Contents, lost: set<nat>, log: seq<Entry>, m: nat,
                             cur: nat, request: Request, gteq: u64, limit: u64)
    requires Represents(g, image, contents, lost)
    requires QueueView(g, contents, log, m, cur) && Ascending(log) && LogFits(g, log)
    requires Admit(g, log, request).Append? && Newer(log, Admit(g, log, request).entry)
    requires Restarting(g, log)
    ensures var r := ReadEntries(g, Interrupted(g, image, request, 1), gteq, limit);
            r.ending == Returns(0) && r.output == TornOutput(g, log, Admit(g, log, request).entry, gteq, limit)
  {
    hide Represents, QueueView, Ascending, Interrupted, ReadEntries, Intention, Admit, TargetOf, Passed, TornOutput,
         Restarting, Torn;
    var e := Admit(g, log, request).entry;
    QueueShape(g, contents, log, m, cur);
    IntentionIsAdmission(g, contents, log, m, cur, request);
    var lost' := InterruptedRepresents(g, image, contents, lost, request, 1);
    TornContentsPrint(g, contents, log, m, cur, e, gteq, limit);
    var l := ReadIsAPass(g, Interrupted(g, image, request, 1), Torn(g, contents, TargetOf(g, log, m, cur), e), lost',
                         gteq, limit);
  }

  /**
   And the next write of the increasing run starts the same region over, which undoes the
   damage: from then on every call is answered as if the interrupted write had never begun.
   */
  lemma NextWriteAfterCrash(g: Geometry, image: seq<byte>, contents: Contents, lost: set<nat>, log: seq<Entry>, m: nat,
                            cur: nat, request: Request, next: Request, ops: seq<Op>)
    requires Represents(g, image, contents, lost)
    requires QueueView(g, contents, log, m, cur) && Ascending(log) && LogFits(g, log)
    requires Admit(g, log, request).Append? && Restarting(g, log)
    requires Admit(g, log, next).Append? && Increasing(g, log, [Op.Write(next)] + ops)
    ensures Run(g, Interrupted(g, image, request, 1), [Op.Write(next)] + ops).1 ==
            LogPlay(g, log, [Op.Write(next)] + ops).1
  {
    hide Represents, QueueView, Ascending, LogFits, Interrupted, Run, LogPlay, Increasing, Intention, Admit, TargetOf,
         Restarting, FirstWithRoom, Play;
    var e := Admit(g, log, request).entry;
    QueueShape(g, contents, log, m, cur);
    IntentionIsAdmission(g, contents, log, m, cur, request);
    IntentionIsAdmission(g, contents, log, m, cur, next);
    RestartingIsFull(g, contents, log, m, cur);
    var t := TargetOf(g, log, m, cur);
    var torn := Torn(g, contents, t, e);
    PlacedIsShaped(g, contents, t, e);
    SameIntentionTorn(g, contents, next, t, e);
    var lost' := InterruptedRepresents(g, image, contents, lost, request, 1);
    var l := RunIsPlay(g, Interrupted(g, image, request, 1), torn, lost', [Op.Write(next)] + ops);
    assert FirstWithRoom(g, contents, 0) == Regions(g) && !HasRoom(g, contents[t]);
    assert Placed(g, torn, t, Admit(g, log, next).entry) == Placed(g, contents, t, Admit(g, log, next).entry);
    SameAfter(g, torn, contents, Op.Write(next), ops);
    var m', cur' := PlayIsLogPlay(g, contents, log, m, cur, [Op.Write(next)] + ops);
  }

  lemma SameAfter(g: Geometry, a: Contents, b: Contents, op: Op, ops: seq<Op>)
    requires Shaped(g, a) && Shaped(g, b) && Act(g, a, op) == Act(g, b, op)
    ensures Play(g, a, [op] + ops) == Play(g, b, [op] + ops)
  {
    hide Act;
    assert ([op] + ops)[1..] == ops;
  }

  /** Read in full, that is the live log with its oldest entry replaced. */
  lemma TornOutputInFull(g: Geometry, contents: Contents, log: seq<Entry>, m: nat, cur: nat, e: Entry)
    requires QueueView(g, contents, log, m, cur) && Ascending(log) && Restarting(g, log) && Fits(g, e)
    ensures Live(g, log) != [] && TornOutput(g, log, e, 0, 0) == Live(g, log)[0 := e]
  {
    hide At, QueueView, Live, FirstWithRoom, Keep, Restarting;
    QueueShape(g, contents, log, m, cur);
    RestartingIsFull(g, contents, log, m, cur);
    LiveAfterWrite(g, contents, log, m, cur, e);
    AllMatchZero(Live(g, log)[1..]);
  }

  /** The same, for a write that follows any increasing run on a blank device. */
  lemma CrashWhileRestartingAfterAnyRun(g: Geometry, image: seq<byte>, ops: seq<Op>, request: Request, gteq: u64,
                                        limit: u64)
    requires Blank(g, image) && Increasing(g, [], ops)
    requires var log := LogPlay(g, [], ops).0;
             Admit(g, log, request).Append? && Newer(log, Admit(g, log, request).entry) && Restarting(g, log)
    ensures var log := LogPlay(g, [], ops).0;
            var e := Admit(g, log, request).entry;
            var r := ReadEntries(g, Interrupted(g, Run(g, image, ops).0, request, 1), gteq, limit);
            && r.ending == Returns(0)
            && r.output == TornOutput(g, log, e, gteq, limit)
            && Live(g, log) != []
            && TornOutput(g, log, e, 0, 0) == Live(g, log)[0 := e]
  {
    hide Blank, Represents, QueueView, Ascending, LogFits, Interrupted, Run, LogPlay, Increasing, Newer, Restarting,
         Play, ReadEntries, TornOutput, Bound, Keep;
    BlankHoldsNothing(g, image);
    EmptyQueue(g);
    NoEntriesFit(g);
    var lost := RunIsPlay(g, image, NoEntries(g), {}, ops);
    var m, cur := PlayIsLogPlay(g, NoEntries(g), [], 0, 0, ops);
    var contents, log := Play(g, NoEntries(g), ops).0, LogPlay(g, [], ops).0;
    CrashWhileRestarting(g, Run(g, image, ops).0, contents, lost, log, m, cur, request, gteq, limit);
    TornOutputInFull(g, contents, log, m, cur, Admit(g, log, request).entry);
  }
}
