/** What decides a write: its timestamp, the region it evicts, and when the program gives up. */
module Decisions {
  import opened Bytes
  import opened Layout
  import opened Codec
  import opened Writing
  import opened Ring
  import opened Simulation
  import opened Machine
  import opened Undamaged

  /**
   A timestamp is refused exactly when it is not above the region's last one by itself
   and the correction it would need is not allowed; an accepted one is stored as the
   larger of the given one and the last one plus one.
   */
  lemma TimestampDecision(highest: u64, given: u64, faketimestamp: u64)
    requires highest < U64_MAX
    ensures match Decide(highest, given, faketimestamp)
            case Refuse(code) =>
              && given <= highest && (faketimestamp == 0 || given + faketimestamp < highest)
              && code == if faketimestamp == 0 then 1 else 2
            case Accept(timestamp) =>
              && (highest < given || (faketimestamp != 0 && highest <= given + faketimestamp))
              && timestamp == Max(given, highest + 1)
              && given <= timestamp <= given + faketimestamp + 1
              && highest < timestamp
  {
  }

  /** The one way to store a timestamp that is not above the region's last: correcting past the largest of all. */
  lemma TimestampWraps(highest: u64, given: u64, faketimestamp: u64)
    requires Decide(highest, given, faketimestamp).Accept?
    ensures Decide(highest, given, faketimestamp).timestamp <= highest <==> highest == U64_MAX
    ensures highest == U64_MAX ==> Decide(highest, given, faketimestamp).timestamp == 0
  {
  }

  /** write_put_block exits instead of returning exactly on small devices, and when every region is full and ends
      with the largest timestamp. */
  lemma GivesUpExactly(g: Geometry, image: seq<byte>, contents: Contents, lost: set<nat>, request: Request)
    requires Represents(g, image, contents, lost)
    ensures WriteEntry(g, image, request).ending == Exits <==>
            || g.deviceSize < 268435456
            || forall k :: 0 <= k < Regions(g) ==>
                             |contents[k]| == Capacity(g) && LastTimestamp(contents[k]) == 0xffff_ffff_ffff_ffff
  {
    hide Represents, LastTimestamp, WriteEntry;
    RepresentsShaped(g, image, contents, lost);
    var lost' := WriteIsPlacing(g, image, contents, lost, request);
    if Target(g, contents).None? {
      var o := OldestRegion(g, contents, 0, Regions(g));
      forall k | 0 <= k < Regions(g)
        ensures |contents[k]| == Capacity(g) && LastTimestamp(contents[k]) == U64_MAX
      {
        assert BestTimestamp(g, contents, o) <= LastTimestamp(contents[k]);
      }
    }
  }

  /** A write goes to the first region that has room, without one to the first that ends with the smallest timestamp. */
  lemma TargetExactly(g: Geometry, contents: Contents, i: nat)
    requires Shaped(g, contents) && Target(g, contents).Some? && i < Regions(g)
    ensures var k := Target(g, contents).value;
            && (|contents[i]| < Capacity(g) ==> |contents[k]| < Capacity(g) && k <= i)
            && (|contents[k]| == Capacity(g) ==>
                  && LastTimestamp(contents[k]) <= LastTimestamp(contents[i])
                  && (i < k ==> LastTimestamp(contents[k]) < LastTimestamp(contents[i])))
  {
    hide LastTimestamp;
    FirstOldest(g, contents, 0, Regions(g));
  }

  /**
   What write_put_block decides, in the order of its tests: a timestamp that is not above the
   last one of the region and may not be corrected, one that would have to be corrected too
   far, data that does not fit a block. A timestamp of zero stands for the clock.
   */
  lemma StoredTimestamp(g: Geometry, image: seq<byte>, contents: Contents, lost: set<nat>, request: Request)
    requires Represents(g, image, contents, lost) && 268435456 <= g.deviceSize
    requires Shaped(g, contents) && Target(g, contents).Some?
    requires LastTimestamp(contents[Target(g, contents).value]) < U64_MAX
    ensures var highest := LastTimestamp(contents[Target(g, contents).value]);
            var given := if request.timestamp == 0 then request.now else request.timestamp;
            PlanWrite(g, image, request).plan ==
            if given <= highest && request.faketimestamp == 0 then Stop(Returns(1))
            else if given + request.faketimestamp < highest then Stop(Returns(2))
            else if g.blockSize < 32 + |request.data| then Stop(Returns(3))
            else PlanFor(g, contents, Target(g, contents).value,
                         Entry(Max(given, highest + 1), request.applicationData, request.data))
  {
    hide Represents, LastTimestamp, PlanWrite, Target, PlanFor;
    var lost' := PlanIsIntention(g, image, contents, lost, request);
  }

  /** A write above the last timestamp of its region is stored as given, one of timestamp zero as the clock says. */
  lemma ClockOrGiven(g: Geometry, image: seq<byte>, contents: Contents, lost: set<nat>, data: seq<byte>, a: u64, t: u64,
                     f: u64, now: u64)
    requires Represents(g, image, contents, lost) && 268435456 <= g.deviceSize && |data| + 32 <= g.blockSize
    requires Shaped(g, contents) && Target(g, contents).Some?
    requires LastTimestamp(contents[Target(g, contents).value]) < if t == 0 then now else t
    ensures PlanWrite(g, image, Request(data, a, t, f, now)).plan ==
            PlanFor(g, contents, Target(g, contents).value, Entry(if t == 0 then now else t, a, data))
  {
    hide Represents, LastTimestamp, PlanWrite, Target, PlanFor;
    StoredTimestamp(g, image, contents, lost, Request(data, a, t, f, now));
  }

  /** Every call that does not store leaves an undamaged device as it is, byte for byte, though it has scanned all of
      it. */
  lemma RefusalChangesNothing(g: Geometry, image: seq<byte>, contents: Contents, request: Request)
    requires Intact(g, image, contents)
    requires WriteEntry(g, image, request).ending != Returns(0)
    ensures WriteEntry(g, image, request).image == image
  {
    hide Represents, Backed, WriteEntry, Intention, FinalImage, Placed;
    RepresentsShaped(g, image, contents, {});
    WriteExactly(g, image, contents, request);
  }

  /**
   When no region has room, a write restarts one whose last timestamp no region
   undercuts: its entries are gone, the new entry is there, and the slots of all other
   regions keep their bytes.
   */
  lemma Eviction(g: Geometry, image: seq<byte>, contents: Contents, request: Request, l: nat, i: nat)
    requires Intact(g, image, contents) && IsSlot(g, l, i)
    requires forall k :: 0 <= k < Regions(g) ==> |contents[k]| == Capacity(g)
    requires WriteEntry(g, image, request).ending == Returns(0)
    ensures Shaped(g, contents) && Intention(g, contents, request).Intend?
    ensures var intent := Intention(g, contents, request);
            var image' := WriteEntry(g, image, request).image;
            && (forall k :: 0 <= k < Regions(g) ==> LastTimestamp(contents[intent.k]) <= LastTimestamp(contents[k]))
            && (forall k :: 0 <= k < intent.k ==> LastTimestamp(contents[intent.k]) < LastTimestamp(contents[k]))
            && Represents(g, image', contents[intent.k := [intent.entry]], {})
            && (l != intent.k ==> Cell(g, image', l, i) == Cell(g, image, l, i))
  {
    hide Represents, Backed, WriteEntry, FinalImage, LastTimestamp, EntryCell, HintCell, Cell;
    RepresentsShaped(g, image, contents, {});
    WriteExactly(g, image, contents, request);
    var intent := Intention(g, contents, request);
    FinalCells(g, image, contents, intent.k, intent.entry, l, i);
    FirstOldest(g, contents, 0, Regions(g));
  }

  // ----- Where reads and updates start -----

  /**
   Of the regions in front of the first unused one that reach back to `gteq`, reads and updates
   start from the first that ends with the smallest timestamp; there is one if there is any
   below the sentinel.
   */
  lemma StartExactly(g: Geometry, contents: Contents, gteq: u64, i: nat)
    requires Shaped(g, contents) && i < Regions(g)
    requires forall j :: 0 <= j <= i ==> contents[j] != []
    requires gteq <= LastTimestamp(contents[i]) < U64_MAX
    ensures var m := StartRegion(g, contents, gteq);
            && m < Regions(g) && gteq <= LastTimestamp(contents[m]) <= LastTimestamp(contents[i])
            && (i < m ==> LastTimestamp(contents[m]) < LastTimestamp(contents[i]))
            && forall j :: 0 <= j <= m ==> contents[j] != []
  {
    hide LastTimestamp;
    MatchImproves(g, contents, gteq, 0, Regions(g));
    MatchBeats(g, contents, gteq, 0, Regions(g), i);
  }

  lemma {:induction false} MatchImproves(g: Geometry, contents: Contents, gteq: u64, k: nat, best: nat)
    requires Shaped(g, contents) && k <= Regions(g) && best <= Regions(g)
    ensures var o := OldestMatch(g, contents, gteq, k, best);
            && BestTimestamp(g, contents, o) <= BestTimestamp(g, contents, best)
            && (o != best ==> BestTimestamp(g, contents, o) < BestTimestamp(g, contents, best) &&
                              forall j :: k <= j <= o ==> contents[j] != [])
    decreases Regions(g) - k
  {
    hide LastTimestamp;
    if k == Regions(g) || contents[k] == [] {
    } else if LastTimestamp(contents[k]) < gteq {
      MatchImproves(g, contents, gteq, k + 1, best);
    } else {
      MatchImproves(g, contents, gteq, k + 1, Better(g, contents, k, best));
    }
  }

  lemma {:induction false} MatchBeats(g: Geometry, contents: Contents, gteq: u64, k: nat, best: nat, i: nat)
    requires Shaped(g, contents) && k <= i < Regions(g) && best <= Regions(g)
    requires forall j :: k <= j <= i ==> contents[j] != []
    requires gteq <= LastTimestamp(contents[i]) < U64_MAX
    ensures var o := OldestMatch(g, contents, gteq, k, best);
            && BestTimestamp(g, contents, o) <= LastTimestamp(contents[i])
            && (o != best && i < o ==> BestTimestamp(g, contents, o) < LastTimestamp(contents[i]))
    decreases Regions(g) - k
  {
    hide LastTimestamp;
    var next := if LastTimestamp(contents[k]) < gteq then best else Better(g, contents, k, best);
    if k == i {
      MatchImproves(g, contents, gteq, k + 1, next);
    } else {
      MatchBeats(g, contents, gteq, k + 1, next, i);
    }
  }

  lemma {:induction false} FirstOldest(g: Geometry, contents: Contents, k: nat, best: nat)
    requires |contents| == Regions(g) && k <= Regions(g) && best <= Regions(g)
    ensures var o := OldestRegion(g, contents, k, best);
            o != best ==> forall i :: k <= i < o ==> BestTimestamp(g, contents, o) < LastTimestamp(contents[i])
    decreases Regions(g) - k
  {
    hide LastTimestamp;
    if k == Regions(g) {
    } else {
      FirstOldest(g, contents, k + 1, Better(g, contents, k, best));
    }
  }
}
