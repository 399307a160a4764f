/**
 Scans, walks and traversals seen from the entries: on a device that represents some
 contents they do what a plain pass over sequences of entries does.
 */
module Simulation {
  import opened Bytes
  import opened Layout
  import opened Codec
  import opened Blocks
  import opened Traversal
  import opened Ring

  // ----- A pass over entries -----

  datatype Visited = Visited(entry: Entry, callback: BlockCallback, broke: bool)

  /** What a block callback makes of one entry. */
  function VisitEntry(callback: BlockCallback, e: Entry): (v: Visited)
    ensures v.entry == e.(applicationData := v.entry.applicationData)
    ensures SameTask(callback, v.callback)
    ensures callback.Emit? ==> v.entry == e
  {
    match callback
    case Emit(_, limit, _) =>
      var next := callback.(output := Emitted(callback, e));
      Visited(e, next, limit != 0 && |next.output| == limit)
    case Rewrite(_, _, test, count) =>
      if !Selected(callback, e) then Visited(e, callback, false)
      else if test(e).doUpdate != 1 then Visited(e, callback, test(e).doBreak == 1)
      else
        Visited(e.(applicationData := test(e).newAppdata), callback.(count := count + 1), test(e).doBreak == 1)
  }

  datatype Walked = Walked(entries: seq<Entry>, callback: BlockCallback, broke: bool)

  /** A callback passed over entries in order, until it breaks. */
  function WalkEntries(entries: seq<Entry>, callback: BlockCallback): (w: Walked)
    ensures |w.entries| == |entries|
    decreases |entries|
  {
    if entries == [] then Walked([], callback, false)
    else
      var v := VisitEntry(callback, entries[0]);
      if v.broke then Walked([v.entry] + entries[1..], v.callback, true)
      else
        var rest := WalkEntries(entries[1..], v.callback);
        Walked([v.entry] + rest.entries, rest.callback, rest.broke)
  }

  lemma RepresentsShaped(g: Geometry, image: seq<byte>, contents: Contents, lost: set<nat>)
    requires Represents(g, image, contents, lost)
    ensures Sized(g, image) && Shaped(g, contents)
  {
  }

  // ----- One data block -----

  lemma SealIgnoresHash(h: BlockHeader, hash: bv32, data: seq<byte>)
    ensures SealedBlock(h.(hash := hash), data) == SealedBlock(h, data)
  {
  }

  /** Putting a changed entry in the slot of an old one changes that entry of the contents only. */
  lemma ReplaceEntry(g: Geometry, image: seq<byte>, contents: Contents, lost: set<nat>, k: nat, d: nat, e: Entry)
    requires Represents(g, image, contents, lost) && k < Regions(g) && d < |contents[k]| && Fits(g, e)
    ensures Represents(g, Splice(image, DataPos(g, k, d), EntryCell(g, e)), contents[k := contents[k][d := e]], lost)
  {
    hide Cell, EntryCell, HintCell, HintFails, LastWritten;
    var image' := Splice(image, DataPos(g, k, d), EntryCell(g, e));
    var contents' := contents[k := contents[k][d := e]];
    forall l: nat, i: nat | IsSlot(g, l, i)
      ensures Cell(g, image', l, i) == if (l, i) == (k, SlotOf(g, d)) then EntryCell(g, e) else Cell(g, image, l, i)
    {
      WriteCell(g, image, k, SlotOf(g, d), EntryCell(g, e), l, i);
    }
    forall l | 0 <= l < Regions(g)
      ensures RegionHolds(g, image', contents', lost, l)
    {
      assert RegionHolds(g, image, contents, lost, l);
      if l == k {
        SameHint(g, image, image', contents, contents', lost, k);
        SameDataBut(g, image, image', k, contents[k], d, e);
      } else {
        RegionKept(g, image, image', contents, contents', lost, lost, l);
      }
    }
  }

  lemma SameHint(g: Geometry, image: seq<byte>, image': seq<byte>, contents: Contents, contents': Contents,
                 lost: set<nat>, k: nat)
    requires Sized(g, image) && Sized(g, image') && Shaped(g, contents) && Shaped(g, contents') && k < Regions(g)
    requires HintHolds(g, image, contents, lost, k)
    requires forall l :: 0 <= l < Regions(g) ==> |contents'[l]| == |contents[l]|
    requires Cell(g, image', k, Slots(g)) == Cell(g, image, k, Slots(g))
    requires Cell(g, image', k, Half(g)) == Cell(g, image, k, Half(g))
    ensures HintHolds(g, image', contents', lost, k)
  {
    hide Cell, HintCell, HintFails, LastWritten;
    assert k + 1 < Regions(g) ==> |contents'[k + 1]| == |contents[k + 1]|;
  }

  lemma SameDataBut(g: Geometry, image: seq<byte>, image': seq<byte>, k: nat, entries: seq<Entry>, d: nat, e: Entry)
    requires Sized(g, image) && Sized(g, image') && k < Regions(g) && d < |entries|
    requires EntriesFit(g, entries) && Fits(g, e) && DataHolds(g, image, k, entries)
    requires image' == Splice(image, DataPos(g, k, d), EntryCell(g, e))
    ensures DataHolds(g, image', k, entries[d := e])
  {
    hide Cell, EntryCell;
    forall c | 0 <= c < |entries|
      ensures Cell(g, image', k, SlotOf(g, c)) == EntryCell(g, entries[d := e][c])
    {
      SlotOfInverse(g, c, SlotOf(g, c));
      SlotOfInverse(g, d, SlotOf(g, d));
      WriteCell(g, image, k, SlotOf(g, d), EntryCell(g, e), k, SlotOf(g, c));
    }
  }

  /** The bytes of the slot after the callback has seen its entry. */
  lemma VisitEntryCell(g: Geometry, image: seq<byte>, pos: nat, e: Entry, callback: BlockCallback)
    requires Fits(g, e) && pos + g.blockSize < |image|
    requires image[pos..pos + g.blockSize] == EntryCell(g, e)
    ensures BlockCheck(EntryCell(g, e)) == 0
    ensures BLOCK_HEADER_SIZE + HeaderOf(EntryCell(g, e)).dataLength <= g.blockSize
    ensures var v := VisitEntry(callback, e);
            VisitBlock(g, image, pos, EntryCell(g, e), callback, 0) ==
            BlockStep(Splice(image, pos, EntryCell(g, v.entry)), v.callback,
                      if v.broke then LOOP_BREAK else LOOP_OK, Done)
  {
    hide BlockCheck, HeaderOf, SealedBlock, PutPadded, BitAnd;
    EntryCellReadsBack(g, e);
    var cell := EntryCell(g, e);
    var v := VisitEntry(callback, e);
    if callback.Rewrite? && Selected(callback, e) && callback.test(e).doUpdate == 1 {
      var h := HeaderOf(cell).(applicationData := v.entry.applicationData);
      assert h == EntryHeader(g, v.entry).(hash := h.hash);
      SealIgnoresHash(EntryHeader(g, v.entry), h.hash, e.payload);
      PutPaddedInside(g, image, pos, SealedBlock(h, e.payload));
    } else {
      assert v.entry == e;
      SpliceSame(image, pos, cell);
    }
  }

  lemma BlockAtEntry(g: Geometry, image: seq<byte>, contents: Contents, lost: set<nat>, k: nat, d: nat,
                     callback: BlockCallback, result: bv32)
    requires Represents(g, image, contents, lost) && k < Regions(g) && d < |contents[k]|
    ensures var v := VisitEntry(callback, contents[k][d]);
            && BlockAt(g, image, DataPos(g, k, d), callback, result) ==
               BlockStep(Splice(image, DataPos(g, k, d), EntryCell(g, v.entry)), v.callback,
                         if v.broke then LOOP_BREAK else LOOP_OK, Done)
            && Represents(g, Splice(image, DataPos(g, k, d), EntryCell(g, v.entry)),
                          contents[k := contents[k][d := v.entry]], lost)
            && (v.entry == contents[k][d] ==> Splice(image, DataPos(g, k, d), EntryCell(g, v.entry)) == image)
            && OnlyData(g, image, Splice(image, DataPos(g, k, d), EntryCell(g, v.entry)))
  {
    hide BlockCheck, HeaderOf, VisitBlock, EntryCell, HintHolds, VisitEntry, OnlyData;
    var e := contents[k][d];
    assert RegionHolds(g, image, contents, lost, k);
    ReadCell(g, image, k, SlotOf(g, d));
    VisitEntryCell(g, image, DataPos(g, k, d), e, callback);
    ReplaceEntry(g, image, contents, lost, k, d, VisitEntry(callback, e).entry);
    SpliceSame(image, DataPos(g, k, d), EntryCell(g, e));
    DataWriteIsOnlyData(g, image, k, d, EntryCell(g, VisitEntry(callback, e).entry));
  }

  // ----- The data blocks of a region -----

  /** Slot `j` is among those the walk visits: at or before the last block written. */
  lemma WalkBounds(g: Geometry, contents: Contents, k: nat, j: nat)
    requires Shaped(g, contents) && k < Regions(g) && contents[k] != []
    requires 1 <= j <= Slots(g)
    ensures WithinRegion(StateOf(g, contents, k), SlotPos(g, k, j)) <==> j <= SlotOf(g, |contents[k]| - 1)
    ensures SlotPos(g, k, j) == StateOf(g, contents, k).backupLocation <==> j == Half(g)
  {
    hide HintOfRegion;
    var last := SlotOf(g, |contents[k]| - 1);
    HintOfRegionPoints(g, LastWritten(g, k, |contents[k]|));
    NamedSlots(g, k);
    if j < last {
      SlotsApart(g, k, j, k, last);
    } else if last < j {
      SlotsApart(g, k, last, k, j);
    }
    if j < Half(g) {
      SlotsApart(g, k, j, k, Half(g));
    } else if Half(g) < j {
      SlotsApart(g, k, Half(g), k, j);
    }
  }

  /** One round of the walk, at a slot that holds an entry. */
  lemma WalkStep(g: Geometry, image: seq<byte>, contents: Contents, lost: set<nat>, k: nat, d: nat,
                 callback: BlockCallback, result: bv32)
    requires Represents(g, image, contents, lost) && k < Regions(g) && d < |contents[k]|
    ensures var v := VisitEntry(callback, contents[k][d]);
            var image' := Splice(image, DataPos(g, k, d), EntryCell(g, v.entry));
            WalkBlocks(g, image, StateOf(g, contents, k), DataPos(g, k, d), callback, result) ==
            if v.broke then BlockStep(image', v.callback, LOOP_BREAK, Done)
            else WalkBlocks(g, image', StateOf(g, contents, k), SlotPos(g, k, SlotOf(g, d) + 1), v.callback, LOOP_OK)
  {
    hide StateOf, BlockAt, Represents, VisitEntry, EntryCell, WithinRegion, SlotPos, Half, Regions, RegionHolds;
    RepresentsShaped(g, image, contents, lost);
    WalkBounds(g, contents, k, SlotOf(g, d));
    NextSlot(g, k, SlotOf(g, d));
    BlockAtEntry(g, image, contents, lost, k, d, callback, result);
  }

  lemma WalkPastBackup(g: Geometry, image: seq<byte>, contents: Contents, k: nat, callback: BlockCallback, result: bv32)
    requires Shaped(g, contents) && k < Regions(g) && Half(g) <= |contents[k]|
    ensures WalkBlocks(g, image, StateOf(g, contents, k), SlotPos(g, k, Half(g)), callback, result) ==
            WalkBlocks(g, image, StateOf(g, contents, k), SlotPos(g, k, Half(g) + 1), callback, result)
  {
    hide StateOf, BlockAt, WithinRegion, SlotPos;
    WalkBounds(g, contents, k, Half(g));
    NextSlot(g, k, Half(g));
  }

  lemma WalkEnds(g: Geometry, image: seq<byte>, contents: Contents, k: nat, j: nat, callback: BlockCallback,
                 result: bv32)
    requires Shaped(g, contents) && k < Regions(g) && contents[k] != []
    requires 1 <= j <= Slots(g) && DataBefore(g, j) == |contents[k]|
    ensures WalkBlocks(g, image, StateOf(g, contents, k), SlotPos(g, k, j), callback, result) ==
            BlockStep(image, callback, result, Done)
  {
    hide StateOf, BlockAt, WithinRegion, SlotPos;
    WalkBounds(g, contents, k, j);
  }

  function WithTail(contents: Contents, k: nat, d: nat, tail: seq<Entry>): Contents
    requires k < |contents| && d <= |contents[k]|
  {
    contents[k := contents[k][..d] + tail]
  }

  lemma TailAfter(contents: Contents, k: nat, d: nat, e: Entry, tail: seq<Entry>)
    requires k < |contents| && d < |contents[k]| && |tail| == |contents[k]| - d - 1
    ensures var changed := contents[k := contents[k][d := e]];
            && |changed[k]| == |contents[k]|
            && changed[k][d + 1..] == contents[k][d + 1..]
            && WithTail(changed, k, d + 1, tail) == WithTail(contents, k, d, [e] + tail)
            && changed == WithTail(contents, k, d, [e] + contents[k][d + 1..])
  {
    var changed := contents[k := contents[k][d := e]];
    assert changed[k][..d + 1] + tail == contents[k][..d] + ([e] + tail);
    assert contents[k][d := e] == contents[k][..d] + ([e] + contents[k][d + 1..]);
  }

  lemma NoTail(contents: Contents, k: nat)
    requires k < |contents|
    ensures contents[k][|contents[k]|..] == []
    ensures WithTail(contents, k, |contents[k]|, []) == contents
  {
    assert contents[k][..|contents[k]|] + [] == contents[k];
  }

  lemma PassHead(entries: seq<Entry>, d: nat, callback: BlockCallback)
    requires d < |entries|
    ensures var v := VisitEntry(callback, entries[d]);
            WalkEntries(entries[d..], callback) ==
            if v.broke then Walked([v.entry] + entries[d + 1..], v.callback, true)
            else
              var rest := WalkEntries(entries[d + 1..], v.callback);
              Walked([v.entry] + rest.entries, rest.callback, rest.broke)
  {
  }

  /** `walk`, begun at entry `d` of region `k`, is the pass of the callback over the entries from there on. */
  ghost predicate IsPass(g: Geometry, image: seq<byte>, contents: Contents, lost: set<nat>, k: nat, d: nat,
                         callback: BlockCallback, result: bv32, walk: BlockStep)
    requires k < |contents| && d <= |contents[k]|
  {
    var pass := WalkEntries(contents[k][d..], callback);
    && walk.status == Done
    && walk.callback == pass.callback
    && walk.result == (if pass.broke then LOOP_BREAK else if d == |contents[k]| then result else LOOP_OK)
    && Represents(g, walk.image, WithTail(contents, k, d, pass.entries), lost)
    && (callback.Emit? ==> walk.image == image)
    && OnlyData(g, image, walk.image)
  }

  lemma PassEnds(g: Geometry, image: seq<byte>, contents: Contents, lost: set<nat>, k: nat, callback: BlockCallback,
                 result: bv32)
    requires Represents(g, image, contents, lost) && k < Regions(g)
    ensures IsPass(g, image, contents, lost, k, |contents[k]|, callback, result,
                   BlockStep(image, callback, result, Done))
  {
    hide RegionHolds;
    NoTail(contents, k);
  }

  lemma PassBreaks(g: Geometry, image: seq<byte>, image': seq<byte>, contents: Contents, lost: set<nat>, k: nat, d: nat,
                   callback: BlockCallback, result: bv32)
    requires k < |contents| && d < |contents[k]|
    requires VisitEntry(callback, contents[k][d]).broke
    requires Represents(g, image', contents[k := contents[k][d := VisitEntry(callback, contents[k][d]).entry]], lost)
    requires VisitEntry(callback, contents[k][d]).entry == contents[k][d] ==> image' == image
    requires OnlyData(g, image, image')
    ensures IsPass(g, image, contents, lost, k, d, callback, result,
                   BlockStep(image', VisitEntry(callback, contents[k][d]).callback, LOOP_BREAK, Done))
  {
    hide Represents, VisitEntry, WalkEntries, WithTail;
    PassHead(contents[k], d, callback);
    TailAfter(contents, k, d, VisitEntry(callback, contents[k][d]).entry, contents[k][d + 1..]);
  }

  lemma PassContinues(g: Geometry, image: seq<byte>, image': seq<byte>, contents: Contents, lost: set<nat>, k: nat,
                      d: nat, callback: BlockCallback, result: bv32, walk: BlockStep)
    requires k < |contents| && d < |contents[k]|
    requires !VisitEntry(callback, contents[k][d]).broke
    requires VisitEntry(callback, contents[k][d]).entry == contents[k][d] ==> image' == image
    requires OnlyData(g, image, image')
    requires IsPass(g, image', contents[k := contents[k][d := VisitEntry(callback, contents[k][d]).entry]], lost,
                    k, d + 1, VisitEntry(callback, contents[k][d]).callback, LOOP_OK, walk)
    ensures IsPass(g, image, contents, lost, k, d, callback, result, walk)
  {
    hide Represents, VisitEntry, WalkEntries, WithTail;
    var v := VisitEntry(callback, contents[k][d]);
    PassHead(contents[k], d, callback);
    TailAfter(contents, k, d, v.entry, WalkEntries(contents[k][d + 1..], v.callback).entries);
  }

  /** What one round of the walk leaves of the contents. */
  function Seen(contents: Contents, k: nat, d: nat, callback: BlockCallback): (c: Contents)
    requires k < |contents| && d < |contents[k]|
    ensures |c| == |contents| && |c[k]| == |contents[k]|
  {
    contents[k := contents[k][d := VisitEntry(callback, contents[k][d]).entry]]
  }

  function SeenImage(g: Geometry, image: seq<byte>, contents: Contents, k: nat, d: nat,
                     callback: BlockCallback): seq<byte>
    requires Sized(g, image) && Shaped(g, contents) && k < Regions(g) && d < |contents[k]|
  {
    Splice(image, DataPos(g, k, d), EntryCell(g, VisitEntry(callback, contents[k][d]).entry))
  }

  lemma RoundRepresents(g: Geometry, image: seq<byte>, contents: Contents, lost: set<nat>, k: nat, d: nat,
                        callback: BlockCallback, result: bv32)
    requires Represents(g, image, contents, lost) && k < Regions(g) && d < |contents[k]|
    ensures Sized(g, image) && Shaped(g, contents)
    ensures Represents(g, SeenImage(g, image, contents, k, d, callback), Seen(contents, k, d, callback), lost)
    ensures Shaped(g, Seen(contents, k, d, callback))
    ensures StateOf(g, Seen(contents, k, d, callback), k) == StateOf(g, contents, k)
  {
    hide Represents, VisitEntry, EntryCell, StateOf, OnlyData, SlotPos, Splice;
    RepresentsShaped(g, image, contents, lost);
    BlockAtEntry(g, image, contents, lost, k, d, callback, result);
    RepresentsShaped(g, SeenImage(g, image, contents, k, d, callback), Seen(contents, k, d, callback), lost);
    StateKept(g, contents, Seen(contents, k, d, callback), k);
  }

  /** One more round in front of a walk that is a pass. */
  lemma RoundIsAPass(g: Geometry, image: seq<byte>, contents: Contents, lost: set<nat>, k: nat, d: nat,
                     callback: BlockCallback, result: bv32)
    requires Represents(g, image, contents, lost) && Shaped(g, contents) && k < Regions(g) && d < |contents[k]|
    requires var v := VisitEntry(callback, contents[k][d]);
             !v.broke ==>
               IsPass(g, SeenImage(g, image, contents, k, d, callback), Seen(contents, k, d, callback), lost, k, d + 1,
                      v.callback, LOOP_OK,
                      WalkBlocks(g, SeenImage(g, image, contents, k, d, callback), StateOf(g, contents, k),
                                 SlotPos(g, k, SlotOf(g, d) + 1), v.callback, LOOP_OK))
    ensures IsPass(g, image, contents, lost, k, d, callback, result,
                   WalkBlocks(g, image, StateOf(g, contents, k), DataPos(g, k, d), callback, result))
  {
    hide Represents, VisitEntry, EntryCell, IsPass, StateOf, WalkBlocks, OnlyData, SlotPos, Splice;
    RepresentsShaped(g, image, contents, lost);
    var v := VisitEntry(callback, contents[k][d]);
    var image' := SeenImage(g, image, contents, k, d, callback);
    WalkStep(g, image, contents, lost, k, d, callback, result);
    BlockAtEntry(g, image, contents, lost, k, d, callback, result);
    if v.broke {
      PassBreaks(g, image, image', contents, lost, k, d, callback, result);
    } else {
      PassContinues(g, image, image', contents, lost, k, d, callback, result,
                    WalkBlocks(g, image', StateOf(g, contents, k), SlotPos(g, k, SlotOf(g, d) + 1), v.callback,
                               LOOP_OK));
    }
  }

  /** The walk from the slot of the d-th entry on is a pass over the entries from there on. */
  lemma {:induction false} WalkIsAPass(g: Geometry, image: seq<byte>, contents: Contents, lost: set<nat>, k: nat,
                                       j: nat, callback: BlockCallback, result: bv32)
    requires Represents(g, image, contents, lost) && k < Regions(g) && contents[k] != []
    requires 1 <= j <= Slots(g) && DataBefore(g, j) <= |contents[k]|
    ensures IsPass(g, image, contents, lost, k, DataBefore(g, j), callback, result,
                   WalkBlocks(g, image, StateOf(g, contents, k), SlotPos(g, k, j), callback, result))
    decreases Slots(g) - j
  {
    hide StateOf, WalkBlocks, Represents, VisitEntry, SlotPos, IsPass, Half, Regions, Seen, SeenImage;
    RepresentsShaped(g, image, contents, lost);
    var d, n := DataBefore(g, j), |contents[k]|;
    if d == n {
      WalkEnds(g, image, contents, k, j, callback, result);
      PassEnds(g, image, contents, lost, k, callback, result);
    } else if j == Half(g) {
      WalkPastBackup(g, image, contents, k, callback, result);
      WalkIsAPass(g, image, contents, lost, k, j + 1, callback, result);
    } else {
      SlotOfInverse(g, d, j);
      RoundRepresents(g, image, contents, lost, k, d, callback, result);
      var v := VisitEntry(callback, contents[k][d]);
      if !v.broke {
        WalkIsAPass(g, SeenImage(g, image, contents, k, d, callback), Seen(contents, k, d, callback), lost, k, j + 1,
                    v.callback, LOOP_OK);
      }
      RoundIsAPass(g, image, contents, lost, k, d, callback, result);
    }
  }

  /** Changing application data leaves the state of the region as it was. */
  lemma StateKept(g: Geometry, contents: Contents, contents': Contents, k: nat)
    requires Shaped(g, contents) && Shaped(g, contents') && k < Regions(g)
    requires |contents'[k]| == |contents[k]|
    requires forall d :: 0 <= d < |contents[k]| ==> contents'[k][d].timestamp == contents[k][d].timestamp
    ensures StateOf(g, contents', k) == StateOf(g, contents, k)
  {
  }

  // ----- One region -----

  /** A read that has not reached its limit. */
  predicate Unsaturated(callback: BlockCallback) {
    callback.Emit? && callback.limit != 0 ==> |callback.output| < callback.limit
  }

  /** A pass breaks a read exactly when the limit is reached, and never goes beyond it. */
  lemma {:induction false} PassStopsAtLimit(entries: seq<Entry>, callback: BlockCallback)
    requires Unsaturated(callback)
    ensures var pass := WalkEntries(entries, callback);
            && SameTask(callback, pass.callback)
            && (pass.broke || Unsaturated(pass.callback))
            && (callback.Emit? && pass.broke ==> callback.limit != 0 && |pass.callback.output| == callback.limit)
            && (callback.Emit? ==> pass.entries == entries)
    decreases |entries|
  {
    if entries == [] {
    } else {
      var v := VisitEntry(callback, entries[0]);
      if !v.broke {
        PassStopsAtLimit(entries[1..], v.callback);
      }
    }
  }

  datatype Met = Met(contents: Contents, callback: HintCallback, result: bv32)

  /** What a callback makes of region `k`. */
  function MeetRegion(g: Geometry, contents: Contents, k: nat, callback: HintCallback, result: bv32): (m: Met)
    requires Shaped(g, contents) && k < Regions(g)
  {
    var state := StateOf(g, contents, k);
    match callback
    case CheckFree(_, _) =>
      var (next, r) := VisitFree(g, state);
      Met(contents, next, r)
    case CheckTimestamps(_, _, _) =>
      var (next, r) := VisitTimestamps(state, callback);
      Met(contents, next, r)
    case FindOldest(_, _, _) =>
      var (next, r) := VisitOldest(state, callback, result);
      Met(contents, next, r)
    case OverBlocks(blocks) =>
      if contents[k] == [] then Met(contents, callback, LOOP_BREAK)
      else if LastTimestamp(contents[k]) < blocks.gteq then Met(contents, callback, LOOP_OK)
      else
        var pass := WalkEntries(contents[k], blocks);
        Met(contents[k := pass.entries], OverBlocks(pass.callback), if pass.broke then LOOP_BREAK else LOOP_OK)
  }

  predicate Ready(callback: HintCallback) {
    callback.OverBlocks? ==> Unsaturated(callback.blocks)
  }

  predicate Scans(callback: HintCallback) {
    callback.OverBlocks? ==> callback.blocks.Emit?
  }

  lemma WholeRegionIsAPass(g: Geometry, image: seq<byte>, contents: Contents, lost: set<nat>, k: nat,
                           callback: BlockCallback)
    requires Represents(g, image, contents, lost) && k < Regions(g) && contents[k] != []
    ensures var pass := WalkEntries(contents[k], callback);
            var walk := WalkBlocks(g, image, StateOf(g, contents, k), FirstPos(g, k), callback, LOOP_OK);
            && walk.status == Done
            && walk.callback == pass.callback
            && walk.result == (if pass.broke then LOOP_BREAK else LOOP_OK)
            && Represents(g, walk.image, contents[k := pass.entries], lost)
            && (callback.Emit? ==> walk.image == image)
            && OnlyData(g, image, walk.image)
  {
    hide WalkBlocks, WalkEntries, Represents, StateOf, Half, SlotPos, OnlyData;
    RepresentsShaped(g, image, contents, lost);
    NamedSlots(g, k);
    WalkIsAPass(g, image, contents, lost, k, 1, callback, LOOP_OK);
    assert contents[k][0..] == contents[k];
    assert contents[k][..0] + WalkEntries(contents[k], callback).entries == WalkEntries(contents[k], callback).entries;
  }

  /** Visiting a probed region is meeting its entries. */
  lemma VisitIsMeeting(g: Geometry, image: seq<byte>, contents: Contents, lost: set<nat>, k: nat,
                       callback: HintCallback, result: bv32)
    requires Represents(g, image, contents, lost) && k < Regions(g) && Ready(callback)
    ensures var met := MeetRegion(g, contents, k, callback, result);
            var step := VisitHint(g, image, StateOf(g, contents, k), callback, result);
            && step.status == Done && step.callback == met.callback && step.result == met.result
            && Represents(g, step.image, met.contents, lost)
            && (Scans(callback) ==> step.image == image && met.contents == contents)
            && (met.result != LOOP_BREAK ==> Ready(met.callback))
            && (Scans(callback) ==> Scans(met.callback))
            && OnlyData(g, image, step.image)
  {
    hide WalkBlocks, WalkEntries, RegionHolds, HintOfRegion, LastWritten;
    if callback.OverBlocks? && contents[k] != [] {
      WholeRegionIsAPass(g, image, contents, lost, k, callback.blocks);
      PassStopsAtLimit(contents[k], callback.blocks);
    }
  }

  // ----- The ring -----

  datatype Tour = Tour(contents: Contents, callback: HintCallback, state: HintState, result: bv32)

  /** Meeting the regions `ks` one after the other, until one of them breaks. */
  function TourRegions(g: Geometry, contents: Contents, ks: seq<nat>, callback: HintCallback, state: HintState,
                       result: bv32): (t: Tour)
    requires Shaped(g, contents) && forall i :: 0 <= i < |ks| ==> ks[i] < Regions(g)
    decreases |ks|
  {
    if ks == [] then Tour(contents, callback, state, result)
    else
      var met := MeetRegion(g, contents, ks[0], callback, result);
      if met.result == LOOP_BREAK then Tour(met.contents, met.callback, StateOf(g, contents, ks[0]), met.result)
      else
        MetIsShaped(g, contents, ks[0], callback, result);
        TourRegions(g, met.contents, ks[1..], met.callback, StateOf(g, contents, ks[0]), met.result)
  }

  lemma {:induction false} PassFits(g: Geometry, entries: seq<Entry>, callback: BlockCallback)
    requires forall d :: 0 <= d < |entries| ==> Fits(g, entries[d])
    ensures forall d :: 0 <= d < |entries| ==> Fits(g, WalkEntries(entries, callback).entries[d])
    ensures forall d :: 0 <= d < |entries| ==>
              WalkEntries(entries, callback).entries[d].timestamp == entries[d].timestamp
    decreases |entries|
  {
    hide VisitEntry;
    if entries == [] {
    } else {
      PassFits(g, entries[1..], VisitEntry(callback, entries[0]).callback);
    }
  }

  lemma MetIsShaped(g: Geometry, contents: Contents, k: nat, callback: HintCallback, result: bv32)
    requires Shaped(g, contents) && k < Regions(g)
    ensures Shaped(g, MeetRegion(g, contents, k, callback, result).contents)
  {
    hide StateOf, WalkEntries, LastTimestamp;
    if callback.OverBlocks? {
      PassFits(g, contents[k], callback.blocks);
    }
  }

  lemma OnlyDataReflexive(g: Geometry, image: seq<byte>)
    requires Sized(g, image)
    ensures OnlyData(g, image, image)
  {
  }

  lemma OnlyDataTransitive(g: Geometry, a: seq<byte>, b: seq<byte>, c: seq<byte>)
    ensures OnlyData(g, a, b) && OnlyData(g, b, c) ==> OnlyData(g, a, c)
  {
  }

  /** A traversal of the device is a tour of its contents; a scan leaves an undamaged device as it is. */
  lemma {:induction false} TraversalIsATour(
    g: Geometry, image: seq<byte>, contents: Contents, lost: set<nat>, ks: seq<nat>,
    callback: HintCallback, state: HintState, result: bv32)
    returns (lost': set<nat>)
    requires Represents(g, image, contents, lost) && Ready(callback) && result != LOOP_ERR
    requires forall i :: 0 <= i < |ks| ==> ks[i] < Regions(g)
    ensures var tour := TourRegions(g, contents, ks, callback, state, result);
            var t := VisitRegions(g, image, ks, callback, state, result);
            && t.status == Done && t.callback == tour.callback && t.state == tour.state && t.result == tour.result
            && Represents(g, t.image, tour.contents, lost')
            && (Scans(callback) && lost == {} ==> t.image == image)
            && (lost == {} ==> OnlyData(g, image, t.image))
    ensures lost' <= lost
    ensures Scans(callback) ==> TourRegions(g, contents, ks, callback, state, result).contents == contents
    decreases |ks|
  {
    hide Represents, MeetRegion, ProbeRegion, VisitHint, StateOf, Ready, Scans, OnlyData;
    RepresentsShaped(g, image, contents, lost);
    OnlyDataReflexive(g, image);
    lost' := lost;
    if ks == [] {
    } else {
      var k := ks[0];
      ProbeFindsContents(g, image, contents, lost, k);
      var probe := ProbeRegion(g, image, k);
      VisitIsMeeting(g, probe.image, contents, lost - {k}, k, callback, result);
      var met := MeetRegion(g, contents, k, callback, result);
      var step := RegionAt(g, image, k, callback, result);
      NoErrors(g, contents, k, callback, result);
      lost' := lost - {k};
      if met.result != LOOP_BREAK {
        if lost == {} {
          OnlyDataTransitive(g, image, step.image,
            VisitRegions(g, step.image, ks[1..], step.callback, step.state, step.result).image);
        }
        lost' := TraversalIsATour(g, step.image, met.contents, lost - {k}, ks[1..], step.callback, step.state,
                                  step.result);
      }
    }
  }

  lemma NoErrors(g: Geometry, contents: Contents, k: nat, callback: HintCallback, result: bv32)
    requires Shaped(g, contents) && k < Regions(g)
    ensures result != LOOP_ERR ==> MeetRegion(g, contents, k, callback, result).result != LOOP_ERR
  {
    hide WalkEntries, StateOf, LastTimestamp;
  }
}
