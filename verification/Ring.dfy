/**
 What the bytes of a device mean: the entries each region holds.

 `Represents` ties an image to one sequence of entries per region. It asks for the
 primary hint block of every region in use and for the data blocks up to the one it
 points to. Backups may be stale; only a region in `lost`, whose primary hint block
 fails its check, needs its own.
 */
module Ring {
  import opened Bytes
  import opened Layout
  import opened Io
  import opened Codec
  import opened Blocks
  import opened Traversal

  // ----- Slots -----

  predicate Sized(g: Geometry, image: seq<byte>) {
    |image| == g.deviceSize
  }

  predicate IsSlot(g: Geometry, k: nat, j: nat) {
    k < Regions(g) && 1 <= j <= Slots(g)
  }

  /** The bytes of slot `j` of region `k`. */
  function Cell(g: Geometry, image: seq<byte>, k: nat, j: nat): (cell: seq<byte>)
    requires Sized(g, image) && IsSlot(g, k, j)
    ensures |cell| == g.blockSize
  {
    image[SlotPos(g, k, j)..SlotPos(g, k, j) + g.blockSize]
  }

  /** Slots of existing regions can be read and written whole. */
  lemma SlotInside(g: Geometry, k: nat, j: nat)
    requires IsSlot(g, k, j)
    ensures SlotPos(g, k, j) + g.blockSize < g.deviceSize
    ensures g.headerSize + g.blockSize <= SlotPos(g, k, j)
  {
  }

  lemma ReadCell(g: Geometry, image: seq<byte>, k: nat, j: nat)
    requires Sized(g, image) && IsSlot(g, k, j)
    ensures ReadAt(image, SlotPos(g, k, j), g.blockSize) == Some(Cell(g, image, k, j))
    ensures HintAt(image, SlotPos(g, k, j)) == Some(HintRead(HintOf(Cell(g, image, k, j)[..HINT_BLOCK_SIZE]),
                                                             HintCheck(Cell(g, image, k, j)[..HINT_BLOCK_SIZE])))
  {
    hide HintOf, HintCheck;
    SlotInside(g, k, j);
    var pos := SlotPos(g, k, j);
    assert image[pos..pos + HINT_BLOCK_SIZE] == Cell(g, image, k, j)[..HINT_BLOCK_SIZE];
  }

  /** Writing one slot replaces its bytes and no other slot's. */
  lemma WriteCell(g: Geometry, image: seq<byte>, k: nat, j: nat, bytes: seq<byte>, l: nat, i: nat)
    requires Sized(g, image) && IsSlot(g, k, j) && IsSlot(g, l, i) && |bytes| == g.blockSize
    ensures Cell(g, Splice(image, SlotPos(g, k, j), bytes), l, i) ==
            if (l, i) == (k, j) then bytes else Cell(g, image, l, i)
  {
    var p, q := SlotPos(g, k, j), SlotPos(g, l, i);
    if (l, i) == (k, j) {
      SpliceWithin(image, p, bytes);
    } else {
      if l < k || (l == k && i < j) {
        SlotsApart(g, l, i, k, j);
      } else {
        SlotsApart(g, k, j, l, i);
      }
      SpliceOutside(image, p, bytes, q, q + g.blockSize);
    }
  }

  /** All slots outside `exempt` have the same bytes in both images. */
  ghost predicate AgreeExcept(g: Geometry, image: seq<byte>, image': seq<byte>, exempt: set<(nat, nat)>) {
    && Sized(g, image) && Sized(g, image')
    && forall l: nat, i: nat :: IsSlot(g, l, i) && (l, i) !in exempt ==> Cell(g, image', l, i) == Cell(g, image, l, i)
  }

  /** The two images differ in data slots only: all hint blocks and backups, the header and the tail are the same. */
  ghost predicate OnlyData(g: Geometry, image: seq<byte>, image': seq<byte>) {
    && Sized(g, image) && Sized(g, image')
    && (forall l: nat, i: nat :: IsSlot(g, l, i) && (i == Half(g) || i == Slots(g)) ==>
          Cell(g, image', l, i) == Cell(g, image, l, i))
    && image'[..g.headerSize + g.blockSize] == image[..g.headerSize + g.blockSize]
    && image'[HintPos(g, Regions(g) - 1)..] == image[HintPos(g, Regions(g) - 1)..]
  }

  lemma DataWriteIsOnlyData(g: Geometry, image: seq<byte>, k: nat, d: nat, bytes: seq<byte>)
    requires Sized(g, image) && k < Regions(g) && d < Capacity(g) && |bytes| == g.blockSize
    ensures OnlyData(g, image, Splice(image, DataPos(g, k, d), bytes))
  {
    hide Cell, SlotPos, Splice;
    var j := SlotOf(g, d);
    var pos := DataPos(g, k, d);
    forall l: nat, i: nat | IsSlot(g, l, i) && (i == Half(g) || i == Slots(g))
      ensures Cell(g, Splice(image, pos, bytes), l, i) == Cell(g, image, l, i)
    {
      WriteCell(g, image, k, j, bytes, l, i);
    }
    SlotsApart(g, k, j, k, Slots(g));
    NamedSlots(g, k);
    SpliceKeepsEnds(image, pos, bytes, g.headerSize + g.blockSize, HintPos(g, Regions(g) - 1));
  }

  /** A write behind the last hint block changes no slot. */
  lemma WriteBehind(g: Geometry, image: seq<byte>, pos: nat, bytes: seq<byte>, l: nat, i: nat)
    requires Sized(g, image) && IsSlot(g, l, i)
    requires g.headerSize + Regions(g) * SPACING + g.blockSize <= pos && pos + |bytes| <= |image|
    ensures Cell(g, Splice(image, pos, bytes), l, i) == Cell(g, image, l, i)
  {
  }

  // ----- Entries on the device -----

  type Contents = seq<seq<Entry>>

  /** The hint block of a region holding `n` entries points to the last of them. */
  function LastWritten(g: Geometry, k: nat, n: nat): (pos: u64)
    requires k < Regions(g) && 1 <= n <= Capacity(g)
    ensures pos == DataPos(g, k, n - 1)
    ensures FirstPos(g, k) <= pos <= LastPos(g, k)
  {
    DataPosInRegion(g, k, n - 1);
    DataPos(g, k, n - 1)
  }

  predicate HintFails(cell: seq<byte>)
    requires HINT_BLOCK_SIZE <= |cell|
  {
    HintCheck(cell[..HINT_BLOCK_SIZE]) != 0
  }

  /**
   The hint block of `k` can be restored from its backup without harm: the second copy
   that the recovery writes, half a spacing further on, falls on the backup of a region
   whose own hint block is in order, or behind the last region.
   */
  predicate Recoverable(g: Geometry, contents: Contents, lost: set<nat>, k: nat)
    requires |contents| == Regions(g) && k < Regions(g)
  {
    if k + 1 < Regions(g) then contents[k + 1] != [] && k + 1 !in lost
    else HintPos(g, k) + HALF_SPACING + g.blockSize < g.deviceSize
  }

  predicate EntriesFit(g: Geometry, entries: seq<Entry>) {
    |entries| <= Capacity(g) && forall d :: 0 <= d < |entries| ==> Fits(g, entries[d])
  }

  /** One sequence of entries for each region of the device, none longer than a region can hold. */
  predicate Shaped(g: Geometry, contents: Contents) {
    && |contents| == Regions(g)
    && forall k :: 0 <= k < |contents| ==> EntriesFit(g, contents[k])
  }

  predicate DataHolds(g: Geometry, image: seq<byte>, k: nat, entries: seq<Entry>)
    requires Sized(g, image) && k < Regions(g) && EntriesFit(g, entries)
  {
    forall d :: 0 <= d < |entries| ==> Cell(g, image, k, SlotOf(g, d)) == EntryCell(g, entries[d])
  }

  predicate HintHolds(g: Geometry, image: seq<byte>, contents: Contents, lost: set<nat>, k: nat)
    requires Sized(g, image) && Shaped(g, contents) && k < Regions(g)
  {
    var primary, backup := Cell(g, image, k, Slots(g)), Cell(g, image, k, Half(g));
    if contents[k] == [] then k !in lost && HintFails(primary) && HintFails(backup)
    else if k in lost then
      HintFails(primary) && backup == HintCell(g, LastWritten(g, k, |contents[k]|)) && Recoverable(g, contents, lost, k)
    else primary == HintCell(g, LastWritten(g, k, |contents[k]|))
  }

  predicate RegionHolds(g: Geometry, image: seq<byte>, contents: Contents, lost: set<nat>, k: nat)
    requires Sized(g, image) && Shaped(g, contents) && k < Regions(g)
  {
    && DataHolds(g, image, k, contents[k])
    && HintHolds(g, image, contents, lost, k)
  }

  predicate Represents(g: Geometry, image: seq<byte>, contents: Contents, lost: set<nat>) {
    && Sized(g, image)
    && Shaped(g, contents)
    && forall k :: 0 <= k < Regions(g) ==> RegionHolds(g, image, contents, lost, k)
  }

  /** No hint block, primary or backup, passes its check. */
  predicate Blank(g: Geometry, image: seq<byte>) {
    && Sized(g, image)
    && forall k :: 0 <= k < Regions(g) ==>
         HintFails(Cell(g, image, k, Slots(g))) && HintFails(Cell(g, image, k, Half(g)))
  }

  function NoEntries(g: Geometry): Contents {
    seq(Regions(g), _ => [])
  }

  lemma BlankHoldsNothing(g: Geometry, image: seq<byte>)
    requires Blank(g, image)
    ensures Represents(g, image, NoEntries(g), {})
  {
    hide HintCheck;
  }

  // ----- What a scan finds in a region -----

  function LastTimestamp(entries: seq<Entry>): u64 {
    if entries == [] then 0 else entries[|entries| - 1].timestamp
  }

  /** The hint block of a region last written at `previous`. */
  function HintOfRegion(g: Geometry, previous: u64): HintBlock {
    HintOf(HintCell(g, previous)[..HINT_BLOCK_SIZE])
  }

  function StateOf(g: Geometry, contents: Contents, k: nat): HintState
    requires Shaped(g, contents) && k < Regions(g)
  {
    var base := Unsettled(HintPos(g, k), FirstPos(g, k), LastPos(g, k));
    if contents[k] == [] then base
    else base.(valid := true, highestTimestamp := LastTimestamp(contents[k]),
               hint := HintOfRegion(g, LastWritten(g, k, |contents[k]|)))
  }

  lemma HintOfRegionPoints(g: Geometry, previous: u64)
    ensures HintOfRegion(g, previous).previousBlockPos == previous
  {
    hide HintOf, HintCell;
    HintCellReadsBack(g, previous);
  }

  lemma SettleOnEntry(g: Geometry, image: seq<byte>, base: HintState, k: nat, n: nat, e: Entry)
    requires Sized(g, image) && k < Regions(g) && 1 <= n <= Capacity(g) && Fits(g, e)
    requires Cell(g, image, k, SlotOf(g, n - 1)) == EntryCell(g, e)
    ensures var hint := HintOfRegion(g, LastWritten(g, k, n));
            Settle(g, image, base, hint) ==
                Probe(image, Done, base.(valid := true, highestTimestamp := e.timestamp, hint := hint))
  {
    hide HintOf, Cell, HintCell, BlockCheck, HeaderOf, EntryCell;
    HintOfRegionPoints(g, LastWritten(g, k, n));
    ReadCell(g, image, k, SlotOf(g, n - 1));
    EntryCellReadsBack(g, e);
  }

  /** The last data block settles the state of a region in use. */
  lemma SettleRegion(g: Geometry, image: seq<byte>, contents: Contents, k: nat)
    requires Sized(g, image) && Shaped(g, contents) && k < Regions(g)
    requires contents[k] != [] && DataHolds(g, image, k, contents[k])
    ensures Settle(g, image, Unsettled(HintPos(g, k), FirstPos(g, k), LastPos(g, k)),
                   HintOfRegion(g, LastWritten(g, k, |contents[k]|))) ==
            Probe(image, Done, StateOf(g, contents, k))
  {
    hide Settle, Cell, HintOf, HintCell, EntryCell;
    var n := |contents[k]|;
    SettleOnEntry(g, image, Unsettled(HintPos(g, k), FirstPos(g, k), LastPos(g, k)), k, n, contents[k][n - 1]);
  }

  /** A region whose own slots are untouched holds what it held. */
  lemma RegionKept(g: Geometry, image: seq<byte>, image': seq<byte>, contents: Contents, contents': Contents,
                   lost: set<nat>, lost': set<nat>, k: nat)
    requires Sized(g, image) && Sized(g, image') && Shaped(g, contents) && Shaped(g, contents') && k < Regions(g)
    requires RegionHolds(g, image, contents, lost, k)
    requires forall j :: 1 <= j <= Slots(g) && j != Half(g) ==> Cell(g, image', k, j) == Cell(g, image, k, j)
    requires Cell(g, image', k, Half(g)) == Cell(g, image, k, Half(g)) || (contents[k] != [] && k !in lost)
    requires contents'[k] == contents[k] && (k in lost' <==> k in lost)
    requires k in lost && k + 1 < Regions(g) ==> contents'[k + 1] != [] && k + 1 !in lost'
    ensures RegionHolds(g, image', contents', lost', k)
  {
    hide Cell, EntryCell, HintCell, HintCheck, LastWritten;
  }

  // ----- Storing hint blocks -----

  lemma PutPaddedInside(g: Geometry, image: seq<byte>, pos: nat, data: seq<byte>)
    requires |data| <= g.blockSize && pos + g.blockSize < |image|
    ensures PutPadded(g, image, pos, data) == Stored(Splice(image, pos, data + Padding(g, |data|)), true)
  {
  }

  /** Whatever was there, a hint block fills its slot and nothing else. */
  lemma PutHintFillsSlot(g: Geometry, image: seq<byte>, previous: u64, pos: nat) returns (bytes: seq<byte>)
    requires pos + g.blockSize < |image|
    ensures |bytes| == g.blockSize
    ensures PutHint(g, image, previous, 0, pos) == Stored(Splice(image, pos, bytes), true)
  {
    hide HintOf, HintCheck, SealedHint, PutPadded;
    var hint := SealedHint(Renewed(HintAt(image, pos).value, previous, 0));
    PutPaddedInside(g, image, pos, hint);
    bytes := hint + Padding(g, |hint|);
  }

  /** The tag a hint block gets: the new one, or without a new one that of a valid predecessor. */
  function TagAfter(found: HintRead, previousTagged: u64): u64 {
    if previousTagged != 0 then previousTagged else if found.check == 0 then found.hint.previousTaggedBlockPos else 0
  }

  /** `image` has a valid hint block at `pos` with this position and this tag. */
  predicate HasHint(image: seq<byte>, pos: nat, previous: u64, tag: u64) {
    match HintAt(image, pos)
    case None => false
    case Some(found) =>
      found.check == 0 && found.hint.previousBlockPos == previous && found.hint.previousTaggedBlockPos == tag
  }

  lemma ValidHasNoPad(buf: seq<byte>)
    requires |buf| == HINT_BLOCK_SIZE && HintCheck(buf) == 0
    ensures HintOf(buf).pad == 0
  {
    hide HintOf, HashDifference;
  }

  /** On any bytes: a hint block that is stored passes its check, with the new position and that tag. */
  lemma StoredHintReadsBack(g: Geometry, image: seq<byte>, previous: u64, previousTagged: u64, pos: nat)
    requires pos + g.blockSize < |image|
    ensures HintAt(image, pos).Some?
    ensures var put := PutHint(g, image, previous, previousTagged, pos);
            && put.ok
            && HasHint(put.image, pos, previous, TagAfter(HintAt(image, pos).value, previousTagged))
            && put.image == Splice(image, pos, put.image[pos..pos + g.blockSize])
  {
    hide HintOf, HintCheck, SealedHint, PutPadded;
    var buf := ReadAt(image, pos, HINT_BLOCK_SIZE).value;
    if HintCheck(buf) == 0 {
      ValidHasNoPad(buf);
    }
    var hint := Renewed(HintAt(image, pos).value, previous, previousTagged);
    var sealed := SealedHint(hint);
    var padding := Padding(g, |sealed|);
    PutPaddedInside(g, image, pos, sealed);
    SealedHintChecks(hint);
    SpliceWithin(image, pos, sealed + padding);
    assert Splice(image, pos, sealed + padding)[pos..pos + HINT_BLOCK_SIZE] == sealed;
  }

  lemma HintKept(image: seq<byte>, pos: nat, bytes: seq<byte>, at: nat)
    requires pos + |bytes| <= |image| && (at + HINT_BLOCK_SIZE <= pos || pos + |bytes| <= at)
    ensures HintAt(Splice(image, pos, bytes), at) == HintAt(image, at)
  {
    hide HintOf, HintCheck, Splice;
    if at + HINT_BLOCK_SIZE < |image| {
      SpliceOutside(image, pos, bytes, at, at + HINT_BLOCK_SIZE);
    }
  }

  /** The same for hint block and backup together, each with the tag of its own predecessor. */
  lemma StoredHintsReadBack(g: Geometry, image: seq<byte>, previous: u64, previousTagged: u64, pos: nat, backupPos: nat)
    requires pos + g.blockSize < |image| && backupPos + g.blockSize < |image|
    requires pos + g.blockSize <= backupPos || backupPos + g.blockSize <= pos
    ensures HintAt(image, pos).Some? && HintAt(image, backupPos).Some?
    ensures var put := UpdateHint(g, image, previous, previousTagged, pos, backupPos);
            && put.ok
            && HasHint(put.image, pos, previous, TagAfter(HintAt(image, pos).value, previousTagged))
            && HasHint(put.image, backupPos, previous, TagAfter(HintAt(image, backupPos).value, previousTagged))
  {
    hide HintAt, PutHint, Splice;
    StoredHintReadsBack(g, image, previous, previousTagged, pos);
    var first := PutHint(g, image, previous, previousTagged, pos).image;
    HintKept(image, pos, first[pos..pos + g.blockSize], backupPos);
    StoredHintReadsBack(g, first, previous, previousTagged, backupPos);
    var second := PutHint(g, first, previous, previousTagged, backupPos).image;
    HintKept(first, backupPos, second[backupPos..backupPos + g.blockSize], pos);
  }

  /** Recovering a hint block gives it the position and the tag of its backup. */
  lemma RecoveryKeepsTag(g: Geometry, image: seq<byte>, base: HintState, previous: u64, tag: u64)
    requires base.location + HALF_SPACING + g.blockSize < |image|
    requires HintAt(image, base.location).Some? && HintAt(image, base.location).value.check != 0
    requires HasHint(image, base.backupLocation, previous, tag)
    ensures HasHint(Recover(g, image, base).image, base.location, previous, tag)
  {
    hide HintAt, UpdateHint, BlockCheck, HeaderOf;
    StoredHintsReadBack(g, image, previous, tag, base.location, base.location + HALF_SPACING);
  }

  /** Over an unused slot or an earlier hint block of the ring, it is the hint block of `previous`. */
  lemma PutHintInSlot(g: Geometry, image: seq<byte>, previous: u64, k: nat, j: nat, earlier: u64)
    requires Sized(g, image) && IsSlot(g, k, j)
    requires HintFails(Cell(g, image, k, j)) || Cell(g, image, k, j) == HintCell(g, earlier)
    ensures PutHint(g, image, previous, 0, SlotPos(g, k, j)) ==
            Stored(Splice(image, SlotPos(g, k, j), HintCell(g, previous)), true)
  {
    hide HintOf, HintCheck, SealedHint, PutPadded, HintAt;
    SlotInside(g, k, j);
    ReadCell(g, image, k, j);
    HintCellReadsBack(g, earlier);
    var found := HintAt(image, SlotPos(g, k, j)).value;
    assert Renewed(found, previous, 0) == HintBlock(previous, 0, 0, 0);
    PutPaddedInside(g, image, SlotPos(g, k, j), SealedHint(HintBlock(previous, 0, 0, 0)));
  }

  /**
   Storing a block and reading it back: the check is zero, the header (but for the
   hash) and the data are those stored, and no byte outside the block has changed.
   */
  lemma BlockRoundTrip(g: Geometry, image: seq<byte>, pos: nat, header: BlockHeader, data: seq<byte>, at: nat)
    requires BLOCK_HEADER_SIZE + |data| <= g.blockSize && pos + g.blockSize < |image|
    requires header.dataLength == |data|
    ensures var put := PutPadded(g, image, pos, SealedBlock(header, data));
            var read := ReadAt(put.image, pos, g.blockSize);
            && put.ok && read.Some?
            && BlockCheck(read.value) == 0
            && HeaderOf(read.value) == header.(hash := HeaderOf(read.value).hash)
            && EntryOf(read.value) == Entry(header.timestamp, header.applicationData, data)
            && (at < |image| && !(pos <= at < pos + g.blockSize) ==> put.image[at] == image[at])
  {
    hide BlockCheck, HeaderOf, SealedBlock, PutPadded;
    var bytes := SealedBlock(header, data);
    var padding := Padding(g, |bytes|);
    PutPaddedInside(g, image, pos, bytes);
    SealedBlockChecks(header, data, padding);
    SpliceWithin(image, pos, bytes + padding);
  }

  // ----- Probing a region -----

  /** No hint block and no backup: the region is unused. */
  lemma ProbeIdle(g: Geometry, image: seq<byte>, k: nat)
    requires Sized(g, image) && k < Regions(g)
    requires HintFails(Cell(g, image, k, Slots(g))) && HintFails(Cell(g, image, k, Half(g)))
    ensures ProbeRegion(g, image, k) ==
            Probe(image, Done, Unsettled(HintPos(g, k), FirstPos(g, k), LastPos(g, k)))
  {
    hide HintOf, HintCheck, HintAt, Cell, UpdateHint, Settle;
    NamedSlots(g, k);
    ReadCell(g, image, k, Slots(g));
    ReadCell(g, image, k, Half(g));
  }

  /** A hint block in order: the block it points to decides. */
  lemma ProbeSettles(g: Geometry, image: seq<byte>, k: nat, n: nat)
    requires Sized(g, image) && k < Regions(g) && 1 <= n <= Capacity(g)
    requires Cell(g, image, k, Slots(g)) == HintCell(g, LastWritten(g, k, n))
    ensures ProbeRegion(g, image, k) ==
            Settle(g, image, Unsettled(HintPos(g, k), FirstPos(g, k), LastPos(g, k)),
                   HintOfRegion(g, LastWritten(g, k, n)))
  {
    hide HintOf, HintCheck, HintAt, Cell, HintCell, Settle;
    NamedSlots(g, k);
    ReadCell(g, image, k, Slots(g));
    HintCellReadsBack(g, LastWritten(g, k, n));
  }

  /** A hint block in order that points outside its region: the region counts as unused, and no byte changes. */
  lemma ProbeOutside(g: Geometry, image: seq<byte>, k: nat, previous: u64)
    requires Sized(g, image) && k < Regions(g)
    requires Cell(g, image, k, Slots(g)) == HintCell(g, previous)
    requires previous < FirstPos(g, k) || LastPos(g, k) < previous
    ensures ProbeRegion(g, image, k) == Probe(image, Done, Unsettled(HintPos(g, k), FirstPos(g, k), LastPos(g, k)))
  {
    hide HintOf, HintCheck, HintAt, Cell, HintCell, Settle;
    NamedSlots(g, k);
    ReadCell(g, image, k, Slots(g));
    HintCellReadsBack(g, previous);
  }

  lemma ProbeUnused(g: Geometry, image: seq<byte>, contents: Contents, lost: set<nat>, k: nat)
    requires Represents(g, image, contents, lost) && k < Regions(g) && contents[k] == []
    ensures ProbeRegion(g, image, k) == Probe(image, Done, StateOf(g, contents, k))
  {
    hide HintFails, Cell, ProbeRegion, DataHolds;
    assert RegionHolds(g, image, contents, lost, k);
    ProbeIdle(g, image, k);
  }

  lemma ProbeUsed(g: Geometry, image: seq<byte>, contents: Contents, lost: set<nat>, k: nat)
    requires Represents(g, image, contents, lost) && k < Regions(g) && contents[k] != [] && k !in lost
    ensures ProbeRegion(g, image, k) == Probe(image, Done, StateOf(g, contents, k))
  {
    hide HintFails, Cell, HintCell, ProbeRegion, Settle, DataHolds, EntryCell, LastWritten;
    assert RegionHolds(g, image, contents, lost, k);
    ProbeSettles(g, image, k, |contents[k]|);
    SettleRegion(g, image, contents, k);
  }

  /** The bytes after both writes of a recovery of region `k`. */
  lemma RecoveryWrites(g: Geometry, image: seq<byte>, contents: Contents, lost: set<nat>, k: nat)
    returns (image': seq<byte>)
    requires Represents(g, image, contents, lost) && k < Regions(g) && k in lost && contents[k] != []
    ensures Sized(g, image')
    ensures Cell(g, image', k, Slots(g)) == HintCell(g, LastWritten(g, k, |contents[k]|))
    ensures AgreeExcept(g, image, image', {(k, Slots(g)), (k + 1, Half(g))})
    ensures UpdateHint(g, image, LastWritten(g, k, |contents[k]|), 0, HintPos(g, k), HintPos(g, k) + HALF_SPACING) ==
            Stored(image', true)
  {
    hide HintFails, Cell, HintCell, PutHint, DataHolds, LastWritten, SlotPos, Splice;
    assert RegionHolds(g, image, contents, lost, k);
    var previous := LastWritten(g, k, |contents[k]|);
    var p, q := HintPos(g, k), HintPos(g, k) + HALF_SPACING;
    NamedSlots(g, k);
    PutHintInSlot(g, image, previous, k, Slots(g), previous);
    var first := Splice(image, p, HintCell(g, previous));
    if k + 1 < Regions(g) {
      NamedSlots(g, k + 1);
      SlotInside(g, k + 1, Half(g));
    }
    var bytes := PutHintFillsSlot(g, first, previous, q);
    image' := Splice(first, q, bytes);
    forall l: nat, i: nat | IsSlot(g, l, i) && (l, i) != (k + 1, Half(g))
      ensures Cell(g, image', l, i) == if (l, i) == (k, Slots(g)) then HintCell(g, previous) else Cell(g, image, l, i)
    {
      WriteCell(g, image, k, Slots(g), HintCell(g, previous), l, i);
      if k + 1 < Regions(g) {
        WriteCell(g, first, k + 1, Half(g), bytes, l, i);
      } else {
        WriteBehind(g, first, q, bytes, l, i);
      }
    }
  }

  lemma RecoveryKeepsContents(g: Geometry, image: seq<byte>, image': seq<byte>, contents: Contents, lost: set<nat>,
                              k: nat)
    requires Represents(g, image, contents, lost) && k < Regions(g) && k in lost && contents[k] != []
    requires Sized(g, image')
    requires Cell(g, image', k, Slots(g)) == HintCell(g, LastWritten(g, k, |contents[k]|))
    requires AgreeExcept(g, image, image', {(k, Slots(g)), (k + 1, Half(g))})
    ensures Represents(g, image', contents, lost - {k})
  {
    hide Cell, HintCheck, HintCell, EntryCell, LastWritten;
    assert RegionHolds(g, image, contents, lost, k);
    forall l | 0 <= l < Regions(g)
      ensures RegionHolds(g, image', contents, lost - {k}, l)
    {
      assert RegionHolds(g, image, contents, lost, l);
      if l == k {
        assert DataHolds(g, image', k, contents[k]);
      } else {
        RegionKept(g, image, image', contents, contents, lost, lost - {k}, l);
      }
    }
  }

  /** A scan that finds the backup instead of the hint block stores both again, and settles on what the backup says. */
  lemma ProbeRecovers(g: Geometry, image: seq<byte>, k: nat, previous: u64)
    requires Sized(g, image) && k < Regions(g)
    requires HintFails(Cell(g, image, k, Slots(g))) && Cell(g, image, k, Half(g)) == HintCell(g, previous)
    ensures var put := UpdateHint(g, image, previous, 0, HintPos(g, k), HintPos(g, k) + HALF_SPACING);
            && ProbeRegion(g, image, k).image == put.image
            && (!put.ok ==> ProbeRegion(g, image, k).status == Failed)
            && (put.ok && Cell(g, put.image, k, Slots(g)) == HintCell(g, previous) ==>
                  ProbeRegion(g, image, k) ==
                  Settle(g, put.image, Unsettled(HintPos(g, k), FirstPos(g, k), LastPos(g, k)),
                         HintOfRegion(g, previous)))
  {
    hide HintOf, HintCheck, HintAt, Cell, HintCell, BlockCheck, HeaderOf, UpdateHint;
    NamedSlots(g, k);
    ReadCell(g, image, k, Slots(g));
    ReadCell(g, image, k, Half(g));
    HintCellReadsBack(g, previous);
    ReadCell(g, UpdateHint(g, image, previous, 0, HintPos(g, k), HintPos(g, k) + HALF_SPACING).image, k, Slots(g));
  }

  lemma ProbeLost(g: Geometry, image: seq<byte>, contents: Contents, lost: set<nat>, k: nat)
    requires Represents(g, image, contents, lost) && k < Regions(g) && k in lost
    ensures ProbeRegion(g, image, k).status == Done
    ensures ProbeRegion(g, image, k).state == StateOf(g, contents, k)
    ensures Represents(g, ProbeRegion(g, image, k).image, contents, lost - {k})
  {
    hide HintFails, Cell, HintCell, Settle, ProbeRegion, DataHolds, EntryCell, UpdateHint, LastWritten;
    assert RegionHolds(g, image, contents, lost, k);
    var image' := RecoveryWrites(g, image, contents, lost, k);
    ProbeRecovers(g, image, k, LastWritten(g, k, |contents[k]|));
    RecoveryKeepsContents(g, image, image', contents, lost, k);
    assert RegionHolds(g, image', contents, lost - {k}, k);
    SettleRegion(g, image', contents, k);
  }

  /** A probe reports what the region holds, and restores its hint block if that was lost. */
  lemma ProbeFindsContents(g: Geometry, image: seq<byte>, contents: Contents, lost: set<nat>, k: nat)
    requires Represents(g, image, contents, lost) && k < Regions(g)
    ensures ProbeRegion(g, image, k).status == Done
    ensures ProbeRegion(g, image, k).state == StateOf(g, contents, k)
    ensures Represents(g, ProbeRegion(g, image, k).image, contents, lost - {k})
    ensures k !in lost ==> ProbeRegion(g, image, k).image == image
  {
    hide ProbeRegion, RegionHolds;
    if k in lost {
      ProbeLost(g, image, contents, lost, k);
    } else {
      assert lost - {k} == lost;
      if contents[k] == [] {
        ProbeUnused(g, image, contents, lost, k);
      } else {
        ProbeUsed(g, image, contents, lost, k);
      }
    }
  }
}
