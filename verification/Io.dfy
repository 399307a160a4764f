/**
 Block access to a memory-mapped device and the queue of ranges waiting to be
 synced (src/lib/io.c).

 The memory map is an array of bytes; addresses are offsets into it. What the
 operations do to the bytes is given by `ReadAt` and `WriteAt`.
 */
module Io {
  import opened Bytes

  datatype Option<+T> = None | Some(value: T)

  // ----- What reading and writing a block does to the bytes -----

  /** io_read_block: the bound is strict, the last byte of the device is never reached. */
  function ReadAt(image: seq<byte>, pos: nat, length: nat): (r: Option<seq<byte>>)
    ensures r.Some? ==> |r.value| == length
  {
    if pos + length < |image| then Some(image[pos..pos + length]) else None
  }

  datatype Stored = Stored(image: seq<byte>, ok: bool)

  /** One seek and write. */
  function PutAt(image: seq<byte>, pos: nat, data: seq<byte>): (r: Stored)
    ensures |r.image| == |image|
  {
    if pos + |data| < |image| then Stored(Splice(image, pos, data), true) else Stored(image, false)
  }

  /** io_write_block: data first, padding after it. A failure of the second leaves the first. */
  function WriteAt(image: seq<byte>, pos: nat, data: seq<byte>, padding: seq<byte>): (r: Stored)
    ensures |r.image| == |image|
  {
    var first := PutAt(image, pos, data);
    if !first.ok then first else PutAt(first.image, pos + |data|, padding)
  }

  /** Byte by byte: all of both when both fit, the data alone when only they do, nothing otherwise. */
  lemma WriteAtExactly(image: seq<byte>, pos: nat, data: seq<byte>, padding: seq<byte>, i: nat)
    requires i < |image|
    ensures WriteAt(image, pos, data, padding).ok <==> pos + |data| + |padding| < |image|
    ensures WriteAt(image, pos, data, padding).image[i] ==
            if pos <= i < pos + |data| && pos + |data| < |image| then data[i - pos]
            else if pos + |data| <= i < pos + |data| + |padding| < |image| then padding[i - pos - |data|]
            else image[i]
  {
  }

  lemma WriteKeepsFront(image: seq<byte>, pos: nat, data: seq<byte>, padding: seq<byte>, from: nat, to: nat)
    requires from <= to <= pos && to <= |image|
    ensures WriteAt(image, pos, data, padding).image[from..to] == image[from..to]
  {
  }

  // ----- The sync queue -----

  const SYNC_QUEUE_MAX := 16
  const MMAP_SYNC_SIZE := 65536
  const PAGE_SIZE := 4096

  datatype Range = Range(start: nat, end: nat) {
    predicate Ordered() {
      start <= end
    }

    predicate Has(a: nat) {
      start <= a < end
    }

    /** The new range begins inside this one, or right at its end. */
    predicate TakesStartOf(r: Range) {
      r.start == start || (r.start > start && r.start <= end)
    }

    /** The new range ends inside this one, or right at its beginning. */
    predicate TakesEndOf(r: Range) {
      r.end == end || (r.end < end && r.end >= start)
    }

    /** Rounded down to whole pages. */
    function Aligned(): Range {
      Range(start - start % PAGE_SIZE, end)
    }

    function Extended(r: Range): Range {
      if TakesStartOf(r) then Range(start, Max(end, r.end)) else Range(Min(start, r.start), end)
    }
  }

  predicate AllOrdered(q: seq<Range>) {
    forall i :: 0 <= i < |q| ==> q[i].Ordered()
  }

  ghost predicate Covers(q: seq<Range>, a: nat) {
    exists i :: 0 <= i < |q| && q[i].Has(a)
  }

  predicate Touches(q: seq<Range>, i: nat, r: Range)
    requires i < |q|
  {
    q[i].TakesStartOf(r) || q[i].TakesEndOf(r)
  }

  /** The first entry at or after `i` that the new range touches, or the length of the queue. */
  function FirstTouching(q: seq<Range>, r: Range, i: nat): (k: nat)
    requires i <= |q|
    ensures i <= k <= |q|
    ensures k < |q| ==> Touches(q, k, r)
    ensures forall j :: i <= j < k ==> !Touches(q, j, r)
    decreases |q| - i
  {
    if i == |q| || Touches(q, i, r) then i else FirstTouching(q, r, i + 1)
  }

  /** The queue after io_update_sync_queue, or None when it returns 1. */
  function Enqueued(q: seq<Range>, r: Range): Option<seq<Range>> {
    var k := FirstTouching(q, r, 0);
    if k < |q| then Some(q[k := q[k].Extended(r)])
    else if |q| == SYNC_QUEUE_MAX then None
    else Some(q + [r])
  }

  /** An accepted range adds exactly its own bytes to what the queue covers. */
  lemma EnqueuedCoversExactly(q: seq<Range>, r: Range, a: nat)
    requires AllOrdered(q) && r.Ordered() && |q| <= SYNC_QUEUE_MAX
    requires Enqueued(q, r).Some?
    ensures AllOrdered(Enqueued(q, r).value) && |Enqueued(q, r).value| <= SYNC_QUEUE_MAX
    ensures Covers(Enqueued(q, r).value, a) <==> Covers(q, a) || r.Has(a)
  {
    var k := FirstTouching(q, r, 0);
    var n := Enqueued(q, r).value;
    if k < |q| {
      assert n[k].Has(a) <==> q[k].Has(a) || r.Has(a);
      forall i | 0 <= i < |q| && i != k
        ensures n[i] == q[i]
      {
      }
    } else {
      assert n[|q|] == r;
      forall i | 0 <= i < |q|
        ensures n[i] == q[i]
      {
      }
    }
    if Covers(q, a) {
      var i :| 0 <= i < |q| && q[i].Has(a);
      assert n[i].Has(a);
    }
    if r.Has(a) {
      assert n[k].Has(a);
    }
  }

  /**
   The first entry whose bytes, or the place right behind them, the new range begins or ends
   at becomes the hull of both. Without such an entry the range is appended, or refused when
   all sixteen entries are taken.
   */
  lemma EnqueuedExactly(q: seq<Range>, r: Range, k: nat)
    requires AllOrdered(q) && r.Ordered() && k <= |q| <= 16
    requires forall j :: 0 <= j < k ==>
                           !(q[j].start <= r.start <= q[j].end) && !(q[j].start <= r.end <= q[j].end)
    requires k < |q| ==> q[k].start <= r.start <= q[k].end || q[k].start <= r.end <= q[k].end
    ensures Enqueued(q, r) ==
            if k < |q| then Some(q[k := Range(Min(q[k].start, r.start), Max(q[k].end, r.end))])
            else if |q| == 16 then None
            else Some(q + [r])
  {
    var first := FirstTouching(q, r, 0);
    if first < k {
      TouchesExactly(q, first, r);
    } else if k < first {
      TouchesExactly(q, k, r);
    }
  }

  /** An entry takes a range that begins or ends among its bytes or right behind them. */
  lemma TouchesExactly(q: seq<Range>, i: nat, r: Range)
    requires AllOrdered(q) && r.Ordered() && i < |q|
    ensures Touches(q, i, r) <==> q[i].start <= r.start <= q[i].end || q[i].start <= r.end <= q[i].end
  {
  }

  /** A range is refused exactly when all sixteen entries are taken and it begins or ends at none of them. */
  lemma RefusedExactlyWhenFull(q: seq<Range>, r: Range)
    requires AllOrdered(q) && r.Ordered() && |q| <= 16
    ensures Enqueued(q, r).None? <==>
            && |q| == 16
            && forall i :: 0 <= i < |q| ==>
                             !(q[i].start <= r.start <= q[i].end) && !(q[i].start <= r.end <= q[i].end)
  {
    var k := FirstTouching(q, r, 0);
    if k < |q| {
      TouchesExactly(q, k, r);
    }
    forall i | 0 <= i < |q|
      ensures Touches(q, i, r) <==> q[i].start <= r.start <= q[i].end || q[i].start <= r.end <= q[i].end
    {
      TouchesExactly(q, i, r);
    }
  }

  /** So writes that follow each other stay one entry. */
  lemma NeighboursMerge(a: Range, end: nat)
    requires a.Ordered() && a.end <= end
    ensures Enqueued([a], Range(a.end, end)) == Some([Range(a.start, end)])
  {
    EnqueuedExactly([a], Range(a.end, end), 0);
    assert [a][0 := Range(a.start, end)] == [Range(a.start, end)];
  }

  /** The queue after a series of ranges, None once one of them was refused. */
  function EnqueuedAll(q: seq<Range>, rs: seq<Range>): Option<seq<Range>>
    decreases |rs|
  {
    if rs == [] then Some(q)
    else
      match Enqueued(q, rs[0])
      case None => None
      case Some(next) => EnqueuedAll(next, rs[1..])
  }

  /** Over any series of writes of which none was refused, the queue covers what it covered and the bytes written. */
  lemma {:induction false} SeriesCoversExactly(q: seq<Range>, rs: seq<Range>, a: nat)
    requires AllOrdered(q) && AllOrdered(rs) && |q| <= SYNC_QUEUE_MAX
    requires EnqueuedAll(q, rs).Some?
    ensures |EnqueuedAll(q, rs).value| <= SYNC_QUEUE_MAX
    ensures Covers(EnqueuedAll(q, rs).value, a) <==> Covers(q, a) || Covers(rs, a)
    decreases |rs|
  {
    if rs == [] {
    } else {
      EnqueuedCoversExactly(q, rs[0], a);
      SeriesCoversExactly(Enqueued(q, rs[0]).value, rs[1..], a);
      CoversHead(rs, a);
    }
  }

  // ----- What is written and not handed to msync yet -----

  /** What io_sync hands to msync. */
  function AlignedAll(q: seq<Range>): (s: seq<Range>)
    ensures |s| == |q|
    ensures forall i :: 0 <= i < |q| ==> s[i] == q[i].Aligned()
  {
    seq(|q|, i requires 0 <= i < |q| => q[i].Aligned())
  }

  /** A range is handed over from the page on that its first byte lies in. */
  lemma AlignedToPages(q: seq<Range>, i: nat)
    requires i < |q|
    ensures var r := AlignedAll(q)[i];
            r.start % 4096 == 0 && r.start <= q[i].start < r.start + 4096 && r.end == q[i].end
  {
  }

  lemma AlignedNext(q: seq<Range>, i: nat, before: seq<Range>)
    requires i < |q|
    ensures before + AlignedAll(q)[..i] + [q[i].Aligned()] == before + AlignedAll(q)[..i + 1]
  {
    hide AlignedAll;
  }

  lemma HandedPages(q: seq<Range>, before: seq<Range>, handed: seq<Range>)
    requires handed == before + AlignedAll(q)
    ensures |handed| == |before| + |q| && handed[..|before|] == before
    ensures forall i :: 0 <= i < |q| ==>
              var range := handed[|before| + i];
              range.start % 4096 == 0 && range.start <= q[i].start < range.start + 4096 && range.end == q[i].end
  {
    hide AlignedAll;
    forall i | 0 <= i < |q|
      ensures var range := handed[|before| + i];
              range.start % 4096 == 0 && range.start <= q[i].start < range.start + 4096 && range.end == q[i].end
    {
      AlignedToPages(q, i);
      assert handed[|before| + i] == AlignedAll(q)[i];
    }
  }

  function BytesOf(r: Range): (s: set<nat>)
    ensures forall a: nat :: a in s <==> r.Has(a)
  {
    set a: nat | a < r.end && r.Has(a)
  }

  /** The queue, the count of bytes since the last sync, the bytes written and not handed to msync, and the ranges
      that were, in order. */
  datatype SyncState = SyncState(queue: seq<Range>, unsynced: nat, pending: set<nat>, handed: seq<Range>)

  /** io_sync */
  ghost function Synced(s: SyncState): SyncState {
    var ranges := AlignedAll(s.queue);
    SyncState([], 0, (set a | a in s.pending && !Covers(ranges, a)), s.handed + ranges)
  }

  /** One write of the bytes in `r`: queued, and synced when the queue refuses them or enough has come together. */
  ghost function AfterWrite(s: SyncState, r: Range): SyncState
    requires r.Ordered()
  {
    var stored := s.(unsynced := s.unsynced + (r.end - r.start), pending := s.pending + BytesOf(r));
    match Enqueued(s.queue, r)
    case None => Synced(stored)
    case Some(q) => if stored.unsynced >= MMAP_SYNC_SIZE then Synced(stored.(queue := q)) else stored.(queue := q)
  }

  /** io_write_block: two writes, as far as they stay inside a device of `size` bytes. */
  ghost function AfterBlock(s: SyncState, size: nat, pos: nat, length: nat, padding: nat): SyncState {
    if pos + length >= size then s
    else
      var first := AfterWrite(s, Range(pos, pos + length));
      if pos + length + padding >= size then first
      else AfterWrite(first, Range(pos + length, pos + length + padding))
  }

  /** The queue covers the pending bytes and nothing else. */
  ghost predicate Exact(s: SyncState) {
    && |s.queue| <= SYNC_QUEUE_MAX && AllOrdered(s.queue)
    && forall a: nat :: Covers(s.queue, a) <==> a in s.pending
  }

  lemma CoversAligned(q: seq<Range>, a: nat)
    requires Covers(q, a)
    ensures Covers(AlignedAll(q), a)
  {
    var i :| 0 <= i < |q| && q[i].Has(a);
    assert AlignedAll(q)[i].Has(a);
  }

  /** A sync of an exact queue leaves nothing pending. */
  lemma SyncHandsAll(s: SyncState)
    requires Exact(s)
    ensures Exact(Synced(s)) && Synced(s).pending == {}
  {
    forall a | a in s.pending
      ensures Covers(AlignedAll(s.queue), a)
    {
      CoversAligned(s.queue, a);
    }
  }

  /** An accepted write keeps the queue exact: its bytes are pending, unless it is the one that makes for a sync. */
  lemma WriteKeepsExact(s: SyncState, r: Range)
    requires Exact(s) && r.Ordered() && Enqueued(s.queue, r).Some?
    ensures Exact(AfterWrite(s, r))
    ensures AfterWrite(s, r).pending ==
            if s.unsynced + (r.end - r.start) >= 65536 then {} else s.pending + BytesOf(r)
    ensures AfterWrite(s, r).unsynced ==
            if s.unsynced + (r.end - r.start) >= 65536 then 0 else s.unsynced + (r.end - r.start)
  {
    var q := Enqueued(s.queue, r).value;
    var queued := SyncState(q, s.unsynced + (r.end - r.start), s.pending + BytesOf(r), s.handed);
    EnqueuedCoversExactly(s.queue, r, 0);
    forall a: nat
      ensures Covers(q, a) <==> a in queued.pending
    {
      EnqueuedCoversExactly(s.queue, r, a);
    }
    SyncHandsAll(queued);
  }

  /** A refused write syncs the old ranges and leaves its own bytes pending, outside the queue. */
  lemma RefusedStaysPending(s: SyncState, r: Range)
    requires Exact(s) && r.Ordered() && Enqueued(s.queue, r).None?
    ensures AfterWrite(s, r).queue == [] && AfterWrite(s, r).unsynced == 0
    ensures forall a :: a in AfterWrite(s, r).pending <==> r.Has(a) && !Covers(AlignedAll(s.queue), a)
  {
    forall a | a in s.pending
      ensures Covers(AlignedAll(s.queue), a)
    {
      CoversAligned(s.queue, a);
    }
  }

  /** The writes of a series, the syncs among them included. */
  ghost function AfterWrites(s: SyncState, rs: seq<Range>): SyncState
    requires AllOrdered(rs)
    decreases |rs|
  {
    if rs == [] then s else AfterWrites(AfterWrite(s, rs[0]), rs[1..])
  }

  ghost predicate NoneRefused(s: SyncState, rs: seq<Range>)
    requires AllOrdered(rs)
    decreases |rs|
  {
    rs != [] ==> Enqueued(s.queue, rs[0]).Some? && NoneRefused(AfterWrite(s, rs[0]), rs[1..])
  }

  lemma WriteLosesNothing(s: SyncState, r: Range, a: nat)
    requires Exact(s) && r.Ordered() && Enqueued(s.queue, r).Some?
    ensures s.handed <= AfterWrite(s, r).handed
    ensures a in s.pending || r.Has(a) ==>
              a in AfterWrite(s, r).pending || Covers(AfterWrite(s, r).handed[|s.handed|..], a)
    ensures a in AfterWrite(s, r).pending ==> a in s.pending || r.Has(a)
  {
    WriteKeepsExact(s, r);
    var q := Enqueued(s.queue, r).value;
    EnqueuedCoversExactly(s.queue, r, a);
    if s.unsynced + (r.end - r.start) >= MMAP_SYNC_SIZE && Covers(q, a) {
      CoversAligned(q, a);
      assert AfterWrite(s, r).handed[|s.handed|..] == AlignedAll(q);
    }
  }

  lemma CoversMore(q: seq<Range>, q': seq<Range>, n: nat, n': nat, a: nat)
    requires n <= n' <= |q| && q <= q'
    ensures Covers(q[n..], a) ==> Covers(q'[n..], a)
    ensures Covers(q'[n'..], a) ==> Covers(q'[n..], a)
  {
    if Covers(q[n..], a) {
      var i :| 0 <= i < |q[n..]| && q[n..][i].Has(a);
      assert q'[n..][i].Has(a);
    }
    if Covers(q'[n'..], a) {
      var i :| 0 <= i < |q'[n'..]| && q'[n'..][i].Has(a);
      assert q'[n..][i + n' - n].Has(a);
    }
  }

  /**
   Over any series of writes without refusal, whichever of them make for a sync, the
   queue stays exact, and every byte written is queued or has been handed to msync.
   */
  lemma {:induction false} SeriesLosesNothing(s: SyncState, rs: seq<Range>, a: nat)
    requires Exact(s) && AllOrdered(rs) && NoneRefused(s, rs)
    ensures var t := AfterWrites(s, rs);
            && Exact(t) && s.handed <= t.handed
            && (a in s.pending || Covers(rs, a) ==> Covers(t.queue, a) || Covers(t.handed[|s.handed|..], a))
            && (Covers(t.queue, a) ==> a in s.pending || Covers(rs, a))
    decreases |rs|
  {
    hide AfterWrite, Exact, Enqueued;
    if rs == [] {
      assert Covers(s.queue, a) <==> a in s.pending by { ExactCovers(s, a); }
    } else {
      var next := AfterWrite(s, rs[0]);
      var t := AfterWrites(s, rs);
      WriteKeepsExact(s, rs[0]);
      WriteLosesNothing(s, rs[0], a);
      SeriesLosesNothing(next, rs[1..], a);
      CoversMore(next.handed, t.handed, |s.handed|, |next.handed|, a);
      CoversHead(rs, a);
    }
  }

  /** A block counts as the writes of its data and of its padding, as far as these fit the device. */
  lemma BlockIsWrites(s: SyncState, size: nat, pos: nat, length: nat, padding: nat)
    ensures var data, rest := Range(pos, pos + length), Range(pos + length, pos + length + padding);
            && AllOrdered([]) && AllOrdered([data]) && AllOrdered([data, rest])
            && AfterBlock(s, size, pos, length, padding) ==
               AfterWrites(s, if size <= pos + length then []
                              else if size <= pos + length + padding then [data]
                              else [data, rest])
  {
    hide AfterWrite;
    var data, rest := Range(pos, pos + length), Range(pos + length, pos + length + padding);
    assert [data, rest][1..] == [rest] && [data][1..] == [] && [rest][1..] == [];
    if pos + length < size {
      assert AfterWrites(s, [data]) == AfterWrites(AfterWrite(s, data), []);
      assert AfterWrites(s, [data, rest]) == AfterWrites(AfterWrite(s, data), [rest]);
    }
  }

  lemma ExactCovers(s: SyncState, a: nat)
    requires Exact(s)
    ensures Covers(s.queue, a) <==> a in s.pending
  {
  }

  lemma CoversHead(rs: seq<Range>, a: nat)
    requires rs != []
    ensures Covers(rs, a) <==> rs[0].Has(a) || Covers(rs[1..], a)
  {
    if Covers(rs, a) {
      var i :| 0 <= i < |rs| && rs[i].Has(a);
      assert i == 0 || rs[1..][i - 1].Has(a);
    }
    if Covers(rs[1..], a) {
      var i :| 0 <= i < |rs[1..]| && rs[1..][i].Has(a);
      assert rs[i + 1].Has(a);
    }
  }

  class SyncQueue {
    const entries: array<Range>
    var count: nat

    constructor ()
      ensures Valid() && Ranges() == []
      ensures fresh(entries)
    {
      entries := new Range[SYNC_QUEUE_MAX](i => Range(0, 0));
      count := 0;
    }

    ghost predicate Valid()
      reads this, entries
    {
      && entries.Length == SYNC_QUEUE_MAX
      && count <= SYNC_QUEUE_MAX
      && AllOrdered(entries[..count])
    }

    function Ranges(): seq<Range>
      requires count <= entries.Length
      reads this, entries
    {
      entries[..count]
    }

    /** io_update_sync_queue */
    method Update(start: nat, end: nat) returns (code: int)
      requires Valid() && start <= end
      modifies this, entries
      ensures Valid()
      ensures code == 0 || code == 1
      ensures code == 0 <==> Enqueued(old(Ranges()), Range(start, end)).Some?
      ensures code == 0 ==> Ranges() == Enqueued(old(Ranges()), Range(start, end)).value
      ensures code == 1 ==> Ranges() == old(Ranges())
    {
      ghost var q := Ranges();
      ghost var r := Range(start, end);
      if count == 0 {
        entries[0] := Range(start, end);
        count := count + 1;
        assert Ranges() == [r] == q + [r];
        return 0;
      }
      var i := 0;
      while i < count
        invariant 0 <= i <= count
        invariant Ranges() == q
        invariant count == old(count)
        invariant FirstTouching(q, r, 0) == FirstTouching(q, r, i)
      {
        var entry := entries[i];
        assert entry == q[i];
        if start == entry.start || (start > entry.start && start <= entry.end) {
          if end > entry.end {
            entries[i] := Range(entry.start, end);
          }
          assert Ranges() == q[i := q[i].Extended(r)];
          return 0;
        }
        if end == entry.end || (end < entry.end && end >= entry.start) {
          if start < entry.start {
            entries[i] := Range(start, entry.end);
          }
          assert Ranges() == q[i := q[i].Extended(r)];
          return 0;
        }
        i := i + 1;
      }
      if count == SYNC_QUEUE_MAX {
        return 1;
      }
      entries[count] := Range(start, end);
      count := count + 1;
      assert Ranges() == q + [r];
      return 0;
    }
  }

  // ----- The device -----

  class IoFile {
    const memory: array<byte>
    const queue: SyncQueue
    var seek: nat
    var unsyncedWriteBytes: nat
    /** Addresses written and not yet handed to msync. */
    ghost var pending: set<nat>
    /** The ranges handed to msync. */
    ghost var handed: seq<Range>
    /** What the device held after each block written, in order. */
    ghost var journal: seq<seq<byte>>

    constructor (memory: array<byte>)
      ensures Valid() && this.memory == memory
      ensures fresh(queue) && fresh(queue.entries)
      ensures Bookkeeping() == SyncState([], 0, {}, [])
    {
      this.memory := memory;
      queue := new SyncQueue();
      seek, unsyncedWriteBytes, pending, handed, journal := 0, 0, {}, [], [];
    }

    ghost function Footprint(): set<object> {
      {this, memory, queue, queue.entries}
    }

    ghost predicate Valid()
      reads this, queue, queue.entries
    {
      && queue.Valid()
      && memory as object != queue.entries as object
    }

    function Image(): (s: seq<byte>)
      reads memory
      ensures |s| == memory.Length
    {
      memory[..]
    }

    ghost function Bookkeeping(): SyncState
      requires Valid()
      reads this, queue, queue.entries
    {
      SyncState(queue.Ranges(), unsyncedWriteBytes, pending, handed)
    }

    /** io_sync: hand every queued range, rounded down to a page, to msync. */
    method Sync()
      requires Valid()
      modifies this, queue, queue.entries
      ensures Valid() && seek == old(seek) && journal == old(journal)
      ensures Bookkeeping() == Synced(old(Bookkeeping()))
      ensures queue.Ranges() == [] && unsyncedWriteBytes == 0
      ensures |handed| == |old(handed)| + |old(queue.Ranges())| && handed[..|old(handed)|] == old(handed)
      ensures forall i :: 0 <= i < |old(queue.Ranges())| ==>
                var range, was := handed[|old(handed)| + i], old(queue.Ranges())[i];
                range.start % 4096 == 0 && range.start <= was.start < range.start + 4096 && range.end == was.end
    {
      hide AlignedAll, Covers;
      ghost var q := queue.Ranges();
      ghost var before := handed;
      assert before + AlignedAll(q)[..0] == before;
      var i := 0;
      while i < queue.count
        invariant 0 <= i <= queue.count == |q|
        invariant queue.entries.Length == SYNC_QUEUE_MAX && queue.count <= SYNC_QUEUE_MAX
        invariant forall j :: i <= j < |q| ==> queue.entries[j] == q[j]
        invariant handed == before + AlignedAll(q)[..i]
        invariant pending == old(pending) && seek == old(seek) && journal == old(journal)
      {
        var entry := queue.entries[i];
        queue.entries[i] := Range(entry.start - entry.start % PAGE_SIZE, entry.end);
        handed := handed + [queue.entries[i]];
        AlignedNext(q, i, before);
        i := i + 1;
      }
      assert AlignedAll(q)[..i] == AlignedAll(q);
      pending := set a | a in pending && !Covers(AlignedAll(q), a);
      unsyncedWriteBytes := 0;
      queue.count := 0;
      HandedPages(q, before, handed);
    }

    method Seek(pos: nat) returns (code: int)
      modifies this`seek
      ensures code == if pos < memory.Length then 0 else 1
      ensures seek == if pos < memory.Length then pos else old(seek)
    {
      if pos >= memory.Length {
        return 1;
      }
      seek := pos;
      return 0;
    }

    /** io_read, into a buffer of the caller. */
    method Read(length: nat) returns (code: int, target: seq<byte>)
      ensures (code, target) ==
              if seek + length < memory.Length then (0, memory[seek..seek + length]) else (1, [])
    {
      if seek + length >= memory.Length {
        return 1, [];
      }
      return 0, memory[seek..seek + length];
    }

    method Store(source: seq<byte>)
      requires seek + |source| < memory.Length
      modifies memory
      ensures Image() == Splice(old(Image()), seek, source)
    {
      forall i | 0 <= i < |source| {
        memory[seek + i] := source[i];
      }
    }

    /** io_write */
    method Write(source: seq<byte>) returns (code: int)
      requires Valid()
      modifies this, memory, queue, queue.entries
      ensures Valid() && seek == old(seek) && journal == old(journal)
      ensures Image() == PutAt(old(Image()), seek, source).image
      ensures code == if PutAt(old(Image()), seek, source).ok then 0 else 1
      ensures Bookkeeping() == if code == 0 then AfterWrite(old(Bookkeeping()), Range(seek, seek + |source|))
                               else old(Bookkeeping())
    {
      hide Enqueued, Synced, BytesOf, Splice;
      if seek + |source| >= memory.Length {
        return 1;
      }
      Store(source);
      unsyncedWriteBytes := unsyncedWriteBytes + |source|;
      pending := pending + BytesOf(Range(seek, seek + |source|));
      var refused := queue.Update(seek, seek + |source|);
      if refused != 0 || unsyncedWriteBytes >= MMAP_SYNC_SIZE {
        Sync();
      }
      return 0;
    }

    /** io_read_block */
    method ReadBlock(pos: nat, length: nat) returns (code: int, data: seq<byte>)
      modifies this`seek
      ensures ReadAt(Image(), pos, length) == if code == 0 then Some(data) else None
      ensures (code, data) == if pos + length < memory.Length then (0, memory[pos..pos + length]) else (1, [])
    {
      var res := Seek(pos);
      if res != 0 {
        return 1, [];
      }
      code, data := Read(length);
    }

    /** io_write_block */
    method WriteBlock(pos: nat, data: seq<byte>, padding: seq<byte>) returns (code: int)
      requires Valid()
      modifies this, memory, queue, queue.entries
      ensures Valid()
      ensures journal == old(journal) + if code == 0 then [Image()] else []
      ensures Image() == WriteAt(old(Image()), pos, data, padding).image
      ensures code == if WriteAt(old(Image()), pos, data, padding).ok then 0 else 1
      ensures Bookkeeping() == AfterBlock(old(Bookkeeping()), memory.Length, pos, |data|, |padding|)
    {
      hide AfterWrite;
      var res := Seek(pos);
      if res != 0 {
        return 1;
      }
      res := Write(data);
      if res != 0 {
        return 1;
      }
      res := Seek(pos + |data|);
      if res != 0 {
        return 1;
      }
      res := Write(padding);
      if res != 0 {
        return 1;
      }
      journal := journal + [Image()];
      return 0;
    }
  }
}
