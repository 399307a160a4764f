/**
 The ring as a bounded queue. `LogAct` says what writes, reads and updates do to a log
 of everything written, in terms of the log alone; on runs with increasing timestamps
 the machine, and with it the device, behaves the same.
 */
module Queue {
  import opened Bytes
  import opened Layout
  import opened Io
  import opened Codec
  import opened Blocks
  import opened Traversal
  import opened Writing
  import opened Ring
  import opened Simulation
  import opened Machine
  import opened Runs

  // ----- The specification: a log and its live part -----

  /** How many entries `c` full regions hold. */
  function At(g: Geometry, c: nat): nat {
    c * Capacity(g)
  }

  lemma AtOrder(g: Geometry, c: nat, d: nat)
    ensures At(g, c + 1) == At(g, c) + Capacity(g)
    ensures At(g, 0) == 0
    ensures c < d ==> At(g, c) + Capacity(g) <= At(g, d)
    ensures c <= d ==> At(g, c) <= At(g, d)
  {
  }

  /** How many entries the newest of `n` shares its region with, itself included. */
  function InLast(g: Geometry, n: nat): (d: nat)
    requires 0 < n
    ensures 1 <= d <= Capacity(g)
  {
    (n - 1) % Capacity(g) + 1
  }

  /** How many of `n` written entries are still on the device. */
  function Keep(g: Geometry, n: nat): (keep: nat)
    ensures keep <= n
  {
    hide At;
    AtOrder(g, Regions(g) - 1, 0);
    if n <= At(g, Regions(g)) then n else At(g, Regions(g) - 1) + InLast(g, n)
  }

  function Live(g: Geometry, log: seq<Entry>): seq<Entry> {
    log[|log| - Keep(g, |log|)..]
  }

  /**
   The timestamp a new entry has to beat: the newest when the last region has room,
   none when an unused region is next, and otherwise that of the last of the Capacity
   entries about to be dropped.
   */
  function Bound(g: Geometry, log: seq<Entry>): u64 {
    if log == [] then 0
    else if InLast(g, |log|) < Capacity(g) then log[|log| - 1].timestamp
    else if |log| < At(g, Regions(g)) then 0
    else if Capacity(g) <= |Live(g, log)| then Live(g, log)[Capacity(g) - 1].timestamp
    else 0
  }

  /** The entry a write appends, or how it ends instead. */
  datatype Appended = Append(entry: Entry) | Reject(ending: Ending)

  function Admit(g: Geometry, log: seq<Entry>, request: Request): Appended {
    if g.deviceSize < SMALL_SIZE_THRESHOLD then Reject(Exits)
    else
      match Decide(Bound(g, log), request.Given(), request.faketimestamp)
      case Refuse(code) => Reject(Returns(code))
      case Accept(timestamp) =>
        if |request.data| > g.blockSize - BLOCK_HEADER_SIZE then Reject(Returns(WRITE_ERR_SIZE))
        else Append(Entry(timestamp, request.applicationData, request.data))
  }

  /** The log with its live part passed over by `callback`. */
  function PassedLog(g: Geometry, log: seq<Entry>, callback: BlockCallback): (seq<Entry>, BlockCallback) {
    var pass := WalkEntries(Live(g, log), callback);
    (log[..|log| - Keep(g, |log|)] + pass.entries, pass.callback)
  }

  // ----- Timestamps -----

  /** What the manual asks of writers: every stored timestamp is above all earlier ones (and below the sentinel). */
  predicate Newer(log: seq<Entry>, e: Entry) {
    && 1 <= e.timestamp < U64_MAX
    && (log == [] || log[|log| - 1].timestamp < e.timestamp)
  }

  lemma NewerAscends(log: seq<Entry>, e: Entry)
    requires Ascending(log) && Newer(log, e)
    ensures Ascending(log + [e])
  {
  }

  // ----- Chunks of the log -----

  // Chunk `c` begins at At(g, c) and is as long as a full region, except perhaps the last.

  function Chunk(g: Geometry, log: seq<Entry>, c: int): (s: seq<Entry>)
    ensures |s| <= Capacity(g)
  {
    if c < 0 || |log| <= At(g, c) then [] else log[At(g, c)..Min(At(g, c) + Capacity(g), |log|)]
  }

  /** Chunk `m` is the last one and sits in region `cur`; going back from there around the ring come the chunks
      before. */
  function ChunkOf(g: Geometry, m: nat, cur: nat, k: nat): int {
    if k <= cur then m - cur + k else m - cur + k - Regions(g)
  }

  predicate QueueView(g: Geometry, contents: Contents, log: seq<Entry>, m: nat, cur: nat) {
    && Shaped(g, contents)
    && cur < Regions(g) && cur <= m && (m < Regions(g) ==> cur == m)
    && (0 < m ==> At(g, m) < |log|) && |log| <= At(g, m) + Capacity(g)
    && (forall k :: 0 <= k < Regions(g) ==> contents[k] == Chunk(g, log, ChunkOf(g, m, cur, k)))
  }

  lemma EmptyQueue(g: Geometry)
    ensures QueueView(g, NoEntries(g), [], 0, 0)
  {
  }

  /** All chunks before the last are full. */
  lemma ChunkLength(g: Geometry, log: seq<Entry>, m: nat, c: nat)
    requires (0 < m ==> At(g, m) < |log|) && |log| <= At(g, m) + Capacity(g)
    requires c <= m
    ensures c < m ==> |Chunk(g, log, c)| == Capacity(g)
    ensures At(g, m) <= |log| && |Chunk(g, log, m)| == |log| - At(g, m)
  {
    hide At;
    AtOrder(g, c, m);
    AtOrder(g, m, m);
  }

  /** The entries still in the ring are those from chunk `oldest` on. */
  function OldestChunk(g: Geometry, m: nat): nat {
    if m < Regions(g) then 0 else m - Regions(g) + 1
  }

  lemma LiveIsFromOldestChunk(g: Geometry, log: seq<Entry>, m: nat)
    requires (0 < m ==> At(g, m) < |log|) && |log| <= At(g, m) + Capacity(g)
    ensures At(g, OldestChunk(g, m)) <= |log|
    ensures |log| - Keep(g, |log|) == At(g, OldestChunk(g, m))
    ensures Live(g, log) == log[At(g, OldestChunk(g, m))..]
  {
    hide At, InLast;
    AtOrder(g, 0, m);
    AtOrder(g, OldestChunk(g, m), m);
    if m < Regions(g) {
      AtOrder(g, m + 1, Regions(g));
      AtOrder(g, m, m);
    } else {
      AtOrder(g, Regions(g), m);
      InLastOf(g, |log|, m);
      AtSum(g, OldestChunk(g, m), Regions(g) - 1);
    }
  }

  lemma AtSum(g: Geometry, c: nat, d: nat)
    ensures At(g, c + d) == At(g, c) + At(g, d)
  {
  }

  lemma InLastOf(g: Geometry, n: nat, m: nat)
    requires At(g, m) < n <= At(g, m) + Capacity(g)
    ensures InLast(g, n) == n - At(g, m)
  {
    RemainderOf(n - 1, m, n - 1 - At(g, m), Capacity(g));
  }

  lemma RemainderOf(n: nat, q: nat, d: nat, c: nat)
    requires 0 < c && n == q * c + d && d < c
    ensures n % c == d
  {
    var q', d' := n / c, n % c;
    assert n == q' * c + d';
    if q' < q {
      Ordered(c, q', q);
    } else if q < q' {
      Ordered(c, q, q');
    }
  }

  // ----- Writes -----

  /** What the regions hold, by their place in the ring. */
  lemma RegionFacts(g: Geometry, contents: Contents, log: seq<Entry>, m: nat, cur: nat, k: nat)
    requires QueueView(g, contents, log, m, cur) && k < Regions(g)
    ensures var c := ChunkOf(g, m, cur, k);
            && c <= m
            && (c == m <==> k == cur)
            && (c < 0 <==> m < Regions(g) && cur < k)
            && (0 <= c ==> OldestChunk(g, m) <= c && At(g, c) <= |log|)
            && (c < 0 ==> contents[k] == [])
            && (0 <= c < m ==> |contents[k]| == Capacity(g) && At(g, c) + Capacity(g) <= |log|)
            && (c == m ==> |contents[k]| == |log| - At(g, m))
  {
    hide At, Chunk;
    var c := ChunkOf(g, m, cur, k);
    if 0 <= c {
      ChunkLength(g, log, m, c);
      AtOrder(g, c, m);
    }
    NoChunk(g, log, c);
  }

  lemma NoChunk(g: Geometry, log: seq<Entry>, c: int)
    ensures c < 0 ==> Chunk(g, log, c) == []
  {
  }

  /** The last entry of a region, as an entry of the log. */
  lemma LastInLog(g: Geometry, contents: Contents, log: seq<Entry>, m: nat, cur: nat, k: nat)
    requires QueueView(g, contents, log, m, cur) && k < Regions(g) && contents[k] != []
    ensures var c := ChunkOf(g, m, cur, k);
            && 0 <= c && 0 < At(g, c) + |contents[k]| <= |log|
            && LastTimestamp(contents[k]) == log[At(g, c) + |contents[k]| - 1].timestamp
  {
  }

  /** Regions nearer the end of the log end with larger timestamps. */
  lemma LaterIsNewer(g: Geometry, contents: Contents, log: seq<Entry>, m: nat, cur: nat, j: nat, k: nat)
    requires QueueView(g, contents, log, m, cur) && Ascending(log)
    requires j < Regions(g) && k < Regions(g) && contents[j] != [] && contents[k] != []
    requires ChunkOf(g, m, cur, j) < ChunkOf(g, m, cur, k)
    ensures LastTimestamp(contents[j]) < LastTimestamp(contents[k]) < U64_MAX
  {
    hide At, Chunk;
    LastInLog(g, contents, log, m, cur, j);
    LastInLog(g, contents, log, m, cur, k);
    AtOrder(g, ChunkOf(g, m, cur, j), ChunkOf(g, m, cur, k));
  }

  function NextCur(g: Geometry, cur: nat): nat {
    if cur + 1 < Regions(g) then cur + 1 else 0
  }

  /** The last region has room, or it is full and the next one around the ring is unused or holds the oldest chunk. */
  function TargetOf(g: Geometry, log: seq<Entry>, m: nat, cur: nat): nat {
    if |log| < At(g, m) + Capacity(g) then cur else NextCur(g, cur)
  }

  lemma RoomInQueue(g: Geometry, contents: Contents, log: seq<Entry>, m: nat, cur: nat)
    requires QueueView(g, contents, log, m, cur)
    ensures var f := FirstWithRoom(g, contents, 0);
            if |log| < At(g, m) + Capacity(g) || m + 1 < Regions(g) then f == TargetOf(g, log, m, cur)
            else f == Regions(g)
  {
    hide At, Chunk;
    var f := FirstWithRoom(g, contents, 0);
    RegionFacts(g, contents, log, m, cur, cur);
    if f < Regions(g) {
      RegionFacts(g, contents, log, m, cur, f);
    }
    if cur + 1 < Regions(g) {
      RegionFacts(g, contents, log, m, cur, cur + 1);
    }
  }

  lemma OldestInQueue(g: Geometry, contents: Contents, log: seq<Entry>, m: nat, cur: nat)
    requires QueueView(g, contents, log, m, cur) && Ascending(log)
    requires |log| == At(g, m) + Capacity(g) && Regions(g) <= m + 1
    ensures OldestRegion(g, contents, 0, Regions(g)) == NextCur(g, cur)
    ensures ChunkOf(g, m, cur, NextCur(g, cur)) == OldestChunk(g, m)
    ensures |contents[NextCur(g, cur)]| == Capacity(g)
  {
    hide At, Chunk, LastTimestamp;
    var t, o := NextCur(g, cur), OldestRegion(g, contents, 0, Regions(g));
    RegionFacts(g, contents, log, m, cur, t);
    LastInLog(g, contents, log, m, cur, t);
    assert LastTimestamp(contents[t]) < U64_MAX;
    assert o < Regions(g);
    RegionFacts(g, contents, log, m, cur, o);
    if o != t {
      LaterIsNewer(g, contents, log, m, cur, t, o);
    }
  }

  /** The timestamp to beat while the last region has room. */
  lemma BoundWithRoom(g: Geometry, contents: Contents, log: seq<Entry>, m: nat, cur: nat)
    requires QueueView(g, contents, log, m, cur) && |log| < At(g, m) + Capacity(g)
    ensures cur < Regions(g) && cur < |contents|
    ensures LastTimestamp(contents[cur]) == Bound(g, log)
  {
    hide At, Chunk, InLast, Keep;
    RegionFacts(g, contents, log, m, cur, cur);
    if log != [] {
      AtOrder(g, 0, m);
      InLastOf(g, |log|, m);
      LastInLog(g, contents, log, m, cur, cur);
    }
  }

  /** And when it is full: none for an unused region, else the last of the oldest chunk. */
  lemma BoundWithoutRoom(g: Geometry, contents: Contents, log: seq<Entry>, m: nat, cur: nat)
    requires QueueView(g, contents, log, m, cur) && Ascending(log) && |log| == At(g, m) + Capacity(g)
    ensures NextCur(g, cur) < Regions(g) && NextCur(g, cur) < |contents|
    ensures LastTimestamp(contents[NextCur(g, cur)]) == Bound(g, log)
  {
    hide At, Chunk, InLast, Keep, OldestRegion;
    InLastOf(g, |log|, m);
    AtOrder(g, m, m);
    AtOrder(g, m + 1, Regions(g));
    AtOrder(g, Regions(g), m + 1);
    RegionFacts(g, contents, log, m, cur, NextCur(g, cur));
    if Regions(g) <= m + 1 {
      OldestInQueue(g, contents, log, m, cur);
      LiveIsFromOldestChunk(g, log, m);
      LastInLog(g, contents, log, m, cur, NextCur(g, cur));
    }
  }

  /** A write goes where the queue says, and its timestamp has to beat the bound that the log gives. */
  lemma TargetInQueue(g: Geometry, contents: Contents, log: seq<Entry>, m: nat, cur: nat)
    requires QueueView(g, contents, log, m, cur) && Ascending(log)
    ensures Target(g, contents) == Some(TargetOf(g, log, m, cur))
    ensures TargetOf(g, log, m, cur) < Regions(g)
    ensures LastTimestamp(contents[TargetOf(g, log, m, cur)]) == Bound(g, log)
  {
    hide At, Bound, LastTimestamp, QueueView, Ascending;
    QueueShape(g, contents, log, m, cur);
    RoomInQueue(g, contents, log, m, cur);
    if |log| < At(g, m) + Capacity(g) {
      BoundWithRoom(g, contents, log, m, cur);
    } else {
      QueueBounds(g, contents, log, m, cur);
      BoundWithoutRoom(g, contents, log, m, cur);
      if Regions(g) <= m + 1 {
        OldestInQueue(g, contents, log, m, cur);
      }
    }
  }

  lemma ChunkAppended(g: Geometry, log: seq<Entry>, e: Entry, c: int)
    ensures c < 0 || At(g, c) + Capacity(g) <= |log| ==> Chunk(g, log + [e], c) == Chunk(g, log, c)
    ensures 0 <= c && At(g, c) <= |log| < At(g, c) + Capacity(g) ==> Chunk(g, log + [e], c) == Chunk(g, log, c) + [e]
  {
  }

  /** One more entry in the last region, or the first in a new one. */
  lemma PlacedInQueue(g: Geometry, contents: Contents, log: seq<Entry>, m: nat, cur: nat, e: Entry)
    returns (m': nat, cur': nat)
    requires QueueView(g, contents, log, m, cur) && Fits(g, e)
    ensures TargetOf(g, log, m, cur) < Regions(g)
    ensures QueueView(g, Placed(g, contents, TargetOf(g, log, m, cur), e), log + [e], m', cur')
  {
    hide At, Chunk;
    var t := TargetOf(g, log, m, cur);
    PlacedIsShaped(g, contents, t, e);
    var contents' := Placed(g, contents, t, e);
    m', cur' := if t == cur && |log| < At(g, m) + Capacity(g) then m else m + 1, t;
    AtOrder(g, m, m');
    AtOrder(g, m', m');
    RegionFacts(g, contents, log, m, cur, cur);
    forall k | 0 <= k < Regions(g)
      ensures contents'[k] == Chunk(g, log + [e], ChunkOf(g, m', cur', k))
    {
      RegionFacts(g, contents, log, m, cur, k);
      ChunkAppended(g, log, e, ChunkOf(g, m', cur', k));
      if k == t && m' != m {
        assert Chunk(g, log, m') == [] by { NoEntriesYet(g, log, m'); }
      }
    }
  }

  lemma NoEntriesYet(g: Geometry, log: seq<Entry>, c: nat)
    requires |log| <= At(g, c)
    ensures Chunk(g, log, c) == []
  {
  }

  // ----- Passes over sequences -----

  predicate NoMatch(entries: seq<Entry>, gteq: u64) {
    forall i :: 0 <= i < |entries| ==> entries[i].timestamp < gteq
  }

  lemma {:induction false} NoMatchPass(entries: seq<Entry>, callback: BlockCallback)
    requires NoMatch(entries, callback.gteq) && Unsaturated(callback)
    ensures WalkEntries(entries, callback) == Walked(entries, callback, false)
    decreases |entries|
  {
    if entries == [] {
    } else {
      assert [entries[0]] + entries[1..] == entries;
      NoMatchPass(entries[1..], callback);
    }
  }

  lemma {:induction false} PassConcat(a: seq<Entry>, b: seq<Entry>, callback: BlockCallback)
    ensures WalkEntries(a + b, callback) ==
            var first := WalkEntries(a, callback);
            if first.broke then Walked(first.entries + b, first.callback, true)
            else
              var second := WalkEntries(b, first.callback);
              Walked(first.entries + second.entries, second.callback, second.broke)
    decreases |a|
  {
    hide VisitEntry;
    if a == [] {
      assert a + b == b;
    } else {
      var v := VisitEntry(callback, a[0]);
      assert (a + b)[0] == a[0] && (a + b)[1..] == a[1..] + b;
      if !v.broke {
        PassConcat(a[1..], b, v.callback);
      }
      PrependAssociates(v.entry, a[1..], b);
      PrependAssociates(v.entry, WalkEntries(a[1..], v.callback).entries, b);
      PrependAssociates(v.entry, WalkEntries(a[1..], v.callback).entries,
                        WalkEntries(b, WalkEntries(a[1..], v.callback).callback).entries);
    }
  }

  lemma PrependAssociates(e: Entry, a: seq<Entry>, b: seq<Entry>)
    ensures [e] + (a + b) == ([e] + a) + b
  {
  }

  // ----- Passes around the ring -----

  function Replace(log: seq<Entry>, from: nat, entries: seq<Entry>): (s: seq<Entry>)
    requires from + |entries| <= |log|
    ensures |s| == |log|
  {
    log[..from] + entries + log[from + |entries|..]
  }

  lemma ChunkReplaced(g: Geometry, log: seq<Entry>, c: nat, entries: seq<Entry>, d: int)
    requires At(g, c) + |entries| <= |log| && |entries| == |Chunk(g, log, c)|
    ensures Chunk(g, Replace(log, At(g, c), entries), d) == if d == c then entries else Chunk(g, log, d)
  {
    hide At;
    if 0 <= d < c {
      AtOrder(g, d, c);
    } else if c < d {
      AtOrder(g, c, d);
    }
  }

  /** Rewriting a region rewrites its chunk of the log. */
  lemma RewrittenInQueue(g: Geometry, contents: Contents, log: seq<Entry>, m: nat, cur: nat, k: nat,
                         entries: seq<Entry>)
    requires QueueView(g, contents, log, m, cur) && k < Regions(g) && contents[k] != []
    requires |entries| == |contents[k]| && EntriesFit(g, entries)
    ensures var c := ChunkOf(g, m, cur, k);
            && 0 <= c && At(g, c) + |entries| <= |log|
            && QueueView(g, contents[k := entries], Replace(log, At(g, c), entries), m, cur)
  {
    hide At, Chunk;
    RegionFacts(g, contents, log, m, cur, k);
    LastInLog(g, contents, log, m, cur, k);
    var c := ChunkOf(g, m, cur, k);
    forall l | 0 <= l < Regions(g)
      ensures contents[k := entries][l] == Chunk(g, Replace(log, At(g, c), entries), ChunkOf(g, m, cur, l))
    {
      ChunkReplaced(g, log, c, entries, ChunkOf(g, m, cur, l));
      if l != k {
        assert ChunkOf(g, m, cur, l) != c;
      }
    }
  }

  /** A region in the order of time can be skipped exactly when passing over it would do nothing. */
  lemma SkippingIsPassing(entries: seq<Entry>, callback: BlockCallback)
    requires entries != [] && Ascending(entries) && Unsaturated(callback)
    requires LastTimestamp(entries) < callback.gteq
    ensures WalkEntries(entries, callback) == Walked(entries, callback, false)
  {
    NoMatchPass(entries, callback);
  }

  lemma MeetIsPass(g: Geometry, contents: Contents, k: nat, callback: BlockCallback, result: bv32)
    requires Shaped(g, contents) && k < Regions(g) && contents[k] != [] && Ascending(contents[k])
             && Unsaturated(callback)
    ensures var pass := WalkEntries(contents[k], callback);
            MeetRegion(g, contents, k, OverBlocks(callback), result) ==
            Met(contents[k := pass.entries], OverBlocks(pass.callback), if pass.broke then LOOP_BREAK else LOOP_OK)
  {
    hide WalkEntries, StateOf, Ascending;
    if LastTimestamp(contents[k]) < callback.gteq {
      SkippingIsPassing(contents[k], callback);
    }
  }

  lemma {:induction false} TourConcat(
    g: Geometry, contents: Contents, a: seq<nat>, b: seq<nat>, callback: HintCallback, state: HintState, result: bv32)
    requires Shaped(g, contents) && result != LOOP_BREAK
    requires forall i :: 0 <= i < |a| ==> a[i] < Regions(g)
    requires forall i :: 0 <= i < |b| ==> b[i] < Regions(g)
    ensures var first := TourRegions(g, contents, a, callback, state, result);
            && Shaped(g, first.contents)
            && TourRegions(g, contents, a + b, callback, state, result) ==
               if first.result == LOOP_BREAK then first
               else TourRegions(g, first.contents, b, first.callback, first.state, first.result)
    decreases |a|
  {
    hide MeetRegion, StateOf, Shaped;
    if a == [] {
      assert a + b == b;
    } else {
      assert (a + b)[0] == a[0] && (a + b)[1..] == a[1..] + b;
      MetIsShaped(g, contents, a[0], callback, result);
      var met := MeetRegion(g, contents, a[0], callback, result);
      if met.result != LOOP_BREAK {
        TourConcat(g, met.contents, a[1..], b, met.callback, StateOf(g, contents, a[0]), met.result);
      }
    }
  }

  /** `tour` passed `callback` over the entries from `lo` to `hi` of the log, and over nothing else. */
  ghost predicate IsLogPass(g: Geometry, log: seq<Entry>, lo: nat, hi: nat, callback: BlockCallback, m: nat, cur: nat,
                            tour: Tour)
    requires lo <= hi <= |log|
  {
    var pass := WalkEntries(log[lo..hi], callback);
    && tour.callback == OverBlocks(pass.callback)
    && tour.result == (if pass.broke then LOOP_BREAK else LOOP_OK)
    && QueueView(g, tour.contents, Replace(log, lo, pass.entries), m, cur)
  }

  /** The log after a pass over a part of it. */
  function LogAfter(log: seq<Entry>, lo: nat, hi: nat, callback: BlockCallback): (s: seq<Entry>)
    requires lo <= hi <= |log|
    ensures |s| == |log|
  {
    Replace(log, lo, WalkEntries(log[lo..hi], callback).entries)
  }

  lemma LogAfterAscends(g: Geometry, log: seq<Entry>, lo: nat, hi: nat, callback: BlockCallback)
    requires lo <= hi <= |log| && Ascending(log)
    requires LogFits(g, log)
    ensures Ascending(LogAfter(log, lo, hi, callback))
    ensures LogFits(g, LogAfter(log, lo, hi, callback))
    ensures LogAfter(log, lo, hi, callback)[hi..] == log[hi..]
  {
    hide WalkEntries;
    PassFits(g, log[lo..hi], callback);
    var after := LogAfter(log, lo, hi, callback);
    forall i | 0 <= i < |log|
      ensures after[i].timestamp == log[i].timestamp && Fits(g, after[i])
    {
      if lo <= i < hi {
        assert after[i] == WalkEntries(log[lo..hi], callback).entries[i - lo];
        assert log[i] == log[lo..hi][i - lo];
      }
    }
  }

  /** A pass over one part followed by a pass over the next is a pass over both. */
  lemma LogPassesJoin(g: Geometry, log: seq<Entry>, lo: nat, mid: nat, hi: nat, callback: BlockCallback, m: nat,
                      cur: nat, tour: Tour)
    requires lo <= mid <= hi <= |log|
    requires !WalkEntries(log[lo..mid], callback).broke
    requires IsLogPass(g, LogAfter(log, lo, mid, callback), mid, hi, WalkEntries(log[lo..mid], callback).callback, m,
                       cur, tour)
    ensures IsLogPass(g, log, lo, hi, callback, m, cur, tour)
  {
    hide WalkEntries, QueueView;
    var first := WalkEntries(log[lo..mid], callback);
    var log1 := LogAfter(log, lo, mid, callback);
    assert log1[mid..hi] == log[mid..hi];
    assert log[lo..hi] == log[lo..mid] + log[mid..hi];
    PassConcat(log[lo..mid], log[mid..hi], callback);
    var second := WalkEntries(log[mid..hi], first.callback);
    assert Replace(log1, mid, second.entries) == Replace(log, lo, first.entries + second.entries);
  }

  lemma LogPassBroke(g: Geometry, log: seq<Entry>, lo: nat, mid: nat, hi: nat, callback: BlockCallback, m: nat,
                     cur: nat, tour: Tour)
    requires lo <= mid <= hi <= |log|
    requires WalkEntries(log[lo..mid], callback).broke
    requires IsLogPass(g, log, lo, mid, callback, m, cur, tour)
    ensures IsLogPass(g, log, lo, hi, callback, m, cur, tour)
  {
    hide WalkEntries, QueueView;
    var first := WalkEntries(log[lo..mid], callback);
    assert log[lo..hi] == log[lo..mid] + log[mid..hi];
    PassConcat(log[lo..mid], log[mid..hi], callback);
    assert Replace(log, lo, first.entries) == Replace(log, lo, first.entries + log[mid..hi]);
  }

  lemma EmptyLogPass(g: Geometry, contents: Contents, log: seq<Entry>, m: nat, cur: nat, lo: nat,
                     callback: BlockCallback, state: HintState)
    requires QueueView(g, contents, log, m, cur) && lo <= |log|
    ensures IsLogPass(g, log, lo, lo, callback, m, cur, Tour(contents, OverBlocks(callback), state, LOOP_OK))
  {
    hide QueueView;
    assert Replace(log, lo, []) == log;
  }

  /** The end of the `n` chunks from `c` on. */
  function EndOf(g: Geometry, log: seq<Entry>, c: nat, n: nat): nat {
    if n == 0 then At(g, c) else Min(At(g, c + n), |log|)
  }

  predicate LogFits(g: Geometry, log: seq<Entry>) {
    forall i :: 0 <= i < |log| ==> Fits(g, log[i])
  }

  /** Meeting one region is a pass over its chunk. */
  lemma MeetIsLogPass(g: Geometry, contents: Contents, log: seq<Entry>, m: nat, cur: nat, k: nat,
                      callback: BlockCallback, state: HintState)
    requires QueueView(g, contents, log, m, cur) && Ascending(log) && k < Regions(g) && contents[k] != []
             && Unsaturated(callback)
    ensures var c := ChunkOf(g, m, cur, k);
            var met := MeetRegion(g, contents, k, OverBlocks(callback), LOOP_OK);
            && 0 <= c && At(g, c) <= EndOf(g, log, c, 1) <= |log|
            && log[At(g, c)..EndOf(g, log, c, 1)] == contents[k]
            && IsLogPass(g, log, At(g, c), EndOf(g, log, c, 1), callback, m, cur,
                         Tour(met.contents, met.callback, state, met.result))
  {
    hide At, WalkEntries, StateOf, MeetRegion;
    var c := ChunkOf(g, m, cur, k);
    RegionFacts(g, contents, log, m, cur, k);
    AtOrder(g, c, c);
    MeetIsPass(g, contents, k, callback, LOOP_OK);
    PassFits(g, contents[k], callback);
    RewrittenInQueue(g, contents, log, m, cur, k, WalkEntries(contents[k], callback).entries);
  }

  lemma LogPassParts(g: Geometry, log: seq<Entry>, lo: nat, hi: nat, callback: BlockCallback, m: nat, cur: nat,
                     met: Met, state: HintState)
    requires lo <= hi <= |log| && Unsaturated(callback)
    requires IsLogPass(g, log, lo, hi, callback, m, cur, Tour(met.contents, met.callback, state, met.result))
    ensures var pass := WalkEntries(log[lo..hi], callback);
            && met.callback == OverBlocks(pass.callback)
            && met.result == (if pass.broke then LOOP_BREAK else LOOP_OK)
            && QueueView(g, met.contents, LogAfter(log, lo, hi, callback), m, cur)
            && (pass.broke || Unsaturated(pass.callback))
  {
    hide WalkEntries, QueueView, Unsaturated;
    PassStopsAtLimit(log[lo..hi], callback);
  }

  /** A sweep, its first region met. */
  function AfterFirst(g: Geometry, contents: Contents, a: nat, b: nat, met: Met): Tour
    requires Shaped(g, contents) && Shaped(g, met.contents) && a < b <= Regions(g)
  {
    if met.result == LOOP_BREAK || a + 1 == b then
      Tour(met.contents, met.callback, StateOf(g, contents, a), met.result)
    else TourRegions(g, met.contents, Sweep(a + 1, b), met.callback, StateOf(g, contents, a), met.result)
  }

  lemma SweepStep(g: Geometry, contents: Contents, a: nat, b: nat, callback: HintCallback, state: HintState)
    requires Shaped(g, contents) && a < b <= Regions(g)
    ensures var met := MeetRegion(g, contents, a, callback, LOOP_OK);
            && Shaped(g, met.contents)
            && TourRegions(g, contents, Sweep(a, b), callback, state, LOOP_OK) ==
               AfterFirst(g, contents, a, b, met)
  {
    hide MeetRegion, StateOf;
    MetIsShaped(g, contents, a, callback, LOOP_OK);
    assert Sweep(a, b)[1..] == Sweep(a + 1, b);
  }

  lemma NothingToTour(g: Geometry, contents: Contents, a: nat, callback: BlockCallback, state: HintState)
    requires Shaped(g, contents)
    ensures TourRegions(g, contents, Sweep(a, a), OverBlocks(callback), state, LOOP_OK) ==
            Tour(contents, OverBlocks(callback), state, LOOP_OK)
  {
  }

  lemma QueueShape(g: Geometry, contents: Contents, log: seq<Entry>, m: nat, cur: nat)
    requires QueueView(g, contents, log, m, cur)
    ensures Shaped(g, contents) && cur < Regions(g) && cur <= m
  {
  }

  lemma NextIsUsed(g: Geometry, contents: Contents, log: seq<Entry>, m: nat, cur: nat, a: nat, b: nat)
    requires QueueView(g, contents, log, m, cur)
    requires a + 1 < b <= Regions(g) && (b <= cur + 1 || cur < a) && 0 <= ChunkOf(g, m, cur, a)
    ensures ChunkOf(g, m, cur, a + 1) == ChunkOf(g, m, cur, a) + 1 <= m
    ensures contents[a + 1] != [] && At(g, ChunkOf(g, m, cur, a) + 1) <= |log|
    ensures EndOf(g, log, ChunkOf(g, m, cur, a), 1) == At(g, ChunkOf(g, m, cur, a) + 1)
  {
    hide At, Chunk;
    RegionFacts(g, contents, log, m, cur, a + 1);
    AtOrder(g, ChunkOf(g, m, cur, a), m);
    AtOrder(g, ChunkOf(g, m, cur, a) + 1, m);
  }

  /** A sweep over regions with consecutive chunks is a pass over that part of the log. */
  lemma {:induction false} SweepIsLogPass(
    g: Geometry, contents: Contents, log: seq<Entry>, m: nat, cur: nat, a: nat, b: nat, callback: BlockCallback,
    state: HintState)
    requires QueueView(g, contents, log, m, cur) && Ascending(log) && LogFits(g, log) && Unsaturated(callback)
    requires a <= b <= Regions(g) && (b <= cur + 1 || cur < a)
    requires 0 <= ChunkOf(g, m, cur, a) && (a < b ==> contents[a] != []) && At(g, ChunkOf(g, m, cur, a)) <= |log|
    ensures var c := ChunkOf(g, m, cur, a);
            && At(g, c) <= EndOf(g, log, c, b - a) <= |log|
            && IsLogPass(g, log, At(g, c), EndOf(g, log, c, b - a), callback, m, cur,
                         TourRegions(g, contents, Sweep(a, b), OverBlocks(callback), state, LOOP_OK))
    decreases b - a
  {
    hide At, WalkEntries, StateOf, MeetRegion, TourRegions, IsLogPass, QueueView, Ascending, Unsaturated, LogAfter,
         LogFits, Shaped;
    var c := ChunkOf(g, m, cur, a);
    QueueShape(g, contents, log, m, cur);
    if a == b {
      NothingToTour(g, contents, a, callback, state);
      EmptyLogPass(g, contents, log, m, cur, At(g, c), callback, state);
    } else {
      var mid, hi := EndOf(g, log, c, 1), EndOf(g, log, c, b - a);
      var met := MeetRegion(g, contents, a, OverBlocks(callback), LOOP_OK);
      MeetIsLogPass(g, contents, log, m, cur, a, callback, StateOf(g, contents, a));
      SweepStep(g, contents, a, b, OverBlocks(callback), state);
      LogPassParts(g, log, At(g, c), mid, callback, m, cur, met, StateOf(g, contents, a));
      if a + 1 < b {
        RegionFacts(g, contents, log, m, cur, a);
        AtOrder(g, c, c + (b - a));
        AtOrder(g, c + 1, c + (b - a));
        if met.result == LOOP_BREAK {
          LogPassBroke(g, log, At(g, c), mid, hi, callback, m, cur,
                       Tour(met.contents, met.callback, StateOf(g, contents, a), met.result));
        } else {
          var log1 := LogAfter(log, At(g, c), mid, callback);
          LogAfterAscends(g, log, At(g, c), mid, callback);
          NextIsUsed(g, met.contents, log1, m, cur, a, b);
          SweepIsLogPass(g, met.contents, log1, m, cur, a + 1, b, met.callback.blocks, StateOf(g, contents, a));
          LogPassesJoin(g, log, At(g, c), mid, hi, callback, m, cur,
                        TourRegions(g, met.contents, Sweep(a + 1, b), met.callback, StateOf(g, contents, a), LOOP_OK));
        }
      }
    }
  }

  // ----- A read or update of the whole ring -----

  /** The region is unused or ends before the timestamp asked for. */
  predicate Idle(g: Geometry, contents: Contents, k: nat, gteq: u64)
    requires |contents| == Regions(g)
  {
    k < Regions(g) && (contents[k] == [] || LastTimestamp(contents[k]) < gteq)
  }

  lemma {:induction false} TourIdles(g: Geometry, contents: Contents, ks: seq<nat>, callback: BlockCallback,
                                     state: HintState, result: bv32)
    requires Shaped(g, contents) && forall i :: 0 <= i < |ks| ==> ks[i] < Regions(g)
    requires forall i :: 0 <= i < |ks| ==> Idle(g, contents, ks[i], callback.gteq)
    ensures var tour := TourRegions(g, contents, ks, OverBlocks(callback), state, result);
            tour.contents == contents && tour.callback == OverBlocks(callback)
    decreases |ks|
  {
    hide WalkEntries, StateOf, LastTimestamp;
    if ks == [] {
    } else {
      TourIdles(g, contents, ks[1..], callback, StateOf(g, contents, ks[0]),
                MeetRegion(g, contents, ks[0], OverBlocks(callback), result).result);
    }
  }

  lemma {:induction false} MatchIsSmallest(g: Geometry, contents: Contents, gteq: u64, k: nat, best: nat, i: nat)
    requires |contents| == Regions(g) && k <= Regions(g) && best <= Regions(g)
    requires || i == best
             || (&& k <= i < Regions(g) && gteq <= LastTimestamp(contents[i])
                 && forall j :: k <= j <= i ==> contents[j] != [])
    ensures BestTimestamp(g, contents, OldestMatch(g, contents, gteq, k, best)) <= BestTimestamp(g, contents, i)
    decreases Regions(g) - k
  {
    hide LastTimestamp;
    if k == Regions(g) || contents[k] == [] {
    } else {
      if LastTimestamp(contents[k]) < gteq {
        MatchIsSmallest(g, contents, gteq, k + 1, best, i);
      } else {
        var better := Better(g, contents, k, best);
        MatchIsSmallest(g, contents, gteq, k + 1, better, if i == best || i == k then better else i);
      }
    }
  }

  /** Every region with an entry to visit is at or after the start region in the order of the log. */
  lemma BeforeStartIsIdle(g: Geometry, contents: Contents, log: seq<Entry>, m: nat, cur: nat, gteq: u64, k: nat)
    requires QueueView(g, contents, log, m, cur) && Ascending(log) && k < Regions(g)
    requires var r := StartRegion(g, contents, gteq);
             r < Regions(g) ==> ChunkOf(g, m, cur, k) < ChunkOf(g, m, cur, r)
    ensures Idle(g, contents, k, gteq)
  {
    hide At, Chunk, LastTimestamp, OldestMatch;
    if !Idle(g, contents, k, gteq) {
      RegionFacts(g, contents, log, m, cur, k);
      forall j | 0 <= j <= k
        ensures contents[j] != []
      {
        RegionFacts(g, contents, log, m, cur, j);
        AtOrder(g, 0, m);
      }
      MatchIsSmallest(g, contents, gteq, 0, Regions(g), k);
      LastInLog(g, contents, log, m, cur, k);
      var r := StartRegion(g, contents, gteq);
      if r < Regions(g) {
        LaterIsNewer(g, contents, log, m, cur, k, r);
      }
    }
  }

  /** A pass over the log from `from` on, and over nothing else. */
  ghost predicate IsTailPass(g: Geometry, log: seq<Entry>, from: nat, callback: BlockCallback, m: nat, cur: nat,
                             contents': Contents, callback': HintCallback)
    requires from <= |log|
  {
    var pass := WalkEntries(log[from..], callback);
    && callback' == OverBlocks(pass.callback)
    && QueueView(g, contents', log[..from] + pass.entries, m, cur)
  }

  lemma TailPass(g: Geometry, log: seq<Entry>, from: nat, callback: BlockCallback, m: nat, cur: nat, tour: Tour)
    requires from <= |log| && IsLogPass(g, log, from, |log|, callback, m, cur, tour)
    ensures IsTailPass(g, log, from, callback, m, cur, tour.contents, tour.callback)
  {
    hide WalkEntries, QueueView;
    assert log[from..|log|] == log[from..];
    var entries := WalkEntries(log[from..], callback).entries;
    assert Replace(log, from, entries) == log[..from] + entries;
  }

  /** The regions from the start region on, up to the last one written. */
  function ToLast(g: Geometry, cur: nat, r: nat): (ks: seq<nat>)
    requires cur < Regions(g) && r < Regions(g)
    ensures forall i :: 0 <= i < |ks| ==> ks[i] < Regions(g)
  {
    if r <= cur then Sweep(r, cur + 1) else Sweep(r, Regions(g)) + Sweep(0, cur + 1)
  }

  /** The regions after the last one written, up to the start region. */
  function PastLast(g: Geometry, cur: nat, r: nat): (ks: seq<nat>)
    requires cur < Regions(g) && r < Regions(g)
    ensures forall i :: 0 <= i < |ks| ==> ks[i] < Regions(g)
  {
    if r <= cur then Sweep(cur + 1, Regions(g)) + Sweep(0, r) else Sweep(cur + 1, r)
  }

  lemma RotationParts(g: Geometry, cur: nat, r: nat)
    requires cur < Regions(g) && r < Regions(g)
    ensures Rotation(g, r) == ToLast(g, cur, r) + PastLast(g, cur, r)
  {
    hide Sweep, Regions;
    var whole := Regions(g);
    if r <= cur {
      SweepParts(r, cur + 1, whole);
      assert Rotation(g, r) == Sweep(r, cur + 1) + Sweep(cur + 1, whole) + Sweep(0, r);
    } else {
      SweepParts(0, cur + 1, r);
      assert Rotation(g, r) == Sweep(r, whole) + (Sweep(0, cur + 1) + Sweep(cur + 1, r));
    }
  }

  lemma SweepParts(a: nat, b: nat, c: nat)
    requires a <= b <= c
    ensures Sweep(a, c) == Sweep(a, b) + Sweep(b, c)
  {
    hide Sweep;
  }

  /** Up to the last region written, the tour is a pass over the log from the start chunk on. */
  lemma ToLastIsTailPass(g: Geometry, contents: Contents, log: seq<Entry>, m: nat, cur: nat, r: nat,
                         callback: BlockCallback)
    requires QueueView(g, contents, log, m, cur) && Ascending(log) && LogFits(g, log) && Unsaturated(callback)
    requires r < Regions(g) && contents[r] != []
    ensures 0 <= ChunkOf(g, m, cur, r) && At(g, ChunkOf(g, m, cur, r)) <= |log|
    ensures IsLogPass(g, log, At(g, ChunkOf(g, m, cur, r)), |log|, callback, m, cur,
                      TourRegions(g, contents, ToLast(g, cur, r), OverBlocks(callback), ZERO_STATE, LOOP_OK))
  {
    hide At, Chunk, WalkEntries, StateOf, MeetRegion, TourRegions, IsLogPass, Ascending, Unsaturated, LogAfter, LogFits,
         Shaped, EntriesFit;
    var s := ChunkOf(g, m, cur, r);
    RegionFacts(g, contents, log, m, cur, r);
    AtOrder(g, m, m);
    if r <= cur {
      SweepIsLogPass(g, contents, log, m, cur, r, cur + 1, callback, ZERO_STATE);
    } else {
      RegionFacts(g, contents, log, m, cur, 0);
      AtOrder(g, m - cur, m);
      AtOrder(g, s, m - cur);
      SweepIsLogPass(g, contents, log, m, cur, r, Regions(g), callback, ZERO_STATE);
      ThroughTheEnd(g, contents, log, m, cur, r, callback);
    }
  }

  /** From the last region of the device on to the first. */
  lemma ThroughTheEnd(g: Geometry, contents: Contents, log: seq<Entry>, m: nat, cur: nat, r: nat,
                      callback: BlockCallback)
    requires QueueView(g, contents, log, m, cur) && Ascending(log) && LogFits(g, log) && Unsaturated(callback)
    requires cur < r < Regions(g) && 0 <= ChunkOf(g, m, cur, r)
             && At(g, ChunkOf(g, m, cur, r)) <= At(g, m - cur) <= |log|
    requires IsLogPass(g, log, At(g, ChunkOf(g, m, cur, r)), At(g, m - cur), callback, m, cur,
                       TourRegions(g, contents, Sweep(r, Regions(g)), OverBlocks(callback), ZERO_STATE, LOOP_OK))
    ensures IsLogPass(g, log, At(g, ChunkOf(g, m, cur, r)), |log|, callback, m, cur,
                      TourRegions(g, contents, Sweep(r, Regions(g)) + Sweep(0, cur + 1),
                                  OverBlocks(callback), ZERO_STATE, LOOP_OK))
  {
    hide At, Chunk, WalkEntries, StateOf, MeetRegion, TourRegions, IsLogPass, QueueView, Ascending, Unsaturated,
         LogAfter, LogFits, Shaped, EntriesFit;
    QueueShape(g, contents, log, m, cur);
    var lo, mid := At(g, ChunkOf(g, m, cur, r)), At(g, m - cur);
    var tour := TourRegions(g, contents, Sweep(r, Regions(g)), OverBlocks(callback), ZERO_STATE, LOOP_OK);
    TourConcat(g, contents, Sweep(r, Regions(g)), Sweep(0, cur + 1), OverBlocks(callback), ZERO_STATE, LOOP_OK);
    LogPassParts(g, log, lo, mid, callback, m, cur, Met(tour.contents, tour.callback, tour.result), tour.state);
    if tour.result == LOOP_BREAK {
      LogPassBroke(g, log, lo, mid, |log|, callback, m, cur, tour);
    } else {
      var log1 := LogAfter(log, lo, mid, callback);
      LogAfterAscends(g, log, lo, mid, callback);
      RegionFacts(g, tour.contents, log1, m, cur, 0);
      AtOrder(g, m, m);
      AtOrder(g, m - cur, m);
      AtOrder(g, 0, m);
      QueueBounds(g, tour.contents, log1, m, cur);
      SweepIsLogPass(g, tour.contents, log1, m, cur, 0, cur + 1, tour.callback.blocks, tour.state);
      LogPassesJoin(g, log, lo, mid, |log|, callback, m, cur,
                    TourRegions(g, tour.contents, Sweep(0, cur + 1), tour.callback, tour.state, LOOP_OK));
    }
  }

  lemma QueueBounds(g: Geometry, contents: Contents, log: seq<Entry>, m: nat, cur: nat)
    requires QueueView(g, contents, log, m, cur)
    ensures (0 < m ==> At(g, m) < |log|) && |log| <= At(g, m) + Capacity(g)
  {
  }

  lemma IdleLater(g: Geometry, contents: Contents, contents': Contents, k: nat, gteq: u64)
    requires |contents| == Regions(g) && SameTimes(g, contents, contents') && Idle(g, contents, k, gteq)
    ensures Idle(g, contents', k, gteq)
  {
  }

  /** Past the last region written there is nothing the callback would visit. */
  lemma PastLastIsIdle(g: Geometry, contents: Contents, log: seq<Entry>, m: nat, cur: nat, gteq: u64,
                       contents': Contents, i: nat)
    requires QueueView(g, contents, log, m, cur) && Ascending(log) && SameTimes(g, contents, contents')
    requires StartRegion(g, contents, gteq) < Regions(g)
    requires i < |PastLast(g, cur, StartRegion(g, contents, gteq))|
    ensures Idle(g, contents', PastLast(g, cur, StartRegion(g, contents, gteq))[i], gteq)
  {
    hide At, Chunk, StartRegion, LastTimestamp;
    var r := StartRegion(g, contents, gteq);
    BeforeStartIsIdle(g, contents, log, m, cur, gteq, PastLast(g, cur, r)[i]);
    IdleLater(g, contents, contents', PastLast(g, cur, r)[i], gteq);
  }

  /** The two rounds around the ring from the start region come to a pass over the log from the start chunk on. */
  lemma RotationIsTailPass(g: Geometry, contents: Contents, log: seq<Entry>, m: nat, cur: nat, callback: BlockCallback)
    requires QueueView(g, contents, log, m, cur) && Ascending(log) && LogFits(g, log) && Unsaturated(callback)
    requires StartRegion(g, contents, callback.gteq) < Regions(g)
    ensures var r := StartRegion(g, contents, callback.gteq);
            var tour := TourFrom(g, contents, r, OverBlocks(callback));
            && 0 <= ChunkOf(g, m, cur, r) && At(g, ChunkOf(g, m, cur, r)) <= |log|
            && IsTailPass(g, log, At(g, ChunkOf(g, m, cur, r)), callback, m, cur, tour.contents, tour.callback)
  {
    hide At, Chunk, TourRegions, IsLogPass, IsTailPass, Ascending, Unsaturated, LogFits, OldestMatch, Idle, SameTimes,
         ToLast, PastLast, Rotation, QueueView, ChunkOf, Shaped;
    QueueShape(g, contents, log, m, cur);
    var r := StartRegion(g, contents, callback.gteq);
    var tour := TourRegions(g, contents, ToLast(g, cur, r), OverBlocks(callback), ZERO_STATE, LOOP_OK);
    RotationParts(g, cur, r);
    TourConcat(g, contents, ToLast(g, cur, r), PastLast(g, cur, r), OverBlocks(callback), ZERO_STATE, LOOP_OK);
    ToLastIsTailPass(g, contents, log, m, cur, r, callback);
    TailPass(g, log, At(g, ChunkOf(g, m, cur, r)), callback, m, cur, tour);
    if tour.result != LOOP_BREAK {
      RestIsIdle(g, contents, log, m, cur, callback, tour);
    }
  }

  lemma RestIsIdle(g: Geometry, contents: Contents, log: seq<Entry>, m: nat, cur: nat, callback: BlockCallback,
                   tour: Tour)
    requires QueueView(g, contents, log, m, cur) && Ascending(log)
    requires StartRegion(g, contents, callback.gteq) < Regions(g)
    requires tour == TourRegions(g, contents, ToLast(g, cur, StartRegion(g, contents, callback.gteq)),
                                 OverBlocks(callback), ZERO_STATE, LOOP_OK)
    requires Shaped(g, tour.contents)
    ensures var rest := TourRegions(g, tour.contents, PastLast(g, cur, StartRegion(g, contents, callback.gteq)),
                                    tour.callback, tour.state, tour.result);
            rest.contents == tour.contents && rest.callback == tour.callback
  {
    hide At, Chunk, TourRegions, Ascending, OldestMatch, Idle, SameTimes, ToLast, PastLast, QueueView, EntriesFit;
    QueueShape(g, contents, log, m, cur);
    var r := StartRegion(g, contents, callback.gteq);
    TourKeepsTimes(g, contents, ToLast(g, cur, r), OverBlocks(callback), ZERO_STATE, LOOP_OK);
    TourKeepsTask(g, contents, ToLast(g, cur, r), OverBlocks(callback), ZERO_STATE, LOOP_OK);
    forall i | 0 <= i < |PastLast(g, cur, r)|
      ensures Idle(g, tour.contents, PastLast(g, cur, r)[i], callback.gteq)
    {
      PastLastIsIdle(g, contents, log, m, cur, callback.gteq, tour.contents, i);
    }
    TourIdles(g, tour.contents, PastLast(g, cur, r), tour.callback.blocks, tour.state, tour.result);
  }

  /** Nothing in front of the start chunk, among the entries still in the ring, would be visited. */
  lemma NoMatchBeforeStart(g: Geometry, contents: Contents, log: seq<Entry>, m: nat, cur: nat, gteq: u64, i: nat)
    requires QueueView(g, contents, log, m, cur) && Ascending(log)
    requires At(g, OldestChunk(g, m)) <= i < |log|
    requires var r := StartRegion(g, contents, gteq);
             r < Regions(g) ==> 0 <= ChunkOf(g, m, cur, r) && i < At(g, ChunkOf(g, m, cur, r))
    ensures log[i].timestamp < gteq
  {
    hide At, Chunk, StartRegion, LastTimestamp;
    var r := StartRegion(g, contents, gteq);
    var c := ChunkContaining(g, log, m, i);
    var k := if m - cur <= c then c - (m - cur) else c - (m - cur) + Regions(g);
    assert ChunkOf(g, m, cur, k) == c;
    RegionFacts(g, contents, log, m, cur, k);
    if r < Regions(g) && ChunkOf(g, m, cur, r) <= c {
      AtOrder(g, ChunkOf(g, m, cur, r), c);
    }
    BeforeStartIsIdle(g, contents, log, m, cur, gteq, k);
    LastInLog(g, contents, log, m, cur, k);
  }

  /** The chunk that entry `i` of the log belongs to. */
  lemma {:induction false} ChunkContaining(g: Geometry, log: seq<Entry>, m: nat, i: nat) returns (c: nat)
    requires (0 < m ==> At(g, m) < |log|) && |log| <= At(g, m) + Capacity(g)
    requires At(g, OldestChunk(g, m)) <= i < |log|
    ensures OldestChunk(g, m) <= c <= m
    ensures At(g, c) <= i < At(g, c) + Capacity(g)
  {
    hide At;
    c := m;
    while i < At(g, c)
      invariant OldestChunk(g, m) <= c <= m
      invariant i < At(g, c) + Capacity(g)
    {
      AtOrder(g, c - 1, c);
      c := c - 1;
    }
  }

  /**
   A read or update of the ring, started at the oldest matching region, skipping regions
   by their last timestamp and breaking off early, is a pass over the live entries.
   */
  lemma PassedIsPassedLog(g: Geometry, contents: Contents, log: seq<Entry>, m: nat, cur: nat, callback: BlockCallback)
    requires QueueView(g, contents, log, m, cur) && Ascending(log) && LogFits(g, log) && Unsaturated(callback)
    ensures Passed(g, contents, callback).1 == PassedLog(g, log, callback).1
    ensures QueueView(g, Passed(g, contents, callback).0, PassedLog(g, log, callback).0, m, cur)
  {
    hide At, Chunk, TourRegions, WalkEntries, Ascending, Unsaturated, LogFits, StartRegion, Keep, QueueView, ChunkOf,
         EntriesFit, Rotation;
    QueueShape(g, contents, log, m, cur);
    QueueBounds(g, contents, log, m, cur);
    LiveIsFromOldestChunk(g, log, m);
    var r := StartRegion(g, contents, callback.gteq);
    var lo := At(g, OldestChunk(g, m));
    var from := |log|;
    if r < Regions(g) {
      RotationIsTailPass(g, contents, log, m, cur, callback);
      from := At(g, ChunkOf(g, m, cur, r));
    }
    NothingInFront(g, contents, log, m, cur, callback, from);
    if r == Regions(g) {
      EmptyTail(log, callback);
      assert log[..lo] + log[lo..] == log;
    }
  }

  lemma EmptyTail(log: seq<Entry>, callback: BlockCallback)
    ensures WalkEntries(log[|log|..], callback) == Walked([], callback, false)
    ensures log[..|log|] + [] == log
  {
  }

  /** Passing over the live entries is passing over those from the start chunk on. */
  lemma NothingInFront(g: Geometry, contents: Contents, log: seq<Entry>, m: nat, cur: nat, callback: BlockCallback,
                       from: nat)
    requires QueueView(g, contents, log, m, cur) && Ascending(log) && Unsaturated(callback)
    requires var r := StartRegion(g, contents, callback.gteq);
             if r == Regions(g) then from == |log|
             else 0 <= ChunkOf(g, m, cur, r) && from == At(g, ChunkOf(g, m, cur, r)) <= |log| && contents[r] != []
    requires At(g, OldestChunk(g, m)) <= |log|
    ensures var lo := At(g, OldestChunk(g, m));
            var live, tail := WalkEntries(log[lo..], callback), WalkEntries(log[from..], callback);
            && live.callback == tail.callback
            && log[..lo] + live.entries == log[..from] + tail.entries
  {
    hide At, Chunk, WalkEntries, Ascending, Unsaturated, StartRegion, QueueView, EntriesFit;
    QueueShape(g, contents, log, m, cur);
    var r := StartRegion(g, contents, callback.gteq);
    var lo := At(g, OldestChunk(g, m));
    if r < Regions(g) {
      RegionFacts(g, contents, log, m, cur, r);
      AtOrder(g, OldestChunk(g, m), ChunkOf(g, m, cur, r));
    }
    forall i | 0 <= i < |log[lo..from]|
      ensures log[lo..from][i].timestamp < callback.gteq
    {
      NoMatchBeforeStart(g, contents, log, m, cur, callback.gteq, lo + i);
    }
    NoMatchPass(log[lo..from], callback);
    assert log[lo..] == log[lo..from] + log[from..];
    PassConcat(log[lo..from], log[from..], callback);
    assert log[..lo] + (log[lo..from] + WalkEntries(log[from..], callback).entries) ==
           log[..from] + WalkEntries(log[from..], callback).entries;
  }
}
