/**
 The device as a bounded log: on every run in which timestamps increase, each call to
 the program is answered as the log says.
 */
module Log {
  import opened Bytes
  import opened Layout
  import opened Codec
  import opened Traversal
  import opened Writing
  import opened Ring
  import opened Simulation
  import opened Machine
  import opened Runs
  import opened Queue

  // ----- What reads print -----

  function Matching(entries: seq<Entry>, gteq: u64): seq<Entry>
    decreases |entries|
  {
    if entries == [] then []
    else (if entries[0].timestamp >= gteq then [entries[0]] else []) + Matching(entries[1..], gteq)
  }

  /** Where the timestamps pass `gteq` once and for all, they are the entries from there on. */
  lemma {:induction false} MatchingIsSuffix(entries: seq<Entry>, gteq: u64, i: nat)
    requires i <= |entries|
    requires forall j :: 0 <= j < i ==> entries[j].timestamp < gteq
    requires forall j :: i <= j < |entries| ==> gteq <= entries[j].timestamp
    ensures Matching(entries, gteq) == entries[i..]
    decreases |entries|
  {
    if entries == [] {
    } else if i > 0 {
      MatchingIsSuffix(entries[1..], gteq, i - 1);
      assert [] + entries[1..][i - 1..] == entries[i..];
    } else {
      MatchingIsSuffix(entries[1..], gteq, 0);
      assert [entries[0]] + entries[1..][0..] == entries[0..];
    }
  }

  /** The first `limit` of them; a limit of zero means no limit. */
  function FirstOf(entries: seq<Entry>, limit: nat): (first: seq<Entry>)
    ensures first <= entries && |first| == if limit == 0 then |entries| else Min(limit, |entries|)
  {
    if limit == 0 || |entries| <= limit then entries else entries[..limit]
  }

  lemma LimitCuts(output: seq<Entry>, rest: seq<Entry>, limit: nat)
    ensures limit != 0 && |output| == limit ==> FirstOf(output + rest, limit) == output
    ensures limit == 0 || |output| < limit ==> FirstOf(output, limit) == output
  {
  }

  lemma MatchingHead(entries: seq<Entry>, gteq: u64)
    requires entries != []
    ensures Matching(entries, gteq) ==
            (if entries[0].timestamp >= gteq then [entries[0]] else []) + Matching(entries[1..], gteq)
  {
  }

  lemma OneMoreEmitted(entries: seq<Entry>, callback: BlockCallback)
    requires callback.Emit? && entries != []
    ensures callback.output + Matching(entries, callback.gteq) ==
            Emitted(callback, entries[0]) + Matching(entries[1..], callback.gteq)
  {
    hide Matching;
    MatchingHead(entries, callback.gteq);
    var e, rest := entries[0], Matching(entries[1..], callback.gteq);
    if e.timestamp >= callback.gteq {
      assert callback.output + ([e] + rest) == (callback.output + [e]) + rest;
    } else {
      assert [] + rest == rest;
    }
  }

  lemma {:induction false} EmitPrintsMatches(entries: seq<Entry>, callback: BlockCallback)
    requires callback.Emit? && Unsaturated(callback)
    ensures var pass := WalkEntries(entries, callback);
            && pass.entries == entries
            && pass.callback.Emit?
            && pass.callback.output == FirstOf(callback.output + Matching(entries, callback.gteq), callback.limit)
    decreases |entries|
  {
    hide Emitted, FirstOf, Matching;
    PassStopsAtLimit(entries, callback);
    if entries == [] {
      NothingMatches(callback);
      LimitCuts(callback.output, [], callback.limit);
    } else {
      var v := VisitEntry(callback, entries[0]);
      OneMoreEmitted(entries, callback);
      LimitCuts(v.callback.output, Matching(entries[1..], callback.gteq), callback.limit);
      if !v.broke {
        StillUnsaturated(callback, entries[0]);
        EmitPrintsMatches(entries[1..], v.callback);
      }
    }
  }

  lemma StillUnsaturated(callback: BlockCallback, e: Entry)
    requires Unsaturated(callback) && !VisitEntry(callback, e).broke
    ensures Unsaturated(VisitEntry(callback, e).callback)
  {
  }

  lemma NothingMatches(callback: BlockCallback)
    requires callback.Emit?
    ensures callback.output + Matching([], callback.gteq) == callback.output
  {
  }

  // ----- What updates change -----

  /** What an update asks of an entry before it runs its test. */
  ghost predicate Picked(callback: BlockCallback, e: Entry)
    requires callback.Rewrite?
  {
    callback.gteq <= e.timestamp && SharesDigit(e.applicationData, callback.mask)
  }

  ghost predicate Stopped(callback: BlockCallback, e: Entry)
    requires callback.Rewrite?
  {
    Picked(callback, e) && callback.test(e).doBreak == 1
  }

  /** The entry is picked, its test says to update, and no earlier picked one said to stop. */
  ghost predicate Touched(entries: seq<Entry>, callback: BlockCallback, i: nat)
    requires callback.Rewrite?
  {
    && i < |entries|
    && Picked(callback, entries[i]) && callback.test(entries[i]).doUpdate == 1
    && forall j :: 0 <= j < i ==> !Stopped(callback, entries[j])
  }

  ghost function TouchedSet(entries: seq<Entry>, callback: BlockCallback): (s: set<nat>)
    requires callback.Rewrite?
    ensures forall i: nat :: i in s <==> Touched(entries, callback, i)
  {
    set i: nat | i < |entries| && Touched(entries, callback, i)
  }

  lemma SelectedIsPicked(callback: BlockCallback, e: Entry)
    requires callback.Rewrite?
    ensures Selected(callback, e) <==> Picked(callback, e)
  {
    hide BitAnd, SharesDigit;
    MaskHits(e.applicationData, callback.mask);
  }

  /** The first entry that stops an update, or the number of entries. */
  function StopAt(entries: seq<Entry>, callback: BlockCallback): (i: nat)
    requires callback.Rewrite?
    ensures i <= |entries|
    decreases |entries|
  {
    if entries == [] || (Selected(callback, entries[0]) && callback.test(entries[0]).doBreak == 1) then 0
    else 1 + StopAt(entries[1..], callback)
  }

  /** No entry behind that one is touched, and none up to it is spared for another entry's sake. */
  lemma {:induction false} StopAtIsFirst(entries: seq<Entry>, callback: BlockCallback)
    requires callback.Rewrite?
    ensures var stop := StopAt(entries, callback);
            && (stop < |entries| ==> Stopped(callback, entries[stop]))
            && forall i :: 0 <= i < stop ==> !Stopped(callback, entries[i])
    ensures forall i: nat :: Touched(entries, callback, i) <==>
                               && i < |entries| && i <= StopAt(entries, callback)
                               && Picked(callback, entries[i]) && callback.test(entries[i]).doUpdate == 1
    decreases |entries|
  {
    hide Selected, Picked;
    if entries == [] {
    } else {
      SelectedIsPicked(callback, entries[0]);
      if !Stopped(callback, entries[0]) {
        StopAtIsFirst(entries[1..], callback);
        forall i | 0 < i < |entries|
          ensures entries[i] == entries[1..][i - 1]
        {
        }
      }
    }
  }

  /** An update rewrites the application data of exactly the touched entries, and counts them. */
  lemma {:induction false} RewriteTouches(entries: seq<Entry>, callback: BlockCallback)
    requires callback.Rewrite?
    ensures var pass := WalkEntries(entries, callback);
            && pass.callback.Rewrite?
            && pass.callback.count == callback.count + |TouchedSet(entries, callback)|
            && forall i :: 0 <= i < |entries| ==>
                 pass.entries[i] == if Touched(entries, callback, i)
                                    then entries[i].(applicationData := callback.test(entries[i]).newAppdata)
                                    else entries[i]
    decreases |entries|
  {
    hide Touched, TouchedSet, VisitEntry;
    if entries == [] {
      NothingTouched(callback);
    } else {
      var v := VisitEntry(callback, entries[0]);
      VisitTouches(entries, callback);
      if !v.broke {
        RewriteTouches(entries[1..], v.callback);
        TouchedInTail(entries, callback, v.callback);
        forall i | 0 < i < |entries|
          ensures Touched(entries, callback, i) <==> Touched(entries[1..], v.callback, i - 1)
        {
          assert Touched(entries, callback, (i - 1) + 1) <==> Touched(entries[1..], v.callback, i - 1);
        }
      }
    }
  }

  lemma NothingTouched(callback: BlockCallback)
    requires callback.Rewrite?
    ensures TouchedSet([], callback) == {}
  {
  }

  /** What the callback makes of the first entry. */
  lemma VisitTouches(entries: seq<Entry>, callback: BlockCallback)
    requires entries != [] && callback.Rewrite?
    ensures var v, touched := VisitEntry(callback, entries[0]), Touched(entries, callback, 0);
            && SameTask(callback, v.callback)
            && (v.broke <==> Stopped(callback, entries[0]))
            && v.callback.count == callback.count + (if touched then 1 else 0)
            && v.entry == (if touched then entries[0].(applicationData := callback.test(entries[0]).newAppdata)
                           else entries[0])
            && (v.broke ==> TouchedSet(entries, callback) == (if touched then {0} else {}))
  {
    hide Selected, Picked;
    SelectedIsPicked(callback, entries[0]);
  }

  lemma TouchedInTail(entries: seq<Entry>, callback: BlockCallback, next: BlockCallback)
    requires entries != [] && callback.Rewrite? && SameTask(callback, next)
    requires !Stopped(callback, entries[0])
    ensures forall i: nat :: Touched(entries, callback, i + 1) <==> Touched(entries[1..], next, i)
    ensures |TouchedSet(entries, callback)| ==
            (if Touched(entries, callback, 0) then 1 else 0) + |TouchedSet(entries[1..], next)|
  {
    hide SharesDigit;
    forall i: nat
      ensures Touched(entries, callback, i + 1) <==> Touched(entries[1..], next, i)
    {
      TouchedLater(entries, callback, next, i);
    }
    TouchedSize(entries, callback, next);
  }

  lemma TouchedLater(entries: seq<Entry>, callback: BlockCallback, next: BlockCallback, i: nat)
    requires entries != [] && callback.Rewrite? && SameTask(callback, next)
    requires !Stopped(callback, entries[0])
    ensures Touched(entries, callback, i + 1) <==> Touched(entries[1..], next, i)
  {
    hide SharesDigit;
    forall j | 0 < j < |entries|
      ensures Stopped(callback, entries[j]) <==> Stopped(next, entries[1..][j - 1])
    {
    }
    if Touched(entries[1..], next, i) {
      forall j | 0 <= j < i + 1
        ensures !Stopped(callback, entries[j])
      {
        if 0 < j {
          assert !Stopped(next, entries[1..][j - 1]);
        }
      }
    }
    if Touched(entries, callback, i + 1) {
      forall j | 0 <= j < i
        ensures !Stopped(next, entries[1..][j])
      {
        assert !Stopped(callback, entries[j + 1]);
      }
    }
  }

  lemma TouchedSize(entries: seq<Entry>, callback: BlockCallback, next: BlockCallback)
    requires entries != [] && callback.Rewrite? && next.Rewrite?
    requires forall i: nat :: Touched(entries, callback, i + 1) <==> Touched(entries[1..], next, i)
    ensures |TouchedSet(entries, callback)| ==
            (if Touched(entries, callback, 0) then 1 else 0) + |TouchedSet(entries[1..], next)|
  {
    hide Touched, TouchedSet;
    var here, there := TouchedSet(entries, callback), TouchedSet(entries[1..], next);
    var moved := set i | i in there :: After(i);
    MovedSize(there);
    forall i: nat
      ensures i in here <==> (i == 0 && Touched(entries, callback, 0)) || i in moved
    {
      MovedHas(there, i);
      if 0 < i {
        assert Touched(entries, callback, (i - 1) + 1) <==> i - 1 in there;
      }
    }
    MovedHas(there, 0);
    assert here == if Touched(entries, callback, 0) then {0} + moved else moved;
  }

  lemma MovedHas(s: set<nat>, i: nat)
    ensures i in (set j | j in s :: After(j)) <==> 0 < i && i - 1 in s
  {
    if 0 < i && i - 1 in s {
      assert After(i - 1) == i;
    }
  }

  function After(i: nat): nat {
    i + 1
  }

  lemma {:induction false} MovedSize(s: set<nat>)
    ensures |set i | i in s :: After(i)| == |s|
    decreases |s|
  {
    var moved := set i | i in s :: After(i);
    if s == {} {
      assert moved == {};
    } else {
      var x :| x in s;
      var fewer := set i | i in s - {x} :: After(i);
      MovedSize(s - {x});
      assert After(x) !in fewer;
      assert moved == fewer + {After(x)} by {
        forall i | i in s
          ensures After(i) in fewer + {After(x)}
        {
          assert i == x || i in s - {x};
        }
      }
    }
  }

  // ----- The specification of a call -----

  function LogAct(g: Geometry, log: seq<Entry>, op: Op): (seq<Entry>, Reply) {
    match op
    case Write(request) =>
      (match Admit(g, log, request)
       case Reject(ending) => (log, Wrote(ending))
       case Append(e) => (log + [e], Wrote(Returns(0))))
    case Read(gteq, limit) => (log, Printed(Returns(0), FirstOf(Matching(Live(g, log), gteq), limit)))
    case Update(min, mask, test) =>
      var passed := PassedLog(g, log, Rewrite(min, mask, test, 0));
      PassKeepsTask(Live(g, log), Rewrite(min, mask, test, 0));
      (passed.0, Rewrote(Returns(0), passed.1.count))
  }

  function LogPlay(g: Geometry, log: seq<Entry>, ops: seq<Op>): (seq<Entry>, seq<Reply>)
    decreases |ops|
  {
    if ops == [] then (log, [])
    else
      var (log1, reply) := LogAct(g, log, ops[0]);
      var (log2, replies) := LogPlay(g, log1, ops[1..]);
      (log2, [reply] + replies)
  }

  /** Every entry the run stores is newer than all before it. */
  predicate Increasing(g: Geometry, log: seq<Entry>, ops: seq<Op>)
    decreases |ops|
  {
    ops != [] ==>
      && (ops[0].Write? && Admit(g, log, ops[0].request).Append? ==> Newer(log, Admit(g, log, ops[0].request).entry))
      && Increasing(g, LogAct(g, log, ops[0]).0, ops[1..])
  }

  // ----- The machine follows it -----

  lemma IntentionIsAdmission(g: Geometry, contents: Contents, log: seq<Entry>, m: nat, cur: nat, request: Request)
    requires QueueView(g, contents, log, m, cur) && Ascending(log)
    ensures Shaped(g, contents)
    ensures Intention(g, contents, request) ==
            match Admit(g, log, request)
            case Reject(ending) => Decline(ending)
            case Append(e) => Intend(TargetOf(g, log, m, cur), e)
  {
    hide QueueView, Target, TargetOf, Bound, LastTimestamp;
    QueueShape(g, contents, log, m, cur);
    TargetInQueue(g, contents, log, m, cur);
  }

  lemma PassedLogAscends(g: Geometry, log: seq<Entry>, callback: BlockCallback)
    requires Ascending(log) && LogFits(g, log)
    ensures Ascending(PassedLog(g, log, callback).0) && LogFits(g, PassedLog(g, log, callback).0)
  {
    hide WalkEntries, Keep;
    var from := |log| - Keep(g, |log|);
    LogAfterAscends(g, log, from, |log|, callback);
    assert log[from..|log|] == log[from..];
    assert LogAfter(log, from, |log|, callback) == PassedLog(g, log, callback).0;
  }

  /** One call: same reply, and the view carries over. */
  lemma ActIsLogAct(g: Geometry, contents: Contents, log: seq<Entry>, m: nat, cur: nat, op: Op)
    returns (m': nat, cur': nat)
    requires QueueView(g, contents, log, m, cur) && Ascending(log) && LogFits(g, log)
    requires Increasing(g, log, [op])
    ensures Shaped(g, contents)
    ensures Act(g, contents, op).1 == LogAct(g, log, op).1
    ensures QueueView(g, Act(g, contents, op).0, LogAct(g, log, op).0, m', cur')
    ensures Ascending(LogAct(g, log, op).0) && LogFits(g, LogAct(g, log, op).0)
  {
    hide QueueView, Intention, Admit, Ascending, Passed, WalkEntries, Placed, Keep;
    QueueShape(g, contents, log, m, cur);
    m', cur' := m, cur;
    match op
    case Write(request) =>
      IntentionIsAdmission(g, contents, log, m, cur, request);
      if Admit(g, log, request).Append? {
        var e := Admit(g, log, request).entry;
        NewerAscends(log, e);
        m', cur' := PlacedInQueue(g, contents, log, m, cur, e);
      }
    case Read(gteq, limit) =>
      var callback := Emit(gteq, limit, []);
      PassedIsPassedLog(g, contents, log, m, cur, callback);
      EmitPrintsMatches(Live(g, log), callback);
      assert [] + Matching(Live(g, log), gteq) == Matching(Live(g, log), gteq);
    case Update(min, mask, test) =>
      PassedIsPassedLog(g, contents, log, m, cur, Rewrite(min, mask, test, 0));
      PassedLogAscends(g, log, Rewrite(min, mask, test, 0));
  }

  lemma {:induction false} PlayIsLogPlay(g: Geometry, contents: Contents, log: seq<Entry>, m: nat, cur: nat,
                                         ops: seq<Op>)
    returns (m': nat, cur': nat)
    requires QueueView(g, contents, log, m, cur) && Ascending(log) && LogFits(g, log)
    requires Increasing(g, log, ops)
    ensures Shaped(g, contents)
    ensures Play(g, contents, ops).1 == LogPlay(g, log, ops).1
    ensures QueueView(g, Play(g, contents, ops).0, LogPlay(g, log, ops).0, m', cur')
    ensures Ascending(LogPlay(g, log, ops).0) && LogFits(g, LogPlay(g, log, ops).0)
    decreases |ops|
  {
    hide QueueView, Ascending, Act, LogAct, LogFits, Newer, Admit;
    QueueShape(g, contents, log, m, cur);
    m', cur' := m, cur;
    if ops == [] {
    } else {
      assert [ops[0]][1..] == [];
      m', cur' := ActIsLogAct(g, contents, log, m, cur, ops[0]);
      m', cur' := PlayIsLogPlay(g, Act(g, contents, ops[0]).0, LogAct(g, log, ops[0]).0, m', cur', ops[1..]);
    }
  }

  // ----- The device follows it -----

  /** From a blank device, every increasing run gets the replies of the log. */
  lemma DeviceIsALog(g: Geometry, image: seq<byte>, ops: seq<Op>)
    requires Blank(g, image) && Increasing(g, [], ops)
    ensures Run(g, image, ops).1 == LogPlay(g, [], ops).1
  {
    hide Blank, Represents, Run, Play, LogPlay, QueueView, Increasing;
    BlankHoldsNothing(g, image);
    EmptyQueue(g);
    var lost := RunIsPlay(g, image, NoEntries(g), {}, ops);
    var m, cur := PlayIsLogPlay(g, NoEntries(g), [], 0, 0, ops);
  }

  // ----- The bounded queue -----

  function Writes(requests: seq<Request>): (ops: seq<Op>)
    ensures |ops| == |requests|
    ensures forall i :: 0 <= i < |requests| ==> ops[i] == Write(requests[i])
    decreases |requests|
  {
    if requests == [] then [] else [Write(requests[0])] + Writes(requests[1..])
  }

  predicate AllSucceed(replies: seq<Reply>) {
    forall i :: 0 <= i < |replies| ==> replies[i] == Wrote(Returns(0))
  }

  /** What a successful write of an increasing run appends: its timestamp is the given one, that of the clock for zero,
      or just above the bound. */
  predicate AppendedFor(g: Geometry, log: seq<Entry>, request: Request, e: Entry) {
    && e.timestamp == Max(if request.timestamp == 0 then request.now else request.timestamp, Bound(g, log) + 1)
    && e.payload == request.data
    && e.applicationData == request.applicationData
  }

  lemma SuccessAppends(g: Geometry, log: seq<Entry>, request: Request)
    requires Ascending(log) && LogAct(g, log, Write(request)).1 == Wrote(Returns(0))
    ensures Admit(g, log, request).Append?
    ensures LogAct(g, log, Write(request)).0 == log + [Admit(g, log, request).entry]
    ensures AppendedFor(g, log, request, Admit(g, log, request).entry)
  {
    hide Bound;
    BoundBelowSentinel(g, log);
  }

  lemma BoundBelowSentinel(g: Geometry, log: seq<Entry>)
    requires Ascending(log)
    ensures Bound(g, log) < U64_MAX
  {
    hide At, InLast, Keep;
  }

  lemma FirstSucceeds(g: Geometry, log: seq<Entry>, requests: seq<Request>)
    requires requests != [] && AllSucceed(LogPlay(g, log, Writes(requests)).1)
    ensures var act := LogAct(g, log, Write(requests[0]));
            var rest := LogPlay(g, act.0, Writes(requests[1..]));
            && act.1 == Wrote(Returns(0)) && AllSucceed(rest.1)
            && LogPlay(g, log, Writes(requests)).0 == rest.0
            && (Increasing(g, log, Writes(requests)) ==>
                  (Admit(g, log, requests[0]).Append? ==> Newer(log, Admit(g, log, requests[0]).entry)) &&
                  Increasing(g, act.0, Writes(requests[1..])))
  {
    hide LogAct, Admit, Newer;
    var act := LogAct(g, log, Write(requests[0]));
    var rest := LogPlay(g, act.0, Writes(requests[1..]));
    var all := LogPlay(g, log, Writes(requests)).1;
    assert Writes(requests)[1..] == Writes(requests[1..]);
    assert all == [act.1] + rest.1;
    assert act.1 == all[0];
    forall i | 0 <= i < |rest.1|
      ensures rest.1[i] == Wrote(Returns(0))
    {
      assert rest.1[i] == all[i + 1];
    }
  }

  /** Writes that all succeed append their entries, one each, in order. */
  lemma {:induction false} SuccessfulWritesAppend(g: Geometry, log: seq<Entry>, requests: seq<Request>)
    requires Ascending(log) && Increasing(g, log, Writes(requests))
    requires AllSucceed(LogPlay(g, log, Writes(requests)).1)
    ensures var log' := LogPlay(g, log, Writes(requests)).0;
            && |log'| == |log| + |requests|
            && log <= log'
            && forall i :: 0 <= i < |requests| ==>
                 AppendedFor(g, log'[..|log| + i], requests[i], log'[|log| + i])
    decreases |requests|
  {
    hide LogPlay, LogAct, Increasing, AllSucceed, Admit, AppendedFor, Ascending, Newer;
    if requests == [] {
      NothingPlayed(g, log);
    } else {
      var next := LogAct(g, log, Write(requests[0])).0;
      FirstSucceeds(g, log, requests);
      SuccessAppends(g, log, requests[0]);
      NewerAscends(log, Admit(g, log, requests[0]).entry);
      SuccessfulWritesAppend(g, next, requests[1..]);
      var log' := LogPlay(g, next, Writes(requests[1..])).0;
      forall i | 0 <= i < |requests|
        ensures AppendedFor(g, log'[..|log| + i], requests[i], log'[|log| + i])
      {
        if i == 0 {
          assert log'[..|log|] == log && log'[|log|] == next[|log|];
        } else {
          assert requests[i] == requests[1..][i - 1];
          assert |next| + (i - 1) == |log| + i;
        }
      }
    }
  }

  lemma NothingPlayed(g: Geometry, log: seq<Entry>)
    ensures LogPlay(g, log, Writes([])) == (log, [])
  {
  }

  lemma AllMatchZero(entries: seq<Entry>)
    ensures Matching(entries, 0) == entries
  {
    hide Matching;
    MatchingIsSuffix(entries, 0, 0);
  }

  lemma {:induction false} LogPlayConcat(g: Geometry, log: seq<Entry>, a: seq<Op>, b: seq<Op>)
    ensures LogPlay(g, log, a + b).0 == LogPlay(g, LogPlay(g, log, a).0, b).0
    ensures LogPlay(g, log, a + b).1 == LogPlay(g, log, a).1 + LogPlay(g, LogPlay(g, log, a).0, b).1
    decreases |a|
  {
    hide LogAct;
    if a == [] {
      assert a + b == b;
    } else {
      assert (a + b)[0] == a[0] && (a + b)[1..] == a[1..] + b;
      var act := LogAct(g, log, a[0]);
      var first := LogPlay(g, act.0, a[1..]);
      LogPlayConcat(g, act.0, a[1..], b);
      assert LogPlay(g, log, a) == (first.0, [act.1] + first.1);
      var second := LogPlay(g, first.0, b);
      assert [act.1] + (first.1 + second.1) == ([act.1] + first.1) + second.1;
    }
  }

  lemma {:induction false} IncreasingConcat(g: Geometry, log: seq<Entry>, a: seq<Op>, b: seq<Op>)
    ensures Increasing(g, log, a + b) <==> Increasing(g, log, a) && Increasing(g, LogPlay(g, log, a).0, b)
    decreases |a|
  {
    hide LogAct, Newer, Admit;
    if a == [] {
      assert a + b == b;
    } else {
      assert (a + b)[0] == a[0] && (a + b)[1..] == a[1..] + b;
      IncreasingConcat(g, LogAct(g, log, a[0]).0, a[1..], b);
    }
  }

  /** A read of everything prints the live log and changes nothing. */
  lemma FullRead(g: Geometry, log: seq<Entry>)
    ensures Increasing(g, log, [Read(0, 0)])
    ensures LogPlay(g, log, [Read(0, 0)]) == (log, [Printed(Returns(0), Live(g, log))])
  {
    hide Live;
    AllMatchZero(Live(g, log));
    var reply := Printed(Returns(0), Live(g, log));
    assert LogAct(g, log, Read(0, 0)) == (log, reply);
    assert [Read(0, 0)][1..] == [];
    assert [reply] + [] == [reply];
  }

  /**
   After n successful writes of an increasing run on a blank device, a read of everything
   prints the last Keep(n) entries written, oldest first.
   */
  lemma BoundedQueue(g: Geometry, image: seq<byte>, requests: seq<Request>)
    requires Blank(g, image) && Increasing(g, [], Writes(requests))
    requires AllSucceed(Run(g, image, Writes(requests)).1)
    ensures var n := |requests|;
            var log := LogPlay(g, [], Writes(requests)).0;
            var replies := Run(g, image, Writes(requests) + [Read(0, 0)]).1;
            && |log| == n
            && (forall i :: 0 <= i < n ==> AppendedFor(g, log[..i], requests[i], log[i]))
            && |replies| == n + 1
            && replies[n] == Printed(Returns(0), log[n - Keep(g, n)..])
  {
    hide Blank, Run, Keep, AppendedFor, LogPlay, Increasing, AllSucceed;
    var ops := Writes(requests);
    var read := [Read(0, 0)];
    DeviceIsALog(g, image, ops);
    NoEntriesFit(g);
    SuccessfulWritesAppend(g, [], requests);
    var log := LogPlay(g, [], ops).0;
    FullRead(g, log);
    IncreasingConcat(g, [], ops, read);
    DeviceIsALog(g, image, ops + read);
    LogPlayConcat(g, [], ops, read);
    ReplyCount(g, [], ops);
  }

  lemma {:induction false} ReplyCount(g: Geometry, log: seq<Entry>, ops: seq<Op>)
    ensures |LogPlay(g, log, ops).1| == |ops|
    decreases |ops|
  {
    hide LogAct;
    if ops == [] {
    } else {
      ReplyCount(g, LogAct(g, log, ops[0]).0, ops[1..]);
    }
  }

  // ----- What a write drops -----

  /** A write to a full ring drops the Capacity oldest entries; any other write drops none. */
  lemma LiveAfterWrite(g: Geometry, contents: Contents, log: seq<Entry>, m: nat, cur: nat, e: Entry)
    requires QueueView(g, contents, log, m, cur) && Ascending(log)
    requires Fits(g, e)
    ensures if FirstWithRoom(g, contents, 0) < Regions(g) then Live(g, log + [e]) == Live(g, log) + [e]
            else
              && Capacity(g) <= |Live(g, log)|
              && Live(g, log + [e]) == Live(g, log)[Capacity(g)..] + [e]
              && contents[TargetOf(g, log, m, cur)] == Live(g, log)[..Capacity(g)]
  {
    hide At, Chunk, Keep, Live;
    QueueBounds(g, contents, log, m, cur);
    QueueShape(g, contents, log, m, cur);
    RoomInQueue(g, contents, log, m, cur);
    LiveIsFromOldestChunk(g, log, m);
    AtOrder(g, m, m);
    AtOrder(g, OldestChunk(g, m), m);
    if |log| < At(g, m) + Capacity(g) {
      LiveIsFromOldestChunk(g, log + [e], m);
    } else {
      LiveIsFromOldestChunk(g, log + [e], m + 1);
      if Regions(g) <= m + 1 {
        OldestInQueue(g, contents, log, m, cur);
        AtOrder(g, OldestChunk(g, m), OldestChunk(g, m));
        assert OldestChunk(g, m + 1) == OldestChunk(g, m) + 1;
        OldestChunkIs(g, contents, log, m, cur);
      }
    }
  }

  lemma OldestChunkIs(g: Geometry, contents: Contents, log: seq<Entry>, m: nat, cur: nat)
    requires QueueView(g, contents, log, m, cur) && Regions(g) <= m + 1
    requires At(g, OldestChunk(g, m)) + Capacity(g) <= |log|
    ensures NextCur(g, cur) < Regions(g)
    ensures contents[NextCur(g, cur)] == log[At(g, OldestChunk(g, m))..At(g, OldestChunk(g, m)) + Capacity(g)]
  {
  }

  // ----- How far the order of timestamps is enforced -----

  /** The region last written has room, or it is the only one. */
  predicate LastIsNext(g: Geometry, log: seq<Entry>)
    requires log != []
  {
    InLast(g, |log|) < Capacity(g) || Regions(g) == 1
  }

  lemma BoundCases(g: Geometry, log: seq<Entry>)
    requires Ascending(log) && log != []
    ensures LastIsNext(g, log) ==> Bound(g, log) == log[|log| - 1].timestamp
    ensures !LastIsNext(g, log) ==> Bound(g, log) < log[|log| - 1].timestamp
  {
    hide At, InLast, Keep;
    if InLast(g, |log|) == Capacity(g) {
      AtOrder(g, 0, 1);
      if Regions(g) == 1 {
        KeepOfOneRegion(g, |log|);
        assert Live(g, log)[Capacity(g) - 1] == log[|log| - 1];
      } else if At(g, Regions(g)) <= |log| {
        KeepWhenFull(g, |log|);
        assert Live(g, log)[Capacity(g) - 1] == log[|log| - Keep(g, |log|) + Capacity(g) - 1];
      }
    }
  }

  lemma KeepOfOneRegion(g: Geometry, n: nat)
    requires 0 < n && InLast(g, n) == Capacity(g) && Regions(g) == 1
    ensures Capacity(g) <= n && Keep(g, n) == Capacity(g) && At(g, 1) == Capacity(g)
  {
    hide At;
    AtOrder(g, 0, 1);
    FullIsLarge(n, Capacity(g));
  }

  lemma FullIsLarge(n: nat, c: nat)
    requires 0 < n && 0 < c && (n - 1) % c + 1 == c
    ensures c <= n
  {
  }

  lemma KeepWhenFull(g: Geometry, n: nat)
    requires 0 < n && InLast(g, n) == Capacity(g) && At(g, Regions(g)) <= n && 2 <= Regions(g)
    ensures 2 * Capacity(g) <= Keep(g, n)
  {
    hide At, InLast;
    AtOrder(g, 1, Regions(g));
    AtOrder(g, 1, Regions(g) - 1);
    AtOrder(g, 0, 1);
    AtOrder(g, Regions(g) - 1, Regions(g));
  }

  /**
   The manual says that timestamps of new entries must be larger than those of all
   existing entries. The program enforces that exactly while the region last written
   has room or is the only one: otherwise some older timestamp is accepted.
   */
  lemma OrderIsEnforcedExactly(g: Geometry, log: seq<Entry>)
    requires Ascending(log) && log != [] && SMALL_SIZE_THRESHOLD <= g.deviceSize
    ensures LastIsNext(g, log) <==>
            forall request :: Admit(g, log, request).Append? ==>
                                log[|log| - 1].timestamp < Admit(g, log, request).entry.timestamp
  {
    hide LastIsNext, Bound, Ascending;
    BoundCases(g, log);
    LastBelowSentinel(log);
    if !LastIsNext(g, log) {
      var request := Request([], 0, Bound(g, log) + 1, 0, 0);
      assert Admit(g, log, request).Append?;
    }
  }

  /** On a device that answers as the log, a write stores what the log admits. */
  lemma WriteStoresAdmitted(g: Geometry, image: seq<byte>, contents: Contents, lost: set<nat>, log: seq<Entry>, m: nat,
                            cur: nat, request: Request)
    requires Represents(g, image, contents, lost) && QueueView(g, contents, log, m, cur) && Ascending(log)
    ensures WriteEntry(g, image, request).ending == Returns(0) <==> Admit(g, log, request).Append?
    ensures Admit(g, log, request).Append? ==>
              && PlanWrite(g, image, request).plan.Go?
              && PlanWrite(g, image, request).plan.entry == Admit(g, log, request).entry
  {
    hide Represents, QueueView, Ascending, WriteEntry, PlanWrite, Intention, TargetOf, Bound, DataPos, StateOf;
    QueueShape(g, contents, log, m, cur);
    IntentionIsAdmission(g, contents, log, m, cur, request);
    var l0 := PlanIsIntention(g, image, contents, lost, request);
    var l1 := WriteIsPlacing(g, image, contents, lost, request);
  }

  /** Every write that this device accepts is newer than all of the log. */
  ghost predicate KeepsOrder(g: Geometry, device: seq<byte>, log: seq<Entry>)
    requires log != []
  {
    forall request :: WriteEntry(g, device, request).ending == Returns(0) ==>
                        && PlanWrite(g, device, request).plan.Go?
                        && log[|log| - 1].timestamp < PlanWrite(g, device, request).plan.entry.timestamp
  }

  /**
   The same on the device: after any increasing run, whatever the program accepts next is
   newer than all entries, if and only if the region last written has room or is the only
   one. Otherwise some request is accepted and stored with a timestamp that is not.
   */
  lemma DeviceKeepsOrderExactly(g: Geometry, image: seq<byte>, ops: seq<Op>)
    requires Blank(g, image) && Increasing(g, [], ops) && LogPlay(g, [], ops).0 != []
    requires SMALL_SIZE_THRESHOLD <= g.deviceSize
    ensures var log := LogPlay(g, [], ops).0;
            LastIsNext(g, log) <==> KeepsOrder(g, Run(g, image, ops).0, log)
  {
    hide Blank, Represents, Run, Play, LogPlay, QueueView, Increasing, LastIsNext, Admit, Ascending, LogFits,
         WriteEntry, PlanWrite;
    BlankHoldsNothing(g, image);
    EmptyQueue(g);
    NoEntriesFit(g);
    var lost := RunIsPlay(g, image, NoEntries(g), {}, ops);
    var m, cur := PlayIsLogPlay(g, NoEntries(g), [], 0, 0, ops);
    var device, contents, log := Run(g, image, ops).0, Play(g, NoEntries(g), ops).0, LogPlay(g, [], ops).0;
    forall request
      ensures WriteEntry(g, device, request).ending == Returns(0) <==> Admit(g, log, request).Append?
      ensures Admit(g, log, request).Append? ==>
                && PlanWrite(g, device, request).plan.Go?
                && PlanWrite(g, device, request).plan.entry == Admit(g, log, request).entry
    {
      WriteStoresAdmitted(g, device, contents, lost, log, m, cur, request);
    }
    OrderIsEnforcedExactly(g, log);
  }

  lemma NoEntriesFit(g: Geometry)
    ensures Ascending([]) && LogFits(g, [])
  {
  }
}
