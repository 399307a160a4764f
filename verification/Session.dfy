/**
 The calls of a session (src/lib/interface.c:53-100): the program's own methods, with
 contracts about what the regions hold and, as long as the writes are in order, about
 nothing but the log.
 */
module Session {
  import opened Bytes
  import opened Layout
  import opened Io
  import opened Codec
  import opened Traversal
  import opened Writing
  import opened Reading
  import opened Updating
  import opened Ring
  import opened Simulation
  import opened Machine
  import opened Runs
  import opened Queue
  import opened Log

  class BdlSession {
    const device: IoFile
    const header: Geometry
    /** What the regions of the device hold, and which of them have lost their hint block. */
    ghost var contents: Contents
    ghost var lost: set<nat>
    /** As long as every stored timestamp was above all earlier ones, the device answers as a log. */
    ghost var inOrder: bool
    /** Everything written so far, with the updates made while in order; the last Keep of it is on the device. */
    ghost var log: seq<Entry>
    ghost var chunk: nat
    ghost var region: nat

    ghost function Footprint(): set<object> {
      {this} + device.Footprint()
    }

    ghost predicate Valid()
      reads this, device, device.memory, device.queue, device.queue.entries
    {
      && device.Valid() && device.memory.Length == header.deviceSize
      && this !in device.Footprint()
      && Represents(header, device.Image(), contents, lost)
      && Shaped(header, contents)
      && (inOrder ==> QueueView(header, contents, log, chunk, region) && Ascending(log) && LogFits(header, log))
    }

    /** A session on a device that is blank behind its header. */
    constructor (device: IoFile, header: Geometry)
      requires device.Valid() && Blank(header, device.Image())
      ensures Valid() && inOrder && log == [] && contents == NoEntries(header)
      ensures this.device == device && this.header == header
    {
      this.device := device;
      this.header := header;
      contents, lost, inOrder, log, chunk, region := NoEntries(header), {}, true, [], 0, 0;
      new;
      BlankHoldsNothing(header, device.Image());
      EmptyQueue(header);
    }

    /** A session on a device that holds entries already, of which nothing else is known. */
    constructor Open(device: IoFile, header: Geometry, ghost contents: Contents, ghost lost: set<nat>)
      requires device.Valid() && Represents(header, device.Image(), contents, lost)
      ensures Valid() && !inOrder && this.contents == contents
      ensures this.device == device && this.header == header
    {
      this.device := device;
      this.header := header;
      this.contents, this.lost, inOrder, log, chunk, region := contents, lost, false, [], 0, 0;
      new;
      RepresentsShaped(header, device.Image(), contents, lost);
    }

    /** A session on a device that holds what an increasing run has left there. */
    constructor Reopen(device: IoFile, header: Geometry, ghost contents: Contents, ghost lost: set<nat>,
                       ghost log: seq<Entry>, ghost chunk: nat, ghost region: nat)
      requires device.Valid() && Represents(header, device.Image(), contents, lost)
      requires QueueView(header, contents, log, chunk, region) && Ascending(log) && LogFits(header, log)
      ensures Valid() && inOrder && this.log == log && this.contents == contents
      ensures this.device == device && this.header == header
    {
      this.device := device;
      this.header := header;
      this.contents, this.lost, inOrder := contents, lost, true;
      this.log, this.chunk, this.region := log, chunk, region;
      new;
      RepresentsShaped(header, device.Image(), contents, lost);
    }

    /** What one call does to the ghost state. */
    ghost method Follow(image: seq<byte>, op: Op)
      requires Represents(header, image, contents, lost) && Shaped(header, contents)
      requires inOrder ==> QueueView(header, contents, log, chunk, region) && Ascending(log) && LogFits(header, log)
      modifies this
      ensures Shaped(header, old(contents)) && contents == Act(header, old(contents), op).0
      ensures Execute(header, image, op).1 == Act(header, old(contents), op).1
      ensures Represents(header, Execute(header, image, op).0, contents, lost) && Shaped(header, contents)
      ensures inOrder <==> old(inOrder) && Increasing(header, old(log), [op])
      ensures inOrder ==>
                && log == LogAct(header, old(log), op).0
                && Act(header, old(contents), op).1 == LogAct(header, old(log), op).1
      ensures !inOrder ==> log == History(header, old(contents), old(log), op)
      ensures inOrder ==> QueueView(header, contents, log, chunk, region) && Ascending(log) && LogFits(header, log)
    {
      hide Represents, QueueView, Ascending, LogFits, Execute, Act, LogAct, Increasing, Shaped;
      ghost var before := contents;
      lost := ExecuteIsAct(header, image, contents, lost, op);
      if inOrder && Increasing(header, log, [op]) {
        ghost var m, cur := ActIsLogAct(header, contents, log, chunk, region, op);
        log, chunk, region := LogAct(header, log, op).0, m, cur;
      } else {
        inOrder, log := false, History(header, contents, log, op);
      }
      contents := Act(header, before, op).0;
    }

    /**
     bdl_write_block: appends to a region or starts a full one over, as the regions say;
     and in terms of the log, as long as the writes were in order.
     */
    method WriteBlock(request: Request) returns (ending: Ending)
      requires Valid()
      modifies Footprint()
      ensures Valid()
      ensures match Intention(header, old(contents), request)
              case Decline(refusal) =>
                ending == refusal && contents == old(contents) && log == old(log) && inOrder == old(inOrder)
              case Intend(k, e) =>
                && ending == Returns(0) && contents == Placed(header, old(contents), k, e) && log == old(log) + [e]
                && (inOrder <==> old(inOrder) && Newer(old(log), e))
      ensures old(inOrder) ==>
                match Admit(header, old(log), request)
                case Reject(refusal) => ending == refusal && log == old(log)
                case Append(e) => ending == Returns(0) && log == old(log) + [e]
    {
      hide Represents, QueueView, Ascending, LogFits, WriteEntry, Admit, Newer, Intention, Shaped;
      OneWrite(header, log, request);
      if inOrder {
        IntentionIsAdmission(header, contents, log, chunk, region, request);
      }
      Follow(device.Image(), Op.Write(request));
      ending := WritePutBlock(device, header, request);
    }

    /** bdl_read_blocks: in order, the first matching live entries. */
    method ReadBlocks(gteq: u64, limit: u64) returns (ending: Ending, output: seq<Entry>)
      requires Valid()
      modifies Footprint()
      ensures Valid() && contents == old(contents) && log == old(log) && inOrder == old(inOrder)
      ensures ending == Returns(0)
      ensures output == Passed(header, contents, Emit(gteq, limit, [])).1.output
      ensures inOrder ==> output == FirstOf(Matching(Live(header, log), gteq), limit)
    {
      hide Represents, QueueView, Ascending, LogFits, ReadEntries, Matching, FirstOf, Live, Passed, Shaped;
      OneOther(header, log, Op.Read(gteq, limit));
      Follow(device.Image(), Op.Read(gteq, limit));
      ending, output := Reading.ReadBlocks(device, header, gteq, limit);
    }

    /** bdl_read_update_application_data: in order, exactly the touched live entries are changed and counted. */
    method UpdateApplicationData(min: u64, mask: u64, test: Entry -> UpdateInfo) returns (ending: Ending, count: nat)
      requires Valid()
      modifies Footprint()
      ensures Valid() && inOrder == old(inOrder)
      ensures ending == Returns(0)
      ensures contents == Passed(header, old(contents), Rewrite(min, mask, test, 0)).0
      ensures count == Passed(header, old(contents), Rewrite(min, mask, test, 0)).1.count
      ensures inOrder ==>
                && |log| == |old(log)|
                && log[..|log| - Keep(header, |log|)] == old(log)[..|log| - Keep(header, |log|)]
                && var live, callback := Live(header, old(log)), Rewrite(min, mask, test, 0);
                   && |live| == |Live(header, log)|
                   && count == |TouchedSet(live, callback)|
                   && forall i :: 0 <= i < |live| ==>
                        Live(header, log)[i] ==
                        if Touched(live, callback, i) then live[i].(applicationData := test(live[i]).newAppdata)
                        else live[i]
    {
      hide Represents, QueueView, Ascending, LogFits, UpdateEntries, Keep, Touched, TouchedSet, Passed, Shaped;
      ghost var callback := Rewrite(min, mask, test, 0);
      RewriteTouches(Live(header, log), callback);
      OneOther(header, log, Op.Update(min, mask, test));
      Follow(device.Image(), Op.Update(min, mask, test));
      ending, count := Updating.UpdateApplicationData(device, header, min, mask, test);
      if inOrder {
        assert Live(header, log) == WalkEntries(Live(header, old(log)), callback).entries;
      }
    }
  }

  /** What was written so far, after one more call out of order. */
  function History(g: Geometry, contents: Contents, log: seq<Entry>, op: Op): seq<Entry>
    requires Shaped(g, contents)
  {
    if op.Write? && Intention(g, contents, op.request).Intend? then log + [Intention(g, contents, op.request).entry]
    else log
  }

  lemma OneWrite(g: Geometry, log: seq<Entry>, request: Request)
    ensures Increasing(g, log, [Op.Write(request)]) <==>
            (Admit(g, log, request).Append? ==> Newer(log, Admit(g, log, request).entry))
  {
  }

  lemma OneOther(g: Geometry, log: seq<Entry>, op: Op)
    requires !op.Write?
    ensures Increasing(g, log, [op])
  {
  }
}
