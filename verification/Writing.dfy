/** Writing an entry (src/lib/write.c:146-203, 327-432). */
module Writing {
  import opened Bytes
  import opened Layout
  import opened Io
  import opened Codec
  import opened Blocks
  import opened Traversal

  /** The arguments of write_put_block, and the clock for a timestamp of zero. */
  datatype Request = Request(
    data: seq<byte>, applicationData: u64, timestamp: u64, faketimestamp: u64, now: u64)
  {
    function Given(): u64 {
      if timestamp == 0 then now else timestamp
    }
  }

  /** How a call ends: with a return code, or by exit(EXIT_FAILURE). */
  datatype Ending = Returns(code: int) | Exits

  const WRITE_ERR := 1
  const WRITE_ERR_TIMESTAMP := 2
  const WRITE_ERR_SIZE := 3

  // ----- Where the block goes -----

  datatype Place = Place(image: seq<byte>, status: Status, pos: nat, state: HintState)

  /** write_find_location */
  function FindLocation(g: Geometry, image: seq<byte>): (p: Place)
    ensures |p.image| == |image|
    ensures p.status == Done ==> p.pos <= g.deviceSize && OnRing(g, p.state)
  {
    hide Loop;
    if g.deviceSize < SMALL_SIZE_THRESHOLD then Place(image, Exited, 0, ZERO_STATE)
    else
      var free := Loop(g, image, 0, CheckFree(0, 0));
      LoopIsPlausible(g, image, 0, CheckFree(0, 0));
      LoopEndsOnRing(g, image, 0, CheckFree(0, 0));
      if free.status != Done then Place(free.image, free.status, 0, ZERO_STATE)
      else if free.callback.argumentInt == 0 then Place(free.image, Done, free.callback.blockLocation, free.state)
      else
        var start := CheckTimestamps(false, U64_MAX, ZERO_STATE);
        var oldest := Loop(g, free.image, 0, start);
        LoopIsPlausible(g, free.image, 0, start);
        if oldest.status != Done then Place(oldest.image, oldest.status, 0, ZERO_STATE)
        else if oldest.callback.initialized
        then Place(oldest.image, Done, oldest.callback.oldest.blockstartMin, oldest.callback.oldest)
        else Place(oldest.image, Exited, 0, ZERO_STATE)
  }

  method WriteFindLocation(file: IoFile, g: Geometry) returns (status: Status, pos: nat, state: HintState)
    requires file.Valid() && file.memory.Length == g.deviceSize
    modifies file.Footprint()
    ensures file.Valid()
    ensures FindLocation(g, old(file.Image())) == Place(file.Image(), status, pos, state)
  {
    hide Loop;
    pos, state := 0, ZERO_STATE;
    if g.deviceSize < SMALL_SIZE_THRESHOLD {
      return Exited, pos, state;
    }
    var callback, last, result;
    LoopIsPlausible(g, file.Image(), 0, CheckFree(0, 0));
    status, callback, last, result := LoopHintblocksLargeDevice(file, g, None, CheckFree(0, 0), 0);
    if status != Done {
      return status, pos, state;
    }
    if callback.argumentInt == 0 {
      return Done, callback.blockLocation, last;
    }
    var start := CheckTimestamps(false, U64_MAX, ZERO_STATE);
    LoopIsPlausible(g, file.Image(), 0, start);
    status, callback, last, result := LoopHintblocksLargeDevice(file, g, None, start, 0);
    if status != Done {
      return status, pos, state;
    }
    if callback.initialized {
      return Done, callback.oldest.blockstartMin, callback.oldest;
    }
    return Exited, pos, state;
  }

  // ----- Which timestamp it gets -----

  datatype Decision = Accept(timestamp: u64) | Refuse(code: int)

  function Decide(highest: u64, given: u64, faketimestamp: u64): Decision {
    if highest >= given then
      if faketimestamp == 0 then Refuse(WRITE_ERR)
      else if highest - given > faketimestamp then Refuse(WRITE_ERR_TIMESTAMP)
      else Accept((highest + 1) % U64_LIMIT)
    else Accept(given)
  }

  // ----- The three block writes -----

  datatype Plan = Go(entry: Entry, pos: nat, state: HintState) | Stop(ending: Ending)

  datatype Planned = Planned(image: seq<byte>, plan: Plan)

  /** Everything write_put_block does before its first block write. */
  function PlanWrite(g: Geometry, image: seq<byte>, request: Request): (p: Planned)
    ensures |p.image| == |image|
    ensures p.plan.Go? ==> Fits(g, p.plan.entry) && p.plan.pos <= g.deviceSize && OnRing(g, p.plan.state)
    ensures p.plan != Stop(Returns(0))
  {
    var place := FindLocation(g, image);
    if place.status == Failed then Planned(place.image, Stop(Returns(WRITE_ERR)))
    else if place.status == Exited then Planned(place.image, Stop(Exits))
    else
      match Decide(place.state.highestTimestamp, request.Given(), request.faketimestamp)
      case Refuse(code) => Planned(place.image, Stop(Returns(code)))
      case Accept(timestamp) =>
        if |request.data| > g.blockSize - BLOCK_HEADER_SIZE then Planned(place.image, Stop(Returns(WRITE_ERR_SIZE)))
        else if place.pos < g.headerSize
                || place.state.location < g.headerSize + g.blockSize
                || place.pos == place.state.backupLocation
        then Planned(place.image, Stop(Exits))
        else
          Planned(place.image, Go(Entry(timestamp, request.applicationData, request.data), place.pos, place.state))
  }

  /** The first block write: the data. */
  function PutData(g: Geometry, image: seq<byte>, plan: Plan): (s: Stored)
    requires plan.Go? && Fits(g, plan.entry)
    ensures |s.image| == |image|
  {
    PutPadded(g, image, plan.pos, SealedBlock(EntryHeader(g, plan.entry), plan.entry.payload))
  }

  datatype Written = Written(image: seq<byte>, ending: Ending)

  /** write_put_block */
  function WriteEntry(g: Geometry, image: seq<byte>, request: Request): (w: Written)
    ensures |w.image| == |image|
  {
    var planned := PlanWrite(g, image, request);
    match planned.plan
    case Stop(ending) => Written(planned.image, ending)
    case Go(entry, pos, state) =>
      var data := PutData(g, planned.image, planned.plan);
      if !data.ok then Written(data.image, Returns(WRITE_ERR))
      else
        var hints := UpdateHint(g, data.image, pos, 0, state.location, state.backupLocation);
        Written(hints.image, Returns(if hints.ok then 0 else WRITE_ERR))
  }

  /** The bytes after the first `blocks` block writes of write_put_block. */
  function Interrupted(g: Geometry, image: seq<byte>, request: Request, blocks: nat): seq<byte> {
    var planned := PlanWrite(g, image, request);
    if planned.plan.Stop? || blocks == 0 then planned.image
    else
      var data := PutData(g, planned.image, planned.plan);
      if blocks == 1 then data.image
      else if blocks == 2 then PutHint(g, data.image, planned.plan.pos, 0, planned.plan.state.location).image
      else WriteEntry(g, image, request).image
  }

  method WritePlanning(file: IoFile, g: Geometry, request: Request) returns (plan: Plan)
    requires file.Valid() && file.memory.Length == g.deviceSize
    modifies file.Footprint()
    ensures file.Valid()
    ensures PlanWrite(g, old(file.Image()), request) == Planned(file.Image(), plan)
  {
    hide FindLocation;
    var status, pos, state := WriteFindLocation(file, g);
    if status == Failed {
      return Stop(Returns(WRITE_ERR));
    }
    if status == Exited {
      return Stop(Exits);
    }
    var timestamp := request.Given();
    if state.highestTimestamp >= timestamp {
      if request.faketimestamp == 0 {
        return Stop(Returns(WRITE_ERR));
      } else if state.highestTimestamp - timestamp > request.faketimestamp {
        return Stop(Returns(WRITE_ERR_TIMESTAMP));
      }
      timestamp := (state.highestTimestamp + 1) % U64_LIMIT;
    }
    if |request.data| > g.blockSize - BLOCK_HEADER_SIZE {
      return Stop(Returns(WRITE_ERR_SIZE));
    }
    if pos < g.headerSize {
      return Stop(Exits);
    }
    if state.location < g.headerSize + g.blockSize {
      return Stop(Exits);
    }
    if pos == state.backupLocation {
      return Stop(Exits);
    }
    return Go(Entry(timestamp, request.applicationData, request.data), pos, state);
  }

  method WritePutBlock(file: IoFile, g: Geometry, request: Request) returns (ending: Ending)
    requires file.Valid() && file.memory.Length == g.deviceSize
    modifies file.Footprint()
    ensures file.Valid()
    ensures WriteEntry(g, old(file.Image()), request) == Written(file.Image(), ending)
    ensures ending == Returns(0) ==>
              && 3 <= |file.journal|
              && file.journal[|file.journal| - 3] == Interrupted(g, old(file.Image()), request, 1)
              && file.journal[|file.journal| - 2] == Interrupted(g, old(file.Image()), request, 2)
              && file.journal[|file.journal| - 1] == file.Image()
  {
    hide PlanWrite, PutHint, PutPadded, SealedBlock;
    var plan := WritePlanning(file, g, request);
    if plan.Stop? {
      return plan.ending;
    }
    var header := EntryHeader(g, plan.entry);
    var res := WriteChecksumAndPutBlock(file, g, header, plan.entry.payload, plan.pos);
    if res != 0 {
      return Returns(WRITE_ERR);
    }
    res := WriteUpdateHintblock(file, g, plan.pos, 0, plan.state.location, plan.state.backupLocation);
    if res != 0 {
      return Returns(WRITE_ERR);
    }
    return Returns(0);
  }
}
