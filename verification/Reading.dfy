/** Reading entries back (src/lib/blocks.c:483-544, src/lib/read.c). */
module Reading {
  import opened Bytes
  import opened Layout
  import opened Io
  import opened Codec
  import opened Blocks
  import opened Traversal
  import opened Writing

  datatype Found = Found(image: seq<byte>, status: Status, state: HintState)

  /** block_find_oldest_hintblock */
  function FindOldestRegion(g: Geometry, image: seq<byte>, gteq: u64): (f: Found)
    ensures |f.image| == |image|
    ensures f.state.valid ==> OnRing(g, f.state)
  {
    hide Loop;
    var start := FindOldest(gteq, U64_MAX, ZERO_STATE);
    var t := Loop(g, image, 0, start);
    LoopIsPlausible(g, image, 0, start);
    Found(t.image, t.status, if t.status == Done then t.callback.smallest else ZERO_STATE)
  }

  method BlockFindOldestHintblock(file: IoFile, g: Geometry, gteq: u64) returns (status: Status, state: HintState)
    requires file.Valid() && file.memory.Length == g.deviceSize
    modifies file.Footprint()
    ensures file.Valid()
    ensures FindOldestRegion(g, old(file.Image()), gteq) == Found(file.Image(), status, state)
  {
    hide Loop, OnRing;
    var start := FindOldest(gteq, U64_MAX, ZERO_STATE);
    LoopIsPlausible(g, file.Image(), 0, start);
    var callback, last, result;
    status, callback, last, result := LoopHintblocksLargeDevice(file, g, None, start, 0);
    if status != Done {
      return status, ZERO_STATE;
    }
    return Done, callback.smallest;
  }

  /** The entries that a read prints, and how it ends. */
  datatype Report = Report(image: seq<byte>, ending: Ending, output: seq<Entry>)

  function EndingOf(status: Status): Ending {
    match status
    case Done => Returns(0)
    case Failed => Returns(1)
    case Exited => Exits
  }

  /** read_blocks */
  function ReadEntries(g: Geometry, image: seq<byte>, gteq: u64, limit: u64): (r: Report)
    ensures |r.image| == |image|
  {
    hide Loop, FindOldestRegion;
    var oldest := FindOldestRegion(g, image, gteq);
    if oldest.status != Done then Report(oldest.image, EndingOf(oldest.status), [])
    else if !oldest.state.valid then Report(oldest.image, Returns(0), [])
    else
      var start := OverBlocks(Emit(gteq, limit, []));
      var t := Loop(g, oldest.image, RegionOf(g, oldest.state.location), start);
      LoopIsPlausible(g, oldest.image, RegionOf(g, oldest.state.location), start);
      Report(t.image, EndingOf(t.status), t.callback.blocks.output)
  }

  method ReadBlocks(file: IoFile, g: Geometry, gteq: u64, limit: u64) returns (ending: Ending, output: seq<Entry>)
    requires file.Valid() && file.memory.Length == g.deviceSize
    modifies file.Footprint()
    ensures file.Valid()
    ensures ReadEntries(g, old(file.Image()), gteq, limit) == Report(file.Image(), ending, output)
  {
    hide Loop, FindOldestRegion;
    var status, state := BlockFindOldestHintblock(file, g, gteq);
    if status != Done {
      return EndingOf(status), [];
    }
    if !state.valid {
      return Returns(0), [];
    }
    var start := OverBlocks(Emit(gteq, limit, []));
    ghost var m := RegionOf(g, state.location);
    LoopIsPlausible(g, file.Image(), m, start);
    var callback, last, result;
    status, callback, last, result := LoopHintblocksLargeDevice(file, g, Some(state), start, m);
    return EndingOf(status), callback.blocks.output;
  }
}
