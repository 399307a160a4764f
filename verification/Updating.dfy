/** Rewriting application data in place (src/lib/update.c). */
module Updating {
  import opened Bytes
  import opened Layout
  import opened Io
  import opened Codec
  import opened Blocks
  import opened Traversal
  import opened Writing
  import opened Reading

  /** How an update ends, and the number of entries it says it rewrote. */
  datatype Updated = Updated(image: seq<byte>, ending: Ending, count: nat)

  /** update_application_data */
  function UpdateEntries(g: Geometry, image: seq<byte>, min: u64, mask: u64, test: Entry -> UpdateInfo): (u: Updated)
    ensures |u.image| == |image|
  {
    hide Loop, FindOldestRegion;
    var oldest := FindOldestRegion(g, image, min);
    if oldest.status != Done then Updated(oldest.image, EndingOf(oldest.status), 0)
    else if !oldest.state.valid then Updated(oldest.image, Returns(0), 0)
    else
      var start := OverBlocks(Rewrite(min, mask, test, 0));
      var t := Loop(g, oldest.image, RegionOf(g, oldest.state.location), start);
      LoopIsPlausible(g, oldest.image, RegionOf(g, oldest.state.location), start);
      Updated(t.image, EndingOf(t.status), if t.status == Done then t.callback.blocks.count else 0)
  }

  method UpdateApplicationData(file: IoFile, g: Geometry, min: u64, mask: u64, test: Entry -> UpdateInfo)
    returns (ending: Ending, count: nat)
    requires file.Valid() && file.memory.Length == g.deviceSize
    modifies file.Footprint()
    ensures file.Valid()
    ensures UpdateEntries(g, old(file.Image()), min, mask, test) == Updated(file.Image(), ending, count)
  {
    hide Loop, FindOldestRegion;
    var status, state := BlockFindOldestHintblock(file, g, min);
    if status != Done {
      return EndingOf(status), 0;
    }
    if !state.valid {
      return Returns(0), 0;
    }
    var start := OverBlocks(Rewrite(min, mask, test, 0));
    ghost var m := RegionOf(g, state.location);
    LoopIsPlausible(g, file.Image(), m, start);
    var callback, last, result;
    status, callback, last, result := LoopHintblocksLargeDevice(file, g, Some(state), start, m);
    if status != Done {
      return EndingOf(status), 0;
    }
    return Returns(0), callback.blocks.count;
  }
}
