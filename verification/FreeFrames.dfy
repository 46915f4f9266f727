/** The first-in first-out queue of free frames. */
module FreeLists {
  import opened Storage

  class FreeFrames {
    var frames: seq<FrameId>

    constructor Initialize(size: nat)
      ensures frames == seq(size, i => i)
    {
      var queue: seq<FrameId> := [];
      for i := 0 to size
        invariant queue == seq(i, k => k)
      {
        queue := queue + [i];
      }
      frames := queue;
    }

    method AddFrame(frameId: FrameId)
      modifies this
      ensures frames == old(frames) + [frameId]
    {
      frames := frames + [frameId];
    }

    method GetFrame() returns (r: Option<FrameId>)
      modifies this
      ensures old(frames) == [] ==> r == None && frames == []
      ensures old(frames) != [] ==> r.Some? && old(frames) == [r.value] + frames
    {
      if frames == [] {
        return None;
      }
      r := Some(frames[0]);
      frames := frames[1..];
    }
  }
}
