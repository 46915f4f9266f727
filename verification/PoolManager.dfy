/**
 * The buffer-pool manager as an object: the sections of its operations, run on frames,
 * page table, free list and replacer that they update in place. Each is proved to do
 * what the protocol's section does to the state that the object shows.
 */
module PoolManager {
  import opened Storage
  import opened Frames
  import opened PageTables
  import opened FreeLists
  import opened ClockReplacers
  import opened BufferPool

  ghost predicate Separate(frames: seq<Frame>) {
    && Distinct(frames) && AllValid(frames)
    && forall i, j :: 0 <= i < j < |frames| ==> frames[i].data != frames[j].data
  }

  class BufferPoolManager {
    const frames: seq<Frame>
    const pageTable: PageTable
    const freeFrames: FreeFrames
    const clockReplacer: ClockReplacer
    var inFlightLoads: set<PageId>
    var nextPageId: PageId

    ghost function Repr(): set<object> {
      {this, pageTable, freeFrames, clockReplacer} + (set frame | frame in frames) + set frame | frame in frames :: frame.data
    }

    /** The object stands for the shared part of s. */
    ghost predicate Shows(s: State)
      reads this, Repr()
    {
      && Separate(frames) && Values(frames) == s.frames
      && pageTable.table == s.table && freeFrames.frames == s.free
      && inFlightLoads == s.inFlight && nextPageId == s.nextPageId
      && clockReplacer.clockHand == s.hand
    }

    constructor (poolSize: nat, ghost threadCount: nat, ghost disk: map<PageId, PageData>)
      ensures Shows(Init(poolSize, threadCount, disk)) && fresh(Repr())
    {
      var fs: seq<Frame> := [];
      for i := 0 to poolSize
        invariant |fs| == i && Separate(fs)
        invariant forall k :: 0 <= k < i ==> fresh(fs[k]) && fresh(fs[k].data) && fs[k].Value() == EMPTY_FRAME
      {
        var frame := new Frame();
        fs := fs + [frame];
      }
      frames := fs;
      pageTable := new PageTable();
      freeFrames := new FreeFrames.Initialize(poolSize);
      clockReplacer := new ClockReplacer();
      inFlightLoads := {};
      nextPageId := 0;
      new;
      assert Values(frames) == seq(poolSize, i => EMPTY_FRAME);
    }

    /** The object stands for s', in which thread t has arrived at pc. */
    ghost predicate Arrives(s': State, t: Tid, pc: Pc)
      reads this, Repr()
    {
      Shows(s') && t < |s'.threads| && s'.threads[t] == pc
    }

    // -------------------------------------------------------------------------
    // First sections
    // -------------------------------------------------------------------------

    /** fetch_page up to the point where it answers, waits, claims a free frame or starts CLOCK. */
    method BeginFetch(pageId: PageId, ghost s: State, ghost t: Tid) returns (pc: Pc)
      requires Shows(s) && s.InBounds() && t < |s.threads| && s.threads[t] == Start(FetchPage(pageId))
      modifies Repr()
      ensures Arrives(StartFetch(s, t, pageId), t, pc)
    {
      var resident := pageTable.GetFrameId(pageId);
      if resident.Some? {
        pc := Hit(pageId, resident.value, s, t);
        return;
      }
      if pageId in inFlightLoads {
        return LoadWait(pageId);
      }
      inFlightLoads := inFlightLoads + {pageId};
      var freeFrame := freeFrames.GetFrame();
      if freeFrame.None? {
        return Scan(Load(pageId), 0, false);
      }
      assert s.free == [s.free[0]] + s.free[1..];
      pc := ClaimFree(pageId, freeFrame.value, s.(inFlight := s.inFlight + {pageId}, free := s.free[1..]), t);
    }

    /** Reserves a frame just taken from the free list, or puts it back. */
    method ClaimFree(pageId: PageId, frameId: FrameId, ghost s: State, ghost t: Tid) returns (pc: Pc)
      requires Shows(s) && t < |s.threads| && frameId < |s.frames|
      modifies Repr()
      ensures var s' := if s.frames[frameId].state.Reserved?
                        then s.(free := s.free + [frameId], inFlight := s.inFlight - {pageId})
                              .Return(t, Failed(FrameError(AlreadyReserved)))
                        else s.SetFrame(frameId, s.frames[frameId].InState(Reserved)).Goto(t, FreeRead(pageId, frameId));
              Arrives(s', t, pc)
    {
      var frame := frames[frameId];
      var reserved := frame.Reserve();
      assert Values(frames) == s.frames[frameId := frame.Value()];
      if reserved.Fail? {
        freeFrames.AddFrame(frameId);
        inFlightLoads := inFlightLoads - {pageId};
        return Idle(Failed(FrameError(reserved.error)));
      }
      return FreeRead(pageId, frameId);
    }

    method Hit(pageId: PageId, frameId: FrameId, ghost s: State, ghost t: Tid) returns (pc: Pc)
      requires Shows(s) && s.InBounds() && t < |s.threads| && s.threads[t] == Start(FetchPage(pageId))
      requires pageId in s.table && s.table[pageId] == frameId
      modifies Repr()
      ensures Arrives(StartFetch(s, t, pageId), t, pc)
    {
      var frame := frames[frameId];
      if frame.state == Reserved {
        return Start(FetchPage(pageId));
      }
      var pinned := frame.Pin();
      if pinned.Fail? {
        assert Values(frames) == s.frames[frameId := frame.Value()];
        return Idle(Failed(FrameError(pinned.error)));
      }
      var _ := frame.MarkReferenced();
      assert Values(frames) == s.frames[frameId := frame.Value()];
      return Idle(Page(pageId, frameId));
    }

    /** new_page up to the point where it answers or starts CLOCK. */
    method BeginNew(ghost s: State, ghost t: Tid) returns (pc: Pc)
      requires Shows(s) && s.InBounds() && t < |s.threads|
      modifies Repr()
      ensures Arrives(StartNew(s, t), t, pc)
    {
      var newPageId := nextPageId;
      if newPageId >= MAX_PAGE_ID {
        return Idle(Failed(NoPageIdAvailable));
      }
      var freeFrame := freeFrames.GetFrame();
      if freeFrame.None? {
        return Scan(Create(newPageId), 0, false);
      }
      assert s.free == [s.free[0]] + s.free[1..];
      pc := CreateIn(freeFrame.value, s.(free := s.free[1..]), t);
    }

    /** Puts a new page into a frame just taken from the free list. */
    method CreateIn(frameId: FrameId, ghost s: State, ghost t: Tid) returns (pc: Pc)
      requires Shows(s) && t < |s.threads| && frameId < |s.frames| && s.nextPageId < MAX_PAGE_ID
      modifies Repr()
      ensures var n := s.nextPageId;
              Arrives(s.SetFrame(frameId, NewFrame(n)).(table := s.table[n := frameId], nextPageId := n + 1)
                       .(pins := s.pins[n := s.Pins(n) + 1]).Return(t, Page(n, frameId)), t, pc)
    {
      var newPageId := nextPageId;
      Fill(frameId, Create(newPageId), ZeroPage());
      pageTable.Insert(newPageId, frameId);
      nextPageId := nextPageId + 1;
      return Idle(Page(newPageId, frameId));
    }

    /** Loads a page into a frame for a caller that keeps it pinned. */
    method Occupy(frame: Frame, pageId: PageId, buffer: PageData)
      requires frame.Valid()
      modifies frame, frame.data
      ensures frame.Value() == LoadedFrame(pageId, buffer)
    {
      var _ := frame.LoadPage(pageId, buffer);
      var _ := frame.Pin();
      var _ := frame.MarkReferenced();
    }

    /** The same for a given goal: a new page is dirty from the start. */
    method Fill(frameId: FrameId, goal: Goal, buffer: PageData)
      requires Separate(frames) && frameId < |frames|
      modifies frames[frameId], frames[frameId].data
      ensures Values(frames) == old(Values(frames))[
                frameId := LoadedFrame(goal.page, buffer).WithDirty(goal.Create?)]
    {
      var frame := frames[frameId];
      Occupy(frame, goal.page, buffer);
      if goal.Create? {
        var _ := frame.MarkDirty();
      }
      assert Values(frames) == old(Values(frames))[frameId := frame.Value()];
    }

    method UnpinPage(pageId: PageId, ghost s: State, ghost t: Tid) returns (pc: Pc)
      requires Shows(s) && s.InBounds() && t < |s.threads|
      modifies Repr()
      ensures Arrives(StartUnpin(s, t, pageId), t, pc)
    {
      var frameId := pageTable.GetFrameId(pageId);
      if frameId.None? {
        return Idle(Failed(PageNotFound(pageId)));
      }
      var frame := frames[frameId.value];
      if frame.state == Reserved {
        return Idle(Failed(FrameReserved));
      }
      var r := frame.Unpin();
      assert Values(frames) == s.frames[frameId.value := frame.Value()];
      return Idle(if r.Pass? then Done else Failed(FrameError(r.error)));
    }

    method MarkDirtyPage(pageId: PageId, ghost s: State, ghost t: Tid) returns (pc: Pc)
      requires Shows(s) && s.InBounds() && t < |s.threads|
      modifies Repr()
      ensures Arrives(StartMarkDirty(s, t, pageId), t, pc)
    {
      var frameId := pageTable.GetFrameId(pageId);
      if frameId.None? {
        return Idle(Failed(PageNotFound(pageId)));
      }
      var frame := frames[frameId.value];
      if frame.state == Reserved {
        return Idle(Failed(FrameReserved));
      }
      var r := frame.MarkDirty();
      assert Values(frames) == s.frames[frameId.value := frame.Value()];
      return Idle(if r.Pass? then Done else Failed(FrameError(r.error)));
    }

    /** flush_page up to the point where it answers or owns the frame. */
    method BeginFlush(pageId: PageId, ghost s: State, ghost t: Tid) returns (pc: Pc)
      requires Shows(s) && s.InBounds() && t < |s.threads|
      modifies Repr()
      ensures Arrives(StartFlush(s, t, pageId), t, pc)
    {
      var frameId := pageTable.GetFrameId(pageId);
      if frameId.None? {
        return Idle(Failed(PageNotFound(pageId)));
      }
      var frame := frames[frameId.value];
      if frame.state == Reserved {
        return Idle(Failed(FrameReserved));
      }
      var _ := frame.Reserve();
      if frame.metadata.Some? && frame.metadata.value.dirty {
        assert Values(frames) == s.frames[frameId.value := frame.Value()];
        return FlushCheck(Flush, pageId, frameId.value);
      }
      frame.SetResident();
      assert Values(frames) == s.frames[frameId.value := frame.Value()];
      return Idle(Done);
    }

    /** delete_page up to the point where it answers or owns the frame. */
    method BeginDelete(pageId: PageId, ghost s: State, ghost t: Tid) returns (pc: Pc)
      requires Shows(s) && s.InBounds() && t < |s.threads|
      modifies Repr()
      ensures Arrives(StartDelete(s, t, pageId), t, pc)
    {
      var frameId := pageTable.GetFrameId(pageId);
      if frameId.None? {
        return Idle(Failed(PageNotFound(pageId)));
      }
      var frame := frames[frameId.value];
      assert frame.Value() == s.frames[frameId.value];
      if (frame.metadata.Some? && frame.metadata.value.pinCount > 0) || frame.state == Reserved {
        return Idle(Failed(PagePinned(pageId)));
      }
      pc := DeleteUnpinned(pageId, frameId.value, s, t);
    }

    /** delete_page on a frame that nobody has pinned or reserved. */
    method DeleteUnpinned(pageId: PageId, frameId: FrameId, ghost s: State, ghost t: Tid) returns (pc: Pc)
      requires Shows(s) && t < |s.threads| && frameId < |s.frames|
      requires !s.frames[frameId].state.Reserved?
      modifies Repr()
      ensures var s' := if s.frames[frameId].IsDirty()
                        then s.SetFrame(frameId, s.frames[frameId].InState(Reserved)).Goto(t, FlushCheck(Delete, pageId, frameId))
                        else Unmap(s, t, pageId, frameId);
              Arrives(s', t, pc)
    {
      var frame := frames[frameId];
      assert frame.Value() == s.frames[frameId];
      var _ := frame.Reserve();
      ghost var s1 := s.SetFrame(frameId, s.frames[frameId].InState(Reserved));
      assert Values(frames) == s1.frames;
      if frame.metadata.Some? && frame.metadata.value.dirty {
        return FlushCheck(Delete, pageId, frameId);
      }
      pc := FinishDelete(pageId, frameId, s1, t);
    }

    // -------------------------------------------------------------------------
    // Loading into a free frame
    // -------------------------------------------------------------------------

    method LoadIntoFree(pageId: PageId, frameId: FrameId, buffer: PageData, ghost s: State, ghost t: Tid) returns (pc: Pc)
      requires Shows(s) && t < |s.threads| && frameId < |s.frames|
      modifies Repr()
      ensures Arrives(LoadFree(s, t, pageId, frameId, buffer), t, pc)
    {
      Fill(frameId, Load(pageId), buffer);
      return FreePublish(pageId, frameId);
    }

    method Publish(pageId: PageId, frameId: FrameId, ghost s: State, ghost t: Tid) returns (pc: Pc)
      requires Shows(s) && t < |s.threads|
      modifies Repr()
      ensures Arrives(PublishFree(s, t, pageId, frameId), t, pc)
    {
      pageTable.Insert(pageId, frameId);
      inFlightLoads := inFlightLoads - {pageId};
      return Idle(Page(pageId, frameId));
    }

    method RollBackLoad(pageId: PageId, frameId: FrameId, ghost s: State, ghost t: Tid) returns (pc: Pc)
      requires Shows(s) && t < |s.threads| && frameId < |s.frames|
      modifies Repr()
      ensures Arrives(RollBackFree(s, t, pageId, frameId), t, pc)
    {
      frames[frameId].SetFree();
      assert Values(frames) == s.frames[frameId := frames[frameId].Value()];
      freeFrames.AddFrame(frameId);
      inFlightLoads := inFlightLoads - {pageId};
      return Idle(Failed(DiskError));
    }

    // -------------------------------------------------------------------------
    // Eviction
    // -------------------------------------------------------------------------

    /** One turn of the hand. */
    method Inspect(goal: Goal, scanned: nat, found: bool, ghost s: State, ghost t: Tid) returns (pc: Pc)
      requires Shows(s) && s.InBounds() && t < |s.threads|
      modifies Repr()
      ensures Arrives(ScanOne(s, t, goal, scanned, found), t, pc)
    {
      if |frames| == 0 {
        return GivenUp(goal);
      }
      var id := clockReplacer.clockHand;
      var verdict := clockReplacer.InspectHand(frames);
      var found' := found || verdict == Spared;
      if verdict == Chosen {
        return HasVictim(goal, id);
      } else if scanned + 1 < |frames| {
        return Scan(goal, scanned + 1, found');
      } else if found' {
        return Scan(goal, 0, false);
      }
      return GivenUp(goal);
    }

    /** Where a call goes on after a search that found nothing. */
    function GivenUp(goal: Goal): Pc {
      if goal.Load? then CheckReserved(goal.page, 0) else Idle(Failed(NoEvictableFrame))
    }

    /** One turn of the look for a reserved frame after a fruitless search. */
    method CheckNext(pageId: PageId, i: nat, ghost s: State, ghost t: Tid) returns (pc: Pc)
      requires Shows(s) && t < |s.threads|
      ensures Arrives(CheckOne(s, t, pageId, i), t, pc)
    {
      if i >= |frames| {
        return Idle(Failed(NoEvictableFrame));
      }
      assert frames[i].Value() == s.frames[i];
      return if frames[i].state == Reserved then Start(FetchPage(pageId)) else CheckReserved(pageId, i + 1);
    }

    method Reserve(goal: Goal, victim: FrameId, ghost s: State, ghost t: Tid) returns (pc: Pc)
      requires Shows(s) && t < |s.threads| && victim < |s.frames|
      modifies Repr()
      ensures Arrives(ReserveVictim(s, t, goal, victim), t, pc)
    {
      var frame := frames[victim];
      var reserved := frame.Reserve();
      assert Values(frames) == s.frames[victim := frame.Value()];
      if reserved.Fail? {
        return Idle(Failed(FrameError(reserved.error)));
      }
      if frame.metadata.None? {
        return Idle(Failed(FrameError(NoMetadata)));
      }
      var oldPageId := frame.metadata.value.pageId;
      if frame.metadata.value.dirty {
        return VictimWrite(goal, victim, oldPageId, frame.data[..]);
      }
      return AfterWrite(goal, victim, oldPageId);
    }

    method Commit(goal: Goal, victim: FrameId, oldPageId: PageId, buffer: PageData, ghost s: State, ghost t: Tid)
      returns (pc: Pc)
      requires Shows(s) && t < |s.threads| && victim < |s.frames|
      modifies Repr()
      ensures Arrives(CommitVictim(s, t, goal, victim, oldPageId, buffer), t, pc)
    {
      Fill(victim, goal, buffer);
      var replaced := pageTable.Replace(oldPageId, goal.page, victim);
      if replaced.Fail? {
        return Idle(Failed(TableError(replaced.error)));
      }
      if goal.Load? {
        inFlightLoads := inFlightLoads - {goal.page};
      } else if goal.page < MAX_PAGE_ID {
        nextPageId := goal.page + 1;
      } else {
        nextPageId := goal.page;
      }
      return Idle(Page(goal.page, victim));
    }

    method RollBackEviction(goal: Goal, victim: FrameId, ghost s: State, ghost t: Tid) returns (pc: Pc)
      requires Shows(s) && t < |s.threads| && victim < |s.frames|
      modifies Repr()
      ensures Arrives(RollBackVictim(s, t, goal, victim), t, pc)
    {
      frames[victim].SetResident();
      assert Values(frames) == s.frames[victim := frames[victim].Value()];
      if goal.Load? {
        inFlightLoads := inFlightLoads - {goal.page};
      }
      return Idle(Failed(DiskError));
    }

    // -------------------------------------------------------------------------
    // Flush and delete
    // -------------------------------------------------------------------------

    /** flush_reserved_frame up to the write. */
    method CheckReservedFrame(purpose: Purpose, pageId: PageId, frameId: FrameId, ghost s: State, ghost t: Tid) returns (pc: Pc)
      requires Shows(s) && t < |s.threads| && frameId < |s.frames|
      ensures Arrives(CheckFlush(s, t, purpose, pageId, frameId), t, pc)
    {
      var frame := frames[frameId];
      assert frame.Value() == s.frames[frameId];
      if frame.state != Reserved {
        return if purpose.Flush? then Idle(Failed(FrameNotReserved)) else DeleteFailed(pageId, frameId, FrameNotReserved);
      }
      if frame.metadata.Some? && frame.metadata.value.dirty {
        return FlushWrite(purpose, pageId, frameId, frame.metadata.value.pageId, frame.data[..]);
      }
      return AfterFlush(purpose, pageId, frameId);
    }

    /** flush_reserved_frame after the write. */
    method FinishFlush(purpose: Purpose, pageId: PageId, frameId: FrameId, written: bool, ghost s: State, ghost t: Tid)
      returns (pc: Pc)
      requires Shows(s) && t < |s.threads| && frameId < |s.frames|
      modifies Repr()
      ensures Arrives(EndFlush(s, t, purpose, pageId, frameId, written), t, pc)
    {
      var frame := frames[frameId];
      var error := DiskError;
      if written {
        var cleared := frame.ClearDirty();
        if cleared.Pass? {
          assert Values(frames) == s.frames[frameId := frame.Value()];
          return AfterFlush(purpose, pageId, frameId);
        }
        error := FrameError(cleared.error);
      }
      frame.SetResident();
      assert Values(frames) == s.frames[frameId := frame.Value()];
      return if purpose.Delete? then DeleteFailed(pageId, frameId, error) else Idle(Failed(error));
    }

    method SetResident(frameId: FrameId, reply: Reply, ghost s: State, ghost t: Tid) returns (pc: Pc)
      requires Shows(s) && t < |s.threads| && frameId < |s.frames|
      modifies Repr()
      ensures Arrives(Release(s, t, frameId, reply), t, pc)
    {
      frames[frameId].SetResident();
      assert Values(frames) == s.frames[frameId := frames[frameId].Value()];
      return Idle(reply);
    }

    method FinishDelete(pageId: PageId, frameId: FrameId, ghost s: State, ghost t: Tid) returns (pc: Pc)
      requires Shows(s) && t < |s.threads| && frameId < |s.frames|
      modifies Repr()
      ensures Arrives(Unmap(s, t, pageId, frameId), t, pc)
    {
      pageTable.RemovePage(pageId);
      frames[frameId].Reset();
      assert Values(frames) == s.frames[frameId := frames[frameId].Value()];
      freeFrames.AddFrame(frameId);
      return Idle(Done);
    }
  }
}
