/** What each operation answers and leaves behind if no other thread moves meanwhile. */
module PoolOutcomes {
  import opened Storage
  import opened Frames
  import opened BufferPool
  import opened PoolInvariant
  import opened PoolSearch

  // ---------------------------------------------------------------------------
  // Calls that end
  // ---------------------------------------------------------------------------

  /** Moving alone and with a disk that works, thread t ends its call in s', within `budget` turns. */
  ghost predicate Ends(s: State, t: Tid, budget: nat, s': State) {
    exists n: nat :: n <= budget && EndsIn(s, t, n, s')
  }

  ghost predicate EndsIn(s: State, t: Tid, n: nat, s': State) {
    Turns(s, t, n, s') && t < |s'.threads| && s'.threads[t].Idle?
  }

  lemma {:induction false} EndsInOnce(s: State, t: Tid, n: nat, a: State, m: nat, b: State)
    requires EndsIn(s, t, n, a) && EndsIn(s, t, m, b)
    ensures a == b
    decreases n + m
  {
    if n > 0 && m > 0 {
      var a1 :| IsTurn(s, t, a1) && Turns(a1, t, n - 1, a);
      EndsInOnce(a1, t, n - 1, a, m - 1, b);
    }
  }

  /** A call has one end: what is said of an end of it is said of the end. */
  lemma EndIsUnique(s: State, t: Tid, budget: nat, a: State, other: nat, b: State)
    requires Ends(s, t, budget, a) && Ends(s, t, other, b)
    ensures a == b
  {
    var n: nat :| n <= budget && EndsIn(s, t, n, a);
    var m: nat :| m <= other && EndsIn(s, t, m, b);
    EndsInOnce(s, t, n, a, m, b);
  }

  lemma EndsNow(s: State, t: Tid)
    requires t < |s.threads| && s.threads[t].Idle?
    ensures Ends(s, t, 0, s)
  {
    assert EndsIn(s, t, 0, s);
  }

  lemma EndsNext(s: State, t: Tid, budget: nat, s': State)
    requires s.InBounds() && Enabled(s, Work(t, Ok)) && budget > 0 && Ends(Section(s, t, Ok), t, budget - 1, s')
    ensures Ends(s, t, budget, s')
  {
    var n: nat :| n <= budget - 1 && EndsIn(Section(s, t, Ok), t, n, s');
    TurnsNext(s, t, n, s');
    assert EndsIn(s, t, n + 1, s');
  }

  /** The turn after which the call is over. */
  lemma EndsAtOnce(s: State, t: Tid)
    requires s.InBounds() && Enabled(s, Work(t, Ok)) && Section(s, t, Ok).threads[t].Idle?
    ensures Ends(s, t, 1, Section(s, t, Ok))
  {
    EndsNow(Section(s, t, Ok), t);
    EndsNext(s, t, 1, Section(s, t, Ok));
  }

  lemma {:induction false} EndsAfter(s: State, t: Tid, n: nat, s1: State, budget: nat, s': State)
    requires n <= budget && Turns(s, t, n, s1) && Ends(s1, t, budget - n, s')
    ensures Ends(s, t, budget, s')
    decreases n
  {
    if n > 0 {
      var next :| IsTurn(s, t, next) && Turns(next, t, n - 1, s1);
      EndsAfter(next, t, n - 1, s1, budget - 1, s');
      EndsNext(s, t, budget, s');
    }
  }

  lemma EndsInTime(s: State, t: Tid, few: nat, many: nat, s': State)
    requires Ends(s, t, few, s') && few <= many
    ensures Ends(s, t, many, s')
  {
  }

  /** A turn that the theorems about runs allow. */
  lemma TurnKeepsInv(s: State, t: Tid)
    requires Inv(s) && s.InBounds() && Enabled(s, Work(t, Ok)) && Allowed(s, Work(t, Ok))
    ensures Inv(Section(s, t, Ok)) && Section(s, t, Ok).InBounds()
  {
    StepKeepsInv(s, Work(t, Ok));
    InvBounds(Section(s, t, Ok));
  }

  // ---------------------------------------------------------------------------
  // unpin_page and mark_dirty_page
  // ---------------------------------------------------------------------------

  /** The state with another frame value in place of that of the mapped page p. */
  function Reframed(s: State, p: PageId, value: FrameValue): State
    requires p in s.table && s.table[p] < |s.frames|
  {
    s.(frames := s.frames[s.table[p] := value])
  }

  /**
   * unpin_page: an unmapped page, a reserved frame and a page without pins are refused,
   * each with its error, and nothing else is; any other page has one pin less.
   */
  lemma UnpinOutcome(s: State, t: Tid, p: PageId)
    requires At(s, t, Start(UnpinPage(p))) && s.InBounds() && s.lock == None
    ensures if p !in s.table then Ends(s, t, 1, s.Return(t, Failed(PageNotFound(p))))
            else
              var frame := s.frames[s.table[p]];
              if frame.state == Reserved then Ends(s, t, 1, s.Return(t, Failed(FrameReserved)))
              else if s.Pins(p) == 0 then Ends(s, t, 1, s.Return(t, Failed(FrameError(CannotUnpin))))
              else
                && frame.metadata.Some? && frame.metadata.value.pinCount > 0
                && var m := frame.metadata.value;
                   var less := FrameValue(frame.data, Some(PageMeta(m.pageId, m.pinCount - 1, m.dirty, m.reference)), frame.state);
                   Ends(s, t, 1, Reframed(s, p, less).(pins := s.pins[p := s.Pins(p) - 1]).Return(t, Done))
  {
    assert p in s.table ==> PageOk(s, p);
    EndsAtOnce(s, t);
  }

  /** mark_dirty_page: an unmapped page and a reserved frame are refused; any other page is dirty, and nothing else changes. */
  lemma MarkDirtyOutcome(s: State, t: Tid, p: PageId)
    requires At(s, t, Start(MarkDirtyPage(p))) && s.InBounds() && s.lock == None
    ensures if p !in s.table then Ends(s, t, 1, s.Return(t, Failed(PageNotFound(p))))
            else
              var frame := s.frames[s.table[p]];
              if frame.state == Reserved then Ends(s, t, 1, s.Return(t, Failed(FrameReserved)))
              else
                && frame.metadata.Some?
                && var m := frame.metadata.value;
                   var marked := FrameValue(frame.data, Some(PageMeta(m.pageId, m.pinCount, true, m.reference)), frame.state);
                   Ends(s, t, 1, Reframed(s, p, marked).Return(t, Done))
  {
    assert p in s.table ==> PageOk(s, p);
    EndsAtOnce(s, t);
  }

  // ---------------------------------------------------------------------------
  // flush_page and delete_page
  // ---------------------------------------------------------------------------

  /** The bytes of the mapped page p are on disk. */
  function Stored(s: State, p: PageId): State
    requires p in s.table && s.table[p] < |s.frames|
  {
    s.(disk := s.disk[p := s.frames[s.table[p]].data])
  }

  /** flush_page is done: the page is clean and resident, and has the pins and the second chance it had. */
  function Flushed(s: State, t: Tid, p: PageId): State
    requires p in s.table && s.table[p] < |s.frames| && s.frames[s.table[p]].metadata.Some? && t < |s.threads|
  {
    var frame := s.frames[s.table[p]];
    var m := frame.metadata.value;
    Reframed(s, p, FrameValue(frame.data, Some(PageMeta(m.pageId, m.pinCount, false, m.reference)), Resident)).Return(t, Done)
  }

  /** delete_page is done: the page is unmapped, and its frame is empty and the last of the free ones. */
  ghost function Dropped(s: State, t: Tid, p: PageId): State
    requires p in s.table && s.table[p] < |s.frames| && t < |s.threads|
  {
    Reframed(s, p, FrameValue(ZeroPage(), None, Free)).(table := map q | q in s.table && q != p :: s.table[q],
                                                        free := s.free + [s.table[p]]).Return(t, Done)
  }

  ghost function Completed(s: State, t: Tid, p: PageId, purpose: Purpose): State
    requires p in s.table && s.table[p] < |s.frames| && s.frames[s.table[p]].metadata.Some? && t < |s.threads|
  {
    if purpose.Flush? then Flushed(s, t, p) else Dropped(s, t, p)
  }

  lemma FlushDoneEnds(s: State, t: Tid, p: PageId, f: FrameId)
    requires At(s, t, FlushDone(p, f)) && s.InBounds()
    requires p in s.table && s.table[p] == f && s.frames[f].metadata.Some? && !s.frames[f].metadata.value.dirty
    ensures Ends(s, t, 1, Flushed(s, t, p))
  {
    var m := s.frames[f].metadata.value;
    assert m == PageMeta(m.pageId, m.pinCount, false, m.reference);
    EndsAtOnce(s, t);
  }

  lemma UnmapDrops(s: State, t: Tid, p: PageId)
    requires p in s.table && s.table[p] < |s.frames| && t < |s.threads|
    ensures Unmap(s, t, p, s.table[p]) == Dropped(s, t, p)
  {
    var a, b := Unmap(s, t, p, s.table[p]), Dropped(s, t, p);
    assert a.table == b.table;
  }

  lemma DeleteCommitEnds(s: State, t: Tid, p: PageId, f: FrameId)
    requires At(s, t, DeleteCommit(p, f)) && s.InBounds() && s.lock == None
    requires p in s.table && s.table[p] == f
    ensures Ends(s, t, 1, Dropped(s, t, p))
  {
    UnmapDrops(s, t, p);
    EndsAtOnce(s, t);
  }

  /** What the rest of a flush or delete leaves does not depend on where it stands, on the mark of the reservation, or on the dirty bit. */
  lemma CompletedAlike(s: State, s1: State, t: Tid, p: PageId, purpose: Purpose)
    requires p in s.table && s.table[p] < |s.frames| && s.frames[s.table[p]].metadata.Some? && t < |s.threads|
    requires |s1.threads| == |s.threads| && |s1.frames| == |s.frames|
    requires var f := s.table[p];
             var m, m1 := s.frames[f].metadata, s1.frames[f].metadata;
             && s1 == s.(frames := s.frames[f := s1.frames[f]], threads := s.threads[t := s1.threads[t]])
             && m1.Some? && s1.frames[f].data == s.frames[f].data
             && m1.value.(dirty := m.value.dirty) == m.value
    ensures Completed(s1, t, p, purpose) == Completed(s, t, p, purpose)
  {
    var f := s.table[p];
    var c, c1 := Completed(s, t, p, purpose), Completed(s1, t, p, purpose);
    assert s.frames[f := s1.frames[f]][f := c.frames[f]] == s.frames[f := c.frames[f]];
    assert s.threads[t := s1.threads[t]][t := Idle(Done)] == s.threads[t := Idle(Done)];
    assert c1.frames[f] == c.frames[f];
  }

  lemma FlushEndEnds(s: State, t: Tid, p: PageId, f: FrameId, purpose: Purpose)
    requires At(s, t, FlushEnd(purpose, p, f, true)) && s.InBounds() && s.lock == None
    ensures p in s.table && s.table[p] == f && s.frames[f].metadata.Some?
    ensures Ends(s, t, 2, Completed(s, t, p, purpose))
  {
    assert ThreadOk(s, t) && PageOk(s, p);
    var s1 := Section(s, t, Ok);
    TurnKeepsInv(s, t);
    if purpose.Flush? {
      FlushDoneEnds(s1, t, p, f);
    } else {
      DeleteCommitEnds(s1, t, p, f);
    }
    CompletedAlike(s, s1, t, p, purpose);
    EndsNext(s, t, 2, Completed(s, t, p, purpose));
  }

  lemma FlushWriteEnds(s: State, t: Tid, p: PageId, f: FrameId, purpose: Purpose, target: PageId, bytes: PageData)
    requires At(s, t, FlushWrite(purpose, p, f, target, bytes)) && s.InBounds() && s.lock == None
    ensures p in s.table && s.table[p] == f && s.frames[f].metadata.Some?
    ensures Ends(s, t, 3, Completed(Stored(s, p), t, p, purpose))
  {
    assert ThreadOk(s, t) && PageOk(s, p);
    var s1 := Section(s, t, Ok);
    TurnKeepsInv(s, t);
    FlushEndEnds(s1, t, p, f, purpose);
    CompletedAlike(Stored(s, p), s1, t, p, purpose);
    EndsNext(s, t, 3, Completed(Stored(s, p), t, p, purpose));
  }

  lemma FlushCheckEnds(s: State, t: Tid, p: PageId, f: FrameId, purpose: Purpose)
    requires At(s, t, FlushCheck(purpose, p, f)) && s.InBounds() && s.lock == None
    requires p in s.table ==> s.frames[s.table[p]].IsDirty()
    ensures p in s.table && s.table[p] == f && s.frames[f].metadata.Some?
    ensures Ends(s, t, 4, Completed(Stored(s, p), t, p, purpose))
  {
    assert ThreadOk(s, t) && PageOk(s, p);
    var s1 := Section(s, t, Ok);
    TurnKeepsInv(s, t);
    FlushWriteEnds(s1, t, p, f, purpose, p, s.frames[f].data);
    CompletedAlike(Stored(s, p), Stored(s1, p), t, p, purpose);
    EndsNext(s, t, 4, Completed(Stored(s, p), t, p, purpose));
  }

  /** The first section of a flush or delete that has to write the page. */
  lemma ReservationEnds(s: State, t: Tid, p: PageId, op: Op, purpose: Purpose)
    requires At(s, t, Start(op)) && s.InBounds() && s.lock == None
    requires op == if purpose.Flush? then FlushPage(p) else DeletePage(p)
    requires p in s.table && s.frames[s.table[p]].IsDirty() && s.frames[s.table[p]].state != Reserved
    requires purpose.Delete? ==> s.Pins(p) == 0
    ensures Ends(s, t, 5, Completed(Stored(s, p), t, p, purpose))
  {
    assert PageOk(s, p);
    var s1 := Section(s, t, Ok);
    TurnKeepsInv(s, t);
    FlushCheckEnds(s1, t, p, s.table[p], purpose);
    CompletedAlike(Stored(s, p), Stored(s1, p), t, p, purpose);
    EndsNext(s, t, 5, Completed(Stored(s, p), t, p, purpose));
  }

  /**
   * flush_page: an unmapped page and a reserved frame are refused, and nothing else is.
   * Any other page, pinned or not, is resident and clean in the end, its bytes are on
   * disk, and its pins are as they were.
   */
  lemma FlushOutcome(s: State, t: Tid, p: PageId)
    requires At(s, t, Start(FlushPage(p))) && s.InBounds() && s.lock == None
    ensures if p !in s.table then Ends(s, t, 1, s.Return(t, Failed(PageNotFound(p))))
            else
              var frame := s.frames[s.table[p]];
              && frame.metadata.Some?
              && if frame.state == Reserved then Ends(s, t, 1, s.Return(t, Failed(FrameReserved)))
                 else if frame.metadata.value.dirty then Ends(s, t, 5, Flushed(Stored(s, p), t, p))
                 else Ends(s, t, 1, Flushed(s, t, p)) && frame.data == s.Disk(p)
  {
    assert p in s.table ==> PageOk(s, p);
    if p in s.table && s.frames[s.table[p]].state != Reserved && s.frames[s.table[p]].IsDirty() {
      ReservationEnds(s, t, p, FlushPage(p), Flush);
    } else {
      FlushEndsAtOnce(s, t, p);
    }
  }

  lemma FlushEndsAtOnce(s: State, t: Tid, p: PageId)
    requires At(s, t, Start(FlushPage(p))) && s.InBounds() && s.lock == None
    requires p in s.table ==> s.frames[s.table[p]].state == Reserved || !s.frames[s.table[p]].IsDirty()
    ensures if p !in s.table then Ends(s, t, 1, s.Return(t, Failed(PageNotFound(p))))
            else
              && s.frames[s.table[p]].metadata.Some?
              && if s.frames[s.table[p]].state == Reserved then Ends(s, t, 1, s.Return(t, Failed(FrameReserved)))
                 else Ends(s, t, 1, Flushed(s, t, p))
  {
    if p in s.table {
      assert PageOk(s, p);
      var m := s.frames[s.table[p]].metadata.value;
      assert !m.dirty ==> m == PageMeta(m.pageId, m.pinCount, false, m.reference);
    }
    EndsAtOnce(s, t);
  }

  /**
   * delete_page: an unmapped page, a pinned page and a reserved frame are refused, and
   * nothing else is. Any other page is unmapped in the end, and its bytes are on disk.
   */
  lemma DeleteOutcome(s: State, t: Tid, p: PageId)
    requires At(s, t, Start(DeletePage(p))) && s.InBounds() && s.lock == None
    ensures if p !in s.table then Ends(s, t, 1, s.Return(t, Failed(PageNotFound(p))))
            else
              var frame := s.frames[s.table[p]];
              && frame.metadata.Some?
              && if s.Pins(p) > 0 || frame.state == Reserved then Ends(s, t, 1, s.Return(t, Failed(PagePinned(p))))
                 else if frame.metadata.value.dirty then Ends(s, t, 5, Dropped(Stored(s, p), t, p))
                 else Ends(s, t, 1, Dropped(s, t, p)) && frame.data == s.Disk(p)
  {
    if p in s.table && s.Pins(p) == 0 && s.frames[s.table[p]].state != Reserved && s.frames[s.table[p]].IsDirty() {
      ReservationEnds(s, t, p, DeletePage(p), Delete);
    } else {
      if p in s.table {
        assert PageOk(s, p);
        UnmapDrops(s, t, p);
      }
      EndsAtOnce(s, t);
    }
  }

  // ---------------------------------------------------------------------------
  // Disk calls that fail
  // ---------------------------------------------------------------------------

  /** The mapped page is back in its frame as it was, and thread t reports the failure. */
  function PutBack(s: State, t: Tid, p: PageId): State
    requires p in s.table && s.table[p] < |s.frames| && t < |s.threads|
  {
    var frame := s.frames[s.table[p]];
    Reframed(s, p, FrameValue(frame.data, frame.metadata, Resident)).Return(t, Failed(DiskError))
  }

  lemma PutBackAlike(s: State, s1: State, t: Tid, p: PageId)
    requires p in s.table && s.table[p] < |s.frames| && t < |s.threads| == |s1.threads| && |s1.frames| == |s.frames|
    requires var f := s.table[p];
             && s1.frames[f] == s.frames[f].InState(s1.frames[f].state)
             && s1 == s.(frames := s.frames[f := s1.frames[f]], threads := s.threads[t := s1.threads[t]])
    ensures PutBack(s1, t, p) == PutBack(s, t, p)
  {
    var f, e := s.table[p], PutBack(s, t, p);
    assert s.frames[f := s1.frames[f]][f := e.frames[f]] == s.frames[f := e.frames[f]];
    assert s.threads[t := s1.threads[t]][t := e.threads[t]] == s.threads[t := e.threads[t]];
  }

  lemma DeleteFailedEnds(s: State, t: Tid, p: PageId, f: FrameId)
    requires s.InBounds() && t < |s.threads| && s.threads[t] == DeleteFailed(p, f, DiskError)
    requires p in s.table && s.table[p] == f
    ensures Ends(s, t, 1, PutBack(s, t, p))
  {
    EndsAtOnce(s, t);
  }

  lemma FlushEndReports(s: State, t: Tid, p: PageId, f: FrameId, purpose: Purpose)
    requires At(s, t, FlushEnd(purpose, p, f, false)) && s.InBounds()
    ensures p in s.table && s.table[p] == f && Ends(s, t, 2, PutBack(s, t, p))
  {
    assert ThreadOk(s, t);
    if purpose.Flush? {
      EndsAtOnce(s, t);
      EndsInTime(s, t, 1, 2, PutBack(s, t, p));
    } else {
      var s1 := Section(s, t, Ok);
      TurnKeepsInv(s, t);
      DeleteFailedEnds(s1, t, p, f);
      PutBackAlike(s, s1, t, p);
      EndsNext(s, t, 2, PutBack(s, t, p));
    }
  }

  /** A failed write of flush_page or delete_page: the page stays mapped, dirty as it was; the disk may hold anything for it. */
  lemma FlushFailureOutcome(s: State, t: Tid, p: PageId, f: FrameId, purpose: Purpose, target: PageId, bytes: PageData, torn: PageData)
    requires At(s, t, FlushWrite(purpose, p, f, target, bytes)) && s.InBounds()
    ensures p in s.table && s.table[p] == f
    ensures Ends(Section(s, t, Fails(torn)), t, 2, PutBack(s.(disk := s.disk[p := torn]), t, p))
  {
    assert ThreadOk(s, t);
    var s1 := Section(s, t, Fails(torn));
    StepKeepsInv(s, Work(t, Fails(torn)));
    InvBounds(s1);
    FlushEndReports(s1, t, p, f, purpose);
    PutBackAlike(s.(disk := s.disk[p := torn]), s1, t, p);
  }

  /** A failed read into a free frame: the frame is free again, the last of them, and the page no longer in flight. */
  lemma LoadFailureOutcome(s: State, t: Tid, p: PageId, f: FrameId, torn: PageData)
    requires At(s, t, FreeRead(p, f)) && s.InBounds() && s.lock == None
    ensures f < |s.frames|
    ensures Ends(Section(s, t, Fails(torn)), t, 1,
                 s.(frames := s.frames[f := FrameValue(s.frames[f].data, None, Free)], free := s.free + [f],
                    inFlight := s.inFlight - {p}).Return(t, Failed(DiskError)))
  {
    assert ThreadOk(s, t);
    var s1 := Section(s, t, Fails(torn));
    StepKeepsInv(s, Work(t, Fails(torn)));
    InvBounds(s1);
    assert s1.threads[t := Idle(Failed(DiskError))] == s.threads[t := Idle(Failed(DiskError))];
    EndsAtOnce(s1, t);
  }

  /** A load is given up: the page is no longer in flight. A new page never was. */
  function Landed(s: State, goal: Goal): State {
    if goal.Load? then s.(inFlight := s.inFlight - {goal.page}) else s
  }

  lemma RollbackEnds(s: State, t: Tid, goal: Goal, v: FrameId, oldPage: PageId)
    requires At(s, t, VictimRollback(goal, v, oldPage)) && s.InBounds() && s.lock == None
    ensures oldPage in s.table && s.table[oldPage] == v && Ends(s, t, 1, PutBack(Landed(s, goal), t, oldPage))
  {
    assert ThreadOk(s, t);
    EndsAtOnce(s, t);
  }

  /** A failed write of a victim: its page stays mapped, dirty as it was; the disk may hold anything for it. */
  lemma VictimWriteFailureOutcome(s: State, t: Tid, goal: Goal, v: FrameId, oldPage: PageId, oldData: PageData, torn: PageData)
    requires At(s, t, VictimWrite(goal, v, oldPage, oldData)) && s.InBounds() && s.lock == None
    ensures oldPage in s.table && s.table[oldPage] == v
    ensures Ends(Section(s, t, Fails(torn)), t, 1, PutBack(Landed(s.(disk := s.disk[oldPage := torn]), goal), t, oldPage))
  {
    assert ThreadOk(s, t);
    var s1 := Section(s, t, Fails(torn));
    StepKeepsInv(s, Work(t, Fails(torn)));
    InvBounds(s1);
    RollbackEnds(s1, t, goal, v, oldPage);
    PutBackAlike(Landed(s.(disk := s.disk[oldPage := torn]), goal), Landed(s1, goal), t, oldPage);
  }

  /** A failed read into a victim: its page stays mapped, and nothing is lost. */
  lemma VictimReadFailureOutcome(s: State, t: Tid, p: PageId, v: FrameId, oldPage: PageId, torn: PageData)
    requires At(s, t, VictimRead(p, v, oldPage)) && s.InBounds() && s.lock == None
    ensures oldPage in s.table && s.table[oldPage] == v
    ensures Ends(Section(s, t, Fails(torn)), t, 1, PutBack(Landed(s, Load(p)), t, oldPage))
  {
    assert ThreadOk(s, t);
    var s1 := Section(s, t, Fails(torn));
    StepKeepsInv(s, Work(t, Fails(torn)));
    InvBounds(s1);
    RollbackEnds(s1, t, Load(p), v, oldPage);
    PutBackAlike(Landed(s, Load(p)), Landed(s1, Load(p)), t, oldPage);
  }
}
