/** What fetch_page and new_page answer and leave behind if no other thread moves meanwhile. */
module PoolFetches {
  import opened Storage
  import opened Frames
  import opened PageTables
  import opened ClockReplacers
  import opened BufferPool
  import opened PoolInvariant
  import opened PoolTheorems
  import opened PoolSearch
  import opened PoolOutcomes

  // ---------------------------------------------------------------------------
  // Bringing a page into a frame
  // ---------------------------------------------------------------------------

  /** A call that wanted frame f for its goal is done: the page is in it, pinned once, and the answer says so. */
  function Installed(s: State, t: Tid, goal: Goal, f: FrameId, bytes: PageData): State
    requires t < |s.threads| && f < |s.frames| && (goal.Create? ==> goal.page < 65535)
  {
    var p := goal.page;
    s.(frames := s.frames[f := FrameValue(bytes, Some(PageMeta(p, 1, goal.Create?, true)), Resident)],
       table := s.table[p := f], pins := s.pins[p := s.Pins(p) + 1],
       nextPageId := if goal.Create? then p + 1 else s.nextPageId)
     .Return(t, Page(p, f))
  }

  /** A loaded page holds what the disk has, and a new one zeros. */
  function Contents(s: State, goal: Goal): PageData {
    if goal.Load? then s.Disk(goal.page) else ZeroPage()
  }

  /** The same in place of the page that frame v held; a load is no longer in flight then. */
  ghost function Exchanged(s: State, t: Tid, goal: Goal, v: FrameId, oldPage: PageId): State
    requires t < |s.threads| && v < |s.frames| && (goal.Create? ==> goal.page < 65535)
  {
    Installed(s.(table := map q | q in s.table && q != oldPage :: s.table[q],
                 inFlight := if goal.Load? then s.inFlight - {goal.page} else s.inFlight),
              t, goal, v, Contents(s, goal))
  }

  /** The page in frame v is on disk. */
  function Saved(s: State, v: FrameId): State
    requires v < |s.frames| && s.frames[v].metadata.Some?
  {
    var m := s.frames[v].metadata.value;
    if m.dirty then s.(disk := s.disk[m.pageId := s.frames[v].data]) else s
  }

  lemma ExchangedAlike(s: State, s1: State, t: Tid, goal: Goal, v: FrameId, oldPage: PageId)
    requires t < |s.threads| && v < |s.frames| && (goal.Create? ==> goal.page < 65535)
    requires |s1.threads| == |s.threads| && |s1.frames| == |s.frames|
    requires s1 == s.(frames := s.frames[v := s1.frames[v]], threads := s.threads[t := s1.threads[t]])
    ensures Exchanged(s1, t, goal, v, oldPage) == Exchanged(s, t, goal, v, oldPage)
  {
    var e, e1 := Exchanged(s, t, goal, v, oldPage), Exchanged(s1, t, goal, v, oldPage);
    assert s.frames[v := s1.frames[v]][v := e.frames[v]] == s.frames[v := e.frames[v]];
    assert s.threads[t := s1.threads[t]][t := Idle(Page(goal.page, v))] == s.threads[t := Idle(Page(goal.page, v))];
  }

  lemma CommitEnds(s: State, t: Tid, goal: Goal, v: FrameId, oldPage: PageId)
    requires At(s, t, VictimCommit(goal, v, oldPage, Contents(s, goal))) && s.InBounds() && s.lock == None
    requires goal.page !in s.table
    ensures v < |s.frames| && (goal.Create? ==> goal.page < 65535)
    ensures Ends(s, t, 1, Exchanged(s, t, goal, v, oldPage))
  {
    assert ThreadOk(s, t);
    CommitSucceeds(s, t, goal, v, oldPage, Contents(s, goal));
    CommitExchanges(s, t, goal, v, oldPage);
    assert Section(s, t, Ok) == CommitVictim(s, t, goal, v, oldPage, Contents(s, goal));
    EndsAtOnce(s, t);
  }

  lemma CommitExchanges(s: State, t: Tid, goal: Goal, v: FrameId, oldPage: PageId)
    requires t < |s.threads| && v < |s.frames| && Replaced(s.table, oldPage, goal.page, v).Success?
    requires goal.Create? ==> goal.page < 65535
    ensures CommitVictim(s, t, goal, v, oldPage, Contents(s, goal)) == Exchanged(s, t, goal, v, oldPage)
  {
    var s1, e := CommitVictim(s, t, goal, v, oldPage, Contents(s, goal)), Exchanged(s, t, goal, v, oldPage);
    assert s1.table == e.table;
  }

  lemma VictimReadEnds(s: State, t: Tid, p: PageId, v: FrameId, oldPage: PageId)
    requires At(s, t, VictimRead(p, v, oldPage)) && s.InBounds() && s.lock == None
    ensures v < |s.frames| && Ends(s, t, 2, Exchanged(s, t, Load(p), v, oldPage))
  {
    assert ThreadOk(s, t);
    var s1 := s.Goto(t, VictimCommit(Load(p), v, oldPage, s.Disk(p)));
    assert Section(s, t, Ok) == s1;
    TurnKeepsInv(s, t);
    CommitEnds(s1, t, Load(p), v, oldPage);
    ExchangedAlike(s, s1, t, Load(p), v, oldPage);
    EndsNext(s, t, 2, Exchanged(s, t, Load(p), v, oldPage));
  }

  /** Once the old page is on disk, the rest of an eviction. */
  lemma AfterWriteEnds(s: State, t: Tid, goal: Goal, v: FrameId, oldPage: PageId)
    requires At(s, t, AfterWrite(goal, v, oldPage)) && s.InBounds() && s.lock == None && goal.page !in s.table
    ensures v < |s.frames| && (goal.Create? ==> goal.page < 65535)
    ensures Ends(s, t, 2, Exchanged(s, t, goal, v, oldPage))
  {
    if goal.Load? {
      VictimReadEnds(s, t, goal.page, v, oldPage);
    } else {
      CommitEnds(s, t, goal, v, oldPage);
      EndsInTime(s, t, 1, 2, Exchanged(s, t, goal, v, oldPage));
    }
  }

  lemma VictimWriteEnds(s: State, t: Tid, goal: Goal, v: FrameId, oldPage: PageId, oldData: PageData)
    requires At(s, t, VictimWrite(goal, v, oldPage, oldData)) && s.InBounds() && s.lock == None && goal.page !in s.table
    ensures v < |s.frames| && s.frames[v].metadata.Some? && (goal.Create? ==> goal.page < 65535)
    ensures Ends(s, t, 3, Exchanged(Saved(s, v), t, goal, v, oldPage))
  {
    assert ThreadOk(s, t) && PageOk(s, oldPage);
    var s1 := Section(s, t, Ok);
    TurnKeepsInv(s, t);
    AfterWriteEnds(s1, t, goal, v, oldPage);
    ExchangedAlike(Saved(s, v), s1, t, goal, v, oldPage);
    EndsNext(s, t, 3, Exchanged(Saved(s, v), t, goal, v, oldPage));
  }

  /** The first section after the search. */
  lemma VictimIsReserved(s: State, t: Tid, goal: Goal, v: FrameId)
    requires At(s, t, HasVictim(goal, v)) && s.InBounds()
    ensures v < |s.frames| && s.frames[v].metadata.Some? && (goal.Create? ==> goal.page < 65535)
    ensures var s1, m := Section(s, t, Ok), s.frames[v].metadata.value;
            && At(s1, t, if m.dirty then VictimWrite(goal, v, m.pageId, s.frames[v].data) else AfterWrite(goal, v, m.pageId))
            && s1.InBounds() && m.pageId in s.table
            && s1 == s.(lock := None, frames := s.frames[v := s.frames[v].InState(Reserved)], threads := s.threads[t := s1.threads[t]])
  {
    assert ThreadOk(s, t) && PageOk(s, s.frames[v].metadata.value.pageId);
    TurnKeepsInv(s, t);
  }

  /** s1 is s with frame v reserved and thread t on its way. */
  ghost predicate Reserving(s: State, s1: State, t: Tid, v: FrameId) {
    && t < |s.threads| == |s1.threads| && v < |s.frames| == |s1.frames| && s.lock == None
    && s1 == s.(frames := s.frames[v := s.frames[v].InState(Reserved)], threads := s.threads[t := s1.threads[t]])
  }

  lemma DirtyVictimEnds(s: State, s1: State, t: Tid, goal: Goal, v: FrameId, oldPage: PageId, oldData: PageData)
    requires Reserving(s, s1, t, v) && At(s1, t, VictimWrite(goal, v, oldPage, oldData)) && s1.InBounds() && goal.page !in s.table
    ensures s.frames[v].metadata.Some? && (goal.Create? ==> goal.page < 65535)
    ensures Ends(s1, t, 3, Exchanged(Saved(s, v), t, goal, v, oldPage))
  {
    VictimWriteEnds(s1, t, goal, v, oldPage, oldData);
    ExchangedAlike(Saved(s, v), Saved(s1, v), t, goal, v, oldPage);
  }

  lemma CleanVictimEnds(s: State, s1: State, t: Tid, goal: Goal, v: FrameId, oldPage: PageId)
    requires Reserving(s, s1, t, v) && At(s1, t, AfterWrite(goal, v, oldPage)) && s1.InBounds() && goal.page !in s.table
    ensures goal.Create? ==> goal.page < 65535
    ensures Ends(s1, t, 3, Exchanged(s, t, goal, v, oldPage))
  {
    AfterWriteEnds(s1, t, goal, v, oldPage);
    ExchangedAlike(s, s1, t, goal, v, oldPage);
    EndsInTime(s1, t, 2, 3, Exchanged(s, t, goal, v, oldPage));
  }

  /** From the victim to the answer. */
  lemma VictimEnds(s: State, t: Tid, goal: Goal, v: FrameId)
    requires At(s, t, HasVictim(goal, v)) && s.InBounds() && goal.page !in s.table
    ensures v < |s.frames| && s.frames[v].metadata.Some? && (goal.Create? ==> goal.page < 65535)
    ensures s.frames[v].metadata.value.pageId in s.table
    ensures Ends(s, t, 4, Exchanged(Saved(s.(lock := None), v), t, goal, v, s.frames[v].metadata.value.pageId))
  {
    VictimIsReserved(s, t, goal, v);
    var s0, s1, m := s.(lock := None), Section(s, t, Ok), s.frames[v].metadata.value;
    if m.dirty {
      DirtyVictimEnds(s0, s1, t, goal, v, m.pageId, s.frames[v].data);
    } else {
      CleanVictimEnds(s0, s1, t, goal, v, m.pageId);
    }
    EndsNext(s, t, 4, Exchanged(Saved(s0, v), t, goal, v, m.pageId));
  }

  // --- the search ---

  /**
   * An eviction for the goal ends in s': the frame v was chosen, which nobody had pinned
   * or was moving, and its page saved if it was dirty; it holds the goal's page now. The
   * frames passed on the way, at most, have lost their second chance, and the hand stands
   * just past v.
   */
  ghost predicate EvictsFor(s: State, t: Tid, goal: Goal, v: FrameId, passed: seq<FrameValue>, s': State) {
    && t < |s.threads| && v < |s.frames| && Takeable(s.frames[v]) && s.frames[v].metadata.Some?
    && (goal.Create? ==> goal.page < 65535) && s.frames[v].metadata.value.pageId in s.table
    && SecondChance(s.frames, s.hand, Some(v), passed, s'.hand)
    && SameButReferences(s.frames, passed) && s'.hand == (if v + 1 < |s.frames| then v + 1 else 0)
    && s' == Exchanged(Saved(s.(frames := passed, hand := s'.hand), v), t, goal, v, s.frames[v].metadata.value.pageId)
  }

  lemma TakeableIsEvictable(f: FrameValue)
    ensures Takeable(f) <==> f.Evictable()
  {
  }

  /** The search of a state in which some frame can be taken, up to its end. */
  lemma SearchFindsVictim(s: State, t: Tid, goal: Goal) returns (n: nat, s2: State, v: FrameId)
    requires At(s, t, Scan(goal, 0, false)) && s.InBounds()
    requires exists i :: 0 <= i < |s.frames| && Takeable(s.frames[i])
    ensures n <= 2 * |s.frames| && Turns(s, t, n, s2) && At(s2, t, HasVictim(goal, v)) && s2.InBounds()
    ensures SecondChance(s.frames, s.hand, Some(v), s2.frames, s2.hand)
    ensures s2 == s.(frames := s2.frames, hand := s2.hand, lock := s2.lock, threads := s.threads[t := s2.threads[t]])
  {
    WholeSearchIsSecondChance(s, t, goal);
    var r: Option<FrameId>;
    n, s2, r :| n <= 2 * |s.frames| && Turns(s, t, n, s2) && EndsAs(s2, t, goal, s.frames, s.hand, r) && OnlySearches(s, s2, t);
    if r.None? {
      var i :| 0 <= i < |s.frames| && Takeable(s.frames[i]);
      TakeableIsEvictable(s.frames[i]);
      assert false;
    }
    v := r.value;
  }

  /** s2 is s after a search that chose v. */
  lemma VictimEvicts(s: State, s2: State, t: Tid, goal: Goal, v: FrameId)
    requires t < |s.threads| == |s2.threads| && (goal.Create? ==> goal.page < 65535)
    requires SecondChance(s.frames, s.hand, Some(v), s2.frames, s2.hand)
    requires s2.frames[v].metadata.Some? && s2.frames[v].metadata.value.pageId in s.table
    requires s2 == s.(frames := s2.frames, hand := s2.hand, threads := s.threads[t := s2.threads[t]])
    ensures EvictsFor(s, t, goal, v, s2.frames, Exchanged(Saved(s2, v), t, goal, v, s2.frames[v].metadata.value.pageId))
  {
    SecondChanceMeans(s.frames, s.hand, v, s2.frames, s2.hand);
    ExchangedAlike(Saved(s.(frames := s2.frames, hand := s2.hand), v), Saved(s2, v), t, goal, v, s2.frames[v].metadata.value.pageId);
  }

  lemma ExchangedForAll(s: State, s1: State, t: Tid, goal: Goal, v: FrameId, oldPage: PageId)
    requires t < |s.threads| == |s1.threads| && v < |s.frames| && (goal.Create? ==> goal.page < 65535)
    requires s1 == s.(inFlight := s1.inFlight, threads := s.threads[t := s1.threads[t]])
    requires if goal.Load? then s1.inFlight - {goal.page} == s.inFlight - {goal.page} else s1.inFlight == s.inFlight
    ensures Exchanged(s1, t, goal, v, oldPage) == Exchanged(s, t, goal, v, oldPage)
  {
    assert s1.threads[t := Idle(Page(goal.page, v))] == s.threads[t := Idle(Page(goal.page, v))];
  }

  /** The first section of a call, which starts the search, leaves no other trace. */
  lemma EvictsForAll(s: State, s1: State, t: Tid, goal: Goal, v: FrameId, passed: seq<FrameValue>, s': State)
    requires t < |s.threads| == |s1.threads| && EvictsFor(s1, t, goal, v, passed, s')
    requires s1 == s.(inFlight := s1.inFlight, threads := s.threads[t := s1.threads[t]])
    requires if goal.Load? then s1.inFlight - {goal.page} == s.inFlight - {goal.page} else s1.inFlight == s.inFlight
    ensures EvictsFor(s, t, goal, v, passed, s')
  {
    var oldPage := s.frames[v].metadata.value.pageId;
    ExchangedForAll(Saved(s.(frames := passed, hand := s'.hand), v), Saved(s1.(frames := passed, hand := s'.hand), v),
                    t, goal, v, oldPage);
  }

  /** From the beginning of a search to the answer of the call. */
  lemma SearchEvicts(s: State, t: Tid, goal: Goal) returns (v: FrameId, passed: seq<FrameValue>, s': State)
    requires At(s, t, Scan(goal, 0, false)) && s.InBounds() && goal.page !in s.table
    requires exists i :: 0 <= i < |s.frames| && Takeable(s.frames[i])
    ensures Ends(s, t, 2 * |s.frames| + 4, s') && EvictsFor(s.(lock := None), t, goal, v, passed, s')
  {
    var n, s2;
    n, s2, v := SearchFindsVictim(s, t, goal);
    passed := s2.frames;
    VictimEnds(s2, t, goal, v);
    s' := Exchanged(Saved(s2.(lock := None), v), t, goal, v, passed[v].metadata.value.pageId);
    EndsInTime(s2, t, 4, 2 * |s.frames| + 4 - n, s');
    EndsAfter(s, t, n, s2, 2 * |s.frames| + 4, s');
    VictimEvicts(s.(lock := None), s2.(lock := None), t, goal, v);
  }

  // ---------------------------------------------------------------------------
  // fetch_page
  // ---------------------------------------------------------------------------

  /** A hit: one pin more, up to 255, and a second chance. */
  function HitOn(s: State, t: Tid, p: PageId): State
    requires p in s.table && s.table[p] < |s.frames| && s.frames[s.table[p]].metadata.Some? && t < |s.threads|
  {
    var frame := s.frames[s.table[p]];
    var m := frame.metadata.value;
    var pinned := PageMeta(m.pageId, if m.pinCount < 255 then m.pinCount + 1 else 255, m.dirty, true);
    Reframed(s, p, FrameValue(frame.data, Some(pinned), Resident)).(pins := s.pins[p := s.Pins(p) + 1])
    .Return(t, Page(p, s.table[p]))
  }

  lemma HitOutcome(s: State, t: Tid, p: PageId)
    requires At(s, t, Start(FetchPage(p))) && s.InBounds() && s.lock == None
    requires p in s.table && s.frames[s.table[p]].state != Reserved
    ensures s.frames[s.table[p]].metadata.Some? && Ends(s, t, 1, HitOn(s, t, p))
  {
    assert PageOk(s, p);
    EndsAtOnce(s, t);
  }

  lemma FreePublishEnds(s: State, t: Tid, p: PageId, f: FrameId)
    requires At(s, t, FreePublish(p, f)) && s.InBounds() && s.lock == None
    ensures f < |s.frames| && Ends(s, t, 1, Installed(s.(inFlight := s.inFlight - {p}), t, Load(p), f, s.Disk(p)))
  {
    assert ThreadOk(s, t);
    assert s.frames[f] == FrameValue(s.Disk(p), Some(PageMeta(p, 1, false, true)), Resident);
    assert s.frames[f := s.frames[f]] == s.frames;
    EndsAtOnce(s, t);
  }

  lemma InstalledAlike(s: State, s1: State, t: Tid, goal: Goal, f: FrameId, bytes: PageData)
    requires t < |s.threads| == |s1.threads| && f < |s.frames| == |s1.frames| && (goal.Create? ==> goal.page < 65535)
    requires s1 == s.(frames := s.frames[f := s1.frames[f]], threads := s.threads[t := s1.threads[t]])
    ensures Installed(s1, t, goal, f, bytes) == Installed(s, t, goal, f, bytes)
  {
    var e := Installed(s, t, goal, f, bytes);
    assert s.frames[f := s1.frames[f]][f := e.frames[f]] == s.frames[f := e.frames[f]];
    assert s.threads[t := s1.threads[t]][t := e.threads[t]] == s.threads[t := e.threads[t]];
  }

  lemma FreeLoadEnds(s: State, t: Tid, p: PageId, f: FrameId, buffer: PageData)
    requires At(s, t, FreeLoad(p, f, buffer)) && s.InBounds() && s.lock == None
    ensures f < |s.frames| && Ends(s, t, 2, Installed(s.(inFlight := s.inFlight - {p}), t, Load(p), f, s.Disk(p)))
  {
    assert ThreadOk(s, t);
    var s1, out := Section(s, t, Ok), s.inFlight - {p};
    TurnKeepsInv(s, t);
    FreePublishEnds(s1, t, p, f);
    InstalledAlike(s.(inFlight := out), s1.(inFlight := out), t, Load(p), f, s.Disk(p));
    EndsNext(s, t, 2, Installed(s.(inFlight := out), t, Load(p), f, s.Disk(p)));
  }

  lemma FreeReadEnds(s: State, t: Tid, p: PageId, f: FrameId)
    requires At(s, t, FreeRead(p, f)) && s.InBounds() && s.lock == None
    ensures f < |s.frames| && Ends(s, t, 3, Installed(s.(inFlight := s.inFlight - {p}), t, Load(p), f, s.Disk(p)))
  {
    var s1, out := Section(s, t, Ok), s.inFlight - {p};
    TurnKeepsInv(s, t);
    FreeLoadEnds(s1, t, p, f, s.Disk(p));
    InstalledAlike(s.(inFlight := out), s1.(inFlight := out), t, Load(p), f, s.Disk(p));
    EndsNext(s, t, 3, Installed(s.(inFlight := out), t, Load(p), f, s.Disk(p)));
  }

  /** Neither mapped nor in flight. */
  predicate Misses(s: State, p: PageId) {
    p !in s.table && p !in s.inFlight
  }

  lemma FreeFrameOutcome(s: State, t: Tid, p: PageId)
    requires At(s, t, Start(FetchPage(p))) && s.InBounds() && s.lock == None && Misses(s, p) && s.free != []
    ensures Ends(s, t, 4, Installed(s.(free := s.free[1..]), t, Load(p), s.free[0], s.Disk(p)))
  {
    var s1, f := Section(s, t, Ok), s.free[0];
    assert s.frames[f].state.Free?;
    TurnKeepsInv(s, t);
    FreeReadEnds(s1, t, p, f);
    assert s1.inFlight - {p} == s.inFlight;
    InstalledAlike(s.(free := s.free[1..]), s1.(inFlight := s.inFlight), t, Load(p), f, s.Disk(p));
    EndsNext(s, t, 4, Installed(s.(free := s.free[1..]), t, Load(p), f, s.Disk(p)));
  }

  lemma EvictionOutcome(s: State, t: Tid, p: PageId) returns (v: FrameId, passed: seq<FrameValue>, s': State)
    requires At(s, t, Start(FetchPage(p))) && s.InBounds() && s.lock == None && Misses(s, p) && s.free == []
    requires exists i :: 0 <= i < |s.frames| && Takeable(s.frames[i])
    ensures Ends(s, t, 2 * |s.frames| + 5, s') && EvictsFor(s, t, Load(p), v, passed, s')
  {
    var s1 := Section(s, t, Ok);
    TurnKeepsInv(s, t);
    v, passed, s' := SearchEvicts(s1, t, Load(p));
    assert s1.inFlight - {p} == s.inFlight - {p};
    EvictsForAll(s, s1.(lock := None), t, Load(p), v, passed, s');
    EndsNext(s, t, 2 * |s.frames| + 5, s');
  }

  // --- when nothing can be taken ---

  /** Every frame has a page that is pinned, or is being moved. */
  ghost predicate NothingTakeable(s: State) {
    forall i :: 0 <= i < |s.frames| ==> !Takeable(s.frames[i])
  }

  /** The search of a state in which nothing can be taken changes nothing. */
  lemma SearchFindsNothing(s: State, t: Tid, goal: Goal) returns (n: nat)
    requires At(s, t, Scan(goal, 0, false)) && s.InBounds() && NothingTakeable(s)
    ensures n <= 2 * |s.frames| + 1
    ensures Turns(s, t, n, if goal.Load? then s.Goto(t, CheckReserved(goal.page, 0))
                           else s.(lock := None).Return(t, Failed(NoEvictableFrame)))
  {
    if s.frames == [] {
      n := 1;
      TurnsNext(s, t, 0, Section(s, t, Ok));
      return;
    }
    WholeSearchIsSecondChance(s, t, goal);
    var s2: State, r: Option<FrameId>;
    n, s2, r :| n <= 2 * |s.frames| && Turns(s, t, n, s2) && EndsAs(s2, t, goal, s.frames, s.hand, r) && OnlySearches(s, s2, t);
    if r.Some? {
      SecondChanceMeans(s.frames, s.hand, r.value, s2.frames, s2.hand);
      assert false;
    }
    assert ThreadOk(s, t) && ThreadOk(s2, t);
    LockAfterSearch(s, s2, t);
  }

  /** A search holds state_lock, and lets go of it when it ends with an answer. */
  lemma LockAfterSearch(s: State, s2: State, t: Tid)
    requires Inv(s) && Inv(s2) && t < |s.threads| == |s2.threads| && s.threads[t].Scan?
    requires s2.threads == s.threads[t := s2.threads[t]]
    ensures s.lock == Some(t) && s2.lock == if s2.threads[t].HoldsLock() then Some(t) else None
  {
    assert ThreadOk(s, t) && ThreadOk(s2, t);
    forall u | 0 <= u < |s.threads| && u != t ensures s2.lock != Some(u) {
      assert ThreadOk(s, u) && ThreadOk(s2, u) && s2.threads[u] == s.threads[u];
    }
  }

  /** Nothing thread t can do by itself ends its call. */
  ghost predicate NeverEnds(s: State, t: Tid) {
    forall n: nat, s': State :: !EndsIn(s, t, n, s')
  }

  lemma {:induction false} NeverEndsAfter(s: State, t: Tid, n: nat, s1: State, m: nat, s': State)
    requires Turns(s, t, n, s1) && NeverEnds(s1, t)
    ensures !EndsIn(s, t, m, s')
    decreases n
  {
    if n > 0 && m > 0 && EndsIn(s, t, m, s') {
      var next :| IsTurn(s, t, next) && Turns(next, t, n - 1, s1);
      NeverEndsAfter(next, t, n - 1, s1, m - 1, s');
    } else if n == 0 {
      assert !EndsIn(s1, t, m, s');
    }
  }

  /** Thread t waits for a frame that is reserved, or for a page in flight. */
  predicate Waits(s: State, t: Tid, p: PageId) {
    && t < |s.threads|
    && (|| (s.threads[t] == LoadWait(p) && p in s.inFlight)
        || (s.threads[t] == Start(FetchPage(p))
            && if p in s.table then s.table[p] < |s.frames| && s.frames[s.table[p]].state == Reserved else p in s.inFlight))
  }

  lemma WaiterStays(s: State, t: Tid, p: PageId)
    requires Waits(s, t, p) && s.InBounds() && Enabled(s, Work(t, Ok))
    ensures Waits(Section(s, t, Ok), t, p)
  {
    assert Section(s, t, Ok) == StartFetch(s, t, p);
  }

  lemma {:induction false} WaiterNeverEnds(s: State, t: Tid, p: PageId, n: nat, s': State)
    requires Waits(s, t, p)
    ensures !EndsIn(s, t, n, s')
    decreases n
  {
    if n > 0 && EndsIn(s, t, n, s') {
      var next :| IsTurn(s, t, next) && Turns(next, t, n - 1, s');
      WaiterStays(s, t, p);
      WaiterNeverEnds(next, t, p, n - 1, s');
    }
  }

  ghost predicate ReservedFrom(fs: seq<FrameValue>, i: nat) {
    exists j :: i <= j < |fs| && fs[j].state == Reserved
  }

  lemma ReservedFromNext(fs: seq<FrameValue>, i: nat)
    requires i < |fs|
    ensures ReservedFrom(fs, i) <==> fs[i].state == Reserved || ReservedFrom(fs, i + 1)
  {
  }

  /** How the look for reserved frames ends, from frame i on. */
  ghost function Looked(s: State, t: Tid, p: PageId, i: nat): State
    requires t < |s.threads|
  {
    var s' := s.(lock := None, orphans := s.orphans + {p});
    if ReservedFrom(s.frames, i) then s'.Goto(t, Start(FetchPage(p))) else s'.Return(t, Failed(NoEvictableFrame))
  }

  lemma LookedNext(s: State, t: Tid, p: PageId, i: nat)
    requires t < |s.threads| && i < |s.frames| && s.frames[i].state != Reserved
    ensures Looked(s.Goto(t, CheckReserved(p, i + 1)), t, p, i + 1) == Looked(s, t, p, i)
  {
    ReservedFromNext(s.frames, i);
    var s1 := s.Goto(t, CheckReserved(p, i + 1));
    assert s1.threads[t := Start(FetchPage(p))] == s.threads[t := Start(FetchPage(p))];
    assert s1.threads[t := Idle(Failed(NoEvictableFrame))] == s.threads[t := Idle(Failed(NoEvictableFrame))];
  }

  lemma {:induction false} LookForReserved(s: State, t: Tid, p: PageId, i: nat) returns (n: nat)
    requires s.InBounds() && t < |s.threads| && s.threads[t] == CheckReserved(p, i) && i <= |s.frames|
    ensures n <= |s.frames| - i + 1 && Turns(s, t, n, Looked(s, t, p, i))
    decreases |s.frames| - i
  {
    if i < |s.frames| && s.frames[i].state != Reserved {
      n := LookForReserved(s.Goto(t, CheckReserved(p, i + 1)), t, p, i + 1);
      LookedNext(s, t, p, i);
    } else {
      n := 0;
    }
    TurnsNext(s, t, n, Looked(s, t, p, i));
    n := n + 1;
  }

  ghost predicate SomeReserved(s: State) {
    ReservedFrom(s.frames, 0)
  }

  lemma NeverEndsLater(s: State, t: Tid, n: nat, s1: State)
    requires Turns(s, t, n, s1) && NeverEnds(s1, t)
    ensures NeverEnds(s, t)
  {
    forall m: nat, b: State ensures !EndsIn(s, t, m, b) {
      NeverEndsAfter(s, t, n, s1, m, b);
    }
  }

  lemma WaiterIsStuck(s: State, t: Tid, p: PageId)
    requires Waits(s, t, p)
    ensures NeverEnds(s, t)
  {
    forall m: nat, b: State ensures !EndsIn(s, t, m, b) {
      WaiterNeverEnds(s, t, p, m, b);
    }
  }

  /** What a fetch leaves behind that CLOCK has found no frame for. */
  function Abandoned(s: State, p: PageId): State {
    s.(inFlight := s.inFlight + {p}, orphans := s.orphans + {p})
  }

  /** From the end of a fruitless search on. */
  lemma FruitlessEnds(s: State, t: Tid, p: PageId, s2: State)
    requires s.InBounds() && t < |s.threads| && s.threads[t] == Start(FetchPage(p)) && p !in s.table && s.lock == None
    requires s2 == s.(inFlight := s.inFlight + {p}, lock := Some(t)).Goto(t, CheckReserved(p, 0)) && s2.InBounds()
    ensures if SomeReserved(s) then NeverEnds(s2, t)
            else Ends(s2, t, |s.frames| + 1, Abandoned(s, p).Return(t, Failed(NoEvictableFrame)))
  {
    var k := LookForReserved(s2, t, p, 0);
    assert s2.threads[t := Start(FetchPage(p))] == s.threads;
    assert s2.threads[t := Idle(Failed(NoEvictableFrame))] == s.threads[t := Idle(Failed(NoEvictableFrame))];
    if SomeReserved(s) {
      WaiterIsStuck(Abandoned(s, p), t, p);
      NeverEndsLater(s2, t, k, Abandoned(s, p));
    } else {
      assert EndsIn(s2, t, k, Abandoned(s, p).Return(t, Failed(NoEvictableFrame)));
    }
  }

  /** A miss with no frame to be had. */
  lemma NoFrameOutcome(s: State, t: Tid, p: PageId)
    requires At(s, t, Start(FetchPage(p))) && s.InBounds() && s.lock == None && Misses(s, p) && s.free == []
    requires NothingTakeable(s)
    ensures if SomeReserved(s) then NeverEnds(s, t)
            else Ends(s, t, 3 * |s.frames| + 3, Abandoned(s, p).Return(t, Failed(NoEvictableFrame)))
  {
    var s1, s' := Section(s, t, Ok), Abandoned(s, p).Return(t, Failed(NoEvictableFrame));
    TurnKeepsInv(s, t);
    var n := SearchFindsNothing(s1, t, Load(p));
    var s2 := s1.Goto(t, CheckReserved(p, 0));
    FruitlessEnds(s, t, p, s2);
    if SomeReserved(s) {
      NeverEndsLater(s1, t, n, s2);
      TurnsNext(s, t, 0, s1);
      NeverEndsLater(s, t, 1, s1);
    } else {
      EndsInTime(s2, t, |s.frames| + 1, 3 * |s.frames| + 2 - n, s');
      EndsAfter(s1, t, n, s2, 3 * |s.frames| + 2, s');
      EndsNext(s, t, 3 * |s.frames| + 3, s');
    }
  }

  /** fetch_page can be answered with its page: a hit on a frame at rest, or a miss of a page not in flight, with a frame to be had. */
  ghost predicate Serves(s: State, p: PageId)
    requires s.InBounds()
  {
    if p in s.table then s.frames[s.table[p]].state != Reserved
    else p !in s.inFlight && (s.free != [] || exists i :: 0 <= i < |s.frames| && Takeable(s.frames[i]))
  }

  /** fetch_page fails: a miss of a page not in flight, while every frame is pinned and none is being moved. */
  ghost predicate Starves(s: State, p: PageId) {
    p !in s.table && p !in s.inFlight && s.free == [] && NothingTakeable(s) && !SomeReserved(s)
  }

  /** How a fetch that is served ends: as a hit, with a free frame, or with the frame of a victim. */
  ghost predicate ServedBy(s: State, t: Tid, p: PageId, s': State)
    requires At(s, t, Start(FetchPage(p))) && s.InBounds()
  {
    if p in s.table then s.frames[s.table[p]].metadata.Some? && s' == HitOn(s, t, p)
    else if s.free != [] then s' == Installed(s.(free := s.free[1..]), t, Load(p), s.free[0], s.Disk(p))
    else exists v: FrameId, passed: seq<FrameValue> :: EvictsFor(s, t, Load(p), v, passed, s')
  }

  /**
   * fetch_page, alone and with a disk that works. It is answered with the page, within
   * two turns a frame and five more; it fails with NoEvictableFrame, within three and
   * three; or it goes on waiting. Which of these, the state at the start tells.
   */
  lemma FetchOutcome(s: State, t: Tid, p: PageId)
    requires At(s, t, Start(FetchPage(p))) && s.InBounds() && s.lock == None
    ensures Serves(s, p) ==> exists s' :: Ends(s, t, 2 * |s.frames| + 5, s') && ServedBy(s, t, p, s')
    ensures Starves(s, p) ==>
              Ends(s, t, 3 * |s.frames| + 3, Abandoned(s, p).Return(t, Failed(NoEvictableFrame)))
    ensures !Serves(s, p) && !Starves(s, p) ==> NeverEnds(s, t)
  {
    if Serves(s, p) {
      var s' := FetchIsServed(s, t, p);
    } else if Waits(s, t, p) {
      WaiterIsStuck(s, t, p);
    } else {
      NoFrameOutcome(s, t, p);
    }
  }

  lemma FetchIsServed(s: State, t: Tid, p: PageId) returns (s': State)
    requires At(s, t, Start(FetchPage(p))) && s.InBounds() && s.lock == None && Serves(s, p)
    ensures Ends(s, t, 2 * |s.frames| + 5, s') && ServedBy(s, t, p, s')
  {
    if p in s.table {
      HitOutcome(s, t, p);
      s' := HitOn(s, t, p);
      EndsInTime(s, t, 1, 2 * |s.frames| + 5, s');
    } else if s.free != [] {
      FreeFrameOutcome(s, t, p);
      s' := Installed(s.(free := s.free[1..]), t, Load(p), s.free[0], s.Disk(p));
      EndsInTime(s, t, 4, 2 * |s.frames| + 5, s');
    } else {
      var v, passed;
      v, passed, s' := EvictionOutcome(s, t, p);
    }
  }

  /** Page p is in frame f with the bytes it has in s, at rest, pinned and with a second chance. */
  ghost predicate HandedOut(s: State, s': State, t: Tid, p: PageId, f: FrameId)
    requires s.InBounds()
  {
    && t < |s'.threads| && s'.threads[t] == Idle(Page(p, f))
    && p in s'.table && s'.table[p] == f && f < |s'.frames|
    && s'.frames[f].data == View(s, p) && s'.frames[f].state == Resident
    && s'.frames[f].metadata.Some?
    && var m := s'.frames[f].metadata.value; m.pageId == p && m.pinCount > 0 && m.reference
  }

  lemma EvictionHandsOut(s: State, t: Tid, p: PageId, v: FrameId, passed: seq<FrameValue>, s': State)
    requires s.InBounds() && p !in s.table && EvictsFor(s, t, Load(p), v, passed, s')
    ensures HandedOut(s, s', t, p, v)
  {
    var searched := s.(frames := passed, hand := s'.hand);
    assert Saved(searched, v).Disk(p) == s.Disk(p);
  }

  /** A fetch that has waited for another thread's load starts from the beginning once the page is no longer in flight. */
  lemma WaiterLooksAgain(s: State, t: Tid, p: PageId)
    requires At(s, t, LoadWait(p)) && s.InBounds() && p !in s.inFlight
    ensures var s1 := s.Goto(t, Start(FetchPage(p))); Turns(s, t, 1, s1) && At(s1, t, Start(FetchPage(p))) && s1.InBounds()
  {
    TurnKeepsInv(s, t);
    TurnsNext(s, t, 0, Section(s, t, Ok));
  }

  /** A served fetch is answered with its page and hands out the bytes of the store. */
  lemma ServedIsAnswered(s: State, t: Tid, p: PageId, s': State) returns (f: FrameId)
    requires At(s, t, Start(FetchPage(p))) && s.InBounds() && Serves(s, p) && ServedBy(s, t, p, s')
    ensures HandedOut(s, s', t, p, f)
  {
    if p in s.table {
      assert PageOk(s, p);
      f := s.table[p];
    } else if s.free != [] {
      f := s.free[0];
    } else {
      var passed: seq<FrameValue>;
      f, passed :| EvictsFor(s, t, Load(p), f, passed, s');
      EvictionHandsOut(s, t, p, f, passed, s');
    }
  }

  /** Of all the ways a call of fetch_page can end, undisturbed: exactly when with the page, and exactly when not. */
  lemma FetchAnswersExactly(s: State, t: Tid, p: PageId)
    requires At(s, t, Start(FetchPage(p))) && s.InBounds() && s.lock == None
    ensures (exists n: nat, s': State, f: FrameId :: EndsIn(s, t, n, s') && s'.threads[t] == Idle(Page(p, f))) <==> Serves(s, p)
    ensures (exists n: nat, s': State, e: PoolError :: EndsIn(s, t, n, s') && s'.threads[t] == Idle(Failed(e))) <==> Starves(s, p)
    ensures forall n: nat, s': State :: EndsIn(s, t, n, s') ==>
              (exists f: FrameId :: HandedOut(s, s', t, p, f)) || s'.threads[t] == Idle(Failed(NoEvictableFrame))
  {
    FetchOutcome(s, t, p);
    forall n: nat, s': State | EndsIn(s, t, n, s')
      ensures Serves(s, p) || Starves(s, p)
      ensures Serves(s, p) ==> exists f: FrameId :: HandedOut(s, s', t, p, f)
      ensures Starves(s, p) ==> s'.threads[t] == Idle(Failed(NoEvictableFrame))
    {
      FetchEndsSo(s, t, p, n, s');
    }
    if Serves(s, p) {
      var s' := FetchIsServed(s, t, p);
      var f := ServedIsAnswered(s, t, p, s');
      var n: nat :| EndsIn(s, t, n, s');
      assert EndsIn(s, t, n, s') && s'.threads[t] == Idle(Page(p, f));
    } else if Starves(s, p) {
      var s' := Abandoned(s, p).Return(t, Failed(NoEvictableFrame));
      var n: nat :| EndsIn(s, t, n, s');
      assert EndsIn(s, t, n, s') && s'.threads[t] == Idle(Failed(NoEvictableFrame));
    }
  }

  lemma FetchEndsSo(s: State, t: Tid, p: PageId, n: nat, s': State)
    requires At(s, t, Start(FetchPage(p))) && s.InBounds() && s.lock == None && EndsIn(s, t, n, s')
    ensures Serves(s, p) || Starves(s, p)
    ensures Serves(s, p) ==> exists f: FrameId :: HandedOut(s, s', t, p, f)
    ensures Starves(s, p) ==> s'.threads[t] == Idle(Failed(NoEvictableFrame))
  {
    FetchOutcome(s, t, p);
    assert Ends(s, t, n, s');
    if Serves(s, p) {
      var a := FetchIsServed(s, t, p);
      var f := ServedIsAnswered(s, t, p, a);
      EndIsUnique(s, t, 2 * |s.frames| + 5, a, n, s');
    } else if Starves(s, p) {
      EndIsUnique(s, t, 3 * |s.frames| + 3, Abandoned(s, p).Return(t, Failed(NoEvictableFrame)), n, s');
    }
  }

  // ---------------------------------------------------------------------------
  // new_page
  // ---------------------------------------------------------------------------

  lemma NewPageFindsNothing(s: State, t: Tid)
    requires At(s, t, Start(NewPage)) && s.InBounds() && s.lock == None && s.nextPageId < 65535 && s.free == []
    requires NothingTakeable(s)
    ensures Ends(s, t, 2 * |s.frames| + 2, s.Return(t, Failed(NoEvictableFrame)))
  {
    var s1, s' := Section(s, t, Ok), s.Return(t, Failed(NoEvictableFrame));
    TurnKeepsInv(s, t);
    var n := SearchFindsNothing(s1, t, Create(s.nextPageId));
    assert s1.threads[t := Idle(Failed(NoEvictableFrame))] == s'.threads;
    assert EndsIn(s1, t, n, s');
    EndsNext(s, t, 2 * |s.frames| + 2, s');
  }

  lemma NewPageEvicts(s: State, t: Tid) returns (v: FrameId, passed: seq<FrameValue>, s': State)
    requires At(s, t, Start(NewPage)) && s.InBounds() && s.lock == None && s.nextPageId < 65535 && s.free == []
    requires !NothingTakeable(s) && s.nextPageId !in s.table
    ensures Ends(s, t, 2 * |s.frames| + 5, s') && EvictsFor(s, t, Create(s.nextPageId), v, passed, s')
  {
    var s1 := Section(s, t, Ok);
    TurnKeepsInv(s, t);
    v, passed, s' := SearchEvicts(s1, t, Create(s.nextPageId));
    EvictsForAll(s, s1.(lock := None), t, Create(s.nextPageId), v, passed, s');
    EndsNext(s, t, 2 * |s.frames| + 5, s');
  }

  // --- an id that is mapped already ---

  lemma CommitIsRefused(s: State, t: Tid, n: PageId, v: FrameId, oldPage: PageId) returns (s': State)
    requires At(s, t, VictimCommit(Create(n), v, oldPage, ZeroPage())) && s.InBounds() && s.lock == None && n in s.table
    ensures Ends(s, t, 1, s') && s'.threads[t] == Idle(Failed(TableError(PageAlreadyExist)))
  {
    assert ThreadOk(s, t);
    s' := Section(s, t, Ok);
    EndsAtOnce(s, t);
  }

  lemma VictimWriteIsWasted(s: State, t: Tid, n: PageId, v: FrameId, oldPage: PageId, oldData: PageData) returns (s': State)
    requires At(s, t, VictimWrite(Create(n), v, oldPage, oldData)) && s.InBounds() && s.lock == None && n in s.table
    ensures Ends(s, t, 2, s') && s'.threads[t] == Idle(Failed(TableError(PageAlreadyExist)))
  {
    TurnKeepsInv(s, t);
    s' := CommitIsRefused(Section(s, t, Ok), t, n, v, oldPage);
    EndsNext(s, t, 2, s');
  }

  lemma VictimIsWasted(s: State, t: Tid, n: PageId, v: FrameId) returns (s': State)
    requires At(s, t, HasVictim(Create(n), v)) && s.InBounds() && n in s.table
    ensures Ends(s, t, 3, s') && s'.threads[t] == Idle(Failed(TableError(PageAlreadyExist)))
  {
    VictimIsReserved(s, t, Create(n), v);
    var s1, m := Section(s, t, Ok), s.frames[v].metadata.value;
    if m.dirty {
      s' := VictimWriteIsWasted(s1, t, n, v, m.pageId, s.frames[v].data);
    } else {
      s' := CommitIsRefused(s1, t, n, v, m.pageId);
      EndsInTime(s1, t, 1, 2, s');
    }
    EndsNext(s, t, 3, s');
  }

  lemma NewPageIsRefused(s: State, t: Tid) returns (s': State)
    requires At(s, t, Start(NewPage)) && s.InBounds() && s.lock == None && s.nextPageId < 65535 && s.free == []
    requires !NothingTakeable(s) && s.nextPageId in s.table
    ensures Ends(s, t, 2 * |s.frames| + 5, s') && s'.threads[t] == Idle(Failed(TableError(PageAlreadyExist)))
  {
    var s1 := Section(s, t, Ok);
    TurnKeepsInv(s, t);
    var n, s2, v := SearchFindsVictim(s1, t, Create(s.nextPageId));
    s' := VictimIsWasted(s2, t, s.nextPageId, v);
    EndsInTime(s2, t, 3, 2 * |s.frames| + 4 - n, s');
    EndsAfter(s1, t, n, s2, 2 * |s.frames| + 4, s');
    EndsNext(s, t, 2 * |s.frames| + 5, s');
  }

  /** A new page goes into a free frame, or in place of a page that could be taken. */
  lemma NewPageOutcome(s: State, t: Tid)
    requires At(s, t, Start(NewPage)) && s.InBounds() && s.lock == None
    ensures var n := s.nextPageId;
            if n == 65535 then Ends(s, t, 1, s.Return(t, Failed(NoPageIdAvailable)))
            else if s.free != [] then Ends(s, t, 1, Installed(s.(free := s.free[1..]), t, Create(n), s.free[0], ZeroPage()))
            else if NothingTakeable(s) then Ends(s, t, 2 * |s.frames| + 2, s.Return(t, Failed(NoEvictableFrame)))
            else if n in s.table then
              exists s' :: Ends(s, t, 2 * |s.frames| + 5, s') && s'.threads[t] == Idle(Failed(TableError(PageAlreadyExist)))
            else
              exists v: FrameId, passed: seq<FrameValue>, s' ::
                Ends(s, t, 2 * |s.frames| + 5, s') && EvictsFor(s, t, Create(n), v, passed, s')
  {
    var n := s.nextPageId;
    if n == 65535 || s.free != [] {
      EndsAtOnce(s, t);
    } else if NothingTakeable(s) {
      NewPageFindsNothing(s, t);
    } else if n in s.table {
      var s' := NewPageIsRefused(s, t);
    } else {
      var v, passed, s' := NewPageEvicts(s, t);
    }
  }
}
