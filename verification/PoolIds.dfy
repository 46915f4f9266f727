/** In which order new_page hands out ids, and when it hands one out twice. */
module PoolIds {
  import opened Storage
  import opened BufferPool
  import opened PoolInvariant
  import opened PoolTheorems

  // ---------------------------------------------------------------------------
  // One step
  // ---------------------------------------------------------------------------

  /** Thread t is in a new_page that has read its id and looks for a victim or has one. */
  predicate HoldsId(s: State, t: Tid) {
    t < |s.threads| && GoalOf(s.threads[t]).Some? && GoalOf(s.threads[t]).value.Create?
  }

  function IdOf(s: State, t: Tid): PageId
    requires HoldsId(s, t)
  {
    GoalOf(s.threads[t]).value.page
  }

  /** The step is thread t's commit of the id it holds. */
  predicate CommitsId(s: State, l: Label, t: Tid) {
    l.Work? && l.tid == t && HoldsId(s, t) && s.threads[t].VictimCommit?
  }

  /** Only a section that hands out a new page moves the next id, and moves it to just past that page. */
  lemma NextIdFollowsCreation(s: State, l: Label)
    requires Inv(s) && s.InBounds() && Enabled(s, l) && Allowed(s, l)
    ensures if Creates(s, l)
            then var n := Step(s, l).threads[l.tid].reply.page;
                 && Step(s, l).nextPageId == n + 1
                 && n == if CommitsId(s, l, l.tid) then IdOf(s, l.tid) else s.nextPageId
            else Step(s, l).nextPageId == s.nextPageId
    ensures l.Work? && CommitsId(s, l, l.tid) ==> Creates(s, l)
  {
    if l.Work? {
      var t, pc := l.tid, s.threads[l.tid];
      assert ThreadOk(s, t);
      if pc.VictimCommit? {
        CommitSucceeds(s, t, pc.goal, pc.v, pc.oldPage, pc.buffer);
      } else if pc.Start? {
        StartKeepsNextId(s, t, pc.op);
      } else {
        SectionKeepsNextId(s, t, l.io);
        if !pc.FreePublish? {
          OnlyCommitsGrant(s, t, l.io);
        }
      }
    }
  }

  lemma StartKeepsNextId(s: State, t: Tid, op: Op)
    requires t < |s.threads| && s.InBounds()
    ensures var s' := StartOp(s, t, op);
            if op.NewPage? && Answered(s'.threads[t])
            then s'.threads[t].reply.page == s.nextPageId && s'.nextPageId == s.nextPageId + 1
            else s'.nextPageId == s.nextPageId
  {
  }

  lemma SectionKeepsNextId(s: State, t: Tid, io: Io)
    requires t < |s.threads| && s.InBounds() && !s.threads[t].Start? && !s.threads[t].VictimCommit?
    ensures Section(s, t, io).nextPageId == s.nextPageId
  {
    var pc := s.threads[t];
    if pc.InLoad() {
      assert LoadSection(s, t, io).nextPageId == s.nextPageId;
    } else if pc.HoldsLock() {
      assert ClockSection(s, t).nextPageId == s.nextPageId;
    } else if pc.InEviction() {
      assert VictimSection(s, t, io).nextPageId == s.nextPageId;
    } else if !pc.Idle? {
      assert FlushSection(s, t, io).nextPageId == s.nextPageId;
    }
  }

  /** A thread that holds an id after a step held the same id before, or has just read the next one. */
  lemma IdIsKept(s: State, l: Label, t: Tid)
    requires s.InBounds() && Enabled(s, l) && HoldsId(Step(s, l), t)
    ensures if HoldsId(s, t) then IdOf(Step(s, l), t) == IdOf(s, t)
            else IdOf(Step(s, l), t) == s.nextPageId && l == Work(t, if l.Work? then l.io else Ok) && s.threads[t] == Start(NewPage)
  {
    if l.Work? && l.tid == t {
      var pc := s.threads[t];
      if pc.Start? {
        StartReadsNextId(s, t, pc.op);
      } else if pc.InLoad() {
        LoadHoldsNoId(s, t, l.io);
      } else if pc.HoldsLock() {
        ClockKeepsId(s, t);
      } else if pc.InEviction() {
        EvictionKeepsId(s, t, l.io);
      } else {
        FlushHoldsNoId(s, t, l.io);
      }
    } else {
      OthersStay(s, l, t);
    }
  }

  /** No step moves a thread but its own. */
  lemma OthersStay(s: State, l: Label, t: Tid)
    requires s.InBounds() && Enabled(s, l) && t < |s.threads| && !(l.Work? && l.tid == t)
    ensures l.Call? && l.tid == t ==> Step(s, l).threads[t] == Start(l.op)
    ensures !(l.Call? && l.tid == t) ==> Step(s, l).threads[t] == s.threads[t]
  {
    if l.Work? {
      var u := l.tid;
      if s.threads[u].Start? {
        StartMovesOnlyItsThread(s, u, s.threads[u].op, t);
      } else {
        SectionMovesOnlyItsThread(s, u, l.io, t);
      }
    }
  }

  lemma SectionMovesOnlyItsThread(s: State, u: Tid, io: Io, t: Tid)
    requires s.InBounds() && u < |s.threads| && t < |s.threads| && t != u && !s.threads[u].Start?
    ensures Section(s, u, io).threads[t] == s.threads[t]
  {
    var pc := s.threads[u];
    if pc.HoldsLock() {
      assert ClockSection(s, u).threads[t] == s.threads[t];
    } else if pc.InEviction() {
      assert VictimSection(s, u, io).threads[t] == s.threads[t];
    } else if pc.InLoad() {
      assert LoadSection(s, u, io).threads[t] == s.threads[t];
    } else if !pc.Idle? {
      FlushMovesOnlyItsThread(s, u, io, t);
    }
  }

  lemma FlushMovesOnlyItsThread(s: State, u: Tid, io: Io, t: Tid)
    requires s.InBounds() && u < |s.threads| && t < |s.threads| && t != u && s.threads[u].InFlush()
    ensures FlushSection(s, u, io).threads[t] == s.threads[t]
  {
  }

  lemma StartMovesOnlyItsThread(s: State, u: Tid, op: Op, t: Tid)
    requires s.InBounds() && u < |s.threads| && t < |s.threads| && t != u
    ensures StartOp(s, u, op).threads[t] == s.threads[t]
  {
    if op.FetchPage? {
      FetchMovesOnlyItsThread(s, u, op.page, t);
    } else if op.FlushPage? || op.DeletePage? {
      ReservationMovesOnlyItsThread(s, u, op, t);
    }
  }

  lemma FetchMovesOnlyItsThread(s: State, u: Tid, p: PageId, t: Tid)
    requires s.InBounds() && u < |s.threads| && t < |s.threads| && t != u
    ensures StartFetch(s, u, p).threads[t] == s.threads[t]
  {
  }

  lemma ReservationMovesOnlyItsThread(s: State, u: Tid, op: Op, t: Tid)
    requires s.InBounds() && u < |s.threads| && t < |s.threads| && t != u && (op.FlushPage? || op.DeletePage?)
    ensures StartOp(s, u, op).threads[t] == s.threads[t]
  {
  }

  lemma StartReadsNextId(s: State, t: Tid, op: Op)
    requires s.InBounds() && t < |s.threads| && s.threads[t] == Start(op)
    ensures HoldsId(StartOp(s, t, op), t) ==> op.NewPage? && IdOf(StartOp(s, t, op), t) == s.nextPageId
  {
  }

  lemma LoadHoldsNoId(s: State, t: Tid, io: Io)
    requires s.InBounds() && t < |s.threads| && s.threads[t].InLoad()
    ensures !HoldsId(LoadSection(s, t, io), t)
  {
  }

  lemma ClockKeepsId(s: State, t: Tid)
    requires s.InBounds() && t < |s.threads| && s.threads[t].HoldsLock()
    ensures HoldsId(ClockSection(s, t), t) ==> HoldsId(s, t) && IdOf(ClockSection(s, t), t) == IdOf(s, t)
  {
  }

  lemma EvictionKeepsId(s: State, t: Tid, io: Io)
    requires s.InBounds() && t < |s.threads| && s.threads[t].InEviction()
    ensures HoldsId(VictimSection(s, t, io), t) ==> HoldsId(s, t) && IdOf(VictimSection(s, t, io), t) == IdOf(s, t)
  {
  }

  lemma FlushHoldsNoId(s: State, t: Tid, io: Io)
    requires s.InBounds() && t < |s.threads| && s.threads[t].InFlush()
    ensures !HoldsId(FlushSection(s, t, io), t)
  {
  }

  // ---------------------------------------------------------------------------
  // Runs
  // ---------------------------------------------------------------------------

  /** The ids that new_page has handed out over a run, in order. */
  ghost function Created(s: State, ls: seq<Label>): seq<PageId>
    requires Run(s, ls)
    decreases |ls|
  {
    if ls == [] then []
    else (if Creates(s, ls[0]) then [Step(s, ls[0]).threads[ls[0].tid].reply.page] else []) + Created(Step(s, ls[0]), ls[1..])
  }

  /** n, n + 1, n + 2, ... */
  ghost predicate CountUpFrom(ids: seq<PageId>, n: nat) {
    forall i :: 0 <= i < |ids| ==> ids[i] == n + i
  }

  /** Thread t, which holds an id, commits it in the run, before it lets go of it. */
  ghost predicate CommitsLater(s: State, ls: seq<Label>, t: Tid)
    requires Run(s, ls) && HoldsId(s, t)
    decreases |ls|
  {
    ls != [] && (CommitsId(s, ls[0], t) || (HoldsId(Step(s, ls[0]), t) && CommitsLater(Step(s, ls[0]), ls[1..], t)))
  }

  /** The first step of the run hands out a page while another thread holds an id that it commits later. */
  ghost predicate Overtakes(s: State, ls: seq<Label>)
    requires Run(s, ls) && ls != []
  {
    Creates(s, ls[0]) && exists u: Tid :: u != ls[0].tid && HoldsLater(s, ls, u)
  }

  ghost predicate HoldsLater(s: State, ls: seq<Label>, u: Tid)
    requires Run(s, ls) && ls != []
  {
    HoldsId(s, u) && CommitsLater(s, ls, u)
  }

  /** At some point of the run a page is handed out in the middle of another thread's new_page that still succeeds. */
  ghost predicate SomeoneOvertakes(s: State, ls: seq<Label>)
    requires Run(s, ls)
    decreases |ls|
  {
    ls != [] && (Overtakes(s, ls) || SomeoneOvertakes(Step(s, ls[0]), ls[1..]))
  }

  /** Some thread already holds an id other than the next one, and commits it in the run. */
  ghost predicate CommitsOldId(s: State, ls: seq<Label>)
    requires Run(s, ls)
  {
    exists u: Tid :: OldIdCommitted(s, ls, u)
  }

  ghost predicate OldIdCommitted(s: State, ls: seq<Label>, u: Tid)
    requires Run(s, ls)
  {
    HoldsId(s, u) && IdOf(s, u) != s.nextPageId && CommitsLater(s, ls, u)
  }

  ghost predicate HeldIdsAreOld(s: State) {
    forall u: Tid :: HoldsId(s, u) ==> IdOf(s, u) <= s.nextPageId
  }

  /** What a step does to the held ids. */
  lemma HeldIdsAfter(s: State, l: Label, u: Tid)
    requires Inv(s) && s.InBounds() && Enabled(s, l) && Allowed(s, l) && HeldIdsAreOld(s)
    requires !(l.Work? && OldIdTaken(s, l))
    ensures HoldsId(Step(s, l), u) ==> IdOf(Step(s, l), u) <= Step(s, l).nextPageId
    ensures Creates(s, l) && u != l.tid && HoldsId(s, u) ==>
              HoldsId(Step(s, l), u) && IdOf(Step(s, l), u) != Step(s, l).nextPageId
    ensures Creates(s, l) && HoldsId(Step(s, l), u) ==> u != l.tid && HoldsId(s, u)
    ensures !Creates(s, l) && HoldsId(Step(s, l), u) && IdOf(Step(s, l), u) != Step(s, l).nextPageId ==>
              HoldsId(s, u) && IdOf(s, u) != s.nextPageId
    ensures HoldsId(s, u) && HoldsId(Step(s, l), u) ==> IdOf(Step(s, l), u) == IdOf(s, u)
  {
    NextIdFollowsCreation(s, l);
    if HoldsId(Step(s, l), u) {
      IdIsKept(s, l, u);
    }
    if u < |s.threads| && !(l.Work? && l.tid == u) {
      OthersStay(s, l, u);
    }
  }

  /** The step commits an id that is not the next one. */
  predicate OldIdTaken(s: State, l: Label)
    requires l.Work?
  {
    CommitsId(s, l, l.tid) && IdOf(s, l.tid) != s.nextPageId
  }

  /** A step that hands out the next id makes every other held id an old one. */
  lemma CreationAges(s: State, ls: seq<Label>)
    requires Inv(s) && Run(s, ls) && ls != [] && HeldIdsAreOld(s)
    requires Creates(s, ls[0]) && !OldIdTaken(s, ls[0])
    ensures HeldIdsAreOld(Step(s, ls[0]))
    ensures CommitsOldId(Step(s, ls[0]), ls[1..]) <==> Overtakes(s, ls) || CommitsOldId(s, ls)
  {
    var l, s1, rest := ls[0], Step(s, ls[0]), ls[1..];
    forall u: Tid
      ensures HoldsId(s1, u) ==> IdOf(s1, u) <= s1.nextPageId
      ensures OldIdCommitted(s1, rest, u) <==> u != l.tid && HoldsLater(s, ls, u)
    {
      HeldIdsAfter(s, l, u);
    }
    if CommitsOldId(s1, rest) {
      var u: Tid :| OldIdCommitted(s1, rest, u);
      assert u != l.tid && HoldsLater(s, ls, u);
    }
    if CommitsOldId(s, ls) {
      var u: Tid :| OldIdCommitted(s, ls, u);
      OldIdIsOthers(s, ls, u);
    }
    if Overtakes(s, ls) {
      var u: Tid :| u != l.tid && HoldsLater(s, ls, u);
      assert OldIdCommitted(s1, rest, u);
    }
  }

  lemma OldIdIsOthers(s: State, ls: seq<Label>, u: Tid)
    requires Inv(s) && Run(s, ls) && ls != [] && HeldIdsAreOld(s)
    requires Creates(s, ls[0]) && !OldIdTaken(s, ls[0]) && OldIdCommitted(s, ls, u)
    ensures u != ls[0].tid && HoldsLater(s, ls, u)
  {
    HeldIdsAfter(s, ls[0], u);
  }

  /** Any other step leaves the old ids as they are. */
  lemma OtherStepKeepsAges(s: State, ls: seq<Label>)
    requires Inv(s) && Run(s, ls) && ls != [] && HeldIdsAreOld(s) && !Creates(s, ls[0])
    ensures HeldIdsAreOld(Step(s, ls[0]))
    ensures CommitsOldId(Step(s, ls[0]), ls[1..]) <==> CommitsOldId(s, ls)
  {
    var l, s1, rest := ls[0], Step(s, ls[0]), ls[1..];
    NextIdFollowsCreation(s, l);
    forall u: Tid
      ensures HoldsId(s1, u) ==> IdOf(s1, u) <= s1.nextPageId
      ensures OldIdCommitted(s1, rest, u) <==> OldIdCommitted(s, ls, u)
    {
      HeldIdsAfter(s, l, u);
    }
    if CommitsOldId(s1, rest) {
      var u: Tid :| OldIdCommitted(s1, rest, u);
      assert OldIdCommitted(s, ls, u);
    }
    if CommitsOldId(s, ls) {
      var u: Tid :| OldIdCommitted(s, ls, u);
      assert OldIdCommitted(s1, rest, u);
    }
  }

  lemma {:induction false} CountUpByInterleaving(s: State, ls: seq<Label>)
    requires Inv(s) && Run(s, ls) && HeldIdsAreOld(s)
    ensures CountUpFrom(Created(s, ls), s.nextPageId) <==> !SomeoneOvertakes(s, ls) && !CommitsOldId(s, ls)
    ensures CountUpFrom(Created(s, ls), s.nextPageId) ==> After(s, ls).nextPageId == s.nextPageId + |Created(s, ls)|
    decreases |ls|
  {
    if ls != [] {
      var s1, rest := Step(s, ls[0]), Created(Step(s, ls[0]), ls[1..]);
      StepKeepsInv(s, ls[0]);
      NextIdFollowsCreation(s, ls[0]);
      if Creates(s, ls[0]) {
        CountUpPush(s1.threads[ls[0].tid].reply.page, rest, s.nextPageId);
        if OldIdTaken(s, ls[0]) {
          assert OldIdCommitted(s, ls, ls[0].tid);
        } else {
          CreationAges(s, ls);
          CountUpByInterleaving(s1, ls[1..]);
        }
      } else {
        assert Created(s, ls) == rest;
        OtherStepKeepsAges(s, ls);
        CountUpByInterleaving(s1, ls[1..]);
      }
    }
  }

  /**
   * From any state in which no new_page has read its id yet, ids are handed out one after
   * the other, none twice and none left out, if and only if no page is handed out while
   * another thread is between reading an id and committing it.
   */
  lemma IdsCountUpExactly(s: State, ls: seq<Label>)
    requires Inv(s) && Run(s, ls) && forall t: Tid :: !HoldsId(s, t)
    ensures CountUpFrom(Created(s, ls), s.nextPageId) <==> !SomeoneOvertakes(s, ls)
    ensures CountUpFrom(Created(s, ls), s.nextPageId) ==> After(s, ls).nextPageId == s.nextPageId + |Created(s, ls)|
  {
    CountUpByInterleaving(s, ls);
  }

  lemma CountUpPush(id: PageId, rest: seq<PageId>, n: nat)
    ensures CountUpFrom([id] + rest, n) <==> id == n && CountUpFrom(rest, n + 1)
  {
    var ids := [id] + rest;
    assert ids[0] == id;
    assert forall i :: 0 <= i < |rest| ==> ids[i + 1] == rest[i];
    if CountUpFrom(ids, n) {
      forall i | 0 <= i < |rest| ensures rest[i] == n + 1 + i {
        assert ids[i + 1] == n + (i + 1);
      }
    }
  }
}
