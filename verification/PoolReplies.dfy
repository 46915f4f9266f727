/** Which answers each operation can give, over every run of every interleaving. */
module PoolReplies {
  import opened Storage
  import opened Frames
  import opened PageTables
  import opened BufferPool
  import opened PoolInvariant
  import opened PoolTheorems
  import opened PoolIds

  // ---------------------------------------------------------------------------
  // Answers belong to their calls
  // ---------------------------------------------------------------------------

  function CallOfGoal(goal: Goal): Op {
    if goal.Load? then FetchPage(goal.page) else NewPage
  }

  function CallOfPurpose(purpose: Purpose, p: PageId): Op {
    if purpose.Flush? then FlushPage(p) else DeletePage(p)
  }

  /** The call a thread is in, if it is in one. */
  function CallOf(pc: Pc): Option<Op> {
    match pc
    case Idle(_) => None
    case Start(op) => Some(op)
    case LoadWait(p) => Some(FetchPage(p))
    case FreeRead(p, _) => Some(FetchPage(p))
    case FreeLoad(p, _, _) => Some(FetchPage(p))
    case FreePublish(p, _) => Some(FetchPage(p))
    case FreeRollback(p, _) => Some(FetchPage(p))
    case Scan(goal, _, _) => Some(CallOfGoal(goal))
    case CheckReserved(p, _) => Some(FetchPage(p))
    case HasVictim(goal, _) => Some(CallOfGoal(goal))
    case VictimWrite(goal, _, _, _) => Some(CallOfGoal(goal))
    case VictimRead(p, _, _) => Some(FetchPage(p))
    case VictimCommit(goal, _, _, _) => Some(CallOfGoal(goal))
    case VictimRollback(goal, _, _) => Some(CallOfGoal(goal))
    case FlushCheck(purpose, p, _) => Some(CallOfPurpose(purpose, p))
    case FlushWrite(purpose, p, _, _, _) => Some(CallOfPurpose(purpose, p))
    case FlushEnd(purpose, p, _, _) => Some(CallOfPurpose(purpose, p))
    case FlushDone(p, _) => Some(FlushPage(p))
    case DeleteCommit(p, _) => Some(DeletePage(p))
    case DeleteFailed(p, _, _) => Some(DeletePage(p))
  }

  /** The answers that a call can be given. */
  predicate Answers(op: Op, r: Reply) {
    match op
    case FetchPage(p) => (r.Page? && r.page == p) || r == Failed(NoEvictableFrame) || r == Failed(DiskError)
    case NewPage =>
      || r.Page? || r == Failed(NoPageIdAvailable) || r == Failed(NoEvictableFrame) || r == Failed(DiskError)
      || r == Failed(TableError(PageAlreadyExist))
    case UnpinPage(p) =>
      r == Done || r == Failed(PageNotFound(p)) || r == Failed(FrameReserved) || r == Failed(FrameError(CannotUnpin))
    case MarkDirtyPage(p) => r == Done || r == Failed(PageNotFound(p)) || r == Failed(FrameReserved)
    case FlushPage(p) => r == Done || r == Failed(PageNotFound(p)) || r == Failed(FrameReserved) || r == Failed(DiskError)
    case DeletePage(p) => r == Done || r == Failed(PageNotFound(p)) || r == Failed(PagePinned(p)) || r == Failed(DiskError)
  }

  /** The thread is still in the call, or has been given one of its answers. */
  predicate InOrAnswered(pc: Pc, op: Op) {
    CallOf(pc) == Some(op) || (pc.Idle? && Answers(op, pc.reply))
  }

  lemma StartAnswers(s: State, t: Tid, op: Op)
    requires At(s, t, Start(op)) && s.InBounds()
    ensures InOrAnswered(StartOp(s, t, op).threads[t], op)
  {
    if op.FetchPage? {
      FetchDoesNotFailAtOnce(s, t, op.page);
      FetchStaysItself(s, t, op.page);
    } else if op.UnpinPage? || op.MarkDirtyPage? {
      assert op.page in s.table ==> PageOk(s, op.page);
    } else if !op.NewPage? {
      ReservationAnswers(s, t, op);
    }
  }

  lemma FetchStaysItself(s: State, t: Tid, p: PageId)
    requires t < |s.threads| && s.threads[t] == Start(FetchPage(p)) && s.InBounds()
    ensures var pc := StartFetch(s, t, p).threads[t]; pc.Idle? || (CallOf(pc) == Some(FetchPage(p)) && !Spoilt(pc))
  {
    if p !in s.table {
      MissStaysItself(s, t, p);
    }
  }

  lemma MissStaysItself(s: State, t: Tid, p: PageId)
    requires t < |s.threads| && s.InBounds() && p !in s.table
    ensures var pc := StartFetch(s, t, p).threads[t]; pc.Idle? || (CallOf(pc) == Some(FetchPage(p)) && !Spoilt(pc))
  {
  }

  lemma ReservationAnswers(s: State, t: Tid, op: Op)
    requires t < |s.threads| && s.InBounds() && (op.FlushPage? || op.DeletePage?)
    ensures InOrAnswered(StartOp(s, t, op).threads[t], op)
  {
  }

  lemma LoadAnswers(s: State, t: Tid, io: Io)
    requires s.InBounds() && t < |s.threads| && s.threads[t].InLoad()
    ensures InOrAnswered(LoadSection(s, t, io).threads[t], CallOf(s.threads[t]).value)
  {
  }

  lemma ClockAnswers(s: State, t: Tid)
    requires Inv(s) && s.InBounds() && t < |s.threads| && s.threads[t].HoldsLock()
    ensures InOrAnswered(ClockSection(s, t).threads[t], CallOf(s.threads[t]).value)
  {
    assert ThreadOk(s, t);
    if s.threads[t].HasVictim? {
      ReserveAnswers(s, t, s.threads[t].goal, s.threads[t].v);
    }
  }

  lemma ReserveAnswers(s: State, t: Tid, goal: Goal, v: FrameId)
    requires t < |s.threads| && v < |s.frames| && !s.frames[v].state.Reserved? && s.frames[v].metadata.Some?
    ensures CallOf(ReserveVictim(s, t, goal, v).threads[t]) == Some(CallOfGoal(goal))
  {
  }

  lemma EvictionAnswers(s: State, t: Tid, io: Io)
    requires Inv(s) && s.InBounds() && t < |s.threads| && s.threads[t].InEviction()
    ensures InOrAnswered(VictimSection(s, t, io).threads[t], CallOf(s.threads[t]).value)
  {
    assert ThreadOk(s, t);
  }

  lemma FlushAnswers(s: State, t: Tid, io: Io)
    requires Inv(s) && s.InBounds() && t < |s.threads| && s.threads[t].InFlush()
    ensures InOrAnswered(FlushSection(s, t, io).threads[t], CallOf(s.threads[t]).value)
  {
    var pc := s.threads[t];
    assert ThreadOk(s, t);
    if pc.FlushEnd? {
      assert PageOk(s, pc.p);
      FlushEndAnswers(s, t, pc.purpose, pc.p, pc.f, pc.written);
    } else if pc.FlushCheck? {
      FlushCheckAnswers(s, t, pc.purpose, pc.p, pc.f);
    }
  }

  lemma FlushEndAnswers(s: State, t: Tid, purpose: Purpose, p: PageId, f: FrameId, written: bool)
    requires t < |s.threads| && f < |s.frames| && s.frames[f].metadata.Some?
    ensures InOrAnswered(EndFlush(s, t, purpose, p, f, written).threads[t], CallOfPurpose(purpose, p))
  {
  }

  lemma FlushCheckAnswers(s: State, t: Tid, purpose: Purpose, p: PageId, f: FrameId)
    requires t < |s.threads| && f < |s.frames| && s.frames[f].state.Reserved?
    ensures InOrAnswered(CheckFlush(s, t, purpose, p, f).threads[t], CallOfPurpose(purpose, p))
  {
  }

  /** A section of a call stays in the call, or ends it with one of its answers. */
  lemma SectionAnswers(s: State, t: Tid, io: Io)
    requires Inv(s) && s.InBounds() && Enabled(s, Work(t, io))
    ensures InOrAnswered(Section(s, t, io).threads[t], CallOf(s.threads[t]).value)
  {
    var pc := s.threads[t];
    if pc.Start? {
      StartAnswers(s, t, pc.op);
    } else if pc.InLoad() {
      LoadAnswers(s, t, io);
    } else if pc.HoldsLock() {
      ClockAnswers(s, t);
    } else if pc.InEviction() {
      EvictionAnswers(s, t, io);
    } else {
      FlushAnswers(s, t, io);
    }
  }

  /** Thread t makes no new call in the run. */
  predicate NoCallBy(ls: seq<Label>, t: Tid) {
    forall i :: 0 <= i < |ls| ==> !(ls[i].Call? && ls[i].tid == t)
  }

  /** Whatever the other threads do, a call is answered with one of the answers it can be given, and about its own page. */
  lemma {:induction false} CallIsAnswered(s: State, ls: seq<Label>, t: Tid, op: Op)
    requires Inv(s) && Run(s, ls) && NoCallBy(ls, t) && t < |s.threads| && InOrAnswered(s.threads[t], op)
    ensures t < |After(s, ls).threads| && InOrAnswered(After(s, ls).threads[t], op)
    decreases |ls|
  {
    if ls != [] {
      var l, s1 := ls[0], Step(s, ls[0]);
      StepKeepsInv(s, l);
      if l.Work? && l.tid == t {
        SectionAnswers(s, t, l.io);
      } else {
        OthersStay(s, l, t);
      }
      assert forall i :: 0 <= i < |ls[1..]| ==> ls[1..][i] == ls[i + 1];
      CallIsAnswered(s1, ls[1..], t, op);
    }
  }

  // ---------------------------------------------------------------------------
  // DiskError
  // ---------------------------------------------------------------------------

  /** The step is a disk call of thread t, and it fails. */
  ghost predicate DiskCallFails(s: State, l: Label, t: Tid) {
    && l.Work? && l.tid == t && t < |s.threads| && l.io.Fails?
    && (ReadsPage(s.threads[t]).Some? || WritesPage(s.threads[t]).Some?)
  }

  /** A disk call of the thread's call has failed: it rolls back, or has answered. */
  predicate Spoilt(pc: Pc) {
    || pc.FreeRollback? || pc.VictimRollback? || pc.DeleteFailed?
    || (pc.FlushEnd? && !pc.written)
    || pc == Idle(Failed(DiskError))
  }

  lemma LoadSpoils(s: State, t: Tid, io: Io)
    requires s.InBounds() && t < |s.threads| && s.threads[t].InLoad()
    ensures Spoilt(LoadSection(s, t, io).threads[t]) <==> Spoilt(s.threads[t]) || DiskCallFails(s, Work(t, io), t)
  {
  }

  lemma ClockDoesNotSpoil(s: State, t: Tid)
    requires s.InBounds() && t < |s.threads| && s.threads[t].HoldsLock()
    ensures !Spoilt(ClockSection(s, t).threads[t])
  {
    if s.threads[t].HasVictim? {
      ReserveDoesNotSpoil(s, t, s.threads[t].goal, s.threads[t].v);
    }
  }

  lemma ReserveDoesNotSpoil(s: State, t: Tid, goal: Goal, v: FrameId)
    requires t < |s.threads| && v < |s.frames|
    ensures !Spoilt(ReserveVictim(s, t, goal, v).threads[t])
  {
  }

  lemma EvictionSpoils(s: State, t: Tid, io: Io)
    requires s.InBounds() && t < |s.threads| && s.threads[t].InEviction()
    ensures Spoilt(VictimSection(s, t, io).threads[t]) <==> Spoilt(s.threads[t]) || DiskCallFails(s, Work(t, io), t)
  {
  }

  lemma FlushSpoils(s: State, t: Tid, io: Io)
    requires Inv(s) && s.InBounds() && t < |s.threads| && s.threads[t].InFlush()
    ensures Spoilt(FlushSection(s, t, io).threads[t]) <==> Spoilt(s.threads[t]) || DiskCallFails(s, Work(t, io), t)
  {
    var pc := s.threads[t];
    assert ThreadOk(s, t);
    if pc.FlushEnd? {
      assert PageOk(s, pc.p);
      FlushEndSpoils(s, t, pc.purpose, pc.p, pc.f, pc.written);
    } else if pc.FlushCheck? {
      FlushCheckDoesNotSpoil(s, t, pc.purpose, pc.p, pc.f);
    }
  }

  lemma FlushEndSpoils(s: State, t: Tid, purpose: Purpose, p: PageId, f: FrameId, written: bool)
    requires t < |s.threads| && f < |s.frames| && s.frames[f].metadata.Some?
    ensures Spoilt(EndFlush(s, t, purpose, p, f, written).threads[t]) <==> !written
  {
  }

  lemma FlushCheckDoesNotSpoil(s: State, t: Tid, purpose: Purpose, p: PageId, f: FrameId)
    requires t < |s.threads| && f < |s.frames| && s.frames[f].state.Reserved?
    ensures !Spoilt(CheckFlush(s, t, purpose, p, f).threads[t])
  {
  }

  lemma StartDoesNotSpoil(s: State, t: Tid, op: Op)
    requires At(s, t, Start(op)) && s.InBounds()
    ensures !Spoilt(StartOp(s, t, op).threads[t])
  {
    if op.FetchPage? {
      FetchDoesNotFailAtOnce(s, t, op.page);
      FetchStaysItself(s, t, op.page);
    } else if op.FlushPage? || op.DeletePage? {
      ReservationDoesNotSpoil(s, t, op);
    }
  }

  lemma ReservationDoesNotSpoil(s: State, t: Tid, op: Op)
    requires t < |s.threads| && s.InBounds() && (op.FlushPage? || op.DeletePage?)
    ensures !Spoilt(StartOp(s, t, op).threads[t])
  {
  }

  /** A section spoils a call exactly if it is a disk call that fails, and a spoilt call stays so. */
  lemma SectionSpoils(s: State, t: Tid, io: Io)
    requires Inv(s) && s.InBounds() && Enabled(s, Work(t, io))
    ensures Spoilt(Section(s, t, io).threads[t]) <==> Spoilt(s.threads[t]) || DiskCallFails(s, Work(t, io), t)
  {
    var pc := s.threads[t];
    if pc.Start? {
      StartDoesNotSpoil(s, t, pc.op);
    } else if pc.InLoad() {
      LoadSpoils(s, t, io);
    } else if pc.HoldsLock() {
      ClockDoesNotSpoil(s, t);
    } else if pc.InEviction() {
      EvictionSpoils(s, t, io);
    } else {
      FlushSpoils(s, t, io);
    }
  }

  /** A disk call of thread t fails in the run. */
  ghost predicate SomeDiskCallFails(s: State, ls: seq<Label>, t: Tid)
    requires Run(s, ls)
    decreases |ls|
  {
    ls != [] && (DiskCallFails(s, ls[0], t) || SomeDiskCallFails(Step(s, ls[0]), ls[1..], t))
  }

  lemma {:induction false} RunSpoils(s: State, ls: seq<Label>, t: Tid)
    requires Inv(s) && Run(s, ls) && NoCallBy(ls, t) && t < |s.threads|
    ensures t < |After(s, ls).threads|
    ensures Spoilt(After(s, ls).threads[t]) <==> Spoilt(s.threads[t]) || SomeDiskCallFails(s, ls, t)
    decreases |ls|
  {
    if ls != [] {
      var l, s1 := ls[0], Step(s, ls[0]);
      StepKeepsInv(s, l);
      if l.Work? && l.tid == t {
        SectionSpoils(s, t, l.io);
      } else {
        OthersStay(s, l, t);
      }
      assert forall i :: 0 <= i < |ls[1..]| ==> ls[1..][i] == ls[i + 1];
      RunSpoils(s1, ls[1..], t);
    }
  }

  /**
   * Whatever the other threads do, an answered call was answered with DiskError if and
   * only if one of its own disk calls had failed.
   */
  lemma DiskErrorExactly(s: State, ls: seq<Label>, t: Tid, op: Op)
    requires Inv(s) && Run(s, ls) && NoCallBy(ls, t) && t < |s.threads| && s.threads[t] == Start(op)
    requires t < |After(s, ls).threads| && After(s, ls).threads[t].Idle?
    ensures After(s, ls).threads[t].reply == Failed(DiskError) <==> SomeDiskCallFails(s, ls, t)
  {
    RunSpoils(s, ls, t);
  }
}
