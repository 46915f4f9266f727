/**
 * The locks that each step of the protocol takes, in the order of the source, and why
 * they cannot deadlock. Between two steps of a search a thread goes on holding
 * state_lock, and while CLOCK looks for a victim the replacer's lock as well.
 */
module LockOrder {
  import opened Storage
  import opened BufferPool

  datatype Lock =
    | StateLock
    | ReplacerLock
    | FrameLock(f: FrameId)
    | PageTableLock
    | FreeFramesLock
    | InFlightLock
    | NextPageIdLock
    | DiskLock
  {
    /** The place of the lock in the order in which locks are taken. */
    function Rank(): nat {
      match this
      case DiskLock => 1
      case StateLock => 2
      case ReplacerLock => 3
      case FrameLock(_) => 4
      case _ => 5
    }
  }

  datatype Action = Acquire(lock: Lock) | Release(lock: Lock)

  /** Takes a lock and gives it back. */
  function Touch(l: Lock): seq<Action> {
    [Acquire(l), Release(l)]
  }

  function Inside(l: Lock, acts: seq<Action>): seq<Action> {
    [Acquire(l)] + acts + [Release(l)]
  }

  // ---------------------------------------------------------------------------
  // The locks of each step
  // ---------------------------------------------------------------------------

  /** What a thread holds between two steps. */
  function Holding(pc: Pc): set<Lock> {
    if pc.Scan? then {StateLock, ReplacerLock} else if pc.HoldsLock() then {StateLock} else {}
  }

  /** A wait on state_cv gives state_lock back, like an answer. A read lock of a frame counts as its lock. */
  function FetchLocks(s: State, p: PageId): seq<Action> {
    if p in s.table then Inside(StateLock, Touch(PageTableLock) + Touch(FrameLock(s.table[p])))
    else if p in s.inFlight then Inside(StateLock, Touch(PageTableLock) + Touch(InFlightLock))
    else
      var lookup := Touch(PageTableLock) + Touch(InFlightLock) + Touch(FreeFramesLock);
      if s.free == [] then [Acquire(StateLock)] + lookup + [Acquire(ReplacerLock)]
      else Inside(StateLock, lookup + Touch(FrameLock(s.free[0])))
  }

  function NewLocks(s: State): seq<Action> {
    if s.nextPageId >= MAX_PAGE_ID then Inside(StateLock, Touch(NextPageIdLock))
    else
      var lookup := Touch(NextPageIdLock) + Touch(FreeFramesLock);
      if s.free == [] then [Acquire(StateLock)] + lookup + [Acquire(ReplacerLock)]
      else Inside(StateLock, lookup + Inside(FrameLock(s.free[0]), Touch(PageTableLock) + Touch(NextPageIdLock)))
  }

  function UnmapLocks(f: FrameId): seq<Action> {
    Inside(FrameLock(f), Touch(PageTableLock) + Touch(FreeFramesLock))
  }

  ghost function DeleteLocks(s: State, p: PageId): seq<Action>
    requires s.InBounds()
  {
    if p !in s.table then Inside(StateLock, Touch(PageTableLock))
    else
      var f := s.table[p];
      var clean := !s.frames[f].IsPinned() && !s.frames[f].state.Reserved? && !s.frames[f].IsDirty();
      Inside(StateLock, Touch(PageTableLock) + if clean then UnmapLocks(f) else Touch(FrameLock(f)))
  }

  ghost function StartLocks(s: State, op: Op): seq<Action>
    requires s.InBounds()
  {
    match op
    case FetchPage(p) => FetchLocks(s, p)
    case NewPage => NewLocks(s)
    case DeletePage(p) => DeleteLocks(s, p)
    case _ =>
      if op.page in s.table then Inside(StateLock, Touch(PageTableLock) + Touch(FrameLock(s.table[op.page])))
      else Inside(StateLock, Touch(PageTableLock))
  }

  /** One frame looked at by CLOCK, and what is given back if that ends the search. */
  ghost function ScanLocks(s: State, t: Tid): seq<Action>
    requires s.InBounds() && t < |s.threads| && s.threads[t].Scan?
  {
    var next := ClockSection(s, t).threads[t];
    (if s.frames == [] then [] else Touch(FrameLock(s.hand)))
    + if next.Scan? then []
      else if next.HoldsLock() then [Release(ReplacerLock)]
      else [Release(ReplacerLock), Release(StateLock)]
  }

  ghost function CheckLocks(s: State, i: nat): seq<Action> {
    if i >= |s.frames| then [Release(StateLock)]
    else if s.frames[i].state.Reserved? then Touch(FrameLock(i)) + [Release(StateLock)]
    else Touch(FrameLock(i))
  }

  function CommitLocks(goal: Goal, v: FrameId, swapped: bool): seq<Action> {
    var last := if !swapped then [] else if goal.Load? then Touch(InFlightLock) else Touch(NextPageIdLock);
    Inside(StateLock, Inside(FrameLock(v), Touch(PageTableLock) + last))
  }

  /** The locks that thread t's next step takes and gives back. */
  ghost function StepLocks(s: State, t: Tid): seq<Action>
    requires s.InBounds() && t < |s.threads|
  {
    match s.threads[t]
    case Idle(_) => []
    case Start(op) => StartLocks(s, op)
    case LoadWait(_) => Touch(InFlightLock)
    case FreeRead(_, _) => Touch(DiskLock)
    case FreeLoad(_, f, _) => Touch(FrameLock(f))
    case FreePublish(_, _) => Inside(StateLock, Touch(PageTableLock) + Touch(InFlightLock))
    case FreeRollback(_, f) => Inside(StateLock, Touch(FrameLock(f)) + Touch(FreeFramesLock) + Touch(InFlightLock))
    case Scan(_, _, _) => ScanLocks(s, t)
    case CheckReserved(_, i) => CheckLocks(s, i)
    case HasVictim(_, v) => Touch(FrameLock(v)) + [Release(StateLock)]
    case VictimWrite(_, _, _, _) => Touch(DiskLock)
    case VictimRead(_, _, _) => Touch(DiskLock)
    case VictimCommit(goal, v, _, _) => CommitLocks(goal, v, goal.page !in s.table)
    case VictimRollback(goal, v, _) =>
      if goal.Load? then Inside(StateLock, Touch(FrameLock(v)) + Touch(InFlightLock)) else Touch(FrameLock(v))
    case FlushCheck(_, _, f) => Touch(FrameLock(f))
    case FlushWrite(_, _, _, _, _) => Touch(DiskLock)
    case FlushEnd(_, _, f, _) => Touch(FrameLock(f))
    case FlushDone(_, f) => Touch(FrameLock(f))
    case DeleteCommit(_, f) => Inside(StateLock, UnmapLocks(f))
    case DeleteFailed(_, f, _) => Touch(FrameLock(f))
  }

  // ---------------------------------------------------------------------------
  // The order
  // ---------------------------------------------------------------------------

  /** Every lock of `held` comes before l. */
  ghost predicate Before(held: set<Lock>, l: Lock) {
    forall h :: h in held ==> h.Rank() < l.Rank()
  }

  /** Carrying out `todo` takes only locks above those held, gives back only what is held, and leaves `end` held. */
  ghost predicate Disciplined(held: set<Lock>, todo: seq<Action>, end: set<Lock>)
    decreases |todo|
  {
    if todo == [] then held == end
    else match todo[0]
         case Acquire(l) => Before(held, l) && Disciplined(held + {l}, todo[1..], end)
         case Release(l) => l in held && Disciplined(held - {l}, todo[1..], end)
  }

  lemma {:induction false} Then(held: set<Lock>, a: seq<Action>, mid: set<Lock>, b: seq<Action>, end: set<Lock>)
    requires Disciplined(held, a, mid) && Disciplined(mid, b, end)
    ensures Disciplined(held, a + b, end)
    decreases |a|
  {
    if a == [] {
      assert a + b == b;
    } else {
      assert (a + b)[0] == a[0] && (a + b)[1..] == a[1..] + b;
      Then(if a[0].Acquire? then held + {a[0].lock} else held - {a[0].lock}, a[1..], mid, b, end);
    }
  }

  lemma Takes(held: set<Lock>, l: Lock)
    requires Before(held, l)
    ensures Disciplined(held, [Acquire(l)], held + {l})
  {
    assert [Acquire(l)][1..] == [];
  }

  lemma Gives(held: set<Lock>, l: Lock)
    requires l in held
    ensures Disciplined(held, [Release(l)], held - {l})
  {
    assert [Release(l)][1..] == [];
  }

  lemma TouchIsDisciplined(held: set<Lock>, l: Lock)
    requires Before(held, l)
    ensures Disciplined(held, Touch(l), held)
  {
    Takes(held, l);
    Gives(held + {l}, l);
    assert held + {l} - {l} == held;
    Then(held, [Acquire(l)], held + {l}, [Release(l)], held);
    assert [Acquire(l)] + [Release(l)] == Touch(l);
  }

  lemma InsideIsDisciplined(held: set<Lock>, l: Lock, acts: seq<Action>)
    requires Before(held, l) && Disciplined(held + {l}, acts, held + {l})
    ensures Disciplined(held, Inside(l, acts), held)
  {
    Takes(held, l);
    Gives(held + {l}, l);
    assert held + {l} - {l} == held;
    Then(held, [Acquire(l)], held + {l}, acts, held + {l});
    Then(held, [Acquire(l)] + acts, held + {l}, [Release(l)], held);
  }

  lemma TwoTouches(held: set<Lock>, a: Lock, b: Lock)
    requires Before(held, a) && Before(held, b)
    ensures Disciplined(held, Touch(a) + Touch(b), held)
  {
    TouchIsDisciplined(held, a);
    TouchIsDisciplined(held, b);
    Then(held, Touch(a), held, Touch(b), held);
  }

  lemma ThreeTouches(held: set<Lock>, a: Lock, b: Lock, c: Lock)
    requires Before(held, a) && Before(held, b) && Before(held, c)
    ensures Disciplined(held, Touch(a) + Touch(b) + Touch(c), held)
  {
    TwoTouches(held, a, b);
    TouchIsDisciplined(held, c);
    Then(held, Touch(a) + Touch(b), held, Touch(c), held);
  }

  /** Small locks taken inside a frame's, as the commits do. */
  lemma FrameInside(held: set<Lock>, f: FrameId, a: Lock, b: Lock)
    requires Before(held, FrameLock(f)) && a.Rank() == 5 && b.Rank() == 5
    ensures Disciplined(held, Inside(FrameLock(f), Touch(a) + Touch(b)), held)
  {
    TwoTouches(held + {FrameLock(f)}, a, b);
    InsideIsDisciplined(held, FrameLock(f), Touch(a) + Touch(b));
  }

  lemma UnderState(acts: seq<Action>)
    requires Disciplined({StateLock}, acts, {StateLock})
    ensures Disciplined({}, Inside(StateLock, acts), {})
  {
    assert {} + {StateLock} == {StateLock};
    InsideIsDisciplined({}, StateLock, acts);
  }

  /** What opens a search: state_lock and then the replacer's lock stay held. */
  lemma SearchOpens(lookup: seq<Action>)
    requires Disciplined({StateLock}, lookup, {StateLock})
    ensures Disciplined({}, [Acquire(StateLock)] + lookup + [Acquire(ReplacerLock)], {StateLock, ReplacerLock})
  {
    assert {} + {StateLock} == {StateLock};
    Takes({}, StateLock);
    Then({}, [Acquire(StateLock)], {StateLock}, lookup, {StateLock});
    Takes({StateLock}, ReplacerLock);
    assert {StateLock} + {ReplacerLock} == {StateLock, ReplacerLock};
    Then({}, [Acquire(StateLock)] + lookup, {StateLock}, [Acquire(ReplacerLock)], {StateLock, ReplacerLock});
  }

  // --- operation by operation ---

  lemma FetchIsDisciplined(s: State, t: Tid, p: PageId)
    requires s.InBounds() && t < |s.threads| && s.threads[t] == Start(FetchPage(p))
    ensures Disciplined({}, FetchLocks(s, p), Holding(StartFetch(s, t, p).threads[t]))
  {
    var held, lookup := {StateLock}, Touch(PageTableLock) + Touch(InFlightLock) + Touch(FreeFramesLock);
    if p in s.table {
      TwoTouches(held, PageTableLock, FrameLock(s.table[p]));
      UnderState(Touch(PageTableLock) + Touch(FrameLock(s.table[p])));
    } else if p in s.inFlight {
      TwoTouches(held, PageTableLock, InFlightLock);
      UnderState(Touch(PageTableLock) + Touch(InFlightLock));
    } else {
      ThreeTouches(held, PageTableLock, InFlightLock, FreeFramesLock);
      if s.free == [] {
        SearchOpens(lookup);
      } else {
        TouchIsDisciplined(held, FrameLock(s.free[0]));
        Then(held, lookup, held, Touch(FrameLock(s.free[0])), held);
        UnderState(lookup + Touch(FrameLock(s.free[0])));
      }
    }
  }

  lemma NewIsDisciplined(s: State, t: Tid)
    requires s.InBounds() && t < |s.threads|
    ensures Disciplined({}, NewLocks(s), Holding(StartNew(s, t).threads[t]))
  {
    var held, lookup := {StateLock}, Touch(NextPageIdLock) + Touch(FreeFramesLock);
    if s.nextPageId >= MAX_PAGE_ID {
      TouchIsDisciplined(held, NextPageIdLock);
      UnderState(Touch(NextPageIdLock));
    } else {
      TwoTouches(held, NextPageIdLock, FreeFramesLock);
      if s.free == [] {
        SearchOpens(lookup);
      } else {
        var create := Inside(FrameLock(s.free[0]), Touch(PageTableLock) + Touch(NextPageIdLock));
        FrameInside(held, s.free[0], PageTableLock, NextPageIdLock);
        Then(held, lookup, held, create, held);
        UnderState(lookup + create);
      }
    }
  }

  lemma DeleteIsDisciplined(s: State, p: PageId)
    requires s.InBounds()
    ensures Disciplined({}, DeleteLocks(s, p), {})
  {
    var held := {StateLock};
    TouchIsDisciplined(held, PageTableLock);
    if p !in s.table {
      UnderState(Touch(PageTableLock));
    } else {
      var f := s.table[p];
      FrameInside(held, f, PageTableLock, FreeFramesLock);
      Then(held, Touch(PageTableLock), held, UnmapLocks(f), held);
      UnderState(Touch(PageTableLock) + UnmapLocks(f));
      TwoTouches(held, PageTableLock, FrameLock(f));
      UnderState(Touch(PageTableLock) + Touch(FrameLock(f)));
    }
  }

  lemma StartIsDisciplined(s: State, t: Tid, op: Op)
    requires s.InBounds() && t < |s.threads| && s.threads[t] == Start(op)
    ensures Disciplined({}, StartLocks(s, op), Holding(StartOp(s, t, op).threads[t]))
  {
    if op.FetchPage? {
      FetchIsDisciplined(s, t, op.page);
    } else if op.NewPage? {
      NewIsDisciplined(s, t);
    } else {
      AnswersHoldNothing(s, t, op);
      if op.DeletePage? {
        DeleteIsDisciplined(s, op.page);
      } else {
        TouchIsDisciplined({StateLock}, PageTableLock);
        UnderState(Touch(PageTableLock));
        if op.page in s.table {
          TwoTouches({StateLock}, PageTableLock, FrameLock(s.table[op.page]));
          UnderState(Touch(PageTableLock) + Touch(FrameLock(s.table[op.page])));
        }
      }
    }
  }

  lemma AnswersHoldNothing(s: State, t: Tid, op: Op)
    requires s.InBounds() && t < |s.threads| && !op.FetchPage? && !op.NewPage?
    ensures Holding(StartOp(s, t, op).threads[t]) == {}
  {
    if op.FlushPage? || op.DeletePage? {
      ReservationsHoldNothing(s, t, op);
    }
  }

  lemma ReservationsHoldNothing(s: State, t: Tid, op: Op)
    requires s.InBounds() && t < |s.threads| && (op.FlushPage? || op.DeletePage?)
    ensures Holding(StartOp(s, t, op).threads[t]) == {}
  {
  }

  lemma ScanIsDisciplined(s: State, t: Tid)
    requires s.InBounds() && t < |s.threads| && s.threads[t].Scan?
    ensures Disciplined({StateLock, ReplacerLock}, ScanLocks(s, t), Holding(ClockSection(s, t).threads[t]))
  {
    var held, next := {StateLock, ReplacerLock}, ClockSection(s, t).threads[t];
    var look := if s.frames == [] then [] else Touch(FrameLock(s.hand));
    var back := if next.Scan? then [] else if next.HoldsLock() then [Release(ReplacerLock)]
                else [Release(ReplacerLock), Release(StateLock)];
    if s.frames != [] {
      TouchIsDisciplined(held, FrameLock(s.hand));
    }
    GivesBack(next, back);
    Then(held, look, held, back, Holding(next));
  }

  lemma GivesBack(next: Pc, back: seq<Action>)
    requires back == if next.Scan? then [] else if next.HoldsLock() then [Release(ReplacerLock)]
                     else [Release(ReplacerLock), Release(StateLock)]
    ensures Disciplined({StateLock, ReplacerLock}, back, Holding(next))
  {
    var held := {StateLock, ReplacerLock};
    Gives(held, ReplacerLock);
    Gives({StateLock}, StateLock);
    assert held - {ReplacerLock} == {StateLock} && {StateLock} - {StateLock} == {};
    Then(held, [Release(ReplacerLock)], {StateLock}, [Release(StateLock)], {});
    assert [Release(ReplacerLock)] + [Release(StateLock)] == [Release(ReplacerLock), Release(StateLock)];
  }

  /** The steps that end a search after looking at one more frame, or none. */
  lemma ClockIsDisciplined(s: State, t: Tid)
    requires s.InBounds() && t < |s.threads| && s.threads[t].HoldsLock()
    ensures Disciplined(Holding(s.threads[t]), StepLocks(s, t), Holding(ClockSection(s, t).threads[t]))
  {
    var pc, held := s.threads[t], {StateLock};
    if pc.Scan? {
      ScanIsDisciplined(s, t);
    } else {
      Gives(held, StateLock);
      assert held - {StateLock} == {};
      var f := if pc.CheckReserved? then pc.i else pc.v;
      TouchIsDisciplined(held, FrameLock(f));
      Then(held, Touch(FrameLock(f)), held, [Release(StateLock)], {});
      if pc.HasVictim? {
        ReserveHoldsNothing(s, t, pc.goal, pc.v);
      }
    }
  }

  lemma ReserveHoldsNothing(s: State, t: Tid, goal: Goal, v: FrameId)
    requires t < |s.threads| && v < |s.frames|
    ensures Holding(ReserveVictim(s, t, goal, v).threads[t]) == {}
  {
  }

  lemma LoadHoldsNothing(s: State, t: Tid, io: Io)
    requires s.InBounds() && t < |s.threads| && s.threads[t].InLoad()
    ensures Holding(LoadSection(s, t, io).threads[t]) == {}
  {
  }

  lemma LoadIsDisciplined(s: State, t: Tid)
    requires s.InBounds() && t < |s.threads| && s.threads[t].InLoad()
    ensures Disciplined({}, StepLocks(s, t), {})
  {
    var pc, held := s.threads[t], {StateLock};
    TouchIsDisciplined({}, InFlightLock);
    TouchIsDisciplined({}, DiskLock);
    if pc.FreeLoad? {
      TouchIsDisciplined({}, FrameLock(pc.f));
    } else if pc.FreePublish? {
      TwoTouches(held, PageTableLock, InFlightLock);
      UnderState(Touch(PageTableLock) + Touch(InFlightLock));
    } else if pc.FreeRollback? {
      ThreeTouches(held, FrameLock(pc.f), FreeFramesLock, InFlightLock);
      UnderState(Touch(FrameLock(pc.f)) + Touch(FreeFramesLock) + Touch(InFlightLock));
    }
  }

  lemma CommitIsDisciplined(goal: Goal, v: FrameId, swapped: bool)
    ensures Disciplined({}, CommitLocks(goal, v, swapped), {})
  {
    var held := {StateLock};
    var last := if !swapped then [] else if goal.Load? then Touch(InFlightLock) else Touch(NextPageIdLock);
    TouchIsDisciplined(held + {FrameLock(v)}, PageTableLock);
    TouchIsDisciplined(held + {FrameLock(v)}, InFlightLock);
    TouchIsDisciplined(held + {FrameLock(v)}, NextPageIdLock);
    Then(held + {FrameLock(v)}, Touch(PageTableLock), held + {FrameLock(v)}, last, held + {FrameLock(v)});
    InsideIsDisciplined(held, FrameLock(v), Touch(PageTableLock) + last);
    UnderState(Inside(FrameLock(v), Touch(PageTableLock) + last));
  }

  lemma EvictionHoldsNothing(s: State, t: Tid, io: Io)
    requires s.InBounds() && t < |s.threads| && s.threads[t].InEviction()
    ensures Holding(VictimSection(s, t, io).threads[t]) == {}
  {
  }

  lemma EvictionIsDisciplined(s: State, t: Tid)
    requires s.InBounds() && t < |s.threads| && s.threads[t].InEviction()
    ensures Disciplined({}, StepLocks(s, t), {})
  {
    var pc := s.threads[t];
    TouchIsDisciplined({}, DiskLock);
    if pc.VictimCommit? {
      CommitIsDisciplined(pc.goal, pc.v, pc.goal.page !in s.table);
    } else if pc.VictimRollback? {
      TouchIsDisciplined({}, FrameLock(pc.v));
      TwoTouches({StateLock}, FrameLock(pc.v), InFlightLock);
      UnderState(Touch(FrameLock(pc.v)) + Touch(InFlightLock));
    }
  }

  lemma FlushHoldsNothing(s: State, t: Tid, io: Io)
    requires s.InBounds() && t < |s.threads| && s.threads[t].InFlush()
    ensures Holding(FlushSection(s, t, io).threads[t]) == {}
  {
    var pc := s.threads[t];
    if pc.FlushEnd? {
      EndFlushHoldsNothing(s, t, pc.purpose, pc.p, pc.f, pc.written);
    } else if pc.FlushCheck? {
      CheckFlushHoldsNothing(s, t, pc.purpose, pc.p, pc.f);
    }
  }

  lemma EndFlushHoldsNothing(s: State, t: Tid, purpose: Purpose, p: PageId, f: FrameId, written: bool)
    requires t < |s.threads| && f < |s.frames|
    ensures Holding(EndFlush(s, t, purpose, p, f, written).threads[t]) == {}
  {
  }

  lemma CheckFlushHoldsNothing(s: State, t: Tid, purpose: Purpose, p: PageId, f: FrameId)
    requires t < |s.threads| && f < |s.frames|
    ensures Holding(CheckFlush(s, t, purpose, p, f).threads[t]) == {}
  {
  }

  lemma FlushIsDisciplined(s: State, t: Tid)
    requires s.InBounds() && t < |s.threads| && s.threads[t].InFlush()
    ensures Disciplined({}, StepLocks(s, t), {})
  {
    var pc := s.threads[t];
    TouchIsDisciplined({}, DiskLock);
    TouchIsDisciplined({}, FrameLock(pc.f));
    if pc.DeleteCommit? {
      FrameInside({StateLock}, pc.f, PageTableLock, FreeFramesLock);
      UnderState(UnmapLocks(pc.f));
    }
  }

  /**
   * Every step of the protocol takes its locks in the order disk, state_lock, replacer,
   * one frame, one small lock, and leads from what the thread held before to what it
   * holds after.
   */
  lemma StepIsDisciplined(s: State, t: Tid, io: Io)
    requires s.InBounds() && Enabled(s, Work(t, io))
    ensures Disciplined(Holding(s.threads[t]), StepLocks(s, t), Holding(Section(s, t, io).threads[t]))
  {
    var pc := s.threads[t];
    if pc.Start? {
      StartIsDisciplined(s, t, pc.op);
    } else if pc.InLoad() {
      LoadIsDisciplined(s, t);
      LoadHoldsNothing(s, t, io);
    } else if pc.HoldsLock() {
      ClockIsDisciplined(s, t);
    } else if pc.InEviction() {
      EvictionIsDisciplined(s, t);
      EvictionHoldsNothing(s, t, io);
    } else {
      FlushIsDisciplined(s, t);
      FlushHoldsNothing(s, t, io);
    }
  }

  /** A thread that holds a lock between two steps never has to wait for its next step. */
  lemma HolderCanGoOn(s: State, t: Tid, io: Io)
    requires t < |s.threads| && Holding(s.threads[t]) != {}
    ensures Enabled(s, Work(t, io))
  {
  }

  // ---------------------------------------------------------------------------
  // Threads in the middle of their steps
  // ---------------------------------------------------------------------------

  /** A thread with the locks it holds, what is left of its step, and what it holds after that. */
  datatype Thread = Thread(held: set<Lock>, todo: seq<Action>, end: set<Lock>)

  type Threads = seq<Thread>

  ghost predicate Exclusive(ts: Threads) {
    forall t, u :: 0 <= t < |ts| && 0 <= u < |ts| && t != u ==> ts[t].held !! ts[u].held
  }

  ghost predicate Sound(ts: Threads) {
    && Exclusive(ts)
    && forall t :: 0 <= t < |ts| ==> Disciplined(ts[t].held, ts[t].todo, ts[t].end)
  }

  /** Thread t can take its next action: the lock it wants is free. */
  ghost predicate CanAct(ts: Threads, t: nat) {
    && t < |ts| && ts[t].todo != []
    && (ts[t].todo[0].Acquire? ==> forall u :: 0 <= u < |ts| ==> ts[t].todo[0].lock !in ts[u].held)
  }

  function Act(ts: Threads, t: nat): Threads
    requires t < |ts| && ts[t].todo != []
  {
    var a := ts[t].todo[0];
    ts[t := Thread(if a.Acquire? then ts[t].held + {a.lock} else ts[t].held - {a.lock}, ts[t].todo[1..], ts[t].end)]
  }

  lemma ActKeepsSound(ts: Threads, t: nat)
    requires Sound(ts) && CanAct(ts, t)
    ensures Sound(Act(ts, t))
  {
    assert Disciplined(ts[t].held, ts[t].todo, ts[t].end);
  }

  /** A thread that is between two steps of the protocol begins the next one. */
  lemma BeginKeepsSound(ts: Threads, t: Tid, s: State, io: Io)
    requires Sound(ts) && t < |ts| && ts[t].todo == []
    requires s.InBounds() && Enabled(s, Work(t, io)) && Holding(s.threads[t]) == ts[t].held
    ensures Sound(ts[t := Thread(ts[t].held, StepLocks(s, t), Holding(Section(s, t, io).threads[t]))])
  {
    StepIsDisciplined(s, t, io);
  }

  /** The disk is called only by a thread that holds no lock at all. */
  lemma DiskCallHoldsNothing(ts: Threads, t: nat)
    requires Sound(ts) && t < |ts| && ts[t].todo != [] && ts[t].todo[0] == Acquire(DiskLock)
    ensures ts[t].held == {}
  {
    assert Disciplined(ts[t].held, ts[t].todo, ts[t].end);
    assert forall h: Lock :: h.Rank() >= 1;
  }
}
