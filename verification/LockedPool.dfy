/**
 * The pool together with its locks and the threads asleep on state_cv, as one system. A
 * step of the protocol takes effect with its first lock; the thread then takes and gives
 * back the rest of its locks one at a time, while other threads move.
 */
module LockedPool {
  import opened Storage
  import opened BufferPool
  import opened PoolInvariant
  import opened PoolTheorems
  import opened PoolIds
  import opened LockOrder

  datatype System = System(pool: State, threads: Threads, asleep: set<Tid>)

  /** A thread takes or gives back the next lock of its step, or begins a step. */
  datatype Move = Proceed(tid: Tid) | Begin(step: Label)

  const AT_REST := Thread({}, [], {})

  function NewSystem(n: nat, threadCount: nat, disk: map<PageId, PageData>): System {
    System(Init(n, threadCount, disk), seq(threadCount, i => AT_REST), {})
  }

  // ---------------------------------------------------------------------------
  // Moves
  // ---------------------------------------------------------------------------

  ghost function Locks(s: State, l: Label): seq<Action>
    requires s.InBounds() && Enabled(s, l)
  {
    match l
    case Call(_, _) => []
    case Work(t, _) => StepLocks(s, t)
    case ClientWrite(_, p, _) => Touch(FrameLock(s.table[p]))
  }

  /** The section ends in a wait on state_cv: the page, or a frame that CLOCK might have taken, is reserved. */
  ghost predicate FallsAsleep(s: State, l: Label)
    requires s.InBounds() && Enabled(s, l)
  {
    && l.Work?
    && var pc := s.threads[l.tid];
       if pc.Start? && pc.op.FetchPage? then
         pc.op.page in s.table && s.frames[s.table[pc.op.page]].state.Reserved?
       else
         pc.CheckReserved? && pc.i < |s.frames| && s.frames[pc.i].state.Reserved?
  }

  /** The section wakes every thread that is asleep: only those that end a load do. */
  ghost predicate Notifies(s: State, l: Label)
    requires s.InBounds() && Enabled(s, l)
  {
    && l.Work?
    && var pc := s.threads[l.tid];
       || pc.FreePublish? || pc.FreeRollback?
       || (pc.VictimRollback? && pc.goal.Load?)
       || (pc.VictimCommit? && pc.goal.Load? && pc.goal.page !in s.table)
  }

  ghost function Sleepers(sys: System, l: Label): set<Tid>
    requires sys.pool.InBounds() && Enabled(sys.pool, l)
  {
    if FallsAsleep(sys.pool, l) then sys.asleep + {l.tid}
    else if Notifies(sys.pool, l) then {}
    else sys.asleep
  }

  /** The threads with l's thread about to take the locks of step l. */
  ghost function Begun(sys: System, l: Label): (ts: Threads)
    requires sys.pool.InBounds() && Enabled(sys.pool, l) && |sys.threads| == |sys.pool.threads|
    ensures |ts| == |sys.threads|
  {
    sys.threads[l.tid := Thread(sys.threads[l.tid].held, Locks(sys.pool, l), Holding(Step(sys.pool, l).threads[l.tid]))]
  }

  ghost predicate CanMove(sys: System, m: Move) {
    match m
    case Proceed(t) => CanAct(sys.threads, t)
    case Begin(l) =>
      && sys.pool.InBounds() && Enabled(sys.pool, l) && |sys.threads| == |sys.pool.threads|
      && sys.threads[l.tid].todo == [] && l.tid !in sys.asleep
      && (l.Call? || CanAct(Begun(sys, l), l.tid))
  }

  ghost function Moved(sys: System, m: Move): System
    requires CanMove(sys, m)
  {
    match m
    case Proceed(t) => sys.(threads := Act(sys.threads, t))
    case Begin(l) =>
      System(Step(sys.pool, l), if l.Call? then sys.threads else Act(Begun(sys, l), l.tid), Sleepers(sys, l))
  }

  // ---------------------------------------------------------------------------
  // What every move keeps
  // ---------------------------------------------------------------------------

  /** What thread t holds and is about to do fits where it stands in the protocol. */
  ghost predicate ThreadFits(sys: System, t: Tid)
    requires t < |sys.threads| == |sys.pool.threads|
  {
    && sys.threads[t].end == Holding(sys.pool.threads[t])
    && (t in sys.asleep ==> sys.pool.threads[t].Start? && sys.pool.threads[t].op.FetchPage?)
  }

  ghost predicate Consistent(sys: System) {
    && Inv(sys.pool) && Sound(sys.threads)
    && |sys.threads| == |sys.pool.threads|
    && forall t :: 0 <= t < |sys.threads| ==> ThreadFits(sys, t)
  }

  ghost predicate MayMove(sys: System, m: Move) {
    CanMove(sys, m) && (m.Begin? ==> Allowed(sys.pool, m.step))
  }

  lemma BegunIsSound(sys: System, l: Label)
    requires Consistent(sys) && sys.pool.InBounds() && Enabled(sys.pool, l) && sys.threads[l.tid].todo == [] && !l.Call?
    ensures Sound(Begun(sys, l))
  {
    var t, ts := l.tid, sys.threads;
    assert ThreadFits(sys, t);
    assert Disciplined(ts[t].held, ts[t].todo, ts[t].end);
    if l.Work? {
      BeginKeepsSound(ts, t, sys.pool, l.io);
    } else {
      OthersStay(sys.pool, l, t);
      TouchIsDisciplined({}, FrameLock(sys.pool.table[l.page]));
    }
  }

  lemma SleeperFetches(s: State, l: Label)
    requires s.InBounds() && Enabled(s, l) && FallsAsleep(s, l)
    ensures Step(s, l).threads[l.tid].Start? && Step(s, l).threads[l.tid].op.FetchPage?
  {
  }

  lemma BeginKeepsFits(sys: System, l: Label, u: Tid)
    requires Consistent(sys) && CanMove(sys, Begin(l)) && u < |sys.threads|
    ensures ThreadFits(Moved(sys, Begin(l)), u)
  {
    assert ThreadFits(sys, u);
    if l.tid != u || !l.Work? {
      OthersStay(sys.pool, l, u);
    } else if FallsAsleep(sys.pool, l) {
      SleeperFetches(sys.pool, l);
    }
  }

  /** Every allowed move keeps the invariant of the pool, the order of the locks, and their fit. */
  lemma MoveKeepsConsistent(sys: System, m: Move)
    requires Consistent(sys) && MayMove(sys, m)
    ensures Consistent(Moved(sys, m))
  {
    if m.Proceed? {
      ActKeepsSound(sys.threads, m.tid);
      forall u | 0 <= u < |sys.threads| ensures ThreadFits(Moved(sys, m), u) {
        assert ThreadFits(sys, u);
      }
    } else {
      var l := m.step;
      StepKeepsInv(sys.pool, l);
      if !l.Call? {
        BegunIsSound(sys, l);
        ActKeepsSound(Begun(sys, l), l.tid);
      }
      forall u | 0 <= u < |sys.threads| ensures ThreadFits(Moved(sys, m), u) {
        BeginKeepsFits(sys, l, u);
      }
    }
  }

  // ---------------------------------------------------------------------------
  // Walks
  // ---------------------------------------------------------------------------

  /** The moves `ms` can be made one after the other. */
  ghost predicate Walk(sys: System, ms: seq<Move>)
    decreases |ms|
  {
    ms != [] ==> MayMove(sys, ms[0]) && Walk(Moved(sys, ms[0]), ms[1..])
  }

  ghost function WalkEnd(sys: System, ms: seq<Move>): System
    requires Walk(sys, ms)
    decreases |ms|
  {
    if ms == [] then sys else WalkEnd(Moved(sys, ms[0]), ms[1..])
  }

  /** The steps of the protocol that a walk begins. */
  function StepsOf(ms: seq<Move>): seq<Label> {
    if ms == [] then [] else (if ms[0].Begin? then [ms[0].step] else []) + StepsOf(ms[1..])
  }

  /** With its locks, the pool does nothing that the protocol does not do. */
  lemma {:induction false} WalkIsRun(sys: System, ms: seq<Move>)
    requires Walk(sys, ms)
    ensures Run(sys.pool, StepsOf(ms)) && After(sys.pool, StepsOf(ms)) == WalkEnd(sys, ms).pool
    decreases |ms|
  {
    if ms != [] {
      WalkIsRun(Moved(sys, ms[0]), ms[1..]);
      if ms[0].Begin? {
        assert StepsOf(ms)[0] == ms[0].step && StepsOf(ms)[1..] == StepsOf(ms[1..]);
      } else {
        assert StepsOf(ms) == StepsOf(ms[1..]);
      }
    }
  }

  lemma {:induction false} WalkKeepsConsistent(sys: System, ms: seq<Move>)
    requires Consistent(sys) && Walk(sys, ms)
    ensures Consistent(WalkEnd(sys, ms))
    decreases |ms|
  {
    if ms != [] {
      MoveKeepsConsistent(sys, ms[0]);
      WalkKeepsConsistent(Moved(sys, ms[0]), ms[1..]);
    }
  }

  lemma NewSystemIsConsistent(n: nat, threadCount: nat, disk: map<PageId, PageData>)
    ensures Consistent(NewSystem(n, threadCount, disk))
  {
    InitInv(n, threadCount, disk);
    assert forall t :: 0 <= t < threadCount ==> NewSystem(n, threadCount, disk).threads[t] == AT_REST;
  }

  // ---------------------------------------------------------------------------
  // No deadlock
  // ---------------------------------------------------------------------------

  /** A move other than a new call or a client's write. */
  ghost predicate GoesOn(sys: System, m: Move) {
    CanMove(sys, m) && (m.Begin? ==> m.step.Work?)
  }

  /** Thread t is not inside a step, and is idle, asleep, or waiting for a page whose in-flight entry is abandoned. */
  ghost predicate Rests(sys: System, t: Tid)
    requires t < |sys.threads| == |sys.pool.threads|
  {
    var pc := sys.pool.threads[t];
    sys.threads[t].todo == [] && (pc.Idle? || t in sys.asleep || (pc.LoadWait? && pc.p in sys.pool.orphans))
  }

  /** Thread t is inside a step, or holds a lock between two steps of a search. */
  ghost predicate Busy(sys: System, t: Tid)
    requires t < |sys.threads| == |sys.pool.threads|
  {
    sys.threads[t].todo != [] || sys.pool.threads[t].HoldsLock()
  }

  lemma StepHasLocks(s: State, t: Tid)
    requires s.InBounds() && Enabled(s, Work(t, Ok))
    ensures StepLocks(s, t) != []
  {
    if s.threads[t].Start? && s.threads[t].op.DeletePage? {
      assert DeleteLocks(s, s.threads[t].op.page) != [];
    } else if s.threads[t].Scan? {
      assert s.frames == [] ==> !ClockSection(s, t).threads[t].Scan?;
    }
  }

  /** The threads with thread t inside the step it is in, or else the one that comes next. */
  ghost function Poised(sys: System, t: Tid): (ts: Threads)
    requires Consistent(sys) && t < |sys.threads| && Busy(sys, t)
    ensures |ts| == |sys.threads| && ts[t].todo != []
    ensures forall u :: 0 <= u < |ts| ==> ts[u].held == sys.threads[u].held
  {
    InvBounds(sys.pool);
    if sys.threads[t].todo != [] then sys.threads
    else
      HolderCanGoOn(sys.pool, t, Ok);
      StepHasLocks(sys.pool, t);
      Begun(sys, Work(t, Ok))
  }

  lemma PoisedIsSound(sys: System, t: Tid)
    requires Consistent(sys) && t < |sys.threads| && Busy(sys, t)
    ensures Sound(Poised(sys, t))
    ensures CanAct(Poised(sys, t), t) ==> GoesOn(sys, if sys.threads[t].todo != [] then Proceed(t) else Begin(Work(t, Ok)))
  {
    assert ThreadFits(sys, t);
    if sys.threads[t].todo == [] {
      InvBounds(sys.pool);
      HolderCanGoOn(sys.pool, t, Ok);
      BegunIsSound(sys, Work(t, Ok));
    }
  }

  const TOP := 6

  function Wanted(a: Action): nat
    ensures Wanted(a) <= TOP
  {
    if a.Acquire? then a.lock.Rank() else TOP
  }

  /** What the holder of a lock wants next comes after it in the order. */
  lemma HolderWantsMore(sys: System, u: Tid, l: Lock)
    requires Consistent(sys) && u < |sys.threads| && l in sys.threads[u].held
    ensures Busy(sys, u) && Wanted(Poised(sys, u)[u].todo[0]) > l.Rank()
  {
    assert ThreadFits(sys, u);
    assert Disciplined(sys.threads[u].held, sys.threads[u].todo, sys.threads[u].end);
    PoisedIsSound(sys, u);
    var ts := Poised(sys, u);
    assert Disciplined(ts[u].held, ts[u].todo, ts[u].end);
  }

  /**
   * Follow the thread that holds what is wanted: the rank of what is wanted only goes up,
   * through threads inside steps and threads in the middle of a search alike.
   */
  lemma {:induction false} BusyGoesOn(sys: System, t: Tid) returns (m: Move)
    requires Consistent(sys) && t < |sys.threads| && Busy(sys, t)
    ensures GoesOn(sys, m)
    decreases TOP - Wanted(Poised(sys, t)[t].todo[0])
  {
    var ts := Poised(sys, t);
    PoisedIsSound(sys, t);
    if CanAct(ts, t) {
      return if sys.threads[t].todo != [] then Proceed(t) else Begin(Work(t, Ok));
    }
    var l := ts[t].todo[0].lock;
    var u :| 0 <= u < |ts| && l in ts[u].held;
    HolderWantsMore(sys, u, l);
    m := BusyGoesOn(sys, u);
  }

  ghost predicate NobodyIsBusy(sys: System)
    requires |sys.threads| == |sys.pool.threads|
  {
    forall t :: 0 <= t < |sys.threads| ==> !Busy(sys, t)
  }

  /** When nobody is busy every lock is free. */
  lemma AllLocksAreFree(sys: System)
    requires Consistent(sys) && NobodyIsBusy(sys)
    ensures sys.pool.lock == None
    ensures forall t :: 0 <= t < |sys.threads| ==> sys.threads[t].held == {}
  {
    forall t | 0 <= t < |sys.threads| ensures sys.threads[t].held == {} && sys.pool.lock != Some(t) {
      assert !Busy(sys, t) && ThreadFits(sys, t);
      assert Disciplined(sys.threads[t].held, sys.threads[t].todo, sys.threads[t].end);
      assert ThreadOk(sys.pool, t);
    }
  }

  /** Then any thread that is awake and has a section to do can begin it. */
  lemma AwakeGoesOn(sys: System, t: Tid)
    requires Consistent(sys) && NobodyIsBusy(sys) && t < |sys.threads| && t !in sys.asleep
    requires !sys.pool.threads[t].Idle? && (sys.pool.threads[t].LoadWait? ==> sys.pool.threads[t].p !in sys.pool.inFlight)
    ensures GoesOn(sys, Begin(Work(t, Ok)))
  {
    AllLocksAreFree(sys);
    InvBounds(sys.pool);
    assert !Busy(sys, t);
    StepHasLocks(sys.pool, t);
    var ts := Begun(sys, Work(t, Ok));
    assert forall u :: 0 <= u < |ts| ==> ts[u].held == {};
  }

  /** A thread that does not rest lets some thread go on: itself, one that holds a lock, or the loader of the page it wants. */
  lemma UnrestGoesOn(sys: System, t: Tid) returns (m: Move)
    requires Consistent(sys) && t < |sys.threads| && !Rests(sys, t)
    ensures GoesOn(sys, m)
  {
    if u :| 0 <= u < |sys.threads| && Busy(sys, u) {
      m := BusyGoesOn(sys, u);
      return;
    }
    var pc := sys.pool.threads[t];
    assert !Busy(sys, t);
    var u := t;
    if pc.LoadWait? && pc.p in sys.pool.inFlight {
      u :| 0 <= u < |sys.threads| && Loads(sys.pool.threads[u], pc.p);
      assert ThreadFits(sys, u);
    }
    AwakeGoesOn(sys, u);
    m := Begin(Work(u, Ok));
  }

  lemma RestDoesNotGoOn(sys: System, m: Move)
    requires Consistent(sys) && GoesOn(sys, m)
    ensures exists t :: 0 <= t < |sys.threads| && !Rests(sys, t)
  {
    var t := if m.Proceed? then m.tid else m.step.tid;
    assert !Rests(sys, t);
  }

  /**
   * No deadlock: a system in which nothing can go on without a new call is one in which
   * every thread is idle, asleep on state_cv, or waits for an abandoned page.
   */
  lemma StuckExactly(sys: System)
    requires Consistent(sys)
    ensures (exists m :: GoesOn(sys, m)) <==> exists t :: 0 <= t < |sys.threads| && !Rests(sys, t)
  {
    if m :| GoesOn(sys, m) {
      RestDoesNotGoOn(sys, m);
    }
    if t :| 0 <= t < |sys.threads| && !Rests(sys, t) {
      var m := UnrestGoesOn(sys, t);
    }
  }

  /** Of every system that any walk leads to. */
  lemma WalkIsStuckExactly(n: nat, threadCount: nat, disk: map<PageId, PageData>, ms: seq<Move>)
    requires Walk(NewSystem(n, threadCount, disk), ms)
    ensures var sys := WalkEnd(NewSystem(n, threadCount, disk), ms);
            && Reachable(sys.pool) && |sys.threads| == |sys.pool.threads|
            && ((exists m :: GoesOn(sys, m)) <==> exists t :: 0 <= t < |sys.threads| && !Rests(sys, t))
  {
    NewSystemIsConsistent(n, threadCount, disk);
    WalkKeepsConsistent(NewSystem(n, threadCount, disk), ms);
    WalkIsRun(NewSystem(n, threadCount, disk), ms);
    StuckExactly(WalkEnd(NewSystem(n, threadCount, disk), ms));
  }
}
