/** A run after which a fetch sleeps on, though the page it wants is there and nobody uses it. */
module LostWakeups {
  import opened Storage
  import opened Frames
  import opened BufferPool
  import opened PoolInvariant
  import opened PoolRaces
  import opened LockOrder
  import opened LockedPool

  // ---------------------------------------------------------------------------
  // Whole steps
  // ---------------------------------------------------------------------------

  /** The system while no thread is inside a step or holds a lock. */
  function Calm(s: State, asleep: set<Tid>): System {
    System(s, seq(|s.threads|, i => AT_REST), asleep)
  }

  ghost predicate Leads(a: System, b: System) {
    exists ms :: Walk(a, ms) && WalkEnd(a, ms) == b
  }

  lemma LeadsToItself(a: System)
    ensures Leads(a, a)
  {
    assert Walk(a, []) && WalkEnd(a, []) == a;
  }

  lemma {:induction false} WalksJoin(a: System, ms: seq<Move>, ns: seq<Move>)
    requires Walk(a, ms) && Walk(WalkEnd(a, ms), ns)
    ensures Walk(a, ms + ns) && WalkEnd(a, ms + ns) == WalkEnd(WalkEnd(a, ms), ns)
    decreases |ms|
  {
    if ms == [] {
      assert ms + ns == ns;
    } else {
      assert (ms + ns)[0] == ms[0] && (ms + ns)[1..] == ms[1..] + ns;
      WalksJoin(Moved(a, ms[0]), ms[1..], ns);
    }
  }

  lemma LeadsOn(a: System, b: System, c: System)
    requires Leads(a, b) && Leads(b, c)
    ensures Leads(a, c)
  {
    var ms :| Walk(a, ms) && WalkEnd(a, ms) == b;
    var ns :| Walk(b, ns) && WalkEnd(b, ns) == c;
    WalksJoin(a, ms, ns);
  }

  lemma MoveLeads(a: System, m: Move)
    requires MayMove(a, m)
    ensures Leads(a, Moved(a, m))
  {
    assert [m][1..] == [];
    assert Walk(Moved(a, m), []);
    assert Walk(a, [m]) && WalkEnd(a, [m]) == Moved(a, m);
  }

  /** What is left of a step is carried out as long as no other thread holds a lock. */
  lemma {:induction false} FinishAlone(sys: System, t: Tid)
    requires Sound(sys.threads) && t < |sys.threads|
    requires forall u :: 0 <= u < |sys.threads| && u != t ==> sys.threads[u].held == {}
    ensures Leads(sys, sys.(threads := sys.threads[t := Thread(sys.threads[t].end, [], sys.threads[t].end)]))
    decreases |sys.threads[t].todo|
  {
    var th := sys.threads[t];
    assert Disciplined(th.held, th.todo, th.end);
    if th.todo == [] {
      assert sys.threads[t := Thread(th.end, [], th.end)] == sys.threads;
      LeadsToItself(sys);
    } else {
      var next := Moved(sys, Proceed(t));
      ActKeepsSound(sys.threads, t);
      MoveLeads(sys, Proceed(t));
      FinishAlone(next, t);
      assert next.threads[t := Thread(th.end, [], th.end)] == sys.threads[t := Thread(th.end, [], th.end)];
      LeadsOn(sys, next, sys.(threads := sys.threads[t := Thread(th.end, [], th.end)]));
    }
  }

  lemma BeginAlone(s: State, asleep: set<Tid>, l: Label)
    requires Consistent(Calm(s, asleep)) && s.InBounds() && Enabled(s, l) && l.tid !in asleep
    ensures CanMove(Calm(s, asleep), Begin(l))
  {
    if l.Work? {
      StepHasLocks(s, l.tid);
    }
  }

  /** A step that ends without a lock can be carried out as a whole. */
  lemma StepAlone(s: State, asleep: set<Tid>, l: Label)
    requires Consistent(Calm(s, asleep)) && s.InBounds() && Enabled(s, l) && Allowed(s, l) && l.tid !in asleep
    requires Holding(Step(s, l).threads[l.tid]) == {}
    ensures Leads(Calm(s, asleep), Calm(Step(s, l), Sleepers(Calm(s, asleep), l)))
  {
    var sys, t := Calm(s, asleep), l.tid;
    BeginAlone(s, asleep, l);
    MoveLeads(sys, Begin(l));
    MoveKeepsConsistent(sys, Begin(l));
    var begun := Moved(sys, Begin(l));
    var end := Calm(Step(s, l), Sleepers(sys, l));
    if l.Call? {
      assert begun == end;
    } else {
      FinishAlone(begun, t);
      assert begun.threads[t := AT_REST] == end.threads;
      LeadsOn(sys, begun, end);
    }
  }

  /** From a new system a walk leads to s, with nobody inside a step. */
  ghost predicate Comes(s: State, asleep: set<Tid>) {
    Leads(NewSystem(1, 2, map[]), Calm(s, asleep))
  }

  lemma ComesFits(s: State, asleep: set<Tid>)
    requires Comes(s, asleep)
    ensures Consistent(Calm(s, asleep)) && s.InBounds()
  {
    var a := NewSystem(1, 2, map[]);
    var ms :| Walk(a, ms) && WalkEnd(a, ms) == Calm(s, asleep);
    NewSystemIsConsistent(1, 2, map[]);
    WalkKeepsConsistent(a, ms);
    InvBounds(s);
  }

  lemma ThenStep(s: State, asleep: set<Tid>, l: Label, s': State, asleep': set<Tid>)
    requires Comes(s, asleep) && s.InBounds() && Enabled(s, l) && Allowed(s, l) && l.tid !in asleep
    requires Step(s, l) == s' && Holding(s'.threads[l.tid]) == {} && Sleepers(Calm(s, asleep), l) == asleep'
    ensures Comes(s', asleep')
  {
    ComesFits(s, asleep);
    StepAlone(s, asleep, l);
    LeadsOn(NewSystem(1, 2, map[]), Calm(s, asleep), Calm(s', asleep'));
  }

  lemma ThenSection(s: State, asleep: set<Tid>, t: Tid, s': State)
    requires Comes(s, asleep) && PoolRaces.Takes(s, t, Ok, s') && Allowed(s, Work(t, Ok)) && t !in asleep
    requires !s.threads[t].Start? && !s.threads[t].InLoad() && !s.threads[t].InEviction() && !s.threads[t].HoldsLock()
    requires Holding(s'.threads[t]) == {}
    ensures Comes(s', asleep)
  {
    ThenStep(s, asleep, Work(t, Ok), s', asleep);
  }

  lemma ThenOp(s: State, t: Tid, op: Op, s': State, asleep': set<Tid>)
    requires Comes(s, {}) && Calls(s, t, op, s') && MayStart(s, op)
    requires Holding(s'.threads[t]) == {}
    requires asleep' == if op.FetchPage? && op.page in s.table && s.frames[s.table[op.page]].state.Reserved? then {t} else {}
    ensures Comes(s', asleep')
  {
    var called := s.Goto(t, Start(op));
    ThenStep(s, {}, Call(t, op), called, {});
    ThenStep(called, {}, Work(t, Ok), s', asleep');
  }

  // ---------------------------------------------------------------------------
  // A fetch during a flush
  // ---------------------------------------------------------------------------

  function Moving0(): FrameValue {
    Unpinned0().InState(Reserved)
  }

  function Flushing(): State {
    One(Moving0(), map[], None, FlushCheck(Flush, P0, 0), Idle(NoReply), 0)
  }

  /** Thread 1 has asked for page 0 and sleeps; thread 0 is about to go on with its flush at `pc`. */
  function Sleeping(frame: FrameValue, disk: map<PageId, PageData>, pc: Pc): State {
    One(frame, disk, None, pc, Start(FetchPage(P0)), 0)
  }

  function Waiting(): State {
    Sleeping(Moving0(), map[], FlushCheck(Flush, P0, 0))
  }

  function Storing(): State {
    Sleeping(Moving0(), map[], FlushWrite(Flush, P0, 0, P0, ZeroPage()))
  }

  function Stored(): State {
    Sleeping(Moving0(), map[P0 := ZeroPage()], FlushEnd(Flush, P0, 0, true))
  }

  function Cleaned(): State {
    Sleeping(Moving0().WithDirty(false), map[P0 := ZeroPage()], FlushDone(P0, 0))
  }

  function Forgotten(): State {
    Sleeping(Unpinned0().WithDirty(false), map[P0 := ZeroPage()], Idle(Done))
  }

  lemma SleepSteps()
    ensures Calls(Released(), 0, FlushPage(P0), Flushing())
    ensures Calls(Flushing(), 1, FetchPage(P0), Waiting())
  {
  }

  lemma FlushSteps()
    ensures PoolRaces.Takes(Waiting(), 0, Ok, Storing())
    ensures PoolRaces.Takes(Storing(), 0, Ok, Stored())
  {
  }

  lemma FlushEndSteps()
    ensures PoolRaces.Takes(Stored(), 0, Ok, Cleaned())
    ensures PoolRaces.Takes(Cleaned(), 0, Ok, Forgotten())
  {
  }

  lemma PageIsCreated()
    ensures Comes(Created(), {})
  {
    LeadsToItself(NewSystem(1, 2, map[]));
    assert NewSystem(1, 2, map[]) == Calm(Init(1, 2, map[]), {});
    CreateSteps();
    ThenOp(Init(1, 2, map[]), 0, NewPage, Created(), {});
  }

  lemma PageIsReleased()
    ensures Comes(Released(), {})
  {
    PageIsCreated();
    CreateSteps();
    ThenOp(Created(), 0, UnpinPage(P0), Released(), {});
  }

  lemma FetchFallsAsleep()
    ensures Comes(Waiting(), {1})
  {
    PageIsReleased();
    SleepSteps();
    ThenOp(Released(), 0, FlushPage(P0), Flushing(), {});
    ThenOp(Flushing(), 1, FetchPage(P0), Waiting(), {1});
  }

  lemma FlushIsStoring()
    ensures Comes(Storing(), {1})
  {
    FetchFallsAsleep();
    FlushSteps();
    ThenSection(Waiting(), {1}, 0, Storing());
  }

  lemma FlushIsStored()
    ensures Comes(Stored(), {1})
  {
    FlushIsStoring();
    FlushSteps();
    ThenSection(Storing(), {1}, 0, Stored());
  }

  lemma PageIsCleaned()
    ensures Comes(Cleaned(), {1})
  {
    FlushIsStored();
    FlushEndSteps();
    ThenSection(Stored(), {1}, 0, Cleaned());
  }

  lemma FlushEnds()
    ensures Comes(Forgotten(), {1})
  {
    PageIsCleaned();
    FlushEndSteps();
    ThenSection(Cleaned(), {1}, 0, Forgotten());
  }

  /**
   * new_page, unpin_page and flush_page by one thread, and a fetch of the page by another
   * while it is written: the flush ends without a word to the fetch. The page is resident
   * and nobody uses it, yet nothing goes on.
   */
  lemma FlushLeavesFetchAsleep()
    ensures Comes(Forgotten(), {1}) && Forgotten().threads == [Idle(Done), Start(FetchPage(P0))]
    ensures P0 in Forgotten().table && Forgotten().frames[Forgotten().table[P0]].state == Resident
    ensures forall m :: !GoesOn(Calm(Forgotten(), {1}), m)
  {
    FlushEnds();
    ComesFits(Forgotten(), {1});
    StuckExactly(Calm(Forgotten(), {1}));
  }

  /** A sleeping thread is woken exactly by a move that takes a page out of flight. */
  lemma WokenExactly(sys: System, m: Move, t: Tid)
    requires Consistent(sys) && MayMove(sys, m) && t in sys.asleep
    ensures t in Moved(sys, m).asleep <==> sys.pool.inFlight <= Moved(sys, m).pool.inFlight
  {
    if m.Begin? && m.step.Work? {
      SectionEndsLoadExactly(sys.pool, m.step);
    }
  }

  lemma SectionEndsLoadExactly(s: State, l: Label)
    requires Inv(s) && s.InBounds() && Enabled(s, l) && Allowed(s, l) && l.Work?
    ensures Notifies(s, l) <==> !(s.inFlight <= Step(s, l).inFlight)
  {
    var t := l.tid;
    var pc := s.threads[t];
    assert ThreadOk(s, t);
    if pc.Start? {
      StartKeepsFlights(s, t, pc.op);
    } else if pc.InFlush() {
      FlushKeepsFlights(s, t, l.io);
    } else if pc.InEviction() {
      EvictionEndsLoad(s, l);
    } else if Notifies(s, l) {
      assert pc.p in s.inFlight && pc.p !in Step(s, l).inFlight;
    }
  }

  lemma EvictionEndsLoad(s: State, l: Label)
    requires Inv(s) && s.InBounds() && Enabled(s, l) && Allowed(s, l) && l.Work? && s.threads[l.tid].InEviction()
    ensures Notifies(s, l) <==> !(s.inFlight <= Step(s, l).inFlight)
  {
    var pc := s.threads[l.tid];
    assert ThreadOk(s, l.tid);
    if Notifies(s, l) {
      assert pc.goal.page in s.inFlight && pc.goal.page !in Step(s, l).inFlight;
    }
  }

  lemma StartKeepsFlights(s: State, t: Tid, op: Op)
    requires s.InBounds() && t < |s.threads|
    ensures s.inFlight <= StartOp(s, t, op).inFlight
  {
  }

  lemma FlushKeepsFlights(s: State, t: Tid, io: Io)
    requires s.InBounds() && t < |s.threads| && s.threads[t].InFlush()
    ensures s.inFlight <= FlushSection(s, t, io).inFlight
  {
  }
}
