/** The inductive invariant of the buffer-pool protocol, stated through what each thread owns. */
module PoolInvariant {
  import opened Storage
  import opened Frames
  import opened PageTables
  import opened ClockReplacers
  import opened BufferPool

  // ---------------------------------------------------------------------------
  // What a program point owns
  // ---------------------------------------------------------------------------

  /**
   * A thread's claim on a frame.
   * Empty:  reserved, holds no page, a page is being read for it.
   * Full:   holds the page that was read, pinned once, not published yet.
   * Busy:   mapped and reserved; `exclusive` when nobody may have it pinned, `synced`
   *         when its bytes are known to be on disk.
   */
  datatype Claim =
    | Nothing
    | Empty(f: FrameId)
    | Full(f: FrameId, p: PageId)
    | Busy(f: FrameId, p: PageId, exclusive: bool, synced: bool)

  function ClaimOf(pc: Pc): Claim {
    match pc
    case FreeRead(_, f) => Empty(f)
    case FreeLoad(_, f, _) => Empty(f)
    case FreeRollback(_, f) => Empty(f)
    case FreePublish(p, f) => Full(f, p)
    case VictimWrite(_, v, oldPage, _) => Busy(v, oldPage, true, false)
    case VictimRead(_, v, oldPage) => Busy(v, oldPage, true, true)
    case VictimCommit(_, v, oldPage, _) => Busy(v, oldPage, true, true)
    case VictimRollback(_, v, oldPage) => Busy(v, oldPage, true, false)
    case FlushCheck(purpose, p, f) => Busy(f, p, purpose.Delete?, false)
    case FlushWrite(purpose, p, f, _, _) => Busy(f, p, purpose.Delete?, false)
    case FlushEnd(purpose, p, f, written) => Busy(f, p, purpose.Delete?, written)
    case FlushDone(p, f) => Busy(f, p, false, true)
    case DeleteCommit(p, f) => Busy(f, p, true, true)
    case _ => Nothing
  }

  predicate Claims(pc: Pc, f: FrameId) {
    !ClaimOf(pc).Nothing? && ClaimOf(pc).f == f
  }

  /** The page whose in-flight entry this thread is responsible for. */
  function LoadOf(pc: Pc): Option<PageId> {
    match pc
    case FreeRead(p, _) => Some(p)
    case FreeLoad(p, _, _) => Some(p)
    case FreePublish(p, _) => Some(p)
    case FreeRollback(p, _) => Some(p)
    case CheckReserved(p, _) => Some(p)
    case VictimRead(p, _, _) => Some(p)
    case _ => if GoalOf(pc).Some? && GoalOf(pc).value.Load? then Some(GoalOf(pc).value.page) else None
  }

  function GoalOf(pc: Pc): Option<Goal> {
    match pc
    case Scan(goal, _, _) => Some(goal)
    case HasVictim(goal, _) => Some(goal)
    case VictimWrite(goal, _, _, _) => Some(goal)
    case VictimCommit(goal, _, _, _) => Some(goal)
    case VictimRollback(goal, _, _) => Some(goal)
    case _ => None
  }

  predicate Loads(pc: Pc, p: PageId) {
    LoadOf(pc) == Some(p)
  }

  /** The thread is inside new_page. */
  predicate Creating(pc: Pc) {
    pc == Start(NewPage) || (GoalOf(pc).Some? && GoalOf(pc).value.Create?)
  }

  /** The errors that stand for a broken manager: no reachable reply carries one. */
  predicate Broken(r: Reply) {
    r.Failed? && match r.error
                 case FrameError(fault) => !fault.CannotUnpin?
                 case TableError(_) => true
                 case FrameNotReserved => true
                 case _ => false
  }

  // ---------------------------------------------------------------------------
  // The invariant
  // ---------------------------------------------------------------------------

  ghost predicate Published(s: State, f: FrameId) {
    && f < |s.frames|
    && s.frames[f].metadata.Some?
    && s.frames[f].metadata.value.pageId in s.table
    && s.table[s.frames[f].metadata.value.pageId] == f
  }

  ghost predicate Claimed(s: State, f: FrameId) {
    exists t :: 0 <= t < |s.threads| && Claims(s.threads[t], f)
  }

  ghost predicate ClaimOk(s: State, c: Claim) {
    match c
    case Nothing => true
    case Empty(f) => f < |s.frames| && s.frames[f].state == Reserved && s.frames[f].metadata == None
    case Full(f, p) => f < |s.frames| && s.frames[f] == LoadedFrame(p, s.Disk(p))
    case Busy(f, p, exclusive, synced) =>
      && p in s.table && s.table[p] == f && f < |s.frames|
      && s.frames[f].state == Reserved
      && (exclusive ==> !s.frames[f].IsPinned())
      && (synced ==> s.frames[f].data == s.Disk(p))
  }

  ghost predicate LoadOk(s: State, p: PageId) {
    p !in s.table && p in s.inFlight && p !in s.orphans
  }

  /** What the local variables of a program point promise. */
  ghost predicate LocalsOk(s: State, pc: Pc) {
    match pc
    case Idle(reply) => !Broken(reply)
    case FreeLoad(p, _, buffer) => buffer == s.Disk(p)
    case HasVictim(goal, v) => Published(s, v) && s.frames[v].state.Resident? && !s.frames[v].IsPinned()
    case VictimWrite(_, v, _, oldData) => v < |s.frames| && oldData == s.frames[v].data && s.frames[v].IsDirty()
    case VictimCommit(goal, _, _, buffer) => buffer == if goal.Load? then s.Disk(goal.page) else ZeroPage()
    case FlushWrite(_, p, f, target, bytes) => target == p && f < |s.frames| && bytes == s.frames[f].data && s.frames[f].IsDirty()
    case DeleteFailed(_, f, error) => f < |s.frames| && error == DiskError
    case _ => true
  }

  ghost predicate ThreadOk(s: State, t: Tid)
    requires t < |s.threads|
  {
    var pc := s.threads[t];
    && ClaimOk(s, ClaimOf(pc))
    && (LoadOf(pc).Some? ==> LoadOk(s, LoadOf(pc).value))
    && (GoalOf(pc).Some? && GoalOf(pc).value.Create? ==> GoalOf(pc).value.page < MAX_PAGE_ID)
    && (pc.HoldsLock() <==> s.lock == Some(t))
    && LocalsOk(s, pc)
  }

  predicate Apart(a: Pc, b: Pc) {
    && (!ClaimOf(a).Nothing? && !ClaimOf(b).Nothing? ==> ClaimOf(a).f != ClaimOf(b).f)
    && (LoadOf(a).Some? ==> LoadOf(a) != LoadOf(b))
  }

  ghost predicate PageOk(s: State, p: PageId)
    requires p in s.table
  {
    var f := s.table[p];
    && f < |s.frames|
    && s.frames[f].metadata.Some?
    && s.frames[f].metadata.value.pageId == p
    && s.frames[f].metadata.value.pinCount == s.Pins(p)
    && !s.frames[f].state.Free?
    && (!s.frames[f].IsDirty() ==> s.frames[f].data == s.Disk(p))
  }

  ghost predicate FrameOk(s: State, f: FrameId)
    requires f < |s.frames|
  {
    match s.frames[f].state
    case Free => f in s.free
    case Resident => Published(s, f) || Claimed(s, f)
    case Reserved => Claimed(s, f)
  }

  ghost predicate ThreadsOk(s: State) {
    && (forall t :: 0 <= t < |s.threads| ==> ThreadOk(s, t))
    && (forall t, u :: 0 <= t < |s.threads| && 0 <= u < |s.threads| && t != u ==> Apart(s.threads[t], s.threads[u]))
    && (s.lock.Some? ==> s.lock.value < |s.threads| && s.free == [])
  }

  ghost predicate PagesOk(s: State) {
    forall p :: p in s.table ==> PageOk(s, p)
  }

  ghost predicate FramesOk(s: State) {
    forall f :: 0 <= f < |s.frames| ==> FrameOk(s, f)
  }

  ghost predicate FreeOk(s: State) {
    && (forall i :: 0 <= i < |s.free| ==>
                      s.free[i] < |s.frames| && s.frames[s.free[i]].state.Free? && s.frames[s.free[i]].metadata.None?)
    && (forall i, j :: 0 <= i < j < |s.free| ==> s.free[i] != s.free[j])
  }

  ghost predicate InFlightOk(s: State) {
    && (forall p :: p in s.inFlight ==> p in s.orphans || HasLoader(s, p))
    && s.orphans <= s.inFlight
    && s.orphans !! s.table.Keys
  }

  ghost predicate HasLoader(s: State, p: PageId) {
    exists t :: 0 <= t < |s.threads| && Loads(s.threads[t], p)
  }

  ghost predicate PinsOk(s: State) {
    && (forall p: PageId :: p !in s.table ==> s.Pins(p) == 0)
    && (s.frames != [] ==> s.hand < |s.frames|)
  }

  ghost predicate Inv(s: State) {
    && ThreadsOk(s)
    && PagesOk(s)
    && FramesOk(s)
    && FreeOk(s)
    && InFlightOk(s)
    && PinsOk(s)
  }

  lemma InvBounds(s: State)
    requires Inv(s)
    ensures s.InBounds()
  {
    forall t | 0 <= t < |s.threads| && s.threads[t].FrameOf().Some?
      ensures s.threads[t].FrameOf().value < |s.frames|
    {
      assert ThreadOk(s, t);
    }
    forall p | p in s.table ensures s.table[p] < |s.frames| {
      assert PageOk(s, p);
    }
  }

  /** Nobody has page n mapped or is loading it, and no abandoned entry of it is left. */
  predicate Unused(s: State, n: PageId) {
    n !in s.table && n !in s.inFlight
  }

  /** A fetch of page p would find it in a frame it may pin at once. */
  predicate Hits(s: State, p: PageId) {
    p in s.table && s.table[p] < |s.frames| && !s.frames[s.table[p]].state.Reserved?
  }

  /** The id that the next section of a thread at pc gives to a new page, if it is such a section. */
  function HandsOut(s: State, pc: Pc): Option<PageId> {
    match pc
    case Start(NewPage) => if s.nextPageId < MAX_PAGE_ID && s.free != [] then Some(s.nextPageId) else None
    case VictimCommit(Create(n), _, _, _) => Some(n)
    case _ => None
  }

  /**
   * The steps the theorems are about. Calls are not restricted at all: any operation on
   * any page, at any time. Left out are three kinds of sections, each by a condition on
   * the state in which it would start, and `PoolLimits` shows that each condition is
   * exact: a hit on a page with 255 pins, a new_page that hands out an id which is in use,
   * and the second set_resident of a failed delete on a frame that is not resident.
   */
  ghost predicate Allowed(s: State, l: Label) {
    match l
    case Work(t, io) =>
      && t < |s.threads|
      && (HandsOut(s, s.threads[t]).Some? ==> Unused(s, HandsOut(s, s.threads[t]).value))
      && (s.threads[t].DeleteFailed? && s.threads[t].f < |s.frames| ==> s.frames[s.threads[t].f].state.Resident?)
      && (s.threads[t].Start? && s.threads[t].op.FetchPage? && Hits(s, s.threads[t].op.page) ==>
            s.Pins(s.threads[t].op.page) < MAX_PINS)
    case _ => true
  }

  // ---------------------------------------------------------------------------
  // A step is local: it touches one frame, the pages mapped to it, and one thread
  // ---------------------------------------------------------------------------

  /** From s to s' only thread t moved and only frame f (if there is one of that number) was touched. */
  ghost predicate Local(s: State, s': State, t: Tid, f: FrameId) {
    && t < |s.threads| && |s'.threads| == |s.threads|
    && LocalFrames(s, s', t, f)
    && LocalPages(s, s', t, f)
    && LocalLoads(s, s', t)
  }

  ghost predicate LocalFrames(s: State, s': State, t: Tid, f: FrameId)
    requires t < |s.threads| && |s'.threads| == |s.threads|
  {
    && |s'.frames| == |s.frames|
    && (forall u :: 0 <= u < |s.threads| && u != t ==> s'.threads[u] == s.threads[u])
    && (forall g :: 0 <= g < |s.frames| && g != f ==> s'.frames[g] == s.frames[g])
    && (ClaimOf(s.threads[t]).Nothing? || Claims(s.threads[t], f))
    && (ClaimOf(s'.threads[t]).Nothing? || Claims(s'.threads[t], f))
    && (s.lock == s'.lock || (s.lock == Some(t) && s'.lock == None) || (s.lock == None && s'.lock == Some(t)))
    && QueueMoves(s.free, s'.free, f)
    && (s.frames != [] ==> s'.hand < |s.frames|)
  }

  ghost predicate LocalPages(s: State, s': State, t: Tid, f: FrameId)
    requires t < |s.threads| && |s'.threads| == |s.threads|
  {
    && (forall p :: p in s.table && s.table[p] != f ==> p in s'.table && s'.table[p] == s.table[p])
    && (forall p :: p in s'.table && s'.table[p] != f ==> p in s.table && s.table[p] == s'.table[p])
    && (forall p :: p in s'.table && p !in s.table ==> Loads(s.threads[t], p) || p !in s.inFlight)
    && (forall p: PageId :: s'.Disk(p) == s.Disk(p) || (p in s.table && s.table[p] == f))
    && (forall p: PageId :: s'.Pins(p) == s.Pins(p) || (p in s'.table && s'.table[p] == f))
  }

  ghost predicate LocalLoads(s: State, s': State, t: Tid)
    requires t < |s.threads| && |s'.threads| == |s.threads|
  {
    && (forall p: PageId :: (p in s'.inFlight <==> p in s.inFlight) || Loads(s.threads[t], p) || Loads(s'.threads[t], p))
    && (forall p: PageId :: (p in s'.orphans <==> p in s.orphans) || Loads(s.threads[t], p))
    && (forall p: PageId :: Loads(s'.threads[t], p) && !Loads(s.threads[t], p) ==> p !in s.inFlight)
  }

  /** The free list is left alone, loses f at the front, or gains f at the back. */
  ghost predicate QueueMoves(q: seq<FrameId>, q': seq<FrameId>, f: FrameId) {
    q' == q || q == [f] + q' || (q' == q + [f] && f !in q)
  }

  /** No thread but t has to do with frame f. */
  ghost predicate Unowned(s: State, t: Tid, f: FrameId) {
    forall u :: 0 <= u < |s.threads| && u != t ==>
                  !Claims(s.threads[u], f) && (s.threads[u].HasVictim? ==> s.threads[u].v != f)
  }

  /** Every other thread finds what it relies on as it left it. */
  lemma BystanderOk(s: State, s': State, t: Tid, f: FrameId, u: Tid)
    requires Inv(s) && Local(s, s', t, f) && Unowned(s, t, f)
    requires u < |s.threads| && u != t
    ensures ThreadOk(s', u)
  {
    assert ThreadOk(s, u);
    BystanderLocalsOk(s, s', t, f, u);
    assert Apart(s.threads[t], s.threads[u]);
  }

  lemma BystanderLocalsOk(s: State, s': State, t: Tid, f: FrameId, u: Tid)
    requires Inv(s) && Local(s, s', t, f) && Unowned(s, t, f)
    requires u < |s.threads| && u != t
    ensures LocalsOk(s', s.threads[u])
  {
    assert ThreadOk(s, u);
    assert Apart(s.threads[t], s.threads[u]);
  }

  /** Pages that do not sit in the touched frame keep their good standing. */
  lemma OtherPageOk(s: State, s': State, t: Tid, f: FrameId, p: PageId)
    requires Inv(s) && Local(s, s', t, f)
    requires p in s'.table && s'.table[p] != f
    ensures PageOk(s', p)
  {
    assert PageOk(s, p);
  }

  /** So do the other frames. */
  lemma OtherFrameOk(s: State, s': State, t: Tid, f: FrameId, g: FrameId)
    requires Inv(s) && Local(s, s', t, f)
    requires g < |s.frames| && g != f
    ensures FrameOk(s', g)
  {
    assert FrameOk(s, g);
    if Claimed(s, g) {
      var u :| 0 <= u < |s.threads| && Claims(s.threads[u], g);
      assert Claims(s'.threads[u], g);
    }
  }

  lemma FreeKept(s: State, s': State, t: Tid, f: FrameId)
    requires Inv(s) && Local(s, s', t, f)
    requires f in s'.free ==> f < |s.frames| && s'.frames[f].state.Free? && s'.frames[f].metadata.None?
    ensures FreeOk(s')
  {
    if s.free == [f] + s'.free {
      assert forall i :: 0 <= i < |s'.free| ==> s'.free[i] == s.free[i + 1];
    } else if s'.free == s.free + [f] {
      assert forall i :: 0 <= i < |s.free| ==> s'.free[i] == s.free[i] && s.free[i] != f;
    }
  }

  lemma OtherInFlightOk(s: State, s': State, t: Tid, f: FrameId, p: PageId)
    requires Inv(s) && Local(s, s', t, f)
    requires p in s'.inFlight && !Loads(s.threads[t], p)
    ensures p in s'.orphans || HasLoader(s', p)
  {
    if Loads(s'.threads[t], p) {
      assert Loads(s'.threads[t], p);
    } else if HasLoader(s, p) {
      var u :| 0 <= u < |s.threads| && Loads(s.threads[u], p);
      assert Loads(s'.threads[u], p);
    }
  }

  /** What a local step still has to establish about its own thread, frame and page. */
  ghost predicate OwnOk(s: State, s': State, t: Tid, f: FrameId)
    requires t < |s.threads| && |s'.threads| == |s.threads|
  {
    && ThreadOk(s', t)
    && (forall p :: p in s'.table && s'.table[p] == f ==> PageOk(s', p))
    && (f < |s'.frames| ==> FrameOk(s', f))
    && (f in s'.free ==> f < |s'.frames| && s'.frames[f].state.Free? && s'.frames[f].metadata.None?)
    && (s'.lock.Some? ==> s'.lock.value < |s'.threads| && s'.free == [])
    && (forall p :: Loads(s.threads[t], p) && p in s'.inFlight ==> p in s'.orphans || Loads(s'.threads[t], p))
    && (forall p :: Loads(s.threads[t], p) && p in s'.orphans ==> p in s'.inFlight && p !in s'.table)
    && (forall p: PageId :: p in s.table && p !in s'.table ==> s'.Pins(p) == 0)
  }

  /** A local step that looks after its own keeps the whole invariant. */
  lemma LocalStepKeepsInv(s: State, s': State, t: Tid, f: FrameId)
    requires Inv(s) && Local(s, s', t, f) && Unowned(s, t, f) && OwnOk(s, s', t, f)
    ensures Inv(s')
  {
    forall u | 0 <= u < |s.threads| ensures ThreadOk(s', u) {
      if u != t { BystanderOk(s, s', t, f, u); }
    }
    ThreadsStayApart(s, s', t, f);
    forall p | p in s'.table ensures PageOk(s', p) {
      if s'.table[p] != f { OtherPageOk(s, s', t, f, p); }
    }
    forall g | 0 <= g < |s'.frames| ensures FrameOk(s', g) {
      if g != f { OtherFrameOk(s, s', t, f, g); }
    }
    FreeKept(s, s', t, f);
    InFlightKept(s, s', t, f);
    PinsKept(s, s', t, f);
  }

  lemma MoverStaysApart(s: State, s': State, t: Tid, f: FrameId, u: Tid)
    requires Inv(s) && Local(s, s', t, f) && Unowned(s, t, f) && OwnOk(s, s', t, f)
    requires u < |s.threads| && u != t
    ensures Apart(s'.threads[t], s'.threads[u]) && Apart(s'.threads[u], s'.threads[t])
  {
    assert Apart(s.threads[t], s.threads[u]);
    assert ThreadOk(s, u);
    assert !Claims(s.threads[u], f);
    if LoadOf(s'.threads[t]).Some? {
      assert Loads(s'.threads[t], LoadOf(s'.threads[t]).value);
    }
  }

  lemma ThreadsStayApart(s: State, s': State, t: Tid, f: FrameId)
    requires Inv(s) && Local(s, s', t, f) && Unowned(s, t, f) && OwnOk(s, s', t, f)
    ensures forall u, w :: 0 <= u < |s'.threads| && 0 <= w < |s'.threads| && u != w ==> Apart(s'.threads[u], s'.threads[w])
  {
    forall u, w | 0 <= u < |s'.threads| && 0 <= w < |s'.threads| && u != w
      ensures Apart(s'.threads[u], s'.threads[w])
    {
      if u == t {
        MoverStaysApart(s, s', t, f, w);
      } else if w == t {
        MoverStaysApart(s, s', t, f, u);
      } else {
        assert Apart(s.threads[u], s.threads[w]);
      }
    }
  }

  lemma InFlightKept(s: State, s': State, t: Tid, f: FrameId)
    requires Inv(s) && Local(s, s', t, f) && OwnOk(s, s', t, f)
    ensures InFlightOk(s')
  {
    forall p | p in s'.inFlight ensures p in s'.orphans || HasLoader(s', p) {
      if !Loads(s.threads[t], p) {
        OtherInFlightOk(s, s', t, f, p);
      } else if Loads(s'.threads[t], p) {
        assert Loads(s'.threads[t], p);
      }
    }
    assert ThreadOk(s, t);
    forall p | p in s'.orphans ensures p in s'.inFlight && p !in s'.table {
    }
  }

  lemma PinsKept(s: State, s': State, t: Tid, f: FrameId)
    requires Inv(s) && Local(s, s', t, f) && OwnOk(s, s', t, f)
    ensures PinsOk(s')
  {
  }

  // ---------------------------------------------------------------------------
  // Why nobody else has to do with the frame a section touches
  // ---------------------------------------------------------------------------

  lemma ClaimedFrameIsUnowned(s: State, t: Tid, f: FrameId)
    requires Inv(s) && t < |s.threads| && Claims(s.threads[t], f)
    ensures Unowned(s, t, f)
  {
    assert ThreadOk(s, t);
    forall u | 0 <= u < |s.threads| && u != t
      ensures !Claims(s.threads[u], f) && (s.threads[u].HasVictim? ==> s.threads[u].v != f)
    {
      assert ThreadOk(s, u);
      assert Apart(s.threads[t], s.threads[u]);
    }
  }

  /** A published frame that is not reserved is claimed by nobody; only the lock holder may have chosen it. */
  lemma PublishedFrameIsUnowned(s: State, t: Tid, f: FrameId)
    requires Inv(s) && Published(s, f) && s.frames[f].state.Resident?
    requires s.lock == None || s.lock == Some(t) || s.frames[f].IsPinned()
    ensures Unowned(s, t, f)
  {
    forall u | 0 <= u < |s.threads| && u != t
      ensures !Claims(s.threads[u], f) && (s.threads[u].HasVictim? ==> s.threads[u].v != f)
    {
      assert ThreadOk(s, u);
    }
  }

  lemma FreeFrameIsUnowned(s: State, t: Tid, f: FrameId)
    requires Inv(s) && f < |s.frames| && s.frames[f].state.Free?
    ensures Unowned(s, t, f)
  {
    forall u | 0 <= u < |s.threads| && u != t
      ensures !Claims(s.threads[u], f) && (s.threads[u].HasVictim? ==> s.threads[u].v != f)
    {
      assert ThreadOk(s, u);
    }
  }

  lemma NoFrameIsUnowned(s: State, t: Tid, f: FrameId)
    requires Inv(s) && f >= |s.frames|
    ensures Unowned(s, t, f)
  {
    forall u | 0 <= u < |s.threads| && u != t
      ensures !Claims(s.threads[u], f) && (s.threads[u].HasVictim? ==> s.threads[u].v != f)
    {
      assert ThreadOk(s, u);
      if s.threads[u].HasVictim? || !ClaimOf(s.threads[u]).Nothing? {
        InvBounds(s);
      }
    }
  }

  // ---------------------------------------------------------------------------
  // Every section keeps the invariant
  // ---------------------------------------------------------------------------

  /** Thread t stands at pc in a state that satisfies the invariant. */
  ghost predicate At(s: State, t: Tid, pc: Pc) {
    Inv(s) && t < |s.threads| && s.threads[t] == pc
  }

  /** The step to pc keeps the thread's claim and load, and pc is sound where it arrives. */
  ghost predicate Moves(s: State, t: Tid, pc: Pc) {
    && t < |s.threads|
    && ClaimOf(pc).Nothing? == ClaimOf(s.threads[t]).Nothing?
    && (!ClaimOf(pc).Nothing? ==> ClaimOf(pc).f == ClaimOf(s.threads[t]).f)
    && LoadOf(pc) == LoadOf(s.threads[t])
    && ThreadOk(s.Goto(t, pc), t)
  }

  /** Sections that only move the program point. */
  lemma GotoKeepsInv(s: State, t: Tid, pc: Pc)
    requires Inv(s) && Moves(s, t, pc)
    ensures Inv(s.Goto(t, pc))
  {
    var s' := s.Goto(t, pc);
    var f := if ClaimOf(pc).Nothing? then |s.frames| else ClaimOf(pc).f;
    if f == |s.frames| {
      NoFrameIsUnowned(s, t, f);
    } else {
      ClaimedFrameIsUnowned(s, t, f);
    }
    MoveIsLocal(s, t, pc, f);
    MoveIsOwnOk(s, t, pc, f);
    LocalStepKeepsInv(s, s', t, f);
  }

  lemma MoveIsLocal(s: State, t: Tid, pc: Pc, f: FrameId)
    requires Inv(s) && Moves(s, t, pc)
    requires f == if ClaimOf(pc).Nothing? then |s.frames| else ClaimOf(pc).f
    ensures Local(s, s.Goto(t, pc), t, f)
  {
  }

  lemma MoveIsOwnOk(s: State, t: Tid, pc: Pc, f: FrameId)
    requires Inv(s) && Moves(s, t, pc)
    requires f == if ClaimOf(pc).Nothing? then |s.frames| else ClaimOf(pc).f
    ensures OwnOk(s, s.Goto(t, pc), t, f)
  {
    var s' := s.Goto(t, pc);
    assert ThreadOk(s, t);
    forall p | p in s'.table && s'.table[p] == f ensures PageOk(s', p) {
      assert PageOk(s, p);
    }
    if f < |s.frames| {
      assert FrameOk(s, f);
      assert Claims(s'.threads[t], f);
    }
  }

  /** The step changes the mapped frame of p, and leaves table, disk and free list alone. */
  ghost predicate TouchesMappedFrame(s: State, s': State, t: Tid, p: PageId) {
    && t < |s.threads| && p in s.table && s.table[p] < |s.frames| && |s'.frames| == |s.frames|
    && s' == s.SetFrame(s.table[p], s'.frames[s.table[p]]).(
               threads := s'.threads, lock := s'.lock, pins := s'.pins, inFlight := s'.inFlight, hand := s'.hand)
    && |s'.threads| == |s.threads| && s'.threads == s.threads[t := s'.threads[t]]
    && (ClaimOf(s.threads[t]).Nothing? || Claims(s.threads[t], s.table[p]))
    && (ClaimOf(s'.threads[t]).Nothing? || Claims(s'.threads[t], s.table[p]))
    && s'.hand < |s.frames|
    && (s'.lock == s.lock || (s.lock == Some(t) && s'.lock == None))
    && (if LoadOf(s'.threads[t]).None? && LoadOf(s.threads[t]).Some?
        then s'.inFlight == s.inFlight - {LoadOf(s.threads[t]).value}
        else s'.inFlight == s.inFlight && LoadOf(s'.threads[t]) == LoadOf(s.threads[t]))
    && (forall q :: q != p ==> s'.Pins(q) == s.Pins(q))
  }

  lemma MappedFrameStepKeepsInv(s: State, s': State, t: Tid, p: PageId)
    requires Inv(s) && TouchesMappedFrame(s, s', t, p)
    requires Unowned(s, t, s.table[p])
    requires PageOk(s', p)
    requires s'.frames[s.table[p]].state.Reserved? ==> Claims(s'.threads[t], s.table[p])
    requires ThreadOk(s', t)
    ensures Inv(s')
  {
    MappedFrameStepIsLocal(s, s', t, p);
    MappedFrameStepIsOwnOk(s, s', t, p);
    LocalStepKeepsInv(s, s', t, s.table[p]);
  }

  lemma MappedFrameStepIsLocal(s: State, s': State, t: Tid, p: PageId)
    requires TouchesMappedFrame(s, s', t, p)
    ensures Local(s, s', t, s.table[p])
  {
  }

  lemma MappedFrameStepIsOwnOk(s: State, s': State, t: Tid, p: PageId)
    requires Inv(s) && TouchesMappedFrame(s, s', t, p)
    requires PageOk(s', p)
    requires s'.frames[s.table[p]].state.Reserved? ==> Claims(s'.threads[t], s.table[p])
    requires ThreadOk(s', t)
    ensures OwnOk(s, s', t, s.table[p])
  {
    assert ThreadOk(s, t);
    forall q | q in s'.table && s'.table[q] == s.table[p] ensures q == p {
      assert PageOk(s, q);
      assert PageOk(s, p);
    }
  }

  /** Disk writes: the page belongs to a dirty frame that the writer has reserved. */
  lemma WriteKeepsInv(s: State, t: Tid, p: PageId, bytes: PageData, pc: Pc)
    requires Inv(s) && t < |s.threads|
    requires ClaimOf(s.threads[t]).Busy? && ClaimOf(s.threads[t]).p == p
    requires ClaimOf(s.threads[t]).f < |s.frames| && s.frames[ClaimOf(s.threads[t]).f].IsDirty()
    requires ClaimOf(pc).Busy? && ClaimOf(pc).f == ClaimOf(s.threads[t]).f
    requires LoadOf(pc) == LoadOf(s.threads[t])
    requires ThreadOk(s.(disk := s.disk[p := bytes]).Goto(t, pc), t)
    ensures Inv(s.(disk := s.disk[p := bytes]).Goto(t, pc))
  {
    var s', f := s.(disk := s.disk[p := bytes]).Goto(t, pc), ClaimOf(pc).f;
    assert ThreadOk(s, t);
    ClaimedFrameIsUnowned(s, t, f);
    WriteIsLocal(s, s', t, p, bytes, f);
    assert Claims(s'.threads[t], f);
    forall q | q in s'.table && s'.table[q] == f ensures PageOk(s', q) {
      assert PageOk(s, q);
    }
    LocalStepKeepsInv(s, s', t, f);
  }

  lemma WriteIsLocal(s: State, s': State, t: Tid, p: PageId, bytes: PageData, f: FrameId)
    requires Inv(s) && t < |s.threads| && p in s.table && s.table[p] == f
    requires Claims(s.threads[t], f) && |s'.threads| == |s.threads| && Claims(s'.threads[t], f)
    requires LoadOf(s'.threads[t]) == LoadOf(s.threads[t])
    requires s' == s.(disk := s.disk[p := bytes]).Goto(t, s'.threads[t])
    ensures Local(s, s', t, f)
  {
  }

  // --- loading into a free frame ---

  lemma ReadIntoFreeKeepsInv(s: State, t: Tid, p: PageId, f: FrameId, io: Io)
    requires At(s, t, FreeRead(p, f))
    ensures Inv(ReadIntoFree(s, t, p, f, io))
  {
    assert ThreadOk(s, t);
    GotoKeepsInv(s, t, if io.Ok? then FreeLoad(p, f, s.Disk(p)) else FreeRollback(p, f));
  }

  lemma RollBackFreeKeepsInv(s: State, t: Tid, p: PageId, f: FrameId)
    requires At(s, t, FreeRollback(p, f)) && s.lock == None && f < |s.frames|
    ensures Inv(RollBackFree(s, t, p, f))
  {
    ClaimedFrameIsUnowned(s, t, f);
    RollBackFreeIsLocal(s, t, p, f);
    RollBackFreeOwn(s, t, p, f);
    LocalStepKeepsInv(s, RollBackFree(s, t, p, f), t, f);
  }

  lemma RollBackFreeIsLocal(s: State, t: Tid, p: PageId, f: FrameId)
    requires At(s, t, FreeRollback(p, f)) && f < |s.frames|
    ensures Local(s, RollBackFree(s, t, p, f), t, f)
  {
    assert ThreadOk(s, t);
  }

  lemma RollBackFreeOwn(s: State, t: Tid, p: PageId, f: FrameId)
    requires At(s, t, FreeRollback(p, f)) && s.lock == None && f < |s.frames|
    ensures OwnOk(s, RollBackFree(s, t, p, f), t, f)
  {
    assert ThreadOk(s, t);
    assert forall q :: q in s.table ==> PageOk(s, q);
  }

  lemma LoadFreeKeepsInv(s: State, t: Tid, p: PageId, f: FrameId, buffer: PageData)
    requires At(s, t, FreeLoad(p, f, buffer)) && f < |s.frames|
    ensures Inv(LoadFree(s, t, p, f, buffer))
  {
    var s' := LoadFree(s, t, p, f, buffer);
    assert ThreadOk(s, t);
    ClaimedFrameIsUnowned(s, t, f);
    assert forall q :: q in s.table ==> PageOk(s, q);
    assert Claims(s'.threads[t], f);
    LocalStepKeepsInv(s, s', t, f);
  }

  lemma PublishFreeKeepsInv(s: State, t: Tid, p: PageId, f: FrameId)
    requires At(s, t, FreePublish(p, f)) && s.lock == None
    ensures Inv(PublishFree(s, t, p, f))
  {
    ClaimedFrameIsUnowned(s, t, f);
    PublishFreeIsLocal(s, t, p, f);
    PublishFreeOwn(s, t, p, f);
    LocalStepKeepsInv(s, PublishFree(s, t, p, f), t, f);
  }

  lemma PublishFreeIsLocal(s: State, t: Tid, p: PageId, f: FrameId)
    requires At(s, t, FreePublish(p, f))
    ensures Local(s, PublishFree(s, t, p, f), t, f)
  {
    assert ThreadOk(s, t);
  }

  lemma PublishFreeOwn(s: State, t: Tid, p: PageId, f: FrameId)
    requires At(s, t, FreePublish(p, f)) && s.lock == None
    ensures OwnOk(s, PublishFree(s, t, p, f), t, f)
  {
    assert ThreadOk(s, t);
  }

  // --- CLOCK ---

  lemma ScanOneKeepsInv(s: State, t: Tid, goal: Goal, scanned: nat, found: bool)
    requires At(s, t, Scan(goal, scanned, found)) && s.InBounds()
    ensures Inv(ScanOne(s, t, goal, scanned, found))
  {
    if s.frames == [] {
      GiveUpKeepsInv(s, t, goal);
    } else {
      var f := s.hand;
      InspectKeepsInv(s, t);
      var s1 := s.(frames := Inspected(s.frames, f), hand := Advance(f, |s.frames|));
      if Look(s.frames[f]).Chosen? {
        ChooseKeepsInv(s, t, goal, scanned, found);
      } else {
        RescanKeepsInv(s1, t, goal, scanned, found, scanned + 1, found || Look(s.frames[f]).Spared?);
        RescanKeepsInv(s1, t, goal, scanned, found, 0, false);
        GiveUpKeepsInv(s1, t, goal);
      }
    }
  }

  lemma ChooseKeepsInv(s: State, t: Tid, goal: Goal, scanned: nat, found: bool)
    requires At(s, t, Scan(goal, scanned, found)) && s.hand < |s.frames| && Look(s.frames[s.hand]).Chosen?
    requires Inv(s.(hand := Advance(s.hand, |s.frames|)))
    ensures Inv(s.(hand := Advance(s.hand, |s.frames|)).Goto(t, HasVictim(goal, s.hand)))
  {
    var s1 := s.(hand := Advance(s.hand, |s.frames|));
    assert ThreadOk(s1, t);
    ChosenIsPublished(s1, t, s.hand);
    GotoKeepsInv(s1, t, HasVictim(goal, s.hand));
  }

  lemma RescanKeepsInv(s: State, t: Tid, goal: Goal, scanned: nat, found: bool, scanned': nat, found': bool)
    requires At(s, t, Scan(goal, scanned, found))
    ensures Inv(s.Goto(t, Scan(goal, scanned', found')))
  {
    assert ThreadOk(s, t);
    GotoKeepsInv(s, t, Scan(goal, scanned', found'));
  }

  /** While state_lock is held no frame is free, so the hand can only choose a published frame. */
  lemma ChosenIsPublished(s: State, t: Tid, f: FrameId)
    requires Inv(s) && t < |s.threads| && s.lock == Some(t)
    requires f < |s.frames| && s.frames[f].Evictable()
    ensures Published(s, f) && s.frames[f].state.Resident?
  {
    assert FrameOk(s, f);
    assert forall u :: 0 <= u < |s.threads| && Claims(s.threads[u], f) ==> ThreadOk(s, u);
  }

  lemma HandKeepsInv(s: State, hand: nat)
    requires Inv(s) && hand < |s.frames|
    ensures Inv(s.(hand := hand))
  {
    var s' := s.(hand := hand);
    assert forall t :: 0 <= t < |s.threads| && ThreadOk(s, t) ==> ThreadOk(s', t);
    assert forall p :: p in s.table && PageOk(s, p) ==> PageOk(s', p);
    forall f | 0 <= f < |s.frames| ensures FrameOk(s', f) {
      assert FrameOk(s, f);
      assert Claimed(s, f) ==> Claimed(s', f);
    }
    forall p | p in s.inFlight ensures p in s.orphans || HasLoader(s', p) {
      assert HasLoader(s, p) ==> HasLoader(s', p);
    }
  }

  /** Taking away a second chance and moving the hand disturbs nobody. */
  lemma InspectKeepsInv(s: State, t: Tid)
    requires Inv(s) && t < |s.threads| && s.threads[t].Scan? && s.hand < |s.frames|
    ensures Inv(s.(frames := Inspected(s.frames, s.hand), hand := Advance(s.hand, |s.frames|)))
  {
    var f := s.hand;
    var s' := s.(frames := Inspected(s.frames, f), hand := Advance(f, |s.frames|));
    assert ThreadOk(s, t);
    if Look(s.frames[f]).Spared? {
      ChosenIsPublished(s, t, f);
      PublishedFrameIsUnowned(s, t, f);
      var p := s.frames[f].metadata.value.pageId;
      assert PageOk(s, p);
      MappedFrameStepKeepsInv(s, s', t, p);
    } else {
      HandKeepsInv(s, Advance(f, |s.frames|));
    }
  }

  lemma GiveUpKeepsInv(s: State, t: Tid, goal: Goal)
    requires Inv(s) && t < |s.threads| && s.threads[t].Scan? && s.threads[t].goal == goal
    ensures Inv(GiveUp(s, t, goal))
  {
    assert ThreadOk(s, t);
    if goal.Load? {
      GotoKeepsInv(s, t, CheckReserved(goal.page, 0));
    } else {
      UnlockKeepsInv(s, t, GiveUp(s, t, goal));
    }
  }

  /** Sections that release state_lock, possibly abandoning an in-flight entry. */
  lemma UnlockKeepsInv(s: State, t: Tid, s': State)
    requires Inv(s) && t < |s.threads| && s.lock == Some(t)
    requires ClaimOf(s.threads[t]).Nothing?
    requires |s'.threads| == |s.threads| && s'.threads[t := s.threads[t]] == s.threads
    requires s' == s.(lock := None, threads := s'.threads, orphans := s'.orphans)
    requires ClaimOf(s'.threads[t]).Nothing? && LoadOf(s'.threads[t]).None?
    requires s'.orphans == s.orphans + (if LoadOf(s.threads[t]).Some? then {LoadOf(s.threads[t]).value} else {})
    requires !s'.threads[t].HoldsLock() && LocalsOk(s', s'.threads[t])
    ensures Inv(s')
  {
    assert ThreadOk(s, t);
    assert forall u :: 0 <= u < |s.threads| && u != t ==> s.threads[u] == s'.threads[t := s.threads[t]][u] == s'.threads[u];
    NoFrameIsUnowned(s, t, |s.frames|);
    assert forall p :: p in s.table ==> PageOk(s, p);
    LocalStepKeepsInv(s, s', t, |s.frames|);
  }

  lemma CheckOneKeepsInv(s: State, t: Tid, p: PageId, i: nat)
    requires At(s, t, CheckReserved(p, i))
    ensures Inv(CheckOne(s, t, p, i))
  {
    assert ThreadOk(s, t);
    if i < |s.frames| && !s.frames[i].state.Reserved? {
      GotoKeepsInv(s, t, CheckReserved(p, i + 1));
    } else {
      UnlockKeepsInv(s, t, CheckOne(s, t, p, i));
    }
  }

  lemma ReserveVictimKeepsInv(s: State, t: Tid, goal: Goal, v: FrameId)
    requires At(s, t, HasVictim(goal, v)) && v < |s.frames|
    ensures Inv(ReserveVictim(s, t, goal, v))
  {
    var s' := ReserveVictim(s, t, goal, v);
    assert ThreadOk(s, t);
    PublishedFrameIsUnowned(s, t, v);
    var oldPage := s.frames[v].metadata.value.pageId;
    assert PageOk(s, oldPage);
    MappedFrameStepKeepsInv(s, s', t, oldPage);
  }

  lemma WriteVictimKeepsInv(s: State, t: Tid, goal: Goal, v: FrameId, oldPage: PageId, oldData: PageData, io: Io)
    requires At(s, t, VictimWrite(goal, v, oldPage, oldData))
    ensures Inv(WriteVictim(s, t, goal, v, oldPage, oldData, io))
  {
    assert ThreadOk(s, t);
    match io
    case Ok => WriteKeepsInv(s, t, oldPage, oldData, AfterWrite(goal, v, oldPage));
    case Fails(torn) => WriteKeepsInv(s, t, oldPage, torn, VictimRollback(goal, v, oldPage));
  }

  lemma ReadIntoVictimKeepsInv(s: State, t: Tid, p: PageId, v: FrameId, oldPage: PageId, io: Io)
    requires At(s, t, VictimRead(p, v, oldPage))
    ensures Inv(ReadIntoVictim(s, t, p, v, oldPage, io))
  {
    assert ThreadOk(s, t);
    GotoKeepsInv(s, t, ReadIntoVictim(s, t, p, v, oldPage, io).threads[t]);
  }

  lemma RollBackVictimKeepsInv(s: State, t: Tid, goal: Goal, v: FrameId, oldPage: PageId)
    requires At(s, t, VictimRollback(goal, v, oldPage)) && v < |s.frames|
    ensures Inv(RollBackVictim(s, t, goal, v))
  {
    var s' := RollBackVictim(s, t, goal, v);
    assert ThreadOk(s, t);
    ClaimedFrameIsUnowned(s, t, v);
    assert PageOk(s, oldPage);
    MappedFrameStepKeepsInv(s, s', t, oldPage);
  }

  /** A new page's id is not in use; a loaded page's entry is the loader's own. */
  predicate MayCommit(s: State, goal: Goal) {
    goal.Create? ==> Unused(s, goal.page)
  }

  lemma CommitVictimKeepsInv(s: State, t: Tid, goal: Goal, v: FrameId, oldPage: PageId, buffer: PageData)
    requires At(s, t, VictimCommit(goal, v, oldPage, buffer)) && MayCommit(s, goal) && v < |s.frames| && s.lock == None
    ensures Inv(CommitVictim(s, t, goal, v, oldPage, buffer))
  {
    ClaimedFrameIsUnowned(s, t, v);
    CommitVictimFrames(s, t, goal, v, oldPage, buffer);
    CommitVictimPages(s, t, goal, v, oldPage, buffer);
    CommitVictimLoads(s, t, goal, v, oldPage, buffer);
    CommitVictimOwn(s, t, goal, v, oldPage, buffer);
    LocalStepKeepsInv(s, CommitVictim(s, t, goal, v, oldPage, buffer), t, v);
  }

  lemma CommitSucceeds(s: State, t: Tid, goal: Goal, v: FrameId, oldPage: PageId, buffer: PageData)
    requires At(s, t, VictimCommit(goal, v, oldPage, buffer)) && (goal.Create? ==> goal.page !in s.table)
    ensures Replaced(s.table, oldPage, goal.page, v).Success?
  {
    assert ThreadOk(s, t);
  }

  lemma CommitVictimFrames(s: State, t: Tid, goal: Goal, v: FrameId, oldPage: PageId, buffer: PageData)
    requires At(s, t, VictimCommit(goal, v, oldPage, buffer)) && MayCommit(s, goal) && v < |s.frames|
    ensures LocalFrames(s, CommitVictim(s, t, goal, v, oldPage, buffer), t, v)
  {
    CommitSucceeds(s, t, goal, v, oldPage, buffer);
  }

  lemma CommitVictimPages(s: State, t: Tid, goal: Goal, v: FrameId, oldPage: PageId, buffer: PageData)
    requires At(s, t, VictimCommit(goal, v, oldPage, buffer)) && MayCommit(s, goal) && v < |s.frames| && s.lock == None
    ensures LocalPages(s, CommitVictim(s, t, goal, v, oldPage, buffer), t, v)
  {
    CommitSucceeds(s, t, goal, v, oldPage, buffer);
    assert ThreadOk(s, t);
  }

  lemma CommitVictimLoads(s: State, t: Tid, goal: Goal, v: FrameId, oldPage: PageId, buffer: PageData)
    requires At(s, t, VictimCommit(goal, v, oldPage, buffer)) && MayCommit(s, goal) && v < |s.frames|
    ensures LocalLoads(s, CommitVictim(s, t, goal, v, oldPage, buffer), t)
  {
    CommitSucceeds(s, t, goal, v, oldPage, buffer);
  }

  lemma CommitVictimOwn(s: State, t: Tid, goal: Goal, v: FrameId, oldPage: PageId, buffer: PageData)
    requires At(s, t, VictimCommit(goal, v, oldPage, buffer)) && MayCommit(s, goal) && v < |s.frames| && s.lock == None
    ensures OwnOk(s, CommitVictim(s, t, goal, v, oldPage, buffer), t, v)
  {
    if goal.Load? {
      CommitLoadOwn(s, t, goal.page, v, oldPage, buffer);
    } else {
      CommitCreateOwn(s, t, goal.page, v, oldPage, buffer);
    }
  }

  lemma CommitLoadOwn(s: State, t: Tid, p: PageId, v: FrameId, oldPage: PageId, buffer: PageData)
    requires At(s, t, VictimCommit(Load(p), v, oldPage, buffer)) && v < |s.frames| && s.lock == None
    ensures OwnOk(s, CommitVictim(s, t, Load(p), v, oldPage, buffer), t, v)
  {
    CommitSucceeds(s, t, Load(p), v, oldPage, buffer);
    assert ThreadOk(s, t);
    assert PageOk(s, oldPage);
  }

  lemma CommitCreateOwn(s: State, t: Tid, n: PageId, v: FrameId, oldPage: PageId, buffer: PageData)
    requires At(s, t, VictimCommit(Create(n), v, oldPage, buffer)) && Unused(s, n) && v < |s.frames| && s.lock == None
    ensures OwnOk(s, CommitVictim(s, t, Create(n), v, oldPage, buffer), t, v)
  {
    CommitSucceeds(s, t, Create(n), v, oldPage, buffer);
    assert ThreadOk(s, t);
    assert PageOk(s, oldPage);
  }

  // --- flush and delete ---

  lemma CheckFlushKeepsInv(s: State, t: Tid, purpose: Purpose, p: PageId, f: FrameId)
    requires At(s, t, FlushCheck(purpose, p, f)) && f < |s.frames|
    ensures Inv(CheckFlush(s, t, purpose, p, f))
  {
    assert ThreadOk(s, t);
    assert PageOk(s, p);
    GotoKeepsInv(s, t, CheckFlush(s, t, purpose, p, f).threads[t]);
  }

  lemma WriteFlushKeepsInv(s: State, t: Tid, purpose: Purpose, p: PageId, f: FrameId, target: PageId, bytes: PageData, io: Io)
    requires At(s, t, FlushWrite(purpose, p, f, target, bytes))
    ensures Inv(WriteFlush(s, t, purpose, p, f, target, bytes, io))
  {
    assert ThreadOk(s, t);
    match io
    case Ok => WriteKeepsInv(s, t, p, bytes, FlushEnd(purpose, p, f, true));
    case Fails(torn) => WriteKeepsInv(s, t, p, torn, FlushEnd(purpose, p, f, false));
  }

  lemma EndFlushKeepsInv(s: State, t: Tid, purpose: Purpose, p: PageId, f: FrameId, written: bool)
    requires At(s, t, FlushEnd(purpose, p, f, written)) && f < |s.frames|
    ensures Inv(EndFlush(s, t, purpose, p, f, written))
  {
    var s' := EndFlush(s, t, purpose, p, f, written);
    assert ThreadOk(s, t);
    assert PageOk(s, p);
    ClaimedFrameIsUnowned(s, t, f);
    EndFlushKeepsPage(s, t, purpose, p, f, written);
    EndFlushKeepsThread(s, t, purpose, p, f, written);
    EndFlushTouchesFrame(s, t, purpose, p, f, written);
    MappedFrameStepKeepsInv(s, s', t, p);
  }

  lemma EndFlushKeepsPage(s: State, t: Tid, purpose: Purpose, p: PageId, f: FrameId, written: bool)
    requires At(s, t, FlushEnd(purpose, p, f, written)) && f < |s.frames|
    ensures var s' := EndFlush(s, t, purpose, p, f, written);
            |s'.threads| == |s.threads| && p in s'.table && PageOk(s', p)
  {
    assert ThreadOk(s, t);
    assert PageOk(s, p);
  }

  lemma EndFlushKeepsThread(s: State, t: Tid, purpose: Purpose, p: PageId, f: FrameId, written: bool)
    requires At(s, t, FlushEnd(purpose, p, f, written)) && f < |s.frames|
    ensures ThreadOk(EndFlush(s, t, purpose, p, f, written), t)
  {
    assert ThreadOk(s, t);
    assert PageOk(s, p);
  }

  lemma EndFlushTouchesFrame(s: State, t: Tid, purpose: Purpose, p: PageId, f: FrameId, written: bool)
    requires At(s, t, FlushEnd(purpose, p, f, written)) && f < |s.frames|
    ensures TouchesMappedFrame(s, EndFlush(s, t, purpose, p, f, written), t, p)
  {
    assert ThreadOk(s, t);
    assert PageOk(s, p);
  }

  /** The second set_resident of a failed delete does nothing to a frame that is resident. */
  lemma DeleteFailedKeepsInv(s: State, t: Tid, p: PageId, f: FrameId, error: PoolError)
    requires At(s, t, DeleteFailed(p, f, error)) && f < |s.frames| && s.frames[f].state.Resident?
    ensures Inv(Release(s, t, f, Failed(error)))
  {
    assert ThreadOk(s, t);
    assert Release(s, t, f, Failed(error)) == s.Return(t, Failed(error));
    GotoKeepsInv(s, t, Idle(Failed(error)));
  }

  lemma FlushDoneKeepsInv(s: State, t: Tid, p: PageId, f: FrameId)
    requires At(s, t, FlushDone(p, f)) && f < |s.frames|
    ensures Inv(Release(s, t, f, Done))
  {
    var s' := Release(s, t, f, Done);
    assert ThreadOk(s, t);
    ClaimedFrameIsUnowned(s, t, f);
    assert PageOk(s, p);
    MappedFrameStepKeepsInv(s, s', t, p);
  }

  /** Unmapping a page whose bytes are on disk and whose frame nobody else has to do with. */
  lemma UnmapKeepsInv(s: State, t: Tid, p: PageId, f: FrameId)
    requires Inv(s) && t < |s.threads| && Unowned(s, t, f) && s.lock == None
    requires ClaimOf(s.threads[t]).Nothing? || Claims(s.threads[t], f)
    requires LoadOf(s.threads[t]).None?
    requires p in s.table && s.table[p] == f && f < |s.frames| && !s.frames[f].IsPinned()
    ensures Inv(Unmap(s, t, p, f))
  {
    UnmapIsLocal(s, t, p, f);
    UnmapOwn(s, t, p, f);
    LocalStepKeepsInv(s, Unmap(s, t, p, f), t, f);
  }

  lemma UnmapIsLocal(s: State, t: Tid, p: PageId, f: FrameId)
    requires Inv(s) && t < |s.threads|
    requires ClaimOf(s.threads[t]).Nothing? || Claims(s.threads[t], f)
    requires p in s.table && s.table[p] == f && f < |s.frames|
    ensures Local(s, Unmap(s, t, p, f), t, f)
  {
    assert PageOk(s, p);
  }

  lemma UnmapOwn(s: State, t: Tid, p: PageId, f: FrameId)
    requires Inv(s) && t < |s.threads| && s.lock == None && LoadOf(s.threads[t]).None?
    requires p in s.table && s.table[p] == f && f < |s.frames| && !s.frames[f].IsPinned()
    ensures OwnOk(s, Unmap(s, t, p, f), t, f)
  {
    assert PageOk(s, p);
    assert forall q :: q in s.table && s.table[q] == f ==> PageOk(s, q);
    assert ThreadOk(s, t);
  }

  // --- the first section of each operation ---

  /** Returning without touching anything. */
  lemma ReturnKeepsInv(s: State, t: Tid, reply: Reply)
    requires Inv(s) && t < |s.threads| && s.threads[t].Start? && !Broken(reply)
    ensures Inv(s.Return(t, reply))
  {
    assert ThreadOk(s, t);
    GotoKeepsInv(s, t, Idle(reply));
  }

  /** Sections on the published frame of p that claim nothing. */
  lemma PublishedFrameStepKeepsInv(s: State, s': State, t: Tid, p: PageId)
    requires Inv(s) && TouchesMappedFrame(s, s', t, p)
    requires s.lock == None || s.frames[s.table[p]].IsPinned()
    requires s'.lock == s.lock
    requires s.frames[s.table[p]].state.Resident? && PageOk(s', p)
    requires s'.frames[s.table[p]].state.Reserved? ==> Claims(s'.threads[t], s.table[p])
    requires ThreadOk(s', t)
    ensures Inv(s')
  {
    assert PageOk(s, p);
    PublishedFrameIsUnowned(s, t, s.table[p]);
    MappedFrameStepKeepsInv(s, s', t, p);
  }

  lemma StartFetchHitKeepsInv(s: State, t: Tid, p: PageId)
    requires At(s, t, Start(FetchPage(p))) && s.InBounds() && s.lock == None && (Hits(s, p) ==> s.Pins(p) < MAX_PINS)
    requires p in s.table
    ensures Inv(StartFetch(s, t, p))
  {
    assert PageOk(s, p);
    assert ThreadOk(s, t);
    if s.frames[s.table[p]].state.Resident? {
      PublishedFrameStepKeepsInv(s, StartFetch(s, t, p), t, p);
    }
  }

  lemma StartFetchMissKeepsInv(s: State, t: Tid, p: PageId)
    requires At(s, t, Start(FetchPage(p))) && s.InBounds() && s.lock == None
    requires p !in s.table
    ensures Inv(StartFetch(s, t, p))
  {
    assert ThreadOk(s, t);
    if p in s.inFlight {
      GotoKeepsInv(s, t, LoadWait(p));
    } else if s.free == [] {
      StartScanKeepsInv(s, t, p);
    } else {
      ClaimFreeIsLocal(s, t, p);
      ClaimFreeOwn(s, t, p);
      FreeFrameIsUnowned(s, t, s.free[0]);
      LocalStepKeepsInv(s, StartFetch(s, t, p), t, s.free[0]);
    }
  }

  lemma StartScanKeepsInv(s: State, t: Tid, p: PageId)
    requires At(s, t, Start(FetchPage(p))) && s.InBounds() && s.lock == None
    requires p !in s.table && p !in s.inFlight && s.free == []
    ensures Inv(StartFetch(s, t, p))
  {
    var s' := StartFetch(s, t, p);
    assert ThreadOk(s, t);
    NoFrameIsUnowned(s, t, |s.frames|);
    assert forall q :: q in s.table ==> PageOk(s, q);
    LocalStepKeepsInv(s, s', t, |s.frames|);
  }

  lemma ClaimFreeIsLocal(s: State, t: Tid, p: PageId)
    requires At(s, t, Start(FetchPage(p))) && s.InBounds() && s.lock == None
    requires p !in s.table && p !in s.inFlight && s.free != []
    ensures Local(s, StartFetch(s, t, p), t, s.free[0])
  {
  }

  lemma ClaimFreeOwn(s: State, t: Tid, p: PageId)
    requires At(s, t, Start(FetchPage(p))) && s.InBounds() && s.lock == None
    requires p !in s.table && p !in s.inFlight && s.free != []
    ensures OwnOk(s, StartFetch(s, t, p), t, s.free[0])
  {
    var s' := StartFetch(s, t, p);
    assert ThreadOk(s, t);
    assert Claims(s'.threads[t], s.free[0]);
    assert forall q :: q in s.table ==> PageOk(s, q);
  }

  lemma StartNewKeepsInv(s: State, t: Tid)
    requires At(s, t, Start(NewPage)) && s.InBounds() && s.lock == None
    requires s.nextPageId < MAX_PAGE_ID && s.free != [] ==> Unused(s, s.nextPageId)
    ensures Inv(StartNew(s, t))
  {
    var s' := StartNew(s, t);
    if s.nextPageId >= MAX_PAGE_ID {
      ReturnKeepsInv(s, t, Failed(NoPageIdAvailable));
    } else if s.free == [] {
      StartSearchKeepsInv(s, t);
    } else {
      CreateFreeIsLocal(s, t);
      CreateFreeOwn(s, t);
      FreeFrameIsUnowned(s, t, s.free[0]);
      LocalStepKeepsInv(s, s', t, s.free[0]);
    }
  }

  lemma StartSearchKeepsInv(s: State, t: Tid)
    requires At(s, t, Start(NewPage)) && s.InBounds() && s.lock == None
    requires s.nextPageId < MAX_PAGE_ID && s.free == []
    ensures Inv(StartNew(s, t))
  {
    NoFrameIsUnowned(s, t, |s.frames|);
    StartSearchIsLocal(s, t);
    StartSearchOwn(s, t);
    LocalStepKeepsInv(s, StartNew(s, t), t, |s.frames|);
  }

  lemma StartSearchIsLocal(s: State, t: Tid)
    requires At(s, t, Start(NewPage)) && s.InBounds() && s.lock == None
    requires s.nextPageId < MAX_PAGE_ID && s.free == []
    ensures Local(s, StartNew(s, t), t, |s.frames|)
  {
  }

  lemma StartSearchOwn(s: State, t: Tid)
    requires At(s, t, Start(NewPage)) && s.InBounds() && s.lock == None
    requires s.nextPageId < MAX_PAGE_ID && s.free == []
    ensures OwnOk(s, StartNew(s, t), t, |s.frames|)
  {
    assert ThreadOk(s, t);
    assert forall q :: q in s.table ==> PageOk(s, q);
  }

  lemma CreateFreeIsLocal(s: State, t: Tid)
    requires At(s, t, Start(NewPage)) && s.InBounds() && s.lock == None
    requires s.nextPageId < MAX_PAGE_ID && s.free != [] && Unused(s, s.nextPageId)
    ensures Local(s, StartNew(s, t), t, s.free[0])
  {
  }

  lemma CreateFreeOwn(s: State, t: Tid)
    requires At(s, t, Start(NewPage)) && s.InBounds() && s.lock == None
    requires s.nextPageId < MAX_PAGE_ID && s.free != [] && Unused(s, s.nextPageId)
    ensures OwnOk(s, StartNew(s, t), t, s.free[0])
  {
    var s' := StartNew(s, t);
    assert ThreadOk(s, t);
    assert forall q :: q in s.table ==> PageOk(s, q);
  }

  lemma StartUnpinKeepsInv(s: State, t: Tid, p: PageId)
    requires At(s, t, Start(UnpinPage(p))) && s.InBounds() && s.lock == None
    ensures Inv(StartUnpin(s, t, p))
  {
    var s' := StartUnpin(s, t, p);
    assert p in s.table ==> PageOk(s, p);
    assert ThreadOk(s, t);
    if s'.threads[t].reply.Done? {
      PublishedFrameStepKeepsInv(s, s', t, p);
    } else {
      ReturnKeepsInv(s, t, s'.threads[t].reply);
    }
  }

  lemma StartMarkDirtyKeepsInv(s: State, t: Tid, p: PageId)
    requires At(s, t, Start(MarkDirtyPage(p))) && s.InBounds() && s.lock == None
    ensures Inv(StartMarkDirty(s, t, p))
  {
    var s' := StartMarkDirty(s, t, p);
    assert p in s.table ==> PageOk(s, p);
    assert ThreadOk(s, t);
    if s'.threads[t].reply.Done? {
      PublishedFrameStepKeepsInv(s, s', t, p);
    } else {
      ReturnKeepsInv(s, t, s'.threads[t].reply);
    }
  }

  lemma StartFlushKeepsInv(s: State, t: Tid, p: PageId)
    requires At(s, t, Start(FlushPage(p))) && s.InBounds() && s.lock == None
    ensures Inv(StartFlush(s, t, p))
  {
    var s' := StartFlush(s, t, p);
    assert p in s.table ==> PageOk(s, p);
    assert ThreadOk(s, t);
    if p in s.table && s.frames[s.table[p]].state.Resident? {
      PublishedFrameStepKeepsInv(s, s', t, p);
    } else {
      ReturnKeepsInv(s, t, s'.threads[t].reply);
    }
  }

  lemma StartDeleteKeepsInv(s: State, t: Tid, p: PageId)
    requires At(s, t, Start(DeletePage(p))) && s.InBounds() && s.lock == None
    ensures Inv(StartDelete(s, t, p))
  {
    var s' := StartDelete(s, t, p);
    assert p in s.table ==> PageOk(s, p);
    assert ThreadOk(s, t);
    if s'.threads[t].FlushCheck? {
      PublishedFrameStepKeepsInv(s, s', t, p);
    } else if s'.threads[t].reply.Done? {
      PublishedFrameIsUnowned(s, t, s.table[p]);
      UnmapKeepsInv(s, t, p, s.table[p]);
    } else {
      ReturnKeepsInv(s, t, s'.threads[t].reply);
    }
  }

  lemma DeleteCommitKeepsInv(s: State, t: Tid, p: PageId, f: FrameId)
    requires At(s, t, DeleteCommit(p, f)) && f < |s.frames| && s.lock == None
    ensures Inv(Unmap(s, t, p, f))
  {
    assert ThreadOk(s, t);
    ClaimedFrameIsUnowned(s, t, f);
    UnmapKeepsInv(s, t, p, f);
  }

  // --- the other labels, and all of them together ---

  lemma ClientWriteKeepsInv(s: State, l: Label)
    requires Inv(s) && s.InBounds() && Enabled(s, l) && l.ClientWrite?
    ensures Inv(Step(s, l))
  {
    assert PageOk(s, l.page);
    assert ThreadOk(s, l.tid);
    PublishedFrameStepKeepsInv(s, Step(s, l), l.tid, l.page);
  }

  lemma CallKeepsInv(s: State, l: Label)
    requires Inv(s) && s.InBounds() && Enabled(s, l) && Allowed(s, l) && l.Call?
    ensures Inv(Step(s, l))
  {
    assert ThreadOk(s, l.tid);
    GotoKeepsInv(s, l.tid, Start(l.op));
  }

  lemma StartKeepsInv(s: State, t: Tid, op: Op)
    requires At(s, t, Start(op)) && s.InBounds() && s.lock == None
    requires op.FetchPage? && Hits(s, op.page) ==> s.Pins(op.page) < MAX_PINS
    requires op.NewPage? && s.nextPageId < MAX_PAGE_ID && s.free != [] ==> Unused(s, s.nextPageId)
    ensures Inv(StartOp(s, t, op))
  {
    match op
    case FetchPage(p) =>
      if p in s.table {
        StartFetchHitKeepsInv(s, t, p);
      } else {
        StartFetchMissKeepsInv(s, t, p);
      }
    case NewPage => StartNewKeepsInv(s, t);
    case UnpinPage(p) => StartUnpinKeepsInv(s, t, p);
    case MarkDirtyPage(p) => StartMarkDirtyKeepsInv(s, t, p);
    case FlushPage(p) => StartFlushKeepsInv(s, t, p);
    case DeletePage(p) => StartDeleteKeepsInv(s, t, p);
  }

  lemma LoadKeepsInv(s: State, t: Tid, io: Io)
    requires Inv(s) && s.InBounds() && Enabled(s, Work(t, io)) && s.threads[t].InLoad()
    ensures Inv(LoadSection(s, t, io))
  {
    match s.threads[t]
    case LoadWait(p) =>
      assert ThreadOk(s, t);
      GotoKeepsInv(s, t, Start(FetchPage(p)));
    case FreeRead(p, f) => ReadIntoFreeKeepsInv(s, t, p, f, io);
    case FreeLoad(p, f, buffer) => LoadFreeKeepsInv(s, t, p, f, buffer);
    case FreePublish(p, f) => PublishFreeKeepsInv(s, t, p, f);
    case FreeRollback(p, f) => RollBackFreeKeepsInv(s, t, p, f);
  }

  lemma ClockKeepsInv(s: State, t: Tid)
    requires Inv(s) && s.InBounds() && t < |s.threads| && s.threads[t].HoldsLock()
    ensures Inv(ClockSection(s, t))
  {
    match s.threads[t]
    case Scan(goal, scanned, found) => ScanOneKeepsInv(s, t, goal, scanned, found);
    case CheckReserved(p, i) => CheckOneKeepsInv(s, t, p, i);
    case HasVictim(goal, v) => ReserveVictimKeepsInv(s, t, goal, v);
  }

  lemma EvictionKeepsInv(s: State, t: Tid, io: Io)
    requires Inv(s) && s.InBounds() && Enabled(s, Work(t, io)) && Allowed(s, Work(t, io)) && s.threads[t].InEviction()
    ensures Inv(VictimSection(s, t, io))
  {
    match s.threads[t]
    case VictimWrite(goal, v, oldPage, oldData) => WriteVictimKeepsInv(s, t, goal, v, oldPage, oldData, io);
    case VictimRead(p, v, oldPage) => ReadIntoVictimKeepsInv(s, t, p, v, oldPage, io);
    case VictimCommit(goal, v, oldPage, buffer) => CommitVictimKeepsInv(s, t, goal, v, oldPage, buffer);
    case VictimRollback(goal, v, oldPage) => RollBackVictimKeepsInv(s, t, goal, v, oldPage);
  }

  lemma FlushKeepsInv(s: State, t: Tid, io: Io)
    requires Inv(s) && s.InBounds() && Enabled(s, Work(t, io)) && Allowed(s, Work(t, io)) && s.threads[t].InFlush()
    ensures Inv(FlushSection(s, t, io))
  {
    assert ThreadOk(s, t);
    match s.threads[t]
    case FlushCheck(purpose, p, f) => CheckFlushKeepsInv(s, t, purpose, p, f);
    case FlushWrite(purpose, p, f, target, bytes) => WriteFlushKeepsInv(s, t, purpose, p, f, target, bytes, io);
    case FlushEnd(purpose, p, f, written) => EndFlushKeepsInv(s, t, purpose, p, f, written);
    case FlushDone(p, f) => FlushDoneKeepsInv(s, t, p, f);
    case DeleteCommit(p, f) => DeleteCommitKeepsInv(s, t, p, f);
    case DeleteFailed(p, f, error) => DeleteFailedKeepsInv(s, t, p, f, error);
  }

  lemma SectionKeepsInv(s: State, t: Tid, io: Io)
    requires Inv(s) && s.InBounds() && Enabled(s, Work(t, io)) && Allowed(s, Work(t, io))
    ensures Inv(Section(s, t, io))
  {
    var pc := s.threads[t];
    if pc.Start? {
      StartKeepsInv(s, t, pc.op);
    } else if pc.InLoad() {
      LoadKeepsInv(s, t, io);
    } else if pc.HoldsLock() {
      ClockKeepsInv(s, t);
    } else if pc.InEviction() {
      EvictionKeepsInv(s, t, io);
    } else if pc.InFlush() {
      FlushKeepsInv(s, t, io);
    }
  }

  /** The invariant survives every step of every interleaving. */
  lemma StepKeepsInv(s: State, l: Label)
    requires Inv(s) && s.InBounds() && Enabled(s, l) && Allowed(s, l)
    ensures Inv(Step(s, l))
  {
    match l
    case Call(_, _) => CallKeepsInv(s, l);
    case Work(t, io) => SectionKeepsInv(s, t, io);
    case ClientWrite(_, _, _) => ClientWriteKeepsInv(s, l);
  }

  lemma InitInv(n: nat, threadCount: nat, disk: map<PageId, PageData>)
    ensures Inv(Init(n, threadCount, disk))
  {
    var s := Init(n, threadCount, disk);
    forall f | 0 <= f < n ensures FrameOk(s, f) {
      assert s.free[f] == f;
    }
  }
}
