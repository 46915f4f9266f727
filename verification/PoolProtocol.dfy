/**
 * The concurrent buffer pool as a step system.
 *
 * Any number of threads run the manager's operations. A thread is at a program
 * point (`Pc`) carrying the local variables its operation still needs. One step is
 * one critical section: a section of `state_lock`, a section of a single frame lock,
 * or one disk call. The search of CLOCK, which visits many frames while it holds
 * `state_lock`, is cut into one step per frame, so that frame-lock-only sections of
 * other threads may run in the middle of it.
 */
module BufferPool {
  import opened Storage
  import opened Frames
  import opened PageTables
  import opened ClockReplacers

  const MAX_PAGE_ID: PageId := 0xFFFF

  type Tid = nat

  datatype PoolError =
    | NoEvictableFrame
    | DiskError
    | FrameError(fault: FrameFault)
    | PageNotFound(page: PageId)
    | PagePinned(page: PageId)
    | NoPageIdAvailable
    | TableError(tableError: PageTableError)
    | FrameReserved
    | FrameNotReserved

  /** How a thread's last operation ended. */
  datatype Reply = NoReply | Page(page: PageId, frame: FrameId) | Done | Failed(error: PoolError)

  datatype Op =
    | FetchPage(page: PageId)
    | NewPage
    | UnpinPage(page: PageId)
    | MarkDirtyPage(page: PageId)
    | FlushPage(page: PageId)
    | DeletePage(page: PageId)

  /** Why a victim is wanted: to load a page, or to hold a new page. */
  datatype Goal = Load(page: PageId) | Create(page: PageId)

  datatype Purpose = Flush | Delete

  datatype Pc =
    | Idle(reply: Reply)
    | Start(op: Op)                                     // before the first section, or about to retry it
    | LoadWait(p: PageId)                               // another thread is loading the page
    | FreeRead(p: PageId, f: FrameId)                   // owns a reserved free frame, reads the page
    | FreeLoad(p: PageId, f: FrameId, buffer: PageData)
    | FreePublish(p: PageId, f: FrameId)
    | FreeRollback(p: PageId, f: FrameId)
    | Scan(goal: Goal, scanned: nat, found: bool)       // inside CLOCK, holds state_lock
    | CheckReserved(p: PageId, i: nat)                  // CLOCK gave up, holds state_lock
    | HasVictim(goal: Goal, v: FrameId)                    // CLOCK found v, holds state_lock
    | VictimWrite(goal: Goal, v: FrameId, oldPage: PageId, oldData: PageData)
    | VictimRead(p: PageId, v: FrameId, oldPage: PageId)
    | VictimCommit(goal: Goal, v: FrameId, oldPage: PageId, buffer: PageData)
    | VictimRollback(goal: Goal, v: FrameId, oldPage: PageId)
    | FlushCheck(purpose: Purpose, p: PageId, f: FrameId)
    | FlushWrite(purpose: Purpose, p: PageId, f: FrameId, target: PageId, bytes: PageData)
    | FlushEnd(purpose: Purpose, p: PageId, f: FrameId, written: bool)
    | FlushDone(p: PageId, f: FrameId)
    | DeleteCommit(p: PageId, f: FrameId)
    | DeleteFailed(p: PageId, f: FrameId, error: PoolError)
  {
    /** Between taking state_lock and releasing it. */
    predicate HoldsLock() {
      Scan? || CheckReserved? || HasVictim?
    }

    predicate InLoad() {
      LoadWait? || FreeRead? || FreeLoad? || FreePublish? || FreeRollback?
    }

    predicate InEviction() {
      VictimWrite? || VictimRead? || VictimCommit? || VictimRollback?
    }

    predicate InFlush() {
      FlushCheck? || FlushWrite? || FlushEnd? || FlushDone? || DeleteCommit? || DeleteFailed?
    }

    /** The next section starts by taking state_lock. */
    predicate TakesLock() {
      || Start? || FreePublish? || FreeRollback? || VictimCommit? || DeleteCommit?
      || (VictimRollback? && goal.Load?)
    }

    /** The frame the thread will index next, if its program point names one. */
    function FrameOf(): Option<FrameId> {
      match this
      case FreeRead(_, f) => Some(f)
      case FreeLoad(_, f, _) => Some(f)
      case FreePublish(_, f) => Some(f)
      case FreeRollback(_, f) => Some(f)
      case HasVictim(_, v) => Some(v)
      case VictimWrite(_, v, _, _) => Some(v)
      case VictimRead(_, v, _) => Some(v)
      case VictimCommit(_, v, _, _) => Some(v)
      case VictimRollback(_, v, _) => Some(v)
      case FlushCheck(_, _, f) => Some(f)
      case FlushWrite(_, _, f, _, _) => Some(f)
      case FlushEnd(_, _, f, _) => Some(f)
      case FlushDone(_, f) => Some(f)
      case DeleteCommit(_, f) => Some(f)
      case DeleteFailed(_, f, _) => Some(f)
      case _ => None
    }
  }

  /** The outcome of a disk call; a failed write may leave any bytes behind. */
  datatype Io = Ok | Fails(torn: PageData)

  datatype Label =
    | Call(tid: Tid, op: Op)
    | Work(tid: Tid, io: Io)
    | ClientWrite(tid: Tid, page: PageId, bytes: PageData)

  /**
   * `pins` and `orphans` are history: the pins handed to clients and not yet given back,
   * and the in-flight entries that their creator has walked away from.
   */
  datatype State = State(
    frames: seq<FrameValue>,
    table: Table,
    free: seq<FrameId>,
    inFlight: set<PageId>,
    nextPageId: PageId,
    hand: nat,
    disk: map<PageId, PageData>,
    lock: Option<Tid>,
    threads: seq<Pc>,
    pins: map<PageId, nat>,
    orphans: set<PageId>)
  {
    /** A page never written reads as zeros. */
    function Disk(p: PageId): PageData {
      if p in disk then disk[p] else ZeroPage()
    }

    function Pins(p: PageId): nat {
      if p in pins then pins[p] else 0
    }

    function Goto(t: Tid, pc: Pc): State
      requires t < |threads|
    {
      this.(threads := threads[t := pc])
    }

    function Return(t: Tid, reply: Reply): State
      requires t < |threads|
    {
      Goto(t, Idle(reply))
    }

    function SetFrame(f: FrameId, v: FrameValue): State
      requires f < |frames|
    {
      this.(frames := frames[f := v])
    }

    /** Every index that a section may use is in range. */
    ghost predicate InBounds() {
      && (forall p :: p in table ==> table[p] < |frames|)
      && (forall i :: 0 <= i < |free| ==> free[i] < |frames|)
      && (forall t :: 0 <= t < |threads| && threads[t].FrameOf().Some? ==> threads[t].FrameOf().value < |frames|)
      && (frames != [] ==> hand < |frames|)
    }
  }

  /** An empty pool of n frames over the given disk, with every thread idle. */
  function Init(n: nat, threadCount: nat, disk: map<PageId, PageData>): State {
    State(seq(n, i => EMPTY_FRAME), map[], seq(n, i => i), {}, 0, 0, disk, None,
          seq(threadCount, i => Idle(NoReply)), map[], {})
  }

  // ---------------------------------------------------------------------------
  // The first section of each operation
  // ---------------------------------------------------------------------------

  ghost function StartFetch(s: State, t: Tid, p: PageId): State
    requires t < |s.threads| && s.InBounds()
  {
    if p in s.table then
      var f := s.table[p];
      if s.frames[f].state.Reserved? then s  // waits on state_cv, then retries
      else if s.frames[f].metadata.None? then s.Return(t, Failed(FrameError(NoMetadata)))
      else s.SetFrame(f, s.frames[f].Pinned().WithReference(true))
           .(pins := s.pins[p := s.Pins(p) + 1]).Return(t, Page(p, f))
    else if p in s.inFlight then
      s.Goto(t, LoadWait(p))
    else
      var s1 := s.(inFlight := s.inFlight + {p});
      if s.free == [] then
        s1.(lock := Some(t)).Goto(t, Scan(Load(p), 0, false))
      else
        var f := s.free[0];
        if s.frames[f].state.Reserved? then
          s.(free := s.free[1..] + [f]).Return(t, Failed(FrameError(AlreadyReserved)))
        else
          s1.(free := s.free[1..]).SetFrame(f, s.frames[f].InState(Reserved)).Goto(t, FreeRead(p, f))
  }

  ghost function StartNew(s: State, t: Tid): State
    requires t < |s.threads| && s.InBounds()
  {
    var n := s.nextPageId;
    if n >= MAX_PAGE_ID then s.Return(t, Failed(NoPageIdAvailable))
    else if s.free == [] then
      s.(lock := Some(t)).Goto(t, Scan(Create(n), 0, false))
    else
      var f := s.free[0];
      s.(free := s.free[1..]).SetFrame(f, NewFrame(n)).(table := s.table[n := f], nextPageId := n + 1)
       .(pins := s.pins[n := s.Pins(n) + 1]).Return(t, Page(n, f))
  }

  /** A frame that has just received a page for a thread that keeps it pinned. */
  function LoadedFrame(p: PageId, buffer: PageData): FrameValue {
    FrameValue(buffer, None, Free).Loaded(p, buffer).Pinned().WithReference(true)
  }

  function NewFrame(n: PageId): FrameValue {
    LoadedFrame(n, ZeroPage()).WithDirty(true)
  }

  ghost function StartUnpin(s: State, t: Tid, p: PageId): State
    requires t < |s.threads| && s.InBounds()
  {
    if p !in s.table then s.Return(t, Failed(PageNotFound(p)))
    else
      var f := s.table[p];
      if s.frames[f].state.Reserved? then s.Return(t, Failed(FrameReserved))
      else if s.frames[f].metadata.None? then s.Return(t, Failed(FrameError(NoMetadata)))
      else if !s.frames[f].IsPinned() then s.Return(t, Failed(FrameError(CannotUnpin)))
      else s.SetFrame(f, s.frames[f].Unpinned())
           .(pins := s.pins[p := if s.Pins(p) > 0 then s.Pins(p) - 1 else 0]).Return(t, Done)
  }

  ghost function StartMarkDirty(s: State, t: Tid, p: PageId): State
    requires t < |s.threads| && s.InBounds()
  {
    if p !in s.table then s.Return(t, Failed(PageNotFound(p)))
    else
      var f := s.table[p];
      if s.frames[f].state.Reserved? then s.Return(t, Failed(FrameReserved))
      else if s.frames[f].metadata.None? then s.Return(t, Failed(FrameError(NoMetadata)))
      else s.SetFrame(f, s.frames[f].WithDirty(true)).Return(t, Done)
  }

  ghost function StartFlush(s: State, t: Tid, p: PageId): State
    requires t < |s.threads| && s.InBounds()
  {
    if p !in s.table then s.Return(t, Failed(PageNotFound(p)))
    else
      var f := s.table[p];
      if s.frames[f].state.Reserved? then s.Return(t, Failed(FrameReserved))
      else if s.frames[f].IsDirty() then
        s.SetFrame(f, s.frames[f].InState(Reserved)).Goto(t, FlushCheck(Flush, p, f))
      else
        s.SetFrame(f, s.frames[f].InState(Resident)).Return(t, Done)
  }

  /** Unmaps the page and gives its frame back to the free list. */
  ghost function Unmap(s: State, t: Tid, p: PageId, f: FrameId): State
    requires t < |s.threads| && f < |s.frames|
  {
    s.(table := s.table - {p}, free := s.free + [f]).SetFrame(f, EMPTY_FRAME).Return(t, Done)
  }

  ghost function StartDelete(s: State, t: Tid, p: PageId): State
    requires t < |s.threads| && s.InBounds()
  {
    if p !in s.table then s.Return(t, Failed(PageNotFound(p)))
    else
      var f := s.table[p];
      if s.frames[f].IsPinned() || s.frames[f].state.Reserved? then s.Return(t, Failed(PagePinned(p)))
      else if s.frames[f].IsDirty() then
        s.SetFrame(f, s.frames[f].InState(Reserved)).Goto(t, FlushCheck(Delete, p, f))
      else Unmap(s, t, p, f)
  }

  ghost function StartOp(s: State, t: Tid, op: Op): (s': State)
    requires t < |s.threads| && s.InBounds()
    ensures |s'.threads| == |s.threads| && |s'.frames| == |s.frames|
  {
    match op
    case FetchPage(p) => StartFetch(s, t, p)
    case NewPage => StartNew(s, t)
    case UnpinPage(p) => StartUnpin(s, t, p)
    case MarkDirtyPage(p) => StartMarkDirty(s, t, p)
    case FlushPage(p) => StartFlush(s, t, p)
    case DeletePage(p) => StartDelete(s, t, p)
  }

  // ---------------------------------------------------------------------------
  // Loading into a free frame
  // ---------------------------------------------------------------------------

  function ReadIntoFree(s: State, t: Tid, p: PageId, f: FrameId, io: Io): State
    requires t < |s.threads|
  {
    s.Goto(t, if io.Ok? then FreeLoad(p, f, s.Disk(p)) else FreeRollback(p, f))
  }

  function RollBackFree(s: State, t: Tid, p: PageId, f: FrameId): State
    requires t < |s.threads| && f < |s.frames|
  {
    s.SetFrame(f, s.frames[f].InState(Free)).(free := s.free + [f], inFlight := s.inFlight - {p})
     .Return(t, Failed(DiskError))
  }

  function LoadFree(s: State, t: Tid, p: PageId, f: FrameId, buffer: PageData): State
    requires t < |s.threads| && f < |s.frames|
  {
    s.SetFrame(f, LoadedFrame(p, buffer)).Goto(t, FreePublish(p, f))
  }

  function PublishFree(s: State, t: Tid, p: PageId, f: FrameId): State
    requires t < |s.threads|
  {
    s.(table := s.table[p := f], inFlight := s.inFlight - {p}, pins := s.pins[p := s.Pins(p) + 1])
     .Return(t, Page(p, f))
  }

  // ---------------------------------------------------------------------------
  // CLOCK under state_lock, and what follows it
  // ---------------------------------------------------------------------------

  /** The search ends without a victim. */
  function GiveUp(s: State, t: Tid, goal: Goal): State
    requires t < |s.threads|
  {
    match goal
    case Load(p) => s.Goto(t, CheckReserved(p, 0))
    case Create(_) => s.(lock := None).Return(t, Failed(NoEvictableFrame))
  }

  /** One turn of the inner loop of CLOCK, with the end of the revolution when it is due. */
  ghost function ScanOne(s: State, t: Tid, goal: Goal, scanned: nat, found: bool): State
    requires t < |s.threads| && s.InBounds()
  {
    if s.frames == [] then GiveUp(s, t, goal)
    else
      var verdict := Look(s.frames[s.hand]);
      var s1 := s.(frames := Inspected(s.frames, s.hand), hand := Advance(s.hand, |s.frames|));
      var found' := found || verdict.Spared?;
      if verdict.Chosen? then s1.Goto(t, HasVictim(goal, s.hand))
      else if scanned + 1 < |s.frames| then s1.Goto(t, Scan(goal, scanned + 1, found'))
      else if found' then s1.Goto(t, Scan(goal, 0, false))
      else GiveUp(s1, t, goal)
  }

  /** After a fruitless search: wait if some frame is reserved, report failure if none is. */
  function CheckOne(s: State, t: Tid, p: PageId, i: nat): State
    requires t < |s.threads|
  {
    var abandoned := s.(lock := None, orphans := s.orphans + {p});
    if i >= |s.frames| then abandoned.Return(t, Failed(NoEvictableFrame))
    else if s.frames[i].state.Reserved? then abandoned.Goto(t, Start(FetchPage(p)))
    else s.Goto(t, CheckReserved(p, i + 1))
  }

  function ReserveVictim(s: State, t: Tid, goal: Goal, v: FrameId): State
    requires t < |s.threads| && v < |s.frames|
  {
    var s1 := s.(lock := None);
    var frame := s.frames[v];
    var s2 := s1.SetFrame(v, frame.InState(Reserved));
    if frame.state.Reserved? then s1.Return(t, Failed(FrameError(AlreadyReserved)))
    else if frame.metadata.None? then s2.Return(t, Failed(FrameError(NoMetadata)))
    else
      var oldPage := frame.metadata.value.pageId;
      if frame.IsDirty() then s2.Goto(t, VictimWrite(goal, v, oldPage, frame.data))
      else s2.Goto(t, AfterWrite(goal, v, oldPage))
  }

  /** A loader still has to read its page; a creator can commit. */
  function AfterWrite(goal: Goal, v: FrameId, oldPage: PageId): Pc {
    match goal
    case Load(p) => VictimRead(p, v, oldPage)
    case Create(_) => VictimCommit(goal, v, oldPage, ZeroPage())
  }

  function WriteVictim(s: State, t: Tid, goal: Goal, v: FrameId, oldPage: PageId, oldData: PageData, io: Io): State
    requires t < |s.threads|
  {
    match io
    case Ok => s.(disk := s.disk[oldPage := oldData]).Goto(t, AfterWrite(goal, v, oldPage))
    case Fails(torn) => s.(disk := s.disk[oldPage := torn]).Goto(t, VictimRollback(goal, v, oldPage))
  }

  function ReadIntoVictim(s: State, t: Tid, p: PageId, v: FrameId, oldPage: PageId, io: Io): State
    requires t < |s.threads|
  {
    s.Goto(t, if io.Ok? then VictimCommit(Load(p), v, oldPage, s.Disk(p)) else VictimRollback(Load(p), v, oldPage))
  }

  function RollBackVictim(s: State, t: Tid, goal: Goal, v: FrameId): State
    requires t < |s.threads| && v < |s.frames|
  {
    var s1 := s.SetFrame(v, s.frames[v].InState(Resident)).Return(t, Failed(DiskError));
    match goal
    case Load(p) => s1.(inFlight := s.inFlight - {p})
    case Create(_) => s1
  }

  function CommitVictim(s: State, t: Tid, goal: Goal, v: FrameId, oldPage: PageId, buffer: PageData): State
    requires t < |s.threads| && v < |s.frames|
  {
    var p := goal.page;
    var frame := if goal.Load? then LoadedFrame(p, buffer) else LoadedFrame(p, buffer).WithDirty(true);
    var s1 := s.SetFrame(v, frame);
    match Replaced(s.table, oldPage, p, v)
    case Failure(e) => s1.Return(t, Failed(TableError(e)))
    case Success(table') =>
      var s2 := s1.(table := table', pins := s.pins[p := s.Pins(p) + 1]).Return(t, Page(p, v));
      match goal
      case Load(_) => s2.(inFlight := s.inFlight - {p})
      case Create(_) => s2.(nextPageId := if p < MAX_PAGE_ID then p + 1 else p)
  }

  // ---------------------------------------------------------------------------
  // Flushing a reserved frame, for flush_page and delete_page
  // ---------------------------------------------------------------------------

  function AfterFlush(purpose: Purpose, p: PageId, f: FrameId): Pc {
    if purpose.Flush? then FlushDone(p, f) else DeleteCommit(p, f)
  }

  function CheckFlush(s: State, t: Tid, purpose: Purpose, p: PageId, f: FrameId): State
    requires t < |s.threads| && f < |s.frames|
  {
    var frame := s.frames[f];
    if !frame.state.Reserved? then
      (if purpose.Flush? then s.Return(t, Failed(FrameNotReserved)) else s.Goto(t, DeleteFailed(p, f, FrameNotReserved)))
    else if frame.IsDirty() then s.Goto(t, FlushWrite(purpose, p, f, frame.metadata.value.pageId, frame.data))
    else s.Goto(t, AfterFlush(purpose, p, f))
  }

  function WriteFlush(s: State, t: Tid, purpose: Purpose, p: PageId, f: FrameId,
                      target: PageId, bytes: PageData, io: Io): State
    requires t < |s.threads|
  {
    match io
    case Ok => s.(disk := s.disk[target := bytes]).Goto(t, FlushEnd(purpose, p, f, true))
    case Fails(torn) => s.(disk := s.disk[target := torn]).Goto(t, FlushEnd(purpose, p, f, false))
  }

  function EndFlush(s: State, t: Tid, purpose: Purpose, p: PageId, f: FrameId, written: bool): State
    requires t < |s.threads| && f < |s.frames|
  {
    var frame := s.frames[f];
    if written && frame.metadata.Some? then
      s.SetFrame(f, frame.WithDirty(false)).Goto(t, AfterFlush(purpose, p, f))
    else
      var s1 := s.SetFrame(f, frame.InState(Resident));
      var error := if written then FrameError(NoMetadata) else DiskError;
      if purpose.Delete? then s1.Goto(t, DeleteFailed(p, f, error)) else s1.Return(t, Failed(error))
  }

  /** set_resident outside state_lock: the end of a flush, or the second one of a failed delete. */
  function Release(s: State, t: Tid, f: FrameId, reply: Reply): State
    requires t < |s.threads| && f < |s.frames|
  {
    s.SetFrame(f, s.frames[f].InState(Resident)).Return(t, reply)
  }

  // ---------------------------------------------------------------------------
  // Steps
  // ---------------------------------------------------------------------------

  predicate Enabled(s: State, l: Label) {
    match l
    case Call(t, _) => t < |s.threads| && s.threads[t].Idle?
    case Work(t, _) =>
      && t < |s.threads|
      && !s.threads[t].Idle?
      && (s.threads[t].TakesLock() ==> s.lock == None)
      && (s.threads[t].LoadWait? ==> s.threads[t].p !in s.inFlight)
    case ClientWrite(t, p, _) =>
      && t < |s.threads| && s.threads[t].Idle?
      && p in s.table && s.table[p] < |s.frames|
      && s.frames[s.table[p]].IsPinned()
      && !s.frames[s.table[p]].state.Reserved?
  }

  /** The section of a thread that loads a page into a free frame. */
  ghost function LoadSection(s: State, t: Tid, io: Io): (s': State)
    requires t < |s.threads| && s.threads[t].InLoad() && s.InBounds()
    ensures |s'.threads| == |s.threads| && |s'.frames| == |s.frames|
  {
    match s.threads[t]
    case LoadWait(p) => s.Goto(t, Start(FetchPage(p)))
    case FreeRead(p, f) => ReadIntoFree(s, t, p, f, io)
    case FreeLoad(p, f, buffer) => LoadFree(s, t, p, f, buffer)
    case FreePublish(p, f) => PublishFree(s, t, p, f)
    case FreeRollback(p, f) => RollBackFree(s, t, p, f)
  }

  /** The section of a thread that looks for a victim under state_lock. */
  ghost function ClockSection(s: State, t: Tid): (s': State)
    requires t < |s.threads| && s.threads[t].HoldsLock() && s.InBounds()
    ensures |s'.threads| == |s.threads| && |s'.frames| == |s.frames|
  {
    match s.threads[t]
    case Scan(goal, scanned, found) => ScanOne(s, t, goal, scanned, found)
    case CheckReserved(p, i) => CheckOne(s, t, p, i)
    case HasVictim(goal, v) => ReserveVictim(s, t, goal, v)
  }

  /** The section of a thread that has reserved a victim. */
  ghost function VictimSection(s: State, t: Tid, io: Io): (s': State)
    requires t < |s.threads| && s.threads[t].InEviction() && s.InBounds()
    ensures |s'.threads| == |s.threads| && |s'.frames| == |s.frames|
  {
    match s.threads[t]
    case VictimWrite(goal, v, oldPage, oldData) => WriteVictim(s, t, goal, v, oldPage, oldData, io)
    case VictimRead(p, v, oldPage) => ReadIntoVictim(s, t, p, v, oldPage, io)
    case VictimCommit(goal, v, oldPage, buffer) => CommitVictim(s, t, goal, v, oldPage, buffer)
    case VictimRollback(goal, v, _) => RollBackVictim(s, t, goal, v)
  }

  /** The section of a thread that flushes or deletes a page it has reserved. */
  ghost function FlushSection(s: State, t: Tid, io: Io): (s': State)
    requires t < |s.threads| && s.threads[t].InFlush() && s.InBounds()
    ensures |s'.threads| == |s.threads| && |s'.frames| == |s.frames|
  {
    match s.threads[t]
    case FlushCheck(purpose, p, f) => CheckFlush(s, t, purpose, p, f)
    case FlushWrite(purpose, p, f, target, bytes) => WriteFlush(s, t, purpose, p, f, target, bytes, io)
    case FlushEnd(purpose, p, f, written) => EndFlush(s, t, purpose, p, f, written)
    case FlushDone(p, f) => Release(s, t, f, Done)
    case DeleteCommit(p, f) => Unmap(s, t, p, f)
    case DeleteFailed(_, f, error) => Release(s, t, f, Failed(error))
  }

  /** The section at the program point of thread t. */
  ghost function Section(s: State, t: Tid, io: Io): (s': State)
    requires t < |s.threads| && s.InBounds()
    ensures |s'.threads| == |s.threads| && |s'.frames| == |s.frames|
  {
    var pc := s.threads[t];
    if pc.Idle? then s
    else if pc.Start? then StartOp(s, t, pc.op)
    else if pc.InLoad() then LoadSection(s, t, io)
    else if pc.HoldsLock() then ClockSection(s, t)
    else if pc.InEviction() then VictimSection(s, t, io)
    else FlushSection(s, t, io)
  }

  ghost function Step(s: State, l: Label): (s': State)
    requires s.InBounds() && Enabled(s, l)
    ensures |s'.threads| == |s.threads| && |s'.frames| == |s.frames|
  {
    match l
    case Call(t, op) => s.Goto(t, Start(op))
    case Work(t, io) => Section(s, t, io)
    case ClientWrite(_, p, bytes) =>
      s.SetFrame(s.table[p], s.frames[s.table[p]].Modified(bytes))
  }
}
