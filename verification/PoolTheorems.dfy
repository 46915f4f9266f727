/** What the invariant gives: theorems about every reachable state and every run. */
module PoolTheorems {
  import opened Storage
  import opened Frames
  import opened PageTables
  import opened BufferPool
  import opened PoolInvariant

  // ---------------------------------------------------------------------------
  // Runs
  // ---------------------------------------------------------------------------

  /** The labels `ls` can be taken one after the other from s by a well-behaved environment. */
  ghost predicate Run(s: State, ls: seq<Label>)
    decreases |ls|
  {
    ls != [] ==>
      s.InBounds() && Enabled(s, ls[0]) && Allowed(s, ls[0]) && Run(Step(s, ls[0]), ls[1..])
  }

  /** The state a run ends in. */
  ghost function After(s: State, ls: seq<Label>): State
    requires Run(s, ls)
    decreases |ls|
  {
    if ls == [] then s else After(Step(s, ls[0]), ls[1..])
  }

  ghost predicate Reachable(s: State) {
    exists n, threadCount, disk, ls :: Run(Init(n, threadCount, disk), ls) && After(Init(n, threadCount, disk), ls) == s
  }

  lemma {:induction false} RunKeepsInv(s: State, ls: seq<Label>)
    requires Inv(s) && Run(s, ls)
    ensures Inv(After(s, ls))
    decreases |ls|
  {
    if ls != [] {
      StepKeepsInv(s, ls[0]);
      RunKeepsInv(Step(s, ls[0]), ls[1..]);
    }
  }

  /** Every state that any interleaving can reach satisfies the invariant, and no index is out of range in it. */
  lemma ReachableInv(s: State)
    requires Reachable(s)
    ensures Inv(s) && s.InBounds()
  {
    var n, threadCount, disk, ls :|
      Run(Init(n, threadCount, disk), ls) && After(Init(n, threadCount, disk), ls) == s;
    InitInv(n, threadCount, disk);
    RunKeepsInv(Init(n, threadCount, disk), ls);
    InvBounds(s);
  }

  // ---------------------------------------------------------------------------
  // Frame ownership
  // ---------------------------------------------------------------------------

  datatype Role = FreeFrame | Loading | Unpublished | Shared | Moving

  ghost predicate Mapped(s: State, f: FrameId) {
    exists p :: p in s.table && s.table[p] == f
  }

  ghost predicate OnlyClaimant(s: State, t: Tid, f: FrameId) {
    && t < |s.threads| && Claims(s.threads[t], f)
    && forall u :: 0 <= u < |s.threads| && Claims(s.threads[u], f) ==> u == t
  }

  ghost predicate OnceInFreeList(s: State, f: FrameId) {
    exists i :: 0 <= i < |s.free| && s.free[i] == f && forall j :: 0 <= j < |s.free| && s.free[j] == f ==> j == i
  }

  ghost predicate HasRole(s: State, f: FrameId, r: Role)
    requires f < |s.frames|
  {
    var frame := s.frames[f];
    match r
    case FreeFrame =>
      frame.state.Free? && frame.metadata.None? && OnceInFreeList(s, f) && !Mapped(s, f) && !Claimed(s, f)
    case Loading =>
      frame.state.Reserved? && frame.metadata.None? && f !in s.free && !Mapped(s, f)
      && exists t: Tid :: OnlyClaimant(s, t, f) && ClaimOf(s.threads[t]).Empty?
    case Unpublished =>
      frame.state.Resident? && frame.IsPinned() && f !in s.free && !Mapped(s, f)
      && exists t: Tid :: OnlyClaimant(s, t, f) && ClaimOf(s.threads[t]).Full?
    case Shared =>
      frame.state.Resident? && Published(s, f) && f !in s.free && !Claimed(s, f)
    case Moving =>
      frame.state.Reserved? && Published(s, f) && f !in s.free
      && exists t: Tid :: OnlyClaimant(s, t, f) && ClaimOf(s.threads[t]).Busy?
  }

  lemma MappedIsPublished(s: State, f: FrameId)
    requires Inv(s)
    ensures Mapped(s, f) <==> Published(s, f)
  {
    if Mapped(s, f) {
      var p :| p in s.table && s.table[p] == f;
      assert PageOk(s, p);
    }
  }

  lemma ClaimantIsAlone(s: State, t: Tid, f: FrameId)
    requires Inv(s) && t < |s.threads| && Claims(s.threads[t], f)
    ensures OnlyClaimant(s, t, f)
  {
    forall u | 0 <= u < |s.threads| && Claims(s.threads[u], f) ensures u == t {
      assert u != t ==> Apart(s.threads[u], s.threads[t]);
    }
  }

  ghost function RoleOf(s: State, f: FrameId): Role
    requires f < |s.frames|
  {
    if s.frames[f].state.Free? then FreeFrame
    else if s.frames[f].state.Reserved? then (if s.frames[f].metadata.None? then Loading else Moving)
    else if Published(s, f) then Shared else Unpublished
  }

  lemma ClaimedFrameHasItsRole(s: State, f: FrameId)
    requires Inv(s) && f < |s.frames| && Claimed(s, f)
    ensures HasRole(s, f, RoleOf(s, f))
  {
    MappedIsPublished(s, f);
    var t: Tid :| 0 <= t < |s.threads| && Claims(s.threads[t], f);
    ClaimantIsAlone(s, t, f);
    assert ThreadOk(s, t);
    assert ClaimOf(s.threads[t]).Busy? ==> PageOk(s, ClaimOf(s.threads[t]).p);
  }

  lemma UnclaimedFrameHasItsRole(s: State, f: FrameId)
    requires Inv(s) && f < |s.frames| && !Claimed(s, f)
    ensures HasRole(s, f, RoleOf(s, f))
  {
    assert FrameOk(s, f);
    MappedIsPublished(s, f);
    assert Published(s, f) ==> PageOk(s, s.frames[f].metadata.value.pageId);
    if s.frames[f].state.Free? {
      FreeFrameIsListedOnce(s, f);
    }
  }

  lemma FreeFrameIsListedOnce(s: State, f: FrameId)
    requires FreeOk(s) && f in s.free
    ensures OnceInFreeList(s, f)
  {
    var i :| 0 <= i < |s.free| && s.free[i] == f;
  }

  /** Each frame is in exactly one of the five roles, and each role that needs an owner has exactly one. */
  lemma EveryFrameHasOneRole(s: State, f: FrameId, r: Role)
    requires Inv(s) && f < |s.frames|
    ensures HasRole(s, f, r) <==> r == RoleOf(s, f)
  {
    if Claimed(s, f) {
      ClaimedFrameHasItsRole(s, f);
    } else {
      UnclaimedFrameHasItsRole(s, f);
    }
    MappedIsPublished(s, f);
  }

  /** A clean page's frame equals its disk copy. */
  lemma CleanPageIsOnDisk(s: State, p: PageId)
    requires Inv(s) && p in s.table
    ensures s.table[p] < |s.frames| && s.frames[s.table[p]].metadata.Some?
    ensures !s.frames[s.table[p]].IsDirty() ==> s.frames[s.table[p]].data == s.Disk(p)
  {
    assert PageOk(s, p);
  }

  lemma PageTableIsInjective(s: State)
    requires Inv(s)
    ensures Injective(s.table)
  {
    forall p, q | p in s.table && q in s.table && s.table[p] == s.table[q] ensures p == q {
      assert PageOk(s, p) && PageOk(s, q);
    }
  }

  // ---------------------------------------------------------------------------
  // Disk exclusion
  // ---------------------------------------------------------------------------

  /** The page of the disk call a thread is in, if it is in one. */
  function ReadsPage(pc: Pc): Option<PageId> {
    match pc
    case FreeRead(p, _) => Some(p)
    case VictimRead(p, _, _) => Some(p)
    case _ => None
  }

  function WritesPage(pc: Pc): Option<PageId> {
    match pc
    case VictimWrite(_, _, oldPage, _) => Some(oldPage)
    case FlushWrite(_, _, _, target, _) => Some(target)
    case _ => None
  }

  predicate InDiskCall(pc: Pc, p: PageId) {
    ReadsPage(pc) == Some(p) || WritesPage(pc) == Some(p)
  }

  /** A page is read only while it is unmapped, by its one loader. */
  lemma ReaderIsOnlyLoader(s: State, t: Tid, p: PageId)
    requires Inv(s) && t < |s.threads| && ReadsPage(s.threads[t]) == Some(p)
    ensures p !in s.table && p in s.inFlight
    ensures forall u :: 0 <= u < |s.threads| && Loads(s.threads[u], p) ==> u == t
  {
    assert ThreadOk(s, t);
    forall u | 0 <= u < |s.threads| && Loads(s.threads[u], p) ensures u == t {
      assert u != t ==> Apart(s.threads[u], s.threads[t]);
    }
  }

  /** A page is written only while it is mapped to a frame that the writer alone has reserved. */
  lemma WriterOwnsFrame(s: State, t: Tid, p: PageId)
    requires Inv(s) && t < |s.threads| && WritesPage(s.threads[t]) == Some(p)
    ensures p in s.table && s.table[p] < |s.frames| && s.frames[s.table[p]].state.Reserved?
    ensures OnlyClaimant(s, t, s.table[p])
  {
    assert ThreadOk(s, t);
    ClaimantIsAlone(s, t, s.table[p]);
  }

  /** No two threads are ever in a disk call on the same page. */
  lemma DiskCallsExclude(s: State, t: Tid, u: Tid, p: PageId)
    requires Inv(s) && t < |s.threads| && u < |s.threads|
    requires InDiskCall(s.threads[t], p) && InDiskCall(s.threads[u], p)
    ensures t == u
  {
    if ReadsPage(s.threads[t]) == Some(p) { ReaderIsOnlyLoader(s, t, p); } else { WriterOwnsFrame(s, t, p); }
    if ReadsPage(s.threads[u]) == Some(p) { ReaderIsOnlyLoader(s, u, p); } else { WriterOwnsFrame(s, u, p); }
  }

  // ---------------------------------------------------------------------------
  // Which sections answer with a page
  // ---------------------------------------------------------------------------

  /** The thread has just been given a page. */
  predicate Answered(pc: Pc) {
    pc.Idle? && pc.reply.Page?
  }

  /** Besides the first sections, only the two commits answer with a page or touch the pins. */
  lemma OnlyCommitsGrant(s: State, t: Tid, io: Io)
    requires s.InBounds() && Enabled(s, Work(t, io))
    requires !s.threads[t].Start? && !s.threads[t].VictimCommit? && !s.threads[t].FreePublish?
    ensures !Answered(Section(s, t, io).threads[t])
    ensures Section(s, t, io).pins == s.pins
  {
    var pc := s.threads[t];
    if pc.InLoad() {
      assert !Answered(LoadSection(s, t, io).threads[t]) && LoadSection(s, t, io).pins == s.pins;
    } else if pc.HoldsLock() {
      ClockGrantsNothing(s, t);
    } else if pc.InEviction() {
      assert !Answered(VictimSection(s, t, io).threads[t]) && VictimSection(s, t, io).pins == s.pins;
    } else {
      FlushGrantsNothing(s, t, io);
    }
  }

  lemma ClockGrantsNothing(s: State, t: Tid)
    requires t < |s.threads| && s.InBounds() && s.threads[t].HoldsLock()
    ensures !Answered(ClockSection(s, t).threads[t]) && ClockSection(s, t).pins == s.pins
  {
    var pc := s.threads[t];
    if pc.HasVictim? {
      ReserveGrantsNothing(s, t, pc.goal, pc.v);
    }
  }

  lemma ReserveGrantsNothing(s: State, t: Tid, goal: Goal, v: FrameId)
    requires t < |s.threads| && v < |s.frames|
    ensures !Answered(ReserveVictim(s, t, goal, v).threads[t]) && ReserveVictim(s, t, goal, v).pins == s.pins
  {
  }

  lemma FlushGrantsNothing(s: State, t: Tid, io: Io)
    requires t < |s.threads| && s.InBounds() && s.threads[t].InFlush()
    ensures !Answered(FlushSection(s, t, io).threads[t]) && FlushSection(s, t, io).pins == s.pins
  {
  }

  lemma OnlySomeStartsGrant(s: State, t: Tid, op: Op)
    requires t < |s.threads| && s.InBounds()
    requires !op.FetchPage? && !op.NewPage?
    ensures !Answered(StartOp(s, t, op).threads[t])
    ensures !op.UnpinPage? ==> StartOp(s, t, op).pins == s.pins
  {
    if op.FlushPage? || op.DeletePage? {
      ReservationsGrantNothing(s, t, op);
    }
  }

  lemma ReservationsGrantNothing(s: State, t: Tid, op: Op)
    requires t < |s.threads| && s.InBounds() && (op.FlushPage? || op.DeletePage?)
    ensures !Answered(StartOp(s, t, op).threads[t]) && StartOp(s, t, op).pins == s.pins
  {
  }

  // ---------------------------------------------------------------------------
  // Pin safety
  // ---------------------------------------------------------------------------

  /** While a page is pinned, the only thread that may reserve its frame is one that flushes it. */
  lemma PinnedFrameIsNotMoved(s: State, p: PageId, t: Tid)
    requires Inv(s) && s.Pins(p) > 0 && t < |s.threads|
    ensures p in s.table && s.table[p] < |s.frames| && s.frames[s.table[p]].IsPinned()
    ensures s.threads[t].HasVictim? ==> s.threads[t].v != s.table[p]
    ensures Claims(s.threads[t], s.table[p]) ==>
              s.threads[t].FlushCheck? || s.threads[t].FlushWrite? || s.threads[t].FlushEnd? || s.threads[t].FlushDone?
    ensures Claims(s.threads[t], s.table[p]) && !s.threads[t].FlushDone? ==> s.threads[t].purpose.Flush?
  {
    assert PageOk(s, p);
    assert ThreadOk(s, t);
  }

  /** A mapping disappears only when its page is unpinned. */
  lemma UnmappingEvictions(s: State, t: Tid, io: Io, p: PageId)
    requires Inv(s) && s.InBounds() && Enabled(s, Work(t, io)) && s.threads[t].InEviction()
    requires p in s.table && s.Pins(p) > 0
    ensures p in VictimSection(s, t, io).table && VictimSection(s, t, io).table[p] == s.table[p]
  {
    assert PageOk(s, p);
    assert ThreadOk(s, t);
  }

  lemma UnmappingFlushes(s: State, t: Tid, io: Io, p: PageId)
    requires Inv(s) && s.InBounds() && Enabled(s, Work(t, io)) && s.threads[t].InFlush()
    requires p in s.table && s.Pins(p) > 0
    ensures p in FlushSection(s, t, io).table && FlushSection(s, t, io).table[p] == s.table[p]
  {
    assert PageOk(s, p);
    assert ThreadOk(s, t);
  }

  lemma UnmappingLoads(s: State, t: Tid, io: Io, p: PageId)
    requires Inv(s) && s.InBounds() && Enabled(s, Work(t, io)) && s.threads[t].InLoad()
    requires p in s.table
    ensures p in LoadSection(s, t, io).table && LoadSection(s, t, io).table[p] == s.table[p]
  {
    assert ThreadOk(s, t);
  }

  lemma ClockKeepsTable(s: State, t: Tid)
    requires t < |s.threads| && s.InBounds() && s.threads[t].HoldsLock()
    ensures ClockSection(s, t).table == s.table
  {
  }

  lemma UnmappingStarts(s: State, t: Tid, op: Op, p: PageId)
    requires At(s, t, Start(op)) && s.InBounds()
    requires p in s.table && s.Pins(p) > 0
    requires HandsOut(s, Start(op)).Some? ==> HandsOut(s, Start(op)).value != p
    ensures p in StartOp(s, t, op).table && StartOp(s, t, op).table[p] == s.table[p]
  {
    assert PageOk(s, p);
  }

  /** A pinned page stays in its frame, whatever step any thread takes. */
  lemma PinnedPageStays(s: State, l: Label, p: PageId)
    requires Inv(s) && s.InBounds() && Enabled(s, l) && Allowed(s, l)
    requires s.Pins(p) > 0
    ensures p in s.table && p in Step(s, l).table && Step(s, l).table[p] == s.table[p]
  {
    match l
    case Work(t, io) =>
      var pc := s.threads[t];
      if pc.Start? {
        UnmappingStarts(s, t, pc.op, p);
      } else if pc.InLoad() {
        UnmappingLoads(s, t, io, p);
      } else if pc.HoldsLock() {
        ClockKeepsTable(s, t);
      } else if pc.InEviction() {
        UnmappingEvictions(s, t, io, p);
      } else {
        UnmappingFlushes(s, t, io, p);
      }
    case _ =>
  }

  /** Page p is pinned before every step of the run. */
  ghost predicate PinnedDuring(s: State, ls: seq<Label>, p: PageId)
    requires Run(s, ls)
    decreases |ls|
  {
    ls != [] ==> s.Pins(p) > 0 && PinnedDuring(Step(s, ls[0]), ls[1..], p)
  }

  /**
   * Pin safety: from the moment page p is pinned in frame f until its last pin is given
   * back, p stays mapped to f through every interleaving.
   */
  lemma {:induction false} PinSafety(s: State, ls: seq<Label>, p: PageId, f: FrameId)
    requires Inv(s) && Run(s, ls) && PinnedDuring(s, ls, p)
    requires p in s.table && s.table[p] == f
    ensures p in After(s, ls).table && After(s, ls).table[p] == f
    decreases |ls|
  {
    if ls != [] {
      StepKeepsInv(s, ls[0]);
      PinnedPageStays(s, ls[0], p);
      PinSafety(Step(s, ls[0]), ls[1..], p, f);
    }
  }

  /** The pin counter of a mapped page is the number of pins clients still hold; other pages have none. */
  lemma PinCountIsOutstandingPins(s: State, p: PageId)
    requires Inv(s)
    ensures if p in s.table
            then s.table[p] < |s.frames| && s.frames[s.table[p]].metadata.Some?
                 && s.frames[s.table[p]].metadata.value.pinCount == s.Pins(p)
            else s.Pins(p) == 0
  {
    assert p in s.table ==> PageOk(s, p);
  }

  // ---------------------------------------------------------------------------
  // Refinement to an atomic page store
  // ---------------------------------------------------------------------------

  /** The store the pool stands for: the frame's bytes if the page is mapped, else the disk's. */
  ghost function View(s: State, p: PageId): PageData
    requires s.InBounds()
  {
    if p in s.table then s.frames[s.table[p]].data else s.Disk(p)
  }

  /** One write to the atomic store. */
  datatype StoreWrite = StoreWrite(page: PageId, bytes: PageData)

  /** A successful new_page ends in this step. */
  ghost predicate Creates(s: State, l: Label)
    requires s.InBounds() && Enabled(s, l)
  {
    l.Work? && Creating(s.threads[l.tid]) && Answered(Step(s, l).threads[l.tid])
  }

  /** The writes of the atomic store that one step of the pool stands for: none or one. */
  ghost function WritesOf(s: State, l: Label): seq<StoreWrite>
    requires s.InBounds() && Enabled(s, l)
  {
    if l.ClientWrite? then [StoreWrite(l.page, l.bytes)]
    else if Creates(s, l) then [StoreWrite(Step(s, l).threads[l.tid].reply.page, ZeroPage())]
    else []
  }

  /** What page p holds after the writes `ws`, if it held `bytes` before them. */
  function Apply(bytes: PageData, p: PageId, ws: seq<StoreWrite>): PageData
    decreases |ws|
  {
    if ws == [] then bytes
    else Apply(if ws[0].page == p then ws[0].bytes else bytes, p, ws[1..])
  }

  /** The history of the atomic store over a run. */
  ghost function History(s: State, ls: seq<Label>): seq<StoreWrite>
    requires Run(s, ls)
    decreases |ls|
  {
    if ls == [] then [] else WritesOf(s, ls[0]) + History(Step(s, ls[0]), ls[1..])
  }

  lemma LoadKeepsView(s: State, t: Tid, io: Io, q: PageId)
    requires Inv(s) && s.InBounds() && Enabled(s, Work(t, io)) && s.threads[t].InLoad()
    requires LoadSection(s, t, io).InBounds()
    ensures View(LoadSection(s, t, io), q) == View(s, q)
  {
    var pc := s.threads[t];
    assert ThreadOk(s, t);
    if pc.FreePublish? {
      PublishKeepsView(s, t, pc.p, pc.f, q);
    } else {
      assert q in s.table ==> PageOk(s, q);
    }
  }

  /** Publishing moves a page from disk to a frame that holds the same bytes. */
  lemma PublishKeepsView(s: State, t: Tid, p: PageId, f: FrameId, q: PageId)
    requires At(s, t, FreePublish(p, f)) && s.InBounds()
    requires PublishFree(s, t, p, f).InBounds()
    ensures View(PublishFree(s, t, p, f), q) == View(s, q)
  {
    assert ThreadOk(s, t);
    assert q in s.table ==> PageOk(s, q);
  }

  lemma ClockKeepsView(s: State, t: Tid, q: PageId)
    requires t < |s.threads| && s.InBounds() && s.threads[t].HoldsLock()
    requires ClockSection(s, t).InBounds()
    ensures View(ClockSection(s, t), q) == View(s, q)
  {
  }

  lemma EvictionKeepsView(s: State, t: Tid, io: Io, q: PageId)
    requires Inv(s) && s.InBounds() && Enabled(s, Work(t, io)) && s.threads[t].InEviction()
    requires !s.threads[t].VictimCommit?
    requires VictimSection(s, t, io).InBounds()
    ensures View(VictimSection(s, t, io), q) == View(s, q)
  {
    assert ThreadOk(s, t);
    assert q in s.table ==> PageOk(s, q);
  }

  lemma FlushKeepsView(s: State, t: Tid, io: Io, q: PageId)
    requires Inv(s) && s.InBounds() && Enabled(s, Work(t, io)) && s.threads[t].InFlush()
    requires FlushSection(s, t, io).InBounds()
    ensures View(FlushSection(s, t, io), q) == View(s, q)
  {
    var pc := s.threads[t];
    assert ThreadOk(s, t);
    if pc.DeleteCommit? {
      UnmapKeepsView(s, t, pc.p, pc.f, q);
    } else if pc.FlushWrite? {
      FlushWriteKeepsView(s, t, io, q);
    } else if pc.FlushEnd? {
      FlushEndKeepsView(s, t, pc.purpose, pc.p, pc.f, pc.written, q);
    }
  }

  lemma FlushEndKeepsView(s: State, t: Tid, purpose: Purpose, p: PageId, f: FrameId, written: bool, q: PageId)
    requires s.InBounds() && t < |s.threads| && f < |s.frames|
    requires EndFlush(s, t, purpose, p, f, written).InBounds()
    ensures View(EndFlush(s, t, purpose, p, f, written), q) == View(s, q)
  {
  }

  lemma FlushWriteKeepsView(s: State, t: Tid, io: Io, q: PageId)
    requires Inv(s) && s.InBounds() && Enabled(s, Work(t, io)) && s.threads[t].FlushWrite?
    requires FlushSection(s, t, io).InBounds()
    ensures View(FlushSection(s, t, io), q) == View(s, q)
  {
    assert ThreadOk(s, t);
    assert q in s.table ==> PageOk(s, q);
  }

  /** Committing an eviction moves the old page from frame to disk and the new one from disk to frame. */
  lemma CommitKeepsView(s: State, t: Tid, goal: Goal, v: FrameId, oldPage: PageId, buffer: PageData, q: PageId)
    requires At(s, t, VictimCommit(goal, v, oldPage, buffer)) && s.InBounds() && v < |s.frames|
    requires goal.Create? ==> goal.page !in s.table
    requires CommitVictim(s, t, goal, v, oldPage, buffer).InBounds()
    ensures View(CommitVictim(s, t, goal, v, oldPage, buffer), q)
         == if goal == Create(q) then ZeroPage() else View(s, q)
    ensures CommitVictim(s, t, goal, v, oldPage, buffer).threads[t] == Idle(Page(goal.page, v))
  {
    CommitSucceeds(s, t, goal, v, oldPage, buffer);
    assert ThreadOk(s, t);
    assert q in s.table ==> PageOk(s, q);
  }

  lemma StartFetchKeepsView(s: State, t: Tid, p: PageId, q: PageId)
    requires At(s, t, Start(FetchPage(p))) && s.InBounds()
    requires StartFetch(s, t, p).InBounds()
    ensures View(StartFetch(s, t, p), q) == View(s, q)
  {
    assert q in s.table ==> PageOk(s, q);
    assert p in s.table ==> PageOk(s, p);
  }

  /** Unmapping a clean page leaves its bytes readable on disk. */
  lemma UnmapKeepsView(s: State, t: Tid, p: PageId, f: FrameId, q: PageId)
    requires Inv(s) && s.InBounds() && t < |s.threads| && p in s.table && s.table[p] == f
    requires s.frames[f].data == s.Disk(p)
    requires Unmap(s, t, p, f).InBounds()
    ensures View(Unmap(s, t, p, f), q) == View(s, q)
  {
    assert q in s.table ==> PageOk(s, q);
    assert PageOk(s, p);
  }

  lemma StartDeleteKeepsView(s: State, t: Tid, p: PageId, q: PageId)
    requires At(s, t, Start(DeletePage(p))) && s.InBounds()
    requires StartDelete(s, t, p).InBounds()
    ensures View(StartDelete(s, t, p), q) == View(s, q)
  {
    if StartDelete(s, t, p).threads[t] == Idle(Done) {
      assert PageOk(s, p);
      UnmapKeepsView(s, t, p, s.table[p], q);
    }
  }

  lemma OtherStartKeepsView(s: State, t: Tid, op: Op, q: PageId)
    requires t < |s.threads| && s.InBounds() && (op.UnpinPage? || op.MarkDirtyPage? || op.FlushPage?)
    requires StartOp(s, t, op).InBounds()
    ensures View(StartOp(s, t, op), q) == View(s, q)
  {
  }

  lemma StartNewKeepsView(s: State, t: Tid, q: PageId)
    requires At(s, t, Start(NewPage)) && s.InBounds()
    requires StartNew(s, t).InBounds()
    ensures var pc := StartNew(s, t).threads[t];
            View(StartNew(s, t), q) == if Answered(pc) && pc.reply.page == q then ZeroPage() else View(s, q)
  {
    assert q in s.table ==> PageOk(s, q);
    assert forall i :: 0 <= i < |s.free| && q in s.table ==> s.free[i] != s.table[q];
  }

  /** Each step changes the store exactly by the writes it stands for. */
  lemma StepRefinesStore(s: State, l: Label, q: PageId)
    requires Inv(s) && s.InBounds() && Enabled(s, l) && Allowed(s, l)
    ensures Step(s, l).InBounds()
    ensures View(Step(s, l), q) == Apply(View(s, q), q, WritesOf(s, l))
  {
    StepKeepsInv(s, l);
    InvBounds(Step(s, l));
    match l
    case Call(_, _) =>
    case ClientWrite(_, p, _) =>
      assert PageOk(s, p);
      assert q in s.table ==> PageOk(s, q);
    case Work(t, io) =>
      SectionRefinesStore(s, t, io, q);
  }

  lemma SectionRefinesStore(s: State, t: Tid, io: Io, q: PageId)
    requires Inv(s) && s.InBounds() && Enabled(s, Work(t, io)) && Allowed(s, Work(t, io))
    requires Section(s, t, io).InBounds()
    ensures View(Section(s, t, io), q) == Apply(View(s, q), q, WritesOf(s, Work(t, io)))
  {
    if s.threads[t] == Start(NewPage) {
      StartNewKeepsView(s, t, q);
    } else if s.threads[t].Start? {
      StartRefinesStore(s, t, s.threads[t].op, q);
    } else if s.threads[t].VictimCommit? {
      CommitRefinesStore(s, t, io, q);
    } else {
      if !s.threads[t].FreePublish? {
        OnlyCommitsGrant(s, t, io);
      }
      SectionKeepsView(s, t, io, q);
    }
  }

  lemma StartRefinesStore(s: State, t: Tid, op: Op, q: PageId)
    requires At(s, t, Start(op)) && s.InBounds() && !op.NewPage?
    requires StartOp(s, t, op).InBounds()
    ensures View(StartOp(s, t, op), q) == View(s, q)
  {
    if op.FetchPage? {
      StartFetchKeepsView(s, t, op.page, q);
    } else if op.DeletePage? {
      StartDeleteKeepsView(s, t, op.page, q);
    } else {
      OtherStartKeepsView(s, t, op, q);
    }
  }

  lemma CommitRefinesStore(s: State, t: Tid, io: Io, q: PageId)
    requires Inv(s) && s.InBounds() && Enabled(s, Work(t, io)) && Allowed(s, Work(t, io)) && s.threads[t].VictimCommit?
    requires Section(s, t, io).InBounds()
    ensures View(Section(s, t, io), q) == Apply(View(s, q), q, WritesOf(s, Work(t, io)))
  {
    var pc := s.threads[t];
    CommitKeepsView(s, t, pc.goal, pc.v, pc.oldPage, pc.buffer, q);
  }

  lemma SectionKeepsView(s: State, t: Tid, io: Io, q: PageId)
    requires Inv(s) && s.InBounds() && Enabled(s, Work(t, io))
    requires !s.threads[t].Start? && !s.threads[t].VictimCommit?
    requires Section(s, t, io).InBounds()
    ensures View(Section(s, t, io), q) == View(s, q)
  {
    var pc := s.threads[t];
    if pc.InLoad() {
      LoadKeepsView(s, t, io, q);
    } else if pc.HoldsLock() {
      ClockKeepsView(s, t, q);
    } else if pc.InEviction() {
      EvictionKeepsView(s, t, io, q);
    } else {
      FlushKeepsView(s, t, io, q);
    }
  }

  lemma {:induction false} ApplyConcat(bytes: PageData, p: PageId, a: seq<StoreWrite>, b: seq<StoreWrite>)
    ensures Apply(bytes, p, a + b) == Apply(Apply(bytes, p, a), p, b)
    decreases |a|
  {
    if a == [] {
      assert a + b == b;
    } else {
      assert (a + b)[1..] == a[1..] + b;
      ApplyConcat(if a[0].page == p then a[0].bytes else bytes, p, a[1..], b);
    }
  }

  /**
   * Coherence: over any run, whatever was fetched, evicted, flushed, deleted, rolled back
   * or torn on the way, each page holds its last write in the history of the atomic store.
   */
  lemma {:induction false} RunRefinesStore(s: State, ls: seq<Label>, q: PageId)
    requires Inv(s) && s.InBounds() && Run(s, ls)
    ensures After(s, ls).InBounds()
    ensures View(After(s, ls), q) == Apply(View(s, q), q, History(s, ls))
    decreases |ls|
  {
    if ls != [] {
      var s1 := Step(s, ls[0]);
      StepKeepsInv(s, ls[0]);
      StepRefinesStore(s, ls[0], q);
      RunRefinesStore(s1, ls[1..], q);
      ApplyConcat(View(s, q), q, WritesOf(s, ls[0]), History(s1, ls[1..]));
    }
  }

  // ---------------------------------------------------------------------------
  // Replies
  // ---------------------------------------------------------------------------

  /** The step hands page p to a client. */
  ghost predicate Grants(s: State, l: Label, p: PageId)
    requires s.InBounds() && Enabled(s, l)
  {
    l.Work? && Answered(Step(s, l).threads[l.tid]) && Step(s, l).threads[l.tid].reply.page == p
  }

  /** The step takes a pin of page p back from a client. */
  ghost predicate TakesBack(s: State, l: Label, p: PageId)
    requires s.InBounds() && Enabled(s, l)
  {
    l.Work? && s.threads[l.tid] == Start(UnpinPage(p)) && Step(s, l).threads[l.tid] == Idle(Done)
  }

  /** What a thread holds when the manager has answered with frame f for page p. */
  ghost predicate HoldsPage(s: State, p: PageId, f: FrameId) {
    && p in s.table && s.table[p] == f && f < |s.frames|
    && s.frames[f].state.Resident? && s.frames[f].IsPinned() && s.frames[f].IsReferenced() && s.Pins(p) > 0
  }

  /** Pages are handed out by a hit, by new_page on a free frame, and by the two commits. */
  lemma GrantingSections(s: State, l: Label, p: PageId)
    requires s.InBounds() && Enabled(s, l)
    ensures Grants(s, l, p) ==>
              var pc := s.threads[l.tid];
              pc.FreePublish? || pc.VictimCommit? || pc == Start(FetchPage(p)) || pc == Start(NewPage)
  {
    if l.Work? {
      var pc := s.threads[l.tid];
      if pc.Start? {
        if !pc.op.FetchPage? && !pc.op.NewPage? {
          OnlySomeStartsGrant(s, l.tid, pc.op);
        }
      } else if !pc.FreePublish? && !pc.VictimCommit? {
        OnlyCommitsGrant(s, l.tid, l.io);
      }
    }
  }

  /** A reply with a frame is true: the page is mapped to that frame, resident and pinned. */
  lemma GrantIsHonest(s: State, l: Label, p: PageId)
    requires Inv(s) && s.InBounds() && Enabled(s, l) && Allowed(s, l) && Grants(s, l, p)
    ensures HoldsPage(Step(s, l), p, Step(s, l).threads[l.tid].reply.frame)
  {
    var t := l.tid;
    assert ThreadOk(s, t);
    match s.threads[t]
    case Start(op) => StartGrantIsHonest(s, t, op);
    case VictimCommit(goal, v, oldPage, buffer) => CommitSucceeds(s, t, goal, v, oldPage, buffer);
    case _ => GrantingSections(s, l, p);
  }

  lemma StartGrantIsHonest(s: State, t: Tid, op: Op)
    requires At(s, t, Start(op)) && s.InBounds()
    ensures var pc := StartOp(s, t, op).threads[t];
            Answered(pc) ==> HoldsPage(StartOp(s, t, op), pc.reply.page, pc.reply.frame)
  {
    if op.FetchPage? {
      assert op.page in s.table ==> PageOk(s, op.page);
    } else if !op.NewPage? {
      OnlySomeStartsGrant(s, t, op);
    }
  }

  /** fetch_page answers with the bytes that the atomic store holds, and does not change them. */
  lemma FetchReturnsStoredBytes(s: State, l: Label, p: PageId)
    requires Inv(s) && s.InBounds() && Enabled(s, l) && Allowed(s, l) && Grants(s, l, p) && !Creating(s.threads[l.tid])
    ensures var s' := Step(s, l);
            s'.threads[l.tid].reply.frame < |s'.frames| && s'.frames[s'.threads[l.tid].reply.frame].data == View(s, p)
  {
    GrantIsHonest(s, l, p);
    StepRefinesStore(s, l, p);
  }

  /** new_page answers with an id that nobody has mapped or is loading, and a page of zeros. */
  lemma NewPageIsUnused(s: State, l: Label, n: PageId)
    requires Inv(s) && s.InBounds() && Enabled(s, l) && Allowed(s, l) && Grants(s, l, n) && Creating(s.threads[l.tid])
    ensures n !in s.table && n !in s.inFlight && s.Pins(n) == 0
    ensures Step(s, l).InBounds() && View(Step(s, l), n) == ZeroPage()
  {
    var t := l.tid;
    assert ThreadOk(s, t);
    StepRefinesStore(s, l, n);
    GrantingSections(s, l, n);
    match s.threads[t]
    case VictimCommit(goal, v, oldPage, buffer) => CommitSucceeds(s, t, goal, v, oldPage, buffer);
    case _ =>
  }

  /** Pins count answers: one more for each page handed out, one less for each pin taken back. */
  lemma PinsFollowReplies(s: State, l: Label, p: PageId)
    requires Inv(s) && s.InBounds() && Enabled(s, l) && Allowed(s, l)
    ensures Step(s, l).Pins(p) == s.Pins(p) + (if Grants(s, l, p) then 1 else 0) - (if TakesBack(s, l, p) then 1 else 0)
  {
    if l.Work? {
      var pc := s.threads[l.tid];
      if pc.Start? {
        StartPinsFollowReplies(s, l.tid, pc.op, p);
      } else if pc.FreePublish? || pc.VictimCommit? {
        CommitPinsFollowReplies(s, l.tid, l.io, p);
      } else {
        OnlyCommitsGrant(s, l.tid, l.io);
      }
    }
  }

  lemma CommitPinsFollowReplies(s: State, t: Tid, io: Io, p: PageId)
    requires Inv(s) && s.InBounds() && Allowed(s, Work(t, io)) && (s.threads[t].FreePublish? || s.threads[t].VictimCommit?)
    ensures var s' := Section(s, t, io);
            Answered(s'.threads[t]) && s'.Pins(p) == s.Pins(p) + if s'.threads[t].reply.page == p then 1 else 0
  {
    if s.threads[t].VictimCommit? {
      var pc := s.threads[t];
      CommitSucceeds(s, t, pc.goal, pc.v, pc.oldPage, pc.buffer);
    }
  }

  lemma StartPinsFollowReplies(s: State, t: Tid, op: Op, p: PageId)
    requires At(s, t, Start(op)) && s.InBounds()
    ensures var s' := StartOp(s, t, op);
            s'.Pins(p) == s.Pins(p)
                          + (if Answered(s'.threads[t]) && s'.threads[t].reply.page == p then 1 else 0)
                          - (if op == UnpinPage(p) && s'.threads[t] == Idle(Done) then 1 else 0)
  {
    if op.UnpinPage? {
      UnpinTakesOneBack(s, t, op.page, p);
    } else if op.FetchPage? {
      HitTakesOnePin(s, t, op.page, p);
    } else if !op.NewPage? {
      OnlySomeStartsGrant(s, t, op);
    }
  }

  lemma HitTakesOnePin(s: State, t: Tid, q: PageId, p: PageId)
    requires At(s, t, Start(FetchPage(q))) && s.InBounds()
    ensures var s' := StartFetch(s, t, q);
            s'.Pins(p) == s.Pins(p) + if Answered(s'.threads[t]) && s'.threads[t].reply.page == p then 1 else 0
  {
    if q !in s.table {
      MissTakesNoPin(s, t, q);
    }
  }

  lemma MissTakesNoPin(s: State, t: Tid, q: PageId)
    requires t < |s.threads| && s.InBounds() && q !in s.table
    ensures !Answered(StartFetch(s, t, q).threads[t]) && StartFetch(s, t, q).pins == s.pins
  {
  }

  lemma UnpinTakesOneBack(s: State, t: Tid, q: PageId, p: PageId)
    requires At(s, t, Start(UnpinPage(q))) && s.InBounds()
    ensures var s' := StartUnpin(s, t, q);
            s'.Pins(p) == s.Pins(p) - if q == p && s'.threads[t] == Idle(Done) then 1 else 0
  {
    assert q in s.table ==> PageOk(s, q);
  }

  /** A first section that reports a failure has changed nothing else. */
  lemma RefusalChangesNothing(s: State, t: Tid, op: Op)
    requires At(s, t, Start(op)) && s.InBounds()
    ensures var s' := StartOp(s, t, op);
            s'.threads[t].Idle? && s'.threads[t].reply.Failed? ==> s' == s.Return(t, s'.threads[t].reply)
  {
    match op
    case FetchPage(p) => FetchDoesNotFailAtOnce(s, t, p);
    case NewPage =>
    case UnpinPage(p) => PinRefusalChangesNothing(s, t, op);
    case MarkDirtyPage(p) => PinRefusalChangesNothing(s, t, op);
    case FlushPage(p) => FlushRefusalChangesNothing(s, t, op);
    case DeletePage(p) => FlushRefusalChangesNothing(s, t, op);
  }

  lemma PinRefusalChangesNothing(s: State, t: Tid, op: Op)
    requires t < |s.threads| && s.InBounds() && (op.UnpinPage? || op.MarkDirtyPage?)
    ensures var s' := StartOp(s, t, op);
            s'.threads[t].Idle? && (s'.threads[t].reply.Failed? ==> s' == s.Return(t, s'.threads[t].reply))
  {
  }

  lemma FlushRefusalChangesNothing(s: State, t: Tid, op: Op)
    requires t < |s.threads| && s.InBounds() && (op.FlushPage? || op.DeletePage?)
    ensures var s' := StartOp(s, t, op);
            s'.threads[t].Idle? && s'.threads[t].reply.Failed? ==> s' == s.Return(t, s'.threads[t].reply)
  {
  }

  /** Free frames are never reserved and published ones always have a page, so a fetch cannot fail in its first section. */
  lemma FetchDoesNotFailAtOnce(s: State, t: Tid, p: PageId)
    requires At(s, t, Start(FetchPage(p))) && s.InBounds()
    ensures var pc := StartFetch(s, t, p).threads[t];
            pc.Idle? ==> pc == Idle(Page(p, s.table[p]))
  {
    assert p in s.table ==> PageOk(s, p);
  }

  /** When flush_page answers, the page is mapped and its bytes are on disk. */
  lemma FlushIsDurable(s: State, t: Tid, io: Io, p: PageId, f: FrameId)
    requires Inv(s) && s.InBounds() && Enabled(s, Work(t, io))
    requires s.threads[t] == Start(FlushPage(p)) || s.threads[t] == FlushDone(p, f)
    ensures var s' := Section(s, t, io);
            s'.threads[t] == Idle(Done) ==>
              p in s'.table && s'.table[p] < |s'.frames| && s'.frames[s'.table[p]].state.Resident?
              && s'.frames[s'.table[p]].data == s'.Disk(p) == s.Disk(p)
  {
    assert ThreadOk(s, t);
    assert p in s.table ==> PageOk(s, p);
  }

  /** When delete_page answers, the page is unmapped, its frame is free, and its bytes are on disk. */
  lemma DeleteIsDurable(s: State, t: Tid, io: Io, p: PageId, f: FrameId)
    requires Inv(s) && s.InBounds() && Enabled(s, Work(t, io))
    requires s.threads[t] == Start(DeletePage(p)) || s.threads[t] == DeleteCommit(p, f)
    ensures var s' := Section(s, t, io);
            s'.threads[t] == Idle(Done) ==>
              p in s.table && p !in s'.table
              && s'.free == s.free + [s.table[p]] && s'.frames[s.table[p]] == EMPTY_FRAME
              && s'.Disk(p) == View(s, p)
  {
    assert ThreadOk(s, t);
    assert p in s.table ==> PageOk(s, p);
  }

  /** When mark_dirty_page answers, the page's frame is dirty, so it cannot be evicted without a write. */
  lemma MarkDirtyMarks(s: State, t: Tid, p: PageId)
    requires At(s, t, Start(MarkDirtyPage(p))) && s.InBounds()
    ensures var s' := StartMarkDirty(s, t, p);
            if p in s.table && s.frames[s.table[p]].state.Resident?
            then s.frames[s.table[p]].metadata.Some?
                 && s' == s.SetFrame(s.table[p], s.frames[s.table[p]].WithDirty(true)).Return(t, Done)
            else s'.threads[t].Idle? && s'.threads[t].reply.Failed? && s' == s.Return(t, s'.threads[t].reply)
  {
    assert p in s.table ==> PageOk(s, p);
  }

  /** A dirty victim is always written before its frame can be given away. */
  lemma DirtyVictimIsWritten(s: State, t: Tid, io: Io)
    requires Inv(s) && s.InBounds() && Enabled(s, Work(t, io))
    requires s.threads[t].HasVictim? || s.threads[t].VictimWrite?
    ensures var pc := Section(s, t, io).threads[t];
            pc.VictimRead? || pc.VictimCommit? ==>
              var s' := Section(s, t, io);
              pc.v < |s'.frames| && s'.frames[pc.v].data == s'.Disk(pc.oldPage)
  {
    assert ThreadOk(s, t);
    if s.threads[t].HasVictim? {
      assert PageOk(s, s.frames[s.threads[t].v].metadata.value.pageId);
    }
  }

  /** The errors that would mean a broken manager are never reported. */
  lemma NoBrokenReply(s: State, t: Tid)
    requires Inv(s) && t < |s.threads|
    ensures s.threads[t].Idle? ==> !Broken(s.threads[t].reply)
  {
    assert ThreadOk(s, t);
  }

  /**
   * What CLOCK chose can always be reserved and has a page; and that page can be swapped
   * for the wanted one exactly as long as the wanted one is not mapped.
   */
  lemma VictimIsUsable(s: State, t: Tid)
    requires Inv(s) && t < |s.threads|
    ensures s.threads[t].HasVictim? ==>
              var v := s.threads[t].v;
              Published(s, v) && s.frames[v].state.Resident? && !s.frames[v].IsPinned()
    ensures s.threads[t].VictimCommit? ==>
              var goal := s.threads[t].goal;
              && (Replaced(s.table, s.threads[t].oldPage, goal.page, s.threads[t].v).Success? <==> goal.page !in s.table)
              && (goal.Load? ==> goal.page !in s.table)
  {
    assert ThreadOk(s, t);
  }

  // ---------------------------------------------------------------------------
  // In-flight loads
  // ---------------------------------------------------------------------------

  /** Every in-flight entry has exactly one running owner or has been abandoned, never both. */
  lemma InFlightHasOneOwner(s: State, p: PageId)
    requires Inv(s)
    ensures p in s.inFlight <==> p in s.orphans || HasLoader(s, p)
    ensures !(p in s.orphans && HasLoader(s, p))
    ensures forall t, u :: 0 <= t < |s.threads| && 0 <= u < |s.threads| && Loads(s.threads[t], p) && Loads(s.threads[u], p) ==> t == u
  {
    forall t | 0 <= t < |s.threads| && Loads(s.threads[t], p) ensures p in s.inFlight && p !in s.orphans {
      assert ThreadOk(s, t);
    }
    forall t, u | 0 <= t < |s.threads| && 0 <= u < |s.threads| && Loads(s.threads[t], p) && Loads(s.threads[u], p)
      ensures t == u
    {
      assert t != u ==> Apart(s.threads[t], s.threads[u]);
    }
  }

  /** The step is the end of a fetch for which CLOCK found no victim. */
  ghost predicate Abandons(s: State, l: Label, p: PageId) {
    && l.Work? && l.tid < |s.threads| && s.threads[l.tid].CheckReserved? && s.threads[l.tid].p == p
    && (s.threads[l.tid].i < |s.frames| ==> s.frames[s.threads[l.tid].i].state.Reserved?)
  }

  /** An entry is abandoned exactly by a fetch that CLOCK left without a victim. */
  lemma AbandonedExactlyWithoutVictim(s: State, l: Label, p: PageId)
    requires Inv(s) && s.InBounds() && Enabled(s, l) && Allowed(s, l)
    ensures p in Step(s, l).orphans <==> p in s.orphans || Abandons(s, l, p)
  {
    match l
    case Work(t, io) =>
      if s.threads[t].Start? {
        StartKeepsOrphans(s, t, s.threads[t].op);
      } else if !s.threads[t].CheckReserved? {
        SectionKeepsOrphans(s, t, io);
      }
    case _ =>
  }

  lemma StartKeepsOrphans(s: State, t: Tid, op: Op)
    requires t < |s.threads| && s.InBounds()
    ensures StartOp(s, t, op).orphans == s.orphans
  {
    if op.FetchPage? {
      FetchStartKeepsOrphans(s, t, op.page);
    } else if op.FlushPage? || op.DeletePage? {
      ReservationsKeepOrphans(s, t, op);
    }
  }

  lemma FetchStartKeepsOrphans(s: State, t: Tid, p: PageId)
    requires t < |s.threads| && s.InBounds()
    ensures StartFetch(s, t, p).orphans == s.orphans
  {
  }

  lemma ReservationsKeepOrphans(s: State, t: Tid, op: Op)
    requires t < |s.threads| && s.InBounds() && (op.FlushPage? || op.DeletePage?)
    ensures StartOp(s, t, op).orphans == s.orphans
  {
  }

  lemma SectionKeepsOrphans(s: State, t: Tid, io: Io)
    requires t < |s.threads| && s.InBounds() && !s.threads[t].Start? && !s.threads[t].CheckReserved?
    ensures Section(s, t, io).orphans == s.orphans
  {
    var pc := s.threads[t];
    if pc.InLoad() {
      assert LoadSection(s, t, io).orphans == s.orphans;
    } else if pc.HoldsLock() {
      assert ClockSection(s, t).orphans == s.orphans;
    } else if pc.InEviction() {
      assert VictimSection(s, t, io).orphans == s.orphans;
    } else if !pc.Idle? {
      assert FlushSection(s, t, io).orphans == s.orphans;
    }
  }

  /** When every thread is idle, each frame is free or shared, and only abandoned entries are in flight. */
  lemma QuietPoolIsTidy(s: State)
    requires Inv(s) && forall t :: 0 <= t < |s.threads| ==> s.threads[t].Idle?
    ensures forall f :: 0 <= f < |s.frames| ==> HasRole(s, f, FreeFrame) || HasRole(s, f, Shared)
    ensures s.inFlight == s.orphans && s.lock == None
  {
    forall f | 0 <= f < |s.frames| ensures HasRole(s, f, FreeFrame) || HasRole(s, f, Shared) {
      EveryFrameHasOneRole(s, f, RoleOf(s, f));
    }
    forall t | 0 <= t < |s.threads| ensures s.lock != Some(t) {
      assert ThreadOk(s, t);
    }
  }

  /** No fetch of the run is left without a victim. */
  ghost predicate ClockServes(s: State, ls: seq<Label>)
    requires Run(s, ls)
    decreases |ls|
  {
    ls != [] ==> (forall p :: !Abandons(s, ls[0], p)) && ClockServes(Step(s, ls[0]), ls[1..])
  }

  /** As long as CLOCK serves every fetch, entries have owners, and none is left when nobody loads. */
  lemma {:induction false} NoEntryIsLeftBehind(s: State, ls: seq<Label>)
    requires Inv(s) && s.orphans == {} && Run(s, ls) && ClockServes(s, ls)
    ensures After(s, ls).orphans == {}
    ensures forall p :: p in After(s, ls).inFlight <==> HasLoader(After(s, ls), p)
    decreases |ls|
  {
    if ls == [] {
      forall p ensures p in s.inFlight <==> HasLoader(s, p) {
        InFlightHasOneOwner(s, p);
      }
    } else {
      StepKeepsInv(s, ls[0]);
      forall p ensures p !in Step(s, ls[0]).orphans {
        AbandonedExactlyWithoutVictim(s, ls[0], p);
      }
      NoEntryIsLeftBehind(Step(s, ls[0]), ls[1..]);
    }
  }

  /** No step of the run hands page p to a client. */
  ghost predicate NeverGranted(s: State, ls: seq<Label>, p: PageId)
    requires Run(s, ls)
    decreases |ls|
  {
    ls != [] ==> !Grants(s, ls[0], p) && NeverGranted(Step(s, ls[0]), ls[1..], p)
  }

  /**
   * An abandoned entry is never cleaned up: whatever happens afterwards, the page stays
   * in flight and unmapped, and no fetch of it ever succeeds again.
   */
  lemma {:induction false} AbandonedPageIsLost(s: State, ls: seq<Label>, p: PageId)
    requires Inv(s) && Run(s, ls) && p in s.orphans
    ensures p in After(s, ls).inFlight && p !in After(s, ls).table
    ensures NeverGranted(s, ls, p)
    decreases |ls|
  {
    if ls != [] {
      StepKeepsInv(s, ls[0]);
      AbandonedExactlyWithoutVictim(s, ls[0], p);
      if Grants(s, ls[0], p) {
        GrantIsHonest(s, ls[0], p);
      }
      AbandonedPageIsLost(Step(s, ls[0]), ls[1..], p);
    }
  }
}
