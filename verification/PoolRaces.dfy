/** Concrete runs to each of the limits, and what comes of them. */
module PoolRaces {
  import opened Storage
  import opened Frames
  import opened PageTables
  import opened BufferPool
  import opened PoolInvariant
  import opened PoolTheorems
  import opened PoolLimits

  // ---------------------------------------------------------------------------
  // Reaching a state step by step
  // ---------------------------------------------------------------------------

  /** Thread t's next section leads from s to s'. */
  ghost predicate Takes(s: State, t: Tid, io: Io, s': State) {
    s.InBounds() && Enabled(s, Work(t, io)) && Section(s, t, io) == s'
  }

  /** Thread t calls op, and the first section of op leads from s to s'. */
  ghost predicate Calls(s: State, t: Tid, op: Op, s': State) {
    && s.InBounds() && t < |s.threads| && s.threads[t].Idle? && s.lock == None
    && s.Goto(t, Start(op)).InBounds() && StartOp(s.Goto(t, Start(op)), t, op) == s'
  }

  /** A run of allowed steps leads from s to s'. */
  ghost predicate Reaches(s: State, s': State) {
    exists ls :: Run(s, ls) && After(s, ls) == s'
  }

  lemma {:induction false} RunPush(s: State, ls: seq<Label>, l: Label)
    requires Run(s, ls)
    requires After(s, ls).InBounds() && Enabled(After(s, ls), l) && Allowed(After(s, ls), l)
    ensures Run(s, ls + [l]) && After(s, ls + [l]) == Step(After(s, ls), l)
    decreases |ls|
  {
    if ls == [] {
      assert [l][1..] == [];
      assert Run(Step(s, l), []);
      assert ls + [l] == [l];
    } else {
      assert (ls + [l])[0] == ls[0] && (ls + [l])[1..] == ls[1..] + [l];
      RunPush(Step(s, ls[0]), ls[1..], l);
    }
  }

  lemma ReachesItself(s: State)
    ensures Reaches(s, s)
  {
    assert Run(s, []) && After(s, []) == s;
  }

  lemma ReachesStep(s: State, s1: State, l: Label)
    requires Reaches(s, s1) && s1.InBounds() && Enabled(s1, l) && Allowed(s1, l)
    ensures Reaches(s, Step(s1, l))
  {
    var ls :| Run(s, ls) && After(s, ls) == s1;
    RunPush(s, ls, l);
  }

  lemma Then(s: State, s1: State, t: Tid, io: Io, s2: State)
    requires Reaches(s, s1) && Takes(s1, t, io, s2) && Allowed(s1, Work(t, io))
    ensures Reaches(s, s2)
  {
    ReachesStep(s, s1, Work(t, io));
  }

  /** The first section of op would be allowed. */
  ghost predicate MayStart(s: State, op: Op) {
    match op
    case FetchPage(p) => Hits(s, p) ==> s.Pins(p) < MAX_PINS
    case NewPage => s.nextPageId < MAX_PAGE_ID && s.free != [] ==> Unused(s, s.nextPageId)
    case _ => true
  }

  lemma ThenCall(s: State, s1: State, t: Tid, op: Op, s2: State)
    requires Reaches(s, s1) && Calls(s1, t, op, s2) && MayStart(s1, op)
    ensures Reaches(s, s2)
  {
    ReachesStep(s, s1, Call(t, op));
    ReachesStep(s, s1.Goto(t, Start(op)), Work(t, Ok));
  }

  // ---------------------------------------------------------------------------
  // A delete whose write fails
  // ---------------------------------------------------------------------------

  const P0: PageId := 0
  const P1: PageId := 1
  const P2: PageId := 2

  /** Page 0 as it is after new_page and unpin_page, and after CLOCK has passed it once. */
  function Unpinned0(): FrameValue {
    NewFrame(P0).Unpinned()
  }

  function Passed0(): FrameValue {
    Unpinned0().WithReference(false)
  }

  /** A pool of one frame that holds page 0, with `pins` pins on it. */
  function One(frame: FrameValue, disk: map<PageId, PageData>, lock: Option<Tid>, t0: Pc, t1: Pc, pins: nat): State {
    State([frame], map[P0 := 0], [], {}, 1, 0, disk, lock, [t0, t1], map[P0 := pins], {})
  }

  function Created(): State {
    One(NewFrame(P0), map[], None, Idle(Page(P0, 0)), Idle(NoReply), 1)
  }

  function Released(): State {
    One(Unpinned0(), map[], None, Idle(Done), Idle(NoReply), 0)
  }

  function Deleting(): State {
    One(Unpinned0().InState(Reserved), map[], None, FlushCheck(Delete, P0, 0), Idle(NoReply), 0)
  }

  function Writing(): State {
    One(Unpinned0().InState(Reserved), map[], None, FlushWrite(Delete, P0, 0, P0, ZeroPage()), Idle(NoReply), 0)
  }

  function Torn(torn: PageData): State {
    One(Unpinned0().InState(Reserved), map[P0 := torn], None, FlushEnd(Delete, P0, 0, false), Idle(NoReply), 0)
  }

  function Gap(torn: PageData): State {
    One(Unpinned0(), map[P0 := torn], None, DeleteFailed(P0, 0, DiskError), Idle(NoReply), 0)
  }

  function Searching(torn: PageData): State {
    One(Unpinned0(), map[P0 := torn], Some(1), DeleteFailed(P0, 0, DiskError), Scan(Create(P1), 0, false), 0)
  }

  function SearchingAgain(torn: PageData): State {
    One(Passed0(), map[P0 := torn], Some(1), DeleteFailed(P0, 0, DiskError), Scan(Create(P1), 0, false), 0)
  }

  function Found(torn: PageData): State {
    One(Passed0(), map[P0 := torn], Some(1), DeleteFailed(P0, 0, DiskError), HasVictim(Create(P1), 0), 0)
  }

  function Racing(torn: PageData): State {
    One(Passed0().InState(Reserved), map[P0 := torn], None,
        DeleteFailed(P0, 0, DiskError), VictimWrite(Create(P1), 0, P0, ZeroPage()), 0)
  }

  function SetBack(torn: PageData): State {
    One(Passed0(), map[P0 := torn], None, Idle(Failed(DiskError)), VictimWrite(Create(P1), 0, P0, ZeroPage()), 0)
  }

  function Refetched(torn: PageData): State {
    One(Passed0().Pinned().WithReference(true), map[P0 := torn], None,
        Idle(Page(P0, 0)), VictimWrite(Create(P1), 0, P0, ZeroPage()), 1)
  }

  function Committing(torn: PageData): State {
    One(Passed0().Pinned().WithReference(true), map[P0 := ZeroPage()], None,
        Idle(Page(P0, 0)), VictimCommit(Create(P1), 0, P0, ZeroPage()), 1)
  }

  /** Thread 0 still has page 0 pinned, but its frame now holds page 1. */
  function Overtaken(): State {
    State([NewFrame(P1)], map[P1 := 0], [], {}, 2, 0, map[P0 := ZeroPage()], None,
          [Idle(Page(P0, 0)), Idle(Page(P1, 0))], map[P0 := 1, P1 := 1], {})
  }

  lemma CreateSteps()
    ensures Calls(Init(1, 2, map[]), 0, NewPage, Created())
    ensures Calls(Created(), 0, UnpinPage(P0), Released())
    ensures Calls(Released(), 0, DeletePage(P0), Deleting())
  {
  }

  lemma DeleteSteps(torn: PageData)
    ensures Takes(Deleting(), 0, Ok, Writing())
    ensures Takes(Writing(), 0, Fails(torn), Torn(torn))
  {
  }

  lemma GapStep(torn: PageData)
    ensures Takes(Torn(torn), 0, Ok, Gap(torn))
  {
  }

  lemma SearchSteps(torn: PageData)
    ensures Calls(Gap(torn), 1, NewPage, Searching(torn))
    ensures Takes(Searching(torn), 1, Ok, SearchingAgain(torn))
  {
  }

  lemma ChoiceSteps(torn: PageData)
    ensures Takes(SearchingAgain(torn), 1, Ok, Found(torn))
    ensures Takes(Found(torn), 1, Ok, Racing(torn))
  {
  }

  lemma DeletingIsReachable()
    ensures Reaches(Init(1, 2, map[]), Deleting())
  {
    var s := Init(1, 2, map[]);
    CreateSteps();
    ReachesItself(s);
    ThenCall(s, s, 0, NewPage, Created());
    ThenCall(s, Created(), 0, UnpinPage(P0), Released());
    ThenCall(s, Released(), 0, DeletePage(P0), Deleting());
  }

  lemma GapIsReachable(torn: PageData)
    ensures Reaches(Init(1, 2, map[]), Gap(torn))
  {
    var s := Init(1, 2, map[]);
    DeletingIsReachable();
    DeleteSteps(torn);
    GapStep(torn);
    Then(s, Deleting(), 0, Ok, Writing());
    Then(s, Writing(), 0, Fails(torn), Torn(torn));
    Then(s, Torn(torn), 0, Ok, Gap(torn));
  }

  /** Allowed steps alone lead to a failed delete whose frame another thread has reserved meanwhile. */
  lemma DeleteRaceIsReachable(torn: PageData)
    ensures Reachable(Racing(torn))
  {
    var s := Init(1, 2, map[]);
    GapIsReachable(torn);
    SearchSteps(torn);
    ChoiceSteps(torn);
    ThenCall(s, Gap(torn), 1, NewPage, Searching(torn));
    Then(s, Searching(torn), 1, Ok, SearchingAgain(torn));
    Then(s, SearchingAgain(torn), 1, Ok, Found(torn));
    Then(s, Found(torn), 1, Ok, Racing(torn));
  }

  lemma SetBackStep(torn: PageData)
    ensures Takes(Racing(torn), 0, Ok, SetBack(torn))
    ensures SetBack(torn) == Release(Racing(torn), 0, 0, Failed(DiskError))
  {
  }

  /** The second set_resident of the delete breaks the invariant. */
  lemma DeleteRaceBreaksInv(torn: PageData)
    ensures Takes(Racing(torn), 0, Ok, SetBack(torn)) && !Inv(SetBack(torn))
  {
    SetBackStep(torn);
    DeleteRaceIsReachable(torn);
    ReachableInv(Racing(torn));
    SecondReleaseExactly(Racing(torn), 0, P0, 0, DiskError);
  }

  lemma RefetchSteps(torn: PageData)
    ensures Calls(SetBack(torn), 0, FetchPage(P0), Refetched(torn))
    ensures Takes(Refetched(torn), 1, Ok, Committing(torn))
  {
  }

  lemma OvertakeStep(torn: PageData)
    ensures Takes(Committing(torn), 1, Ok, Overtaken())
  {
  }

  /** From there, a client can be left with a pin on a page that no longer has a frame. */
  lemma DeleteRaceBreaksPinSafety(torn: PageData)
    ensures Takes(Racing(torn), 0, Ok, SetBack(torn))
    ensures Calls(SetBack(torn), 0, FetchPage(P0), Refetched(torn))
    ensures Takes(Refetched(torn), 1, Ok, Committing(torn))
    ensures Takes(Committing(torn), 1, Ok, Overtaken())
    ensures Overtaken().threads[0] == Idle(Page(P0, 0)) && Overtaken().Pins(P0) == 1 && P0 !in Overtaken().table
  {
    SetBackStep(torn);
    RefetchSteps(torn);
    OvertakeStep(torn);
  }

  // ---------------------------------------------------------------------------
  // Two overlapping new_page calls
  // ---------------------------------------------------------------------------

  /** Page 0 as a client has written it; the frames of pages 0 and 1 unpinned, and after CLOCK has passed them. */
  function Written0(bytes: PageData): FrameValue {
    NewFrame(P0).Modified(bytes)
  }

  function Given0(bytes: PageData): FrameValue {
    Written0(bytes).Unpinned()
  }

  function Given1(): FrameValue {
    NewFrame(P1).Unpinned()
  }

  function Old0(bytes: PageData): FrameValue {
    Given0(bytes).WithReference(false)
  }

  function Old1(): FrameValue {
    Given1().WithReference(false)
  }

  /** A pool of two frames that hold pages 0 and 1, neither pinned. */
  function Two(f0: FrameValue, f1: FrameValue, hand: nat, disk: map<PageId, PageData>, lock: Option<Tid>, t0: Pc, t1: Pc): State {
    State([f0, f1], map[P0 := 0, P1 := 1], [], {}, 2, hand, disk, lock, [t0, t1], map[P0 := 0, P1 := 0], {})
  }

  /** The pool while only page 0 is in it. */
  function Half(f0: FrameValue, pins: nat, reply: Reply): State {
    State([f0, EMPTY_FRAME], map[P0 := 0], [1], {}, 1, 0, map[], None, [Idle(reply), Idle(NoReply)], map[P0 := pins], {})
  }

  function Fresh(): State {
    Half(NewFrame(P0), 1, Page(P0, 0))
  }

  function Edited(bytes: PageData): State {
    Half(Written0(bytes), 1, Page(P0, 0))
  }

  function Kept(bytes: PageData): State {
    Half(Given0(bytes), 0, Done)
  }

  function Filled(bytes: PageData): State {
    State([Given0(bytes), NewFrame(P1)], map[P0 := 0, P1 := 1], [], {}, 2, 0, map[], None,
          [Idle(Page(P1, 1)), Idle(NoReply)], map[P0 := 0, P1 := 1], {})
  }

  function Full(bytes: PageData): State {
    Two(Given0(bytes), Given1(), 0, map[], None, Idle(Done), Idle(NoReply))
  }

  // Thread 0 looks for a frame for page 2.

  function Look0(bytes: PageData): State {
    Two(Given0(bytes), Given1(), 0, map[], Some(0), Scan(Create(P2), 0, false), Idle(NoReply))
  }

  function Look1(bytes: PageData): State {
    Two(Old0(bytes), Given1(), 1, map[], Some(0), Scan(Create(P2), 1, true), Idle(NoReply))
  }

  function Look2(bytes: PageData): State {
    Two(Old0(bytes), Old1(), 0, map[], Some(0), Scan(Create(P2), 0, false), Idle(NoReply))
  }

  function Found0(bytes: PageData): State {
    Two(Old0(bytes), Old1(), 1, map[], Some(0), HasVictim(Create(P2), 0), Idle(NoReply))
  }

  /** Thread 0 has reserved frame 0 for page 2; thread 1 is at pc. */
  function Held(bytes: PageData, f1: FrameValue, hand: nat, disk: map<PageId, PageData>, lock: Option<Tid>, pc: Pc): State {
    Two(Old0(bytes).InState(Reserved), f1, hand, disk, lock, VictimWrite(Create(P2), 0, P0, bytes), pc)
  }

  function Reserved0(bytes: PageData): State {
    Held(bytes, Old1(), 1, map[], None, Idle(NoReply))
  }

  // Thread 1 looks for a frame for page 2 as well.

  function OtherLooks(bytes: PageData): State {
    Held(bytes, Old1(), 1, map[], Some(1), Scan(Create(P2), 0, false))
  }

  function OtherFinds(bytes: PageData): State {
    Held(bytes, Old1(), 0, map[], Some(1), HasVictim(Create(P2), 1))
  }

  function OtherWrites(bytes: PageData): State {
    Held(bytes, Old1().InState(Reserved), 0, map[], None, VictimWrite(Create(P2), 1, P1, ZeroPage()))
  }

  function OtherCommits(bytes: PageData): State {
    Held(bytes, Old1().InState(Reserved), 0, map[P1 := ZeroPage()], None, VictimCommit(Create(P2), 1, P1, ZeroPage()))
  }

  /** Thread 1 has got page 2; thread 0, which read the same id, is at pc. */
  function Taken(bytes: PageData, disk: map<PageId, PageData>, pc: Pc): State {
    State([Old0(bytes).InState(Reserved), NewFrame(P2)], map[P0 := 0, P2 := 1], [], {}, 3, 0, disk, None,
          [pc, Idle(Page(P2, 1))], map[P0 := 0, P1 := 0, P2 := 1], {})
  }

  function OtherDone(bytes: PageData): State {
    Taken(bytes, map[P1 := ZeroPage()], VictimWrite(Create(P2), 0, P0, bytes))
  }

  function Stale(bytes: PageData): State {
    Taken(bytes, map[P1 := ZeroPage(), P0 := bytes], VictimCommit(Create(P2), 0, P0, ZeroPage()))
  }

  lemma EditSteps(bytes: PageData)
    ensures Calls(Init(2, 2, map[]), 0, NewPage, Fresh())
    ensures Fresh().InBounds() && Enabled(Fresh(), ClientWrite(0, P0, bytes))
    ensures Step(Fresh(), ClientWrite(0, P0, bytes)) == Edited(bytes)
  {
  }

  lemma FillSteps(bytes: PageData)
    ensures Calls(Edited(bytes), 0, UnpinPage(P0), Kept(bytes))
    ensures Calls(Kept(bytes), 0, NewPage, Filled(bytes))
  {
  }

  lemma FullStep(bytes: PageData)
    ensures Calls(Filled(bytes), 0, UnpinPage(P1), Full(bytes))
  {
  }

  lemma EditIsReachable(bytes: PageData)
    ensures Reaches(Init(2, 2, map[]), Edited(bytes))
  {
    var s := Init(2, 2, map[]);
    EditSteps(bytes);
    ReachesItself(s);
    ThenCall(s, s, 0, NewPage, Fresh());
    ReachesStep(s, Fresh(), ClientWrite(0, P0, bytes));
  }

  lemma FullIsReachable(bytes: PageData)
    ensures Reaches(Init(2, 2, map[]), Full(bytes))
  {
    var s := Init(2, 2, map[]);
    EditIsReachable(bytes);
    FillSteps(bytes);
    FullStep(bytes);
    ThenCall(s, Edited(bytes), 0, UnpinPage(P0), Kept(bytes));
    ThenCall(s, Kept(bytes), 0, NewPage, Filled(bytes));
    ThenCall(s, Filled(bytes), 0, UnpinPage(P1), Full(bytes));
  }

  lemma LookSteps(bytes: PageData)
    ensures Calls(Full(bytes), 0, NewPage, Look0(bytes))
    ensures Takes(Look0(bytes), 0, Ok, Look1(bytes))
  {
  }

  lemma FindSteps(bytes: PageData)
    ensures Takes(Look1(bytes), 0, Ok, Look2(bytes))
    ensures Takes(Look2(bytes), 0, Ok, Found0(bytes))
  {
  }

  lemma ReserveStep(bytes: PageData)
    ensures Takes(Found0(bytes), 0, Ok, Reserved0(bytes))
  {
  }

  lemma ReservationIsReachable(bytes: PageData)
    ensures Reaches(Init(2, 2, map[]), Reserved0(bytes))
  {
    var s := Init(2, 2, map[]);
    FullIsReachable(bytes);
    LookSteps(bytes);
    FindSteps(bytes);
    ReserveStep(bytes);
    ThenCall(s, Full(bytes), 0, NewPage, Look0(bytes));
    Then(s, Look0(bytes), 0, Ok, Look1(bytes));
    Then(s, Look1(bytes), 0, Ok, Look2(bytes));
    Then(s, Look2(bytes), 0, Ok, Found0(bytes));
    Then(s, Found0(bytes), 0, Ok, Reserved0(bytes));
  }

  lemma OtherLookSteps(bytes: PageData)
    ensures Calls(Reserved0(bytes), 1, NewPage, OtherLooks(bytes))
    ensures Takes(OtherLooks(bytes), 1, Ok, OtherFinds(bytes))
  {
  }

  lemma OtherWriteSteps(bytes: PageData)
    ensures Takes(OtherFinds(bytes), 1, Ok, OtherWrites(bytes))
    ensures Takes(OtherWrites(bytes), 1, Ok, OtherCommits(bytes))
  {
  }

  lemma OtherCommitStep(bytes: PageData)
    ensures Takes(OtherCommits(bytes), 1, Ok, OtherDone(bytes))
  {
  }

  lemma StaleStep(bytes: PageData)
    ensures Takes(OtherDone(bytes), 0, Ok, Stale(bytes))
  {
  }

  lemma OtherCommitIsReachable(bytes: PageData)
    ensures Reaches(Init(2, 2, map[]), OtherCommits(bytes))
  {
    var s := Init(2, 2, map[]);
    ReservationIsReachable(bytes);
    OtherLookSteps(bytes);
    OtherWriteSteps(bytes);
    ThenCall(s, Reserved0(bytes), 1, NewPage, OtherLooks(bytes));
    Then(s, OtherLooks(bytes), 1, Ok, OtherFinds(bytes));
    Then(s, OtherFinds(bytes), 1, Ok, OtherWrites(bytes));
    Then(s, OtherWrites(bytes), 1, Ok, OtherCommits(bytes));
  }

  /** Two new_page calls that overlap both get id 2, and both reserve a victim for it. */
  lemma StaleCommitIsReachable(bytes: PageData)
    ensures Reachable(Stale(bytes))
  {
    var s := Init(2, 2, map[]);
    OtherCommitIsReachable(bytes);
    OtherCommitStep(bytes);
    StaleStep(bytes);
    Then(s, OtherCommits(bytes), 1, Ok, OtherDone(bytes));
    Then(s, OtherDone(bytes), 0, Ok, Stale(bytes));
  }

  /** The second commit is refused, and takes what the client wrote to page 0 with it. */
  lemma StaleCommitLosesWrite(bytes: PageData)
    ensures Stale(bytes).InBounds() && View(Stale(bytes), P0) == bytes
    ensures var s' := CommitVictim(Stale(bytes), 0, Create(P2), 0, P0, ZeroPage());
            && Takes(Stale(bytes), 0, Ok, s')
            && s'.threads[0] == Idle(Failed(TableError(PageAlreadyExist)))
            && s'.InBounds() && View(s', P0) == ZeroPage() && !Inv(s')
  {
    StaleCommitIsReachable(bytes);
    ReachableInv(Stale(bytes));
    RefusedCommitZeroesOldPage(Stale(bytes), 0, P2, 0, P0, ZeroPage());
    CommitNewExactly(Stale(bytes), 0, P2, 0, P0, ZeroPage());
  }

  // ---------------------------------------------------------------------------
  // An id that is handed out twice
  // ---------------------------------------------------------------------------

  /** Page 2 as thread 1 has written it. */
  function Written2(c: PageData): FrameValue {
    NewFrame(P2).Modified(c)
  }

  /** Thread 0 still holds id 2 and frame 0, while thread 1 uses page 2 and deletes it. */
  function Using(bytes: PageData, f1: FrameValue, disk: map<PageId, PageData>, pins: nat, pc: Pc): State {
    State([Old0(bytes).InState(Reserved), f1], map[P0 := 0, P2 := 1], [], {}, 3, 0, disk, None,
          [VictimWrite(Create(P2), 0, P0, bytes), pc], map[P0 := 0, P1 := 0, P2 := pins], {})
  }

  function Used1(bytes: PageData, c: PageData): State {
    Using(bytes, Written2(c), map[P1 := ZeroPage()], 1, Idle(Page(P2, 1)))
  }

  function Used2(bytes: PageData, c: PageData): State {
    Using(bytes, Written2(c).Unpinned(), map[P1 := ZeroPage()], 0, Idle(Done))
  }

  function Used3(bytes: PageData, c: PageData): State {
    Using(bytes, Written2(c).Unpinned().InState(Reserved), map[P1 := ZeroPage()], 0, FlushCheck(Delete, P2, 1))
  }

  function Used4(bytes: PageData, c: PageData): State {
    Using(bytes, Written2(c).Unpinned().InState(Reserved), map[P1 := ZeroPage()], 0, FlushWrite(Delete, P2, 1, P2, c))
  }

  function Used5(bytes: PageData, c: PageData): State {
    Using(bytes, Written2(c).Unpinned().InState(Reserved), map[P1 := ZeroPage(), P2 := c], 0, FlushEnd(Delete, P2, 1, true))
  }

  function Used6(bytes: PageData, c: PageData): State {
    Using(bytes, Written2(c).Unpinned().InState(Reserved).WithDirty(false), map[P1 := ZeroPage(), P2 := c], 0, DeleteCommit(P2, 1))
  }

  /** Page 2 is deleted, its bytes are on disk; thread 0, which holds id 2, is at pc. */
  function Deleted2(bytes: PageData, disk: map<PageId, PageData>, pc: Pc): State {
    State([Old0(bytes).InState(Reserved), EMPTY_FRAME], map[P0 := 0], [1], {}, 3, 0, disk, None,
          [pc, Idle(Done)], map[P0 := 0, P1 := 0, P2 := 0], {})
  }

  function Used7(bytes: PageData, c: PageData): State {
    Deleted2(bytes, map[P1 := ZeroPage(), P2 := c], VictimWrite(Create(P2), 0, P0, bytes))
  }

  function Again(bytes: PageData, c: PageData): State {
    Deleted2(bytes, map[P1 := ZeroPage(), P2 := c, P0 := bytes], VictimCommit(Create(P2), 0, P0, ZeroPage()))
  }

  lemma UseSteps(bytes: PageData, c: PageData)
    ensures OtherDone(bytes).InBounds() && Enabled(OtherDone(bytes), ClientWrite(1, P2, c))
    ensures Step(OtherDone(bytes), ClientWrite(1, P2, c)) == Used1(bytes, c)
    ensures Calls(Used1(bytes, c), 1, UnpinPage(P2), Used2(bytes, c))
  {
  }

  lemma UseDeleteSteps(bytes: PageData, c: PageData)
    ensures Calls(Used2(bytes, c), 1, DeletePage(P2), Used3(bytes, c))
    ensures Takes(Used3(bytes, c), 1, Ok, Used4(bytes, c))
  {
  }

  lemma UseFlushStep(bytes: PageData, c: PageData)
    ensures Takes(Used4(bytes, c), 1, Ok, Used5(bytes, c))
  {
  }

  lemma UseEndStep(bytes: PageData, c: PageData)
    ensures Takes(Used5(bytes, c), 1, Ok, Used6(bytes, c))
  {
  }

  lemma UseUnmapStep(bytes: PageData, c: PageData)
    ensures Takes(Used6(bytes, c), 1, Ok, Used7(bytes, c))
  {
  }

  lemma UseAgainStep(bytes: PageData, c: PageData)
    ensures Takes(Used7(bytes, c), 0, Ok, Again(bytes, c))
  {
  }

  lemma UsedIsReachable(bytes: PageData, c: PageData)
    ensures Reaches(OtherDone(bytes), Used4(bytes, c))
  {
    var s := OtherDone(bytes);
    UseSteps(bytes, c);
    UseDeleteSteps(bytes, c);
    ReachesItself(s);
    ReachesStep(s, s, ClientWrite(1, P2, c));
    ThenCall(s, Used1(bytes, c), 1, UnpinPage(P2), Used2(bytes, c));
    ThenCall(s, Used2(bytes, c), 1, DeletePage(P2), Used3(bytes, c));
    Then(s, Used3(bytes, c), 1, Ok, Used4(bytes, c));
  }

  lemma FlushedIsReachable(bytes: PageData, c: PageData)
    ensures Reaches(OtherDone(bytes), Used6(bytes, c))
  {
    var s := OtherDone(bytes);
    UsedIsReachable(bytes, c);
    UseFlushStep(bytes, c);
    UseEndStep(bytes, c);
    Then(s, Used4(bytes, c), 1, Ok, Used5(bytes, c));
    Then(s, Used5(bytes, c), 1, Ok, Used6(bytes, c));
  }

  lemma AgainIsReachable(bytes: PageData, c: PageData)
    ensures Reaches(OtherDone(bytes), Again(bytes, c))
  {
    var s := OtherDone(bytes);
    FlushedIsReachable(bytes, c);
    UseUnmapStep(bytes, c);
    UseAgainStep(bytes, c);
    Then(s, Used6(bytes, c), 1, Ok, Used7(bytes, c));
    Then(s, Used7(bytes, c), 0, Ok, Again(bytes, c));
  }

  lemma AgainStep(bytes: PageData, c: PageData)
    ensures Again(bytes, c).InBounds() && View(Again(bytes, c), P2) == c
    ensures var s' := CommitVictim(Again(bytes, c), 0, Create(P2), 0, P0, ZeroPage());
            && Takes(Again(bytes, c), 0, Ok, s') && Allowed(Again(bytes, c), Work(0, Ok))
            && s'.threads[0] == Idle(Page(P2, 0)) && s'.InBounds() && View(s', P2) == ZeroPage()
  {
  }

  /**
   * By allowed steps alone, id 2 is handed out to thread 1, which writes c to page 2 and
   * deletes it, and then to thread 0 as a new page: what c stood for is gone from the store.
   */
  lemma IdIsHandedOutTwice(bytes: PageData, c: PageData)
    ensures Reaches(Init(2, 2, map[]), OtherCommits(bytes))
    ensures Takes(OtherCommits(bytes), 1, Ok, OtherDone(bytes)) && Allowed(OtherCommits(bytes), Work(1, Ok))
    ensures OtherDone(bytes).threads[1] == Idle(Page(P2, 1))
    ensures Reaches(OtherDone(bytes), Again(bytes, c))
    ensures Again(bytes, c).InBounds() && View(Again(bytes, c), P2) == c
    ensures var s' := CommitVictim(Again(bytes, c), 0, Create(P2), 0, P0, ZeroPage());
            && Takes(Again(bytes, c), 0, Ok, s') && Allowed(Again(bytes, c), Work(0, Ok))
            && s'.threads[0] == Idle(Page(P2, 0)) && s'.InBounds() && View(s', P2) == ZeroPage()
  {
    OtherCommitIsReachable(bytes);
    OtherCommitStep(bytes);
    AgainIsReachable(bytes, c);
    AgainStep(bytes, c);
  }

  // ---------------------------------------------------------------------------
  // A fetch of a page that does not exist yet
  // ---------------------------------------------------------------------------

  /** Thread 0 is at t0, loading page 0 into frame 0. */
  function Early(f0: FrameValue, t0: Pc): State {
    State([f0, EMPTY_FRAME], map[], [1], {P0}, 0, 0, map[], None, [t0, Idle(NoReply)], map[], {})
  }

  /** Meanwhile thread 1 has created page 0 in frame 1. */
  function Doubled(f0: FrameValue, t0: Pc): State {
    State([f0, NewFrame(P0)], map[P0 := 1], [], {P0}, 1, 0, map[], None, [t0, Idle(Page(P0, 1))], map[P0 := 1], {})
  }

  /** Frame 1 is lost: pinned and labelled with page 0, but neither mapped nor free. */
  function Leaked(): State {
    State([LoadedFrame(P0, ZeroPage()), NewFrame(P0)], map[P0 := 0], [], {}, 1, 0, map[], None,
          [Idle(Page(P0, 0)), Idle(Page(P0, 1))], map[P0 := 2], {})
  }

  lemma EarlyStep()
    ensures Calls(Init(2, 2, map[]), 0, FetchPage(P0), Early(EMPTY_FRAME.InState(Reserved), FreeRead(P0, 0)))
  {
  }

  /** A fetch of a page that does not exist yet is harmless by itself. */
  lemma EarlyFetchIsReachable()
    ensures Reachable(Early(EMPTY_FRAME.InState(Reserved), FreeRead(P0, 0)))
  {
    var s := Init(2, 2, map[]);
    EarlyStep();
    ReachesItself(s);
    ThenCall(s, s, 0, FetchPage(P0), Early(EMPTY_FRAME.InState(Reserved), FreeRead(P0, 0)));
  }

  lemma DoubleStep()
    ensures Calls(Early(EMPTY_FRAME.InState(Reserved), FreeRead(P0, 0)), 1, NewPage,
                  Doubled(EMPTY_FRAME.InState(Reserved), FreeRead(P0, 0)))
  {
  }

  /** But a new_page that hands out its id in the middle of it breaks the invariant. */
  lemma EarlyFetchMeetsNewPage()
    ensures Calls(Early(EMPTY_FRAME.InState(Reserved), FreeRead(P0, 0)), 1, NewPage,
                  Doubled(EMPTY_FRAME.InState(Reserved), FreeRead(P0, 0)))
    ensures !Inv(Doubled(EMPTY_FRAME.InState(Reserved), FreeRead(P0, 0)))
  {
    var s := Early(EMPTY_FRAME.InState(Reserved), FreeRead(P0, 0));
    DoubleStep();
    assert Loads(Doubled(EMPTY_FRAME.InState(Reserved), FreeRead(P0, 0)).threads[0], P0);
    assert !ThreadOk(Doubled(EMPTY_FRAME.InState(Reserved), FreeRead(P0, 0)), 0);
  }

  lemma DoubledSteps()
    ensures Takes(Doubled(EMPTY_FRAME.InState(Reserved), FreeRead(P0, 0)), 0, Ok,
                  Doubled(EMPTY_FRAME.InState(Reserved), FreeLoad(P0, 0, ZeroPage())))
    ensures Takes(Doubled(EMPTY_FRAME.InState(Reserved), FreeLoad(P0, 0, ZeroPage())), 0, Ok,
                  Doubled(LoadedFrame(P0, ZeroPage()), FreePublish(P0, 0)))
    ensures Takes(Doubled(LoadedFrame(P0, ZeroPage()), FreePublish(P0, 0)), 0, Ok, Leaked())
  {
  }

  /** And in the end a frame is lost. */
  lemma EarlyFetchLeaksFrame()
    ensures var hole := EMPTY_FRAME.InState(Reserved);
            && Calls(Early(hole, FreeRead(P0, 0)), 1, NewPage, Doubled(hole, FreeRead(P0, 0)))
            && Takes(Doubled(hole, FreeRead(P0, 0)), 0, Ok, Doubled(hole, FreeLoad(P0, 0, ZeroPage())))
            && Takes(Doubled(hole, FreeLoad(P0, 0, ZeroPage())), 0, Ok, Doubled(LoadedFrame(P0, ZeroPage()), FreePublish(P0, 0)))
            && Takes(Doubled(LoadedFrame(P0, ZeroPage()), FreePublish(P0, 0)), 0, Ok, Leaked())
    ensures !Mapped(Leaked(), 1) && 1 !in Leaked().free && Leaked().frames[1].IsPinned()
  {
    DoubleStep();
    DoubledSteps();
  }

  // ---------------------------------------------------------------------------
  // A fetch ahead of new_page, with nobody else around
  // ---------------------------------------------------------------------------

  /** One frame, one thread, and no id handed out yet. */
  function Ahead(frame: FrameValue, table: Table, inFlight: set<PageId>, disk: map<PageId, PageData>,
                 lock: Option<Tid>, pc: Pc, pins: map<PageId, nat>): State {
    State([frame], table, [], inFlight, 0, 0, disk, lock, [pc], pins, {})
  }

  function Fetching(frame: FrameValue, pc: Pc): State {
    Ahead(frame, map[], {P0}, map[], None, pc, map[])
  }

  /** Page 0, fetched before it was handed out, with the client's bytes in it. */
  function Early0(b: PageData): FrameValue {
    LoadedFrame(P0, ZeroPage()).Modified(b)
  }

  function Owned(frame: FrameValue, pins: nat, reply: Reply): State {
    Ahead(frame, map[P0 := 0], {}, map[], None, Idle(reply), map[P0 := pins])
  }

  function Own1(): State {
    Owned(LoadedFrame(P0, ZeroPage()), 1, Page(P0, 0))
  }

  function Own2(b: PageData): State {
    Owned(Early0(b), 1, Page(P0, 0))
  }

  function Own3(b: PageData): State {
    Owned(Early0(b).Unpinned(), 0, Done)
  }

  /** new_page is to evict page 0 for the id 0. */
  function Evicting(frame: FrameValue, disk: map<PageId, PageData>, lock: Option<Tid>, pc: Pc): State {
    Ahead(frame, map[P0 := 0], {}, disk, lock, pc, map[P0 := 0])
  }

  function Own4(b: PageData): State {
    Evicting(Early0(b).Unpinned(), map[], Some(0), Scan(Create(P0), 0, false))
  }

  function Own5(b: PageData): State {
    Evicting(Early0(b).Unpinned().WithReference(false), map[], Some(0), Scan(Create(P0), 0, false))
  }

  function Own6(b: PageData): State {
    Evicting(Early0(b).Unpinned().WithReference(false), map[], Some(0), HasVictim(Create(P0), 0))
  }

  function Own7(b: PageData): State {
    Evicting(Early0(b).Unpinned().WithReference(false).InState(Reserved), map[], None, VictimWrite(Create(P0), 0, P0, b))
  }

  function Own8(b: PageData): State {
    Evicting(Early0(b).Unpinned().WithReference(false).InState(Reserved), map[P0 := b], None,
             VictimCommit(Create(P0), 0, P0, ZeroPage()))
  }

  lemma AheadSteps()
    ensures Calls(Init(1, 1, map[]), 0, FetchPage(P0), Fetching(EMPTY_FRAME.InState(Reserved), FreeRead(P0, 0)))
    ensures Takes(Fetching(EMPTY_FRAME.InState(Reserved), FreeRead(P0, 0)), 0, Ok,
                  Fetching(EMPTY_FRAME.InState(Reserved), FreeLoad(P0, 0, ZeroPage())))
  {
  }

  lemma AheadLoadSteps()
    ensures Takes(Fetching(EMPTY_FRAME.InState(Reserved), FreeLoad(P0, 0, ZeroPage())), 0, Ok,
                  Fetching(LoadedFrame(P0, ZeroPage()), FreePublish(P0, 0)))
    ensures Takes(Fetching(LoadedFrame(P0, ZeroPage()), FreePublish(P0, 0)), 0, Ok, Own1())
  {
  }

  lemma OwnSteps(b: PageData)
    ensures Own1().InBounds() && Enabled(Own1(), ClientWrite(0, P0, b)) && Step(Own1(), ClientWrite(0, P0, b)) == Own2(b)
    ensures Calls(Own2(b), 0, UnpinPage(P0), Own3(b))
  {
  }

  lemma OwnSearchSteps(b: PageData)
    ensures Calls(Own3(b), 0, NewPage, Own4(b))
    ensures Takes(Own4(b), 0, Ok, Own5(b))
    ensures Takes(Own5(b), 0, Ok, Own6(b))
  {
  }

  lemma OwnReserveStep(b: PageData)
    ensures Takes(Own6(b), 0, Ok, Own7(b))
  {
  }

  lemma OwnWriteStep(b: PageData)
    ensures Takes(Own7(b), 0, Ok, Own8(b))
  {
  }

  lemma Own1IsReachable()
    ensures Reaches(Init(1, 1, map[]), Own1())
  {
    var s := Init(1, 1, map[]);
    var hole := EMPTY_FRAME.InState(Reserved);
    AheadSteps();
    AheadLoadSteps();
    ReachesItself(s);
    ThenCall(s, s, 0, FetchPage(P0), Fetching(hole, FreeRead(P0, 0)));
    Then(s, Fetching(hole, FreeRead(P0, 0)), 0, Ok, Fetching(hole, FreeLoad(P0, 0, ZeroPage())));
    Then(s, Fetching(hole, FreeLoad(P0, 0, ZeroPage())), 0, Ok, Fetching(LoadedFrame(P0, ZeroPage()), FreePublish(P0, 0)));
    Then(s, Fetching(LoadedFrame(P0, ZeroPage()), FreePublish(P0, 0)), 0, Ok, Own1());
  }

  lemma Own4IsReachable(b: PageData)
    ensures Reaches(Init(1, 1, map[]), Own4(b))
  {
    var s := Init(1, 1, map[]);
    Own1IsReachable();
    OwnSteps(b);
    OwnSearchSteps(b);
    ReachesStep(s, Own1(), ClientWrite(0, P0, b));
    ThenCall(s, Own2(b), 0, UnpinPage(P0), Own3(b));
    ThenCall(s, Own3(b), 0, NewPage, Own4(b));
  }

  lemma Own8IsReachable(b: PageData)
    ensures Reaches(Init(1, 1, map[]), Own8(b))
  {
    var s := Init(1, 1, map[]);
    Own4IsReachable(b);
    OwnSearchSteps(b);
    OwnReserveStep(b);
    OwnWriteStep(b);
    Then(s, Own4(b), 0, Ok, Own5(b));
    Then(s, Own5(b), 0, Ok, Own6(b));
    Then(s, Own6(b), 0, Ok, Own7(b));
    Then(s, Own7(b), 0, Ok, Own8(b));
  }

  /** With one thread and no overlapping calls: new_page is refused, and takes what the client wrote to page 0 with it. */
  lemma EarlyFetchLosesWrite(b: PageData)
    ensures Reachable(Own8(b)) && Own8(b).InBounds() && View(Own8(b), P0) == b
    ensures var s' := CommitVictim(Own8(b), 0, Create(P0), 0, P0, ZeroPage());
            && Takes(Own8(b), 0, Ok, s')
            && s'.threads[0] == Idle(Failed(TableError(PageAlreadyExist)))
            && s'.InBounds() && View(s', P0) == ZeroPage() && !Inv(s')
  {
    Own8IsReachable(b);
    ReachableInv(Own8(b));
    OwnRefusal(b);
    OwnStep(b);
  }

  lemma OwnRefusal(b: PageData)
    requires Inv(Own8(b)) && Own8(b).InBounds()
    ensures var s' := CommitVictim(Own8(b), 0, Create(P0), 0, P0, ZeroPage());
            && s'.threads[0] == Idle(Failed(TableError(PageAlreadyExist)))
            && s'.InBounds() && View(s', P0) == ZeroPage() && !Inv(s')
  {
    RefusedCommitZeroesOldPage(Own8(b), 0, P0, 0, P0, ZeroPage());
    CommitNewExactly(Own8(b), 0, P0, 0, P0, ZeroPage());
  }

  lemma OwnStep(b: PageData)
    ensures Takes(Own8(b), 0, Ok, CommitVictim(Own8(b), 0, Create(P0), 0, P0, ZeroPage()))
  {
  }

  // ---------------------------------------------------------------------------
  // A fetch for which CLOCK finds no victim
  // ---------------------------------------------------------------------------

  /** A pool of one frame and one thread that holds page 0, not pinned. */
  function Alone(frame: FrameValue, disk: map<PageId, PageData>, lock: Option<Tid>, pc: Pc, pins: nat): State {
    State([frame], map[P0 := 0], [], {}, 1, 0, disk, lock, [pc], map[P0 := pins], {})
  }

  function Alone1(): State {
    Alone(NewFrame(P0), map[], None, Idle(Page(P0, 0)), 1)
  }

  function Alone2(): State {
    Alone(Unpinned0(), map[], None, Idle(Done), 0)
  }

  function Alone3(): State {
    Alone(Unpinned0(), map[], Some(0), Scan(Create(P1), 0, false), 0)
  }

  function Alone4(): State {
    Alone(Passed0(), map[], Some(0), Scan(Create(P1), 0, false), 0)
  }

  function Alone5(): State {
    Alone(Passed0(), map[], Some(0), HasVictim(Create(P1), 0), 0)
  }

  function Alone6(): State {
    Alone(Passed0().InState(Reserved), map[], None, VictimWrite(Create(P1), 0, P0, ZeroPage()), 0)
  }

  function Alone7(): State {
    Alone(Passed0().InState(Reserved), map[P0 := ZeroPage()], None, VictimCommit(Create(P1), 0, P0, ZeroPage()), 0)
  }

  /** Page 1 has taken the only frame and is pinned; page 0 is on disk, and a fetch of it is at pc. */
  function Crowded(lock: Option<Tid>, pc: Pc, inFlight: set<PageId>, orphans: set<PageId>): State {
    State([NewFrame(P1)], map[P1 := 0], [], inFlight, 2, 0, map[P0 := ZeroPage()], lock, [pc], map[P0 := 0, P1 := 1], orphans)
  }

  function Wedged(): State {
    Crowded(None, Idle(Failed(NoEvictableFrame)), {P0}, {P0})
  }

  lemma AloneSteps()
    ensures Calls(Init(1, 1, map[]), 0, NewPage, Alone1())
    ensures Calls(Alone1(), 0, UnpinPage(P0), Alone2())
    ensures Calls(Alone2(), 0, NewPage, Alone3())
  {
  }

  lemma AloneSearchSteps()
    ensures Takes(Alone3(), 0, Ok, Alone4())
    ensures Takes(Alone4(), 0, Ok, Alone5())
    ensures Takes(Alone5(), 0, Ok, Alone6())
  {
  }

  lemma AloneWriteStep()
    ensures Takes(Alone6(), 0, Ok, Alone7())
  {
  }

  lemma AloneCommitStep()
    ensures Takes(Alone7(), 0, Ok, Crowded(None, Idle(Page(P1, 0)), {}, {}))
  {
  }

  lemma CrowdedSteps()
    ensures Calls(Crowded(None, Idle(Page(P1, 0)), {}, {}), 0, FetchPage(P0),
                  Crowded(Some(0), Scan(Load(P0), 0, false), {P0}, {}))
    ensures Takes(Crowded(Some(0), Scan(Load(P0), 0, false), {P0}, {}), 0, Ok, Crowded(Some(0), CheckReserved(P0, 0), {P0}, {}))
  {
  }

  lemma WedgeSteps()
    ensures Takes(Crowded(Some(0), CheckReserved(P0, 0), {P0}, {}), 0, Ok, Crowded(Some(0), CheckReserved(P0, 1), {P0}, {}))
    ensures Takes(Crowded(Some(0), CheckReserved(P0, 1), {P0}, {}), 0, Ok, Wedged())
  {
  }

  lemma AloneIsReachable()
    ensures Reaches(Init(1, 1, map[]), Alone3())
  {
    var s := Init(1, 1, map[]);
    AloneSteps();
    ReachesItself(s);
    ThenCall(s, s, 0, NewPage, Alone1());
    ThenCall(s, Alone1(), 0, UnpinPage(P0), Alone2());
    ThenCall(s, Alone2(), 0, NewPage, Alone3());
  }

  lemma AloneReservationIsReachable()
    ensures Reaches(Init(1, 1, map[]), Alone6())
  {
    var s := Init(1, 1, map[]);
    AloneIsReachable();
    AloneSearchSteps();
    Then(s, Alone3(), 0, Ok, Alone4());
    Then(s, Alone4(), 0, Ok, Alone5());
    Then(s, Alone5(), 0, Ok, Alone6());
  }

  lemma CrowdIsReachable()
    ensures Reaches(Init(1, 1, map[]), Crowded(None, Idle(Page(P1, 0)), {}, {}))
  {
    var s := Init(1, 1, map[]);
    AloneReservationIsReachable();
    AloneWriteStep();
    AloneCommitStep();
    Then(s, Alone6(), 0, Ok, Alone7());
    Then(s, Alone7(), 0, Ok, Crowded(None, Idle(Page(P1, 0)), {}, {}));
  }

  /** One thread, one frame, four calls: page 0 is on disk, nobody uses it, and no fetch of it can succeed any more. */
  lemma WedgeIsReachable()
    ensures Reachable(Wedged()) && P0 in Wedged().orphans && Wedged().Pins(P0) == 0
  {
    var s := Init(1, 1, map[]);
    CrowdIsReachable();
    CrowdedSteps();
    WedgeSteps();
    ThenCall(s, Crowded(None, Idle(Page(P1, 0)), {}, {}), 0, FetchPage(P0), Crowded(Some(0), Scan(Load(P0), 0, false), {P0}, {}));
    Then(s, Crowded(Some(0), Scan(Load(P0), 0, false), {P0}, {}), 0, Ok, Crowded(Some(0), CheckReserved(P0, 0), {P0}, {}));
    Then(s, Crowded(Some(0), CheckReserved(P0, 0), {P0}, {}), 0, Ok, Crowded(Some(0), CheckReserved(P0, 1), {P0}, {}));
    Then(s, Crowded(Some(0), CheckReserved(P0, 1), {P0}, {}), 0, Ok, Wedged());
  }

  /** Whatever happens from there on, page 0 is never handed out again. */
  lemma WedgedPageIsLost(ls: seq<Label>)
    requires Run(Wedged(), ls)
    ensures NeverGranted(Wedged(), ls, P0)
  {
    WedgeIsReachable();
    ReachableInv(Wedged());
    AbandonedPageIsLost(Wedged(), ls, P0);
  }

  // ---------------------------------------------------------------------------
  // The 256th pin
  // ---------------------------------------------------------------------------

  /** Page 0 with n pins on it. */
  function PinnedTimes(n: nat): State
    requires n <= MAX_PINS
  {
    Alone(FrameValue(ZeroPage(), Some(PageMeta(P0, n, true, true)), Resident), map[], None, Idle(Page(P0, 0)), n)
  }

  lemma PinStep(n: nat)
    requires n < MAX_PINS
    ensures Calls(PinnedTimes(n), 0, FetchPage(P0), PinnedTimes(n + 1))
  {
  }

  lemma FirstPinIsReachable()
    ensures Reaches(Init(1, 1, map[]), PinnedTimes(1))
  {
    var s := Init(1, 1, map[]);
    AloneSteps();
    ReachesItself(s);
    ThenCall(s, s, 0, NewPage, Alone1());
    assert PinnedTimes(1) == Alone1();
  }

  /** Any number of pins up to 255 can be reached by fetching the same page again and again. */
  lemma {:induction false} PinsAreReachable(n: nat)
    requires 1 <= n <= MAX_PINS
    ensures Reaches(Init(1, 1, map[]), PinnedTimes(n))
  {
    var s := Init(1, 1, map[]);
    if n == 1 {
      FirstPinIsReachable();
    } else {
      PinsAreReachable(n - 1);
      PinStep(n - 1);
      ThenCall(s, PinnedTimes(n - 1), 0, FetchPage(P0), PinnedTimes(n));
    }
  }

  /** The next fetch succeeds, but leaves the counter one short of the pins handed out. */
  lemma OnePinTooMany()
    ensures Reachable(PinnedTimes(MAX_PINS))
    ensures var s' := StartFetch(PinnedTimes(MAX_PINS).Goto(0, Start(FetchPage(P0))), 0, P0);
            && Calls(PinnedTimes(MAX_PINS), 0, FetchPage(P0), s')
            && s'.threads[0] == Idle(Page(P0, 0)) && s'.Pins(P0) == MAX_PINS + 1
            && s'.frames[0].metadata.Some? && s'.frames[0].metadata.value.pinCount == MAX_PINS
  {
    PinsAreReachable(MAX_PINS);
  }
}
