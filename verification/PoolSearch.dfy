/** The search that the protocol takes one frame at a time is the search of the replacer. */
module PoolSearch {
  import opened Storage
  import opened Frames
  import opened ClockReplacers
  import opened BufferPool
  import opened PoolInvariant
  import opened PoolTheorems

  /** Thread t is in the middle of a search that started on frames fs with the hand at `start`. */
  ghost predicate InSearch(s: State, t: Tid, goal: Goal, fs: seq<FrameValue>, start: nat, second: bool, scanned: nat, found: bool) {
    && s.InBounds() && t < |s.threads| && s.threads[t] == Scan(goal, scanned, found)
    && scanned < |s.frames| && Swept(fs, s.frames, start, second, scanned)
    && s.hand == HandAt(start, scanned, |fs|)
    && (found <==> Seen(fs, start, scanned))
  }

  /** How the search ends: at a victim, or giving up. */
  ghost predicate SearchEnds(s: State, t: Tid, goal: Goal, r: Option<FrameId>)
    requires t < |s.threads|
  {
    match r
    case Some(v) => s.threads[t] == HasVictim(goal, v)
    case None => s.threads[t] == if goal.Load? then CheckReserved(goal.page, 0) else Idle(Failed(NoEvictableFrame))
  }

  /** The state after n turns of thread t, if nobody else moves. */
  ghost predicate Turns(s: State, t: Tid, n: nat, s': State)
    decreases n
  {
    if n == 0 then s' == s
    else exists s1 :: IsTurn(s, t, s1) && Turns(s1, t, n - 1, s')
  }

  ghost predicate IsTurn(s: State, t: Tid, s': State) {
    s.InBounds() && Enabled(s, Work(t, Ok)) && Section(s, t, Ok) == s'
  }

  lemma TurnFinds(s: State, t: Tid, goal: Goal, fs: seq<FrameValue>, start: nat, second: bool, scanned: nat, found: bool)
    requires InSearch(s, t, goal, fs, start, second, scanned, found) && Look(s.frames[s.hand]).Chosen?
    ensures var s' := Section(s, t, Ok);
            EndsAs(s', t, goal, fs, start, Some(s.hand)) && s'.InBounds()
  {
    SweepFinds(fs, s.frames, start, second, scanned);
  }

  lemma TurnPasses(s: State, t: Tid, goal: Goal, fs: seq<FrameValue>, start: nat, second: bool, scanned: nat, found: bool)
    requires InSearch(s, t, goal, fs, start, second, scanned, found) && !Look(s.frames[s.hand]).Chosen?
    requires scanned + 1 < |fs|
    ensures InSearch(Section(s, t, Ok), t, goal, fs, start, second, scanned + 1, found || Look(s.frames[s.hand]).Spared?)
  {
    SweepSkips(fs, s.frames, start, second, scanned);
  }

  /** The last turn of a revolution starts the second one, or ends a search in which there was nothing to find. */
  lemma TurnEndsRevolution(s: State, t: Tid, goal: Goal, fs: seq<FrameValue>, start: nat, second: bool, scanned: nat, found: bool)
    requires InSearch(s, t, goal, fs, start, second, scanned, found) && !Look(s.frames[s.hand]).Chosen?
    requires scanned + 1 == |fs|
    ensures var s' := Section(s, t, Ok);
            if found || Look(s.frames[s.hand]).Spared? then !second && InSearch(s', t, goal, fs, start, true, 0, false)
            else EndsAs(s', t, goal, fs, start, None) && s'.InBounds()
  {
    SweepSkips(fs, s.frames, start, second, scanned);
    SweepEnds(fs, Inspected(s.frames, s.hand), start, second);
  }

  lemma TurnFirst(s: State, t: Tid, next: State, n: nat, s': State)
    requires n > 0 && IsTurn(s, t, next) && Turns(next, t, n - 1, s')
    ensures Turns(s, t, n, s')
  {
  }

  lemma TurnsNext(s: State, t: Tid, n: nat, s': State)
    requires s.InBounds() && Enabled(s, Work(t, Ok)) && Turns(Section(s, t, Ok), t, n, s')
    ensures Turns(s, t, n + 1, s')
  {
    TurnFirst(s, t, Section(s, t, Ok), n + 1, s');
  }

  /** Within `budget` turns the search is over, and its outcome is the one the replacer's contract names. */
  ghost predicate Finishes(s: State, t: Tid, goal: Goal, fs: seq<FrameValue>, start: nat, budget: nat)
    requires t < |s.threads|
  {
    exists n: nat, s': State, r: Option<FrameId> ::
      n <= budget && Turns(s, t, n, s') && EndsAs(s', t, goal, fs, start, r) && OnlySearches(s, s', t)
  }

  /** From s to s' thread t has searched, and done nothing else. */
  ghost predicate OnlySearches(s: State, s': State, t: Tid)
    requires t < |s.threads|
  {
    && s'.InBounds() && |s'.threads| == |s.threads|
    && s' == s.(frames := s'.frames, hand := s'.hand, lock := s'.lock, threads := s.threads[t := s'.threads[t]])
    && (Inv(s) ==> Inv(s'))
  }

  ghost predicate EndsAs(s: State, t: Tid, goal: Goal, fs: seq<FrameValue>, start: nat, r: Option<FrameId>) {
    t < |s.threads| && SearchEnds(s, t, goal, r) && SecondChance(fs, start, r, s.frames, s.hand)
  }

  lemma FinishesNow(s: State, t: Tid, goal: Goal, fs: seq<FrameValue>, start: nat, r: Option<FrameId>)
    requires EndsAs(s, t, goal, fs, start, r) && s.InBounds()
    ensures Finishes(s, t, goal, fs, start, 0)
  {
    assert Turns(s, t, 0, s) && OnlySearches(s, s, t);
  }

  lemma FinishesLater(s: State, t: Tid, goal: Goal, fs: seq<FrameValue>, start: nat, budget: nat)
    requires s.InBounds() && t < |s.threads| && s.threads[t].Scan? && Section(s, t, Ok).InBounds()
    requires Finishes(Section(s, t, Ok), t, goal, fs, start, budget)
    ensures Finishes(s, t, goal, fs, start, budget + 1)
  {
    var s1 := Section(s, t, Ok);
    var n: nat, s': State, r: Option<FrameId> :|
      n <= budget && Turns(s1, t, n, s') && EndsAs(s', t, goal, fs, start, r) && OnlySearches(s1, s', t);
    TurnSearches(s, t);
    SearchesJoin(s, s1, s', t);
    TurnsNext(s, t, n, s');
  }

  lemma SearchesJoin(s: State, s1: State, s': State, t: Tid)
    requires t < |s.threads| && OnlySearches(s, s1, t) && OnlySearches(s1, s', t)
    ensures OnlySearches(s, s', t)
  {
    assert s1.threads[t := s'.threads[t]] == s.threads[t := s'.threads[t]];
  }

  lemma TurnSearches(s: State, t: Tid)
    requires s.InBounds() && t < |s.threads| && s.threads[t].Scan? && Section(s, t, Ok).InBounds()
    ensures OnlySearches(s, Section(s, t, Ok), t)
  {
    if Inv(s) {
      StepKeepsInv(s, Work(t, Ok));
    }
    TurnOnlySearches(s, t);
  }

  lemma TurnOnlySearches(s: State, t: Tid)
    requires s.InBounds() && t < |s.threads| && s.threads[t].Scan?
    ensures var s' := Section(s, t, Ok);
            s' == s.(frames := s'.frames, hand := s'.hand, lock := s'.lock, threads := s.threads[t := s'.threads[t]])
  {
  }

  lemma FinishesEarlier(s: State, t: Tid, goal: Goal, fs: seq<FrameValue>, start: nat, few: nat, many: nat)
    requires t < |s.threads| && Finishes(s, t, goal, fs, start, few) && few <= many
    ensures Finishes(s, t, goal, fs, start, many)
  {
  }

  /** How many turns may still be needed. */
  function TurnsLeft(n: nat, second: bool, scanned: nat): nat
    requires scanned <= n
  {
    (if second then n else 2 * n) - scanned
  }

  /**
   * If nobody interferes, the search of a thread takes no more than two turns a frame and
   * ends as the contract of the replacer says.
   */
  lemma {:induction false} SearchIsSecondChance(
      s: State, t: Tid, goal: Goal, fs: seq<FrameValue>, start: nat, second: bool, scanned: nat, found: bool)
    requires InSearch(s, t, goal, fs, start, second, scanned, found)
    ensures Finishes(s, t, goal, fs, start, TurnsLeft(|fs|, second, scanned))
    decreases !second, |fs| - scanned
  {
    var s1 := Section(s, t, Ok);
    if Look(s.frames[s.hand]).Chosen? {
      TurnFinds(s, t, goal, fs, start, second, scanned, found);
      FinishesNow(s1, t, goal, fs, start, Some(s.hand));
      FinishesEarlier(s1, t, goal, fs, start, 0, TurnsLeft(|fs|, second, scanned) - 1);
    } else {
      var found' := found || Look(s.frames[s.hand]).Spared?;
      if scanned + 1 < |fs| {
        TurnPasses(s, t, goal, fs, start, second, scanned, found);
        SearchIsSecondChance(s1, t, goal, fs, start, second, scanned + 1, found');
      } else {
        TurnEndsRevolution(s, t, goal, fs, start, second, scanned, found);
        if found' {
          SearchIsSecondChance(s1, t, goal, fs, start, true, 0, false);
        } else {
          FinishesNow(s1, t, goal, fs, start, None);
          FinishesEarlier(s1, t, goal, fs, start, 0, TurnsLeft(|fs|, second, scanned) - 1);
        }
      }
    }
    FinishesLater(s, t, goal, fs, start, TurnsLeft(|fs|, second, scanned) - 1);
  }

  /** A search that has just started, in particular. */
  lemma WholeSearchIsSecondChance(s: State, t: Tid, goal: Goal)
    requires s.InBounds() && t < |s.threads| && s.threads[t] == Scan(goal, 0, false) && s.frames != []
    ensures Finishes(s, t, goal, s.frames, s.hand, 2 * |s.frames|)
  {
    assert !Seen(s.frames, s.hand, 0);
    SearchIsSecondChance(s, t, goal, s.frames, s.hand, false, 0, false);
  }

  // ---------------------------------------------------------------------------
  // When a fetch leaves its in-flight entry behind
  // ---------------------------------------------------------------------------

  /** Thread t's fetch has got out of CLOCK: it has a victim, waits, loads, or has answered. */
  predicate PastSearch(pc: Pc) {
    pc.HasVictim? || !pc.HoldsLock()
  }

  /** Within `budget` turns the fetch of p is past the search, and p is abandoned or not as told. */
  ghost predicate Settles(s: State, t: Tid, p: PageId, abandoned: bool, budget: nat) {
    exists n: nat, s': State ::
      n <= budget && Turns(s, t, n, s') && t < |s'.threads| && PastSearch(s'.threads[t]) && (p in s'.orphans <==> abandoned)
  }

  lemma SettlesNow(s: State, t: Tid, p: PageId, budget: nat)
    requires t < |s.threads| && PastSearch(s.threads[t])
    ensures Settles(s, t, p, p in s.orphans, budget)
  {
    assert Turns(s, t, 0, s);
  }

  lemma SettlesLater(s: State, t: Tid, next: State, p: PageId, abandoned: bool, budget: nat)
    requires budget > 0 && IsTurn(s, t, next) && Settles(next, t, p, abandoned, budget - 1)
    ensures Settles(s, t, p, abandoned, budget)
  {
    var n: nat, s': State :|
      n <= budget - 1 && Turns(next, t, n, s') && t < |s'.threads| && PastSearch(s'.threads[t]) && (p in s'.orphans <==> abandoned);
    TurnFirst(s, t, next, n + 1, s');
  }

  lemma {:induction false} SettlesAfter(s: State, t: Tid, n: nat, s1: State, p: PageId, abandoned: bool, budget: nat)
    requires n <= budget && Turns(s, t, n, s1) && Settles(s1, t, p, abandoned, budget - n)
    ensures Settles(s, t, p, abandoned, budget)
    decreases n
  {
    if n > 0 {
      var next :| IsTurn(s, t, next) && Turns(next, t, n - 1, s1);
      SettlesAfter(next, t, n - 1, s1, p, abandoned, budget - 1);
      SettlesLater(s, t, next, p, abandoned, budget);
    }
  }

  /** The look for reserved frames always ends with the entry abandoned, whatever it finds. */
  lemma {:induction false} CheckAbandons(s: State, t: Tid, p: PageId, i: nat)
    requires s.InBounds() && t < |s.threads| && s.threads[t] == CheckReserved(p, i) && i <= |s.frames|
    ensures Settles(s, t, p, true, |s.frames| - i + 1)
    decreases |s.frames| - i
  {
    var s1 := Section(s, t, Ok);
    if i < |s.frames| && !s.frames[i].state.Reserved? {
      CheckAbandons(s1, t, p, i + 1);
      SettlesLater(s, t, s1, p, true, |s.frames| - i + 1);
    } else {
      SettlesNow(s1, t, p, |s.frames| - i);
      SettlesLater(s, t, s1, p, true, |s.frames| - i + 1);
    }
  }

  lemma SearchSettles(s: State, t: Tid, p: PageId)
    requires s.InBounds() && t < |s.threads| && s.threads[t] == Scan(Load(p), 0, false) && s.frames != [] && p !in s.orphans
    ensures Settles(s, t, p, NoneEvictable(s.frames), 3 * |s.frames| + 1)
  {
    var goal := Load(p);
    WholeSearchIsSecondChance(s, t, goal);
    var n: nat, s1: State, r: Option<FrameId> :|
      n <= 2 * |s.frames| && Turns(s, t, n, s1) && EndsAs(s1, t, goal, s.frames, s.hand, r) && OnlySearches(s, s1, t);
    match r
    case Some(v) =>
      assert s.frames[v].Evictable();
    case None =>
      CheckAbandons(s1, t, p, 0);
      SettlesInTime(s1, t, p, true, |s.frames| + 1, 3 * |s.frames| + 1 - n);
      SettlesAfter(s, t, n, s1, p, true, 3 * |s.frames| + 1);
  }

  lemma EmptyPoolSettles(s: State, t: Tid, p: PageId)
    requires s.InBounds() && t < |s.threads| && s.threads[t] == Scan(Load(p), 0, false) && s.frames == []
    ensures Settles(s, t, p, true, 2)
  {
    var s1 := Section(s, t, Ok);
    CheckAbandons(s1, t, p, 0);
    SettlesLater(s, t, s1, p, true, 2);
  }

  // --- the only outcome ---

  /** Thread t is on a way on which it never gives up on page p, as long as nobody disturbs it. */
  predicate Calm(s: State, t: Tid, p: PageId)
    requires t < |s.threads|
  {
    var pc := s.threads[t];
    || pc.Idle? || pc.HasVictim? || pc.InEviction()
    || (pc.InLoad() && !pc.LoadWait?)
    || (pc == LoadWait(p) && p in s.inFlight)
    || (pc == Start(FetchPage(p)) && (p in s.table || p in s.inFlight || s.free != []))
  }

  /** Thread t is at a point of its fetch of p from which it is settled whether it abandons the entry. */
  ghost predicate Foretold(s: State, t: Tid, p: PageId, abandoned: bool) {
    && t < |s.threads|
    && if p in s.orphans then abandoned
       else || (Calm(s, t, p) && !abandoned)
            || (s.threads[t].CheckReserved? && s.threads[t].p == p && abandoned)
            || (s.threads[t].Scan? && s.threads[t].goal == Load(p) && s.frames == [] && abandoned)
            || Searching(s, t, p, abandoned)
  }

  ghost predicate Searching(s: State, t: Tid, p: PageId, abandoned: bool) {
    exists fs: seq<FrameValue>, start: nat, second: bool, scanned: nat, found: bool ::
      InSearch(s, t, Load(p), fs, start, second, scanned, found) && (abandoned <==> NoneEvictable(fs))
  }

  lemma OrphansStay(s: State, t: Tid, next: State)
    requires IsTurn(s, t, next)
    ensures s.orphans <= next.orphans
    ensures !s.threads[t].CheckReserved? ==> next.orphans == s.orphans
    ensures t < |next.threads|
  {
    if s.threads[t].Start? {
      StartKeepsOrphans(s, t, s.threads[t].op);
    } else if !s.threads[t].CheckReserved? {
      SectionKeepsOrphans(s, t, Ok);
    }
  }

  lemma CalmStays(s: State, t: Tid, p: PageId, next: State)
    requires IsTurn(s, t, next) && Calm(s, t, p)
    ensures t < |next.threads| && Calm(next, t, p)
  {
    var pc := s.threads[t];
    if pc.Start? {
      assert next == StartFetch(s, t, p);
    } else if pc.HasVictim? {
      ReserveIsCalm(s, t, p, pc.goal, pc.v);
    } else if pc.InEviction() {
      EvictionIsCalm(s, t, p);
    } else {
      assert next == LoadSection(s, t, Ok);
    }
  }

  lemma ReserveIsCalm(s: State, t: Tid, p: PageId, goal: Goal, v: FrameId)
    requires t < |s.threads| && v < |s.frames|
    ensures Calm(ReserveVictim(s, t, goal, v), t, p)
  {
  }

  lemma EvictionIsCalm(s: State, t: Tid, p: PageId)
    requires t < |s.threads| && s.InBounds() && s.threads[t].InEviction()
    ensures Calm(VictimSection(s, t, Ok), t, p)
  {
  }

  lemma SearchStaysForetold(s: State, t: Tid, p: PageId, abandoned: bool, next: State)
    requires IsTurn(s, t, next) && p !in s.orphans && Searching(s, t, p, abandoned)
    ensures Foretold(next, t, p, abandoned)
  {
    var fs: seq<FrameValue>, start: nat, second: bool, scanned: nat, found: bool :|
      InSearch(s, t, Load(p), fs, start, second, scanned, found) && (abandoned <==> NoneEvictable(fs));
    OrphansStay(s, t, next);
    if Look(s.frames[s.hand]).Chosen? {
      TurnFinds(s, t, Load(p), fs, start, second, scanned, found);
      assert fs[s.hand].Evictable();
    } else {
      var found' := found || Look(s.frames[s.hand]).Spared?;
      if scanned + 1 < |fs| {
        TurnPasses(s, t, Load(p), fs, start, second, scanned, found);
        assert InSearch(next, t, Load(p), fs, start, second, scanned + 1, found');
      } else {
        TurnEndsRevolution(s, t, Load(p), fs, start, second, scanned, found);
        if found' {
          assert InSearch(next, t, Load(p), fs, start, true, 0, false);
        }
      }
    }
  }

  /** Once settled, settled for good. */
  lemma StaysForetold(s: State, t: Tid, p: PageId, abandoned: bool, next: State)
    requires IsTurn(s, t, next) && Foretold(s, t, p, abandoned)
    ensures Foretold(next, t, p, abandoned)
  {
    OrphansStay(s, t, next);
    if p in s.orphans {
    } else if Calm(s, t, p) {
      CalmStays(s, t, p, next);
    } else if s.threads[t].CheckReserved? {
      CheckStaysForetold(s, t, p, s.threads[t].i);
    } else if s.frames == [] {
      EmptySearchGivesUp(s, t, p, next);
    } else {
      SearchStaysForetold(s, t, p, abandoned, next);
    }
  }

  lemma CheckStaysForetold(s: State, t: Tid, p: PageId, i: nat)
    requires t < |s.threads|
    ensures Foretold(CheckOne(s, t, p, i), t, p, true)
  {
  }

  lemma EmptySearchGivesUp(s: State, t: Tid, p: PageId, next: State)
    requires IsTurn(s, t, next) && s.threads[t].Scan? && s.threads[t].goal == Load(p) && s.frames == []
    ensures next.threads[t] == CheckReserved(p, 0)
  {
  }

  lemma {:induction false} ForetoldComesTrue(s: State, t: Tid, p: PageId, abandoned: bool, n: nat, s': State)
    requires Foretold(s, t, p, abandoned) && Turns(s, t, n, s')
    ensures Foretold(s', t, p, abandoned)
    decreases n
  {
    if n > 0 {
      var next :| IsTurn(s, t, next) && Turns(next, t, n - 1, s');
      StaysForetold(s, t, p, abandoned, next);
      ForetoldComesTrue(next, t, p, abandoned, n - 1, s');
    }
  }

  /** Out of the search, the prediction is about what the state shows. */
  lemma ForetoldIsShown(s: State, t: Tid, p: PageId, abandoned: bool)
    requires Foretold(s, t, p, abandoned) && PastSearch(s.threads[t])
    ensures p in s.orphans <==> abandoned
  {
  }

  /** What the fetch will leave behind, as the state before it tells. */
  ghost predicate WillAbandon(s: State, p: PageId) {
    p !in s.table && p !in s.inFlight && s.free == [] && NoneEvictable(s.frames)
  }

  lemma FirstSectionForetells(s: State, t: Tid, p: PageId)
    requires s.InBounds() && t < |s.threads| && s.threads[t] == Start(FetchPage(p)) && p !in s.orphans
    ensures Foretold(Section(s, t, Ok), t, p, WillAbandon(s, p))
  {
    var s1 := Section(s, t, Ok);
    assert s1 == StartFetch(s, t, p);
    StartKeepsOrphans(s, t, FetchPage(p));
    if p !in s.table && p !in s.inFlight && s.free == [] && s.frames != [] {
      assert !Seen(s.frames, s.hand, 0);
      assert InSearch(s1, t, Load(p), s.frames, s.hand, false, 0, false);
    }
  }

  lemma LaterOutcome(s: State, t: Tid, p: PageId, n: nat, s': State)
    requires s.InBounds() && t < |s.threads| && s.threads[t] == Start(FetchPage(p)) && p !in s.orphans
    requires n >= 1 && Turns(s, t, n, s') && t < |s'.threads| && PastSearch(s'.threads[t])
    ensures p in s'.orphans <==> WillAbandon(s, p)
  {
    var next :| IsTurn(s, t, next) && Turns(next, t, n - 1, s');
    FirstSectionForetells(s, t, p);
    ForetoldComesTrue(next, t, p, WillAbandon(s, p), n - 1, s');
    ForetoldIsShown(s', t, p, WillAbandon(s, p));
  }

  /** After the first section, the fetch gets past its search in time. */
  lemma FetchSettles(s: State, t: Tid, p: PageId)
    requires s.InBounds() && t < |s.threads| && s.threads[t] == Start(FetchPage(p)) && p !in s.orphans
    ensures Settles(Section(s, t, Ok), t, p, WillAbandon(s, p), 3 * |s.frames| + 2)
  {
    var s1 := Section(s, t, Ok);
    if p !in s.table && p !in s.inFlight && s.free == [] {
      assert s1 == StartFetch(s, t, p);
      if s.frames == [] {
        EmptyPoolSettles(s1, t, p);
      } else {
        SearchSettles(s1, t, p);
        SettlesInTime(s1, t, p, WillAbandon(s, p), 3 * |s.frames| + 1, 3 * |s.frames| + 2);
      }
    } else {
      FirstSectionDecides(s, t, p);
      SettlesNow(s1, t, p, 3 * |s.frames| + 2);
    }
  }

  /**
   * When a fetch that nobody disturbs leaves its in-flight entry behind: exactly when it
   * misses, nobody else is loading the page, no frame is free, and every frame is pinned
   * or reserved. After its first section it gets past its search within three turns a
   * frame and two more; and whenever it is past it, then or later, the entry is abandoned
   * if and only if the condition held at the start.
   */
  lemma FetchAbandonsExactly(s: State, t: Tid, p: PageId)
    requires s.InBounds() && t < |s.threads| && s.threads[t] == Start(FetchPage(p)) && s.lock == None && p !in s.orphans
    ensures Settles(Section(s, t, Ok), t, p, WillAbandon(s, p), 3 * |s.frames| + 2)
    ensures forall n: nat, s': State ::
              n >= 1 && Turns(s, t, n, s') && t < |s'.threads| && PastSearch(s'.threads[t]) ==>
                (p in s'.orphans <==> WillAbandon(s, p))
  {
    FetchSettles(s, t, p);
    forall n: nat, s': State | n >= 1 && Turns(s, t, n, s') && t < |s'.threads| && PastSearch(s'.threads[t])
      ensures p in s'.orphans <==> WillAbandon(s, p)
    {
      LaterOutcome(s, t, p, n, s');
    }
  }

  lemma SettlesInTime(s: State, t: Tid, p: PageId, abandoned: bool, few: nat, many: nat)
    requires Settles(s, t, p, abandoned, few) && few <= many
    ensures Settles(s, t, p, abandoned, many)
  {
  }

  lemma FirstSectionDecides(s: State, t: Tid, p: PageId)
    requires s.InBounds() && t < |s.threads| && s.threads[t] == Start(FetchPage(p))
    requires p in s.table || p in s.inFlight || s.free != []
    ensures PastSearch(Section(s, t, Ok).threads[t]) && Section(s, t, Ok).orphans == s.orphans
  {
    assert Section(s, t, Ok) == StartFetch(s, t, p);
  }
}
