/**
 * Where the guarantees of the pool end: the sections that `Allowed` leaves out are
 * exactly those that break the invariant, and what one of them does to the stored bytes.
 */
module PoolLimits {
  import opened Storage
  import opened Frames
  import opened PageTables
  import opened BufferPool
  import opened PoolInvariant
  import opened PoolTheorems

  // ---------------------------------------------------------------------------
  // The invariant survives exactly the allowed steps
  // ---------------------------------------------------------------------------

  /** A new page on a free frame is safe exactly if its id is in use nowhere. */
  lemma CreateFreeExactly(s: State, t: Tid)
    requires At(s, t, Start(NewPage)) && s.InBounds() && s.lock == None
    requires s.nextPageId < MAX_PAGE_ID && s.free != []
    ensures Inv(StartNew(s, t)) <==> Unused(s, s.nextPageId)
  {
    var s', n := StartNew(s, t), s.nextPageId;
    if Unused(s, n) {
      StartNewKeepsInv(s, t);
    } else if n in s.table {
      MappedTwiceBreaksInv(s, t);
    } else if n in s.orphans {
      assert n in s'.table.Keys;
    } else {
      var u: Tid :| 0 <= u < |s.threads| && Loads(s.threads[u], n);
      assert u != t;
      assert !ThreadOk(s', u);
    }
  }

  /** The frame that had the page is left without a mapping: with its one owner if it has one, else with nobody. */
  lemma MappedTwiceBreaksInv(s: State, t: Tid)
    requires At(s, t, Start(NewPage)) && s.InBounds()
    requires s.nextPageId < MAX_PAGE_ID && s.free != [] && s.nextPageId in s.table
    ensures !Inv(StartNew(s, t))
  {
    var s', n := StartNew(s, t), s.nextPageId;
    var g := s.table[n];
    assert PageOk(s, n);
    assert FrameOk(s, g);
    assert s.frames[s.free[0]].state.Free?;
    if Claimed(s, g) {
      var u: Tid :| 0 <= u < |s.threads| && Claims(s.threads[u], g);
      assert ThreadOk(s, u) && u != t;
      assert !ThreadOk(s', u);
    } else {
      forall u | 0 <= u < |s'.threads| ensures !Claims(s'.threads[u], g) {
        assert u != t ==> s'.threads[u] == s.threads[u];
      }
      assert !FrameOk(s', g);
    }
  }

  /** An evicting new_page may commit exactly if its id is in use nowhere, whether or not it has been overtaken. */
  lemma CommitNewExactly(s: State, t: Tid, n: PageId, v: FrameId, oldPage: PageId, buffer: PageData)
    requires At(s, t, VictimCommit(Create(n), v, oldPage, buffer)) && v < |s.frames| && s.lock == None
    ensures Inv(CommitVictim(s, t, Create(n), v, oldPage, buffer)) <==> Unused(s, n)
  {
    var s' := CommitVictim(s, t, Create(n), v, oldPage, buffer);
    assert ThreadOk(s, t);
    if Unused(s, n) {
      CommitVictimKeepsInv(s, t, Create(n), v, oldPage, buffer);
    } else if n in s.table {
      assert !ThreadOk(s', t);
    } else if n in s.orphans {
      assert n in s'.table.Keys;
    } else {
      var u: Tid :| 0 <= u < |s.threads| && Loads(s.threads[u], n);
      assert u != t;
      assert !ThreadOk(s', u);
    }
  }

  /**
   * The second set_resident of a delete whose write failed is harmless exactly if the
   * frame is resident: then it changes nothing, and otherwise the invariant breaks.
   */
  lemma SecondReleaseExactly(s: State, t: Tid, p: PageId, f: FrameId, error: PoolError)
    requires At(s, t, DeleteFailed(p, f, error)) && f < |s.frames|
    ensures Inv(Release(s, t, f, Failed(error))) <==> s.frames[f].state.Resident?
  {
    var s' := Release(s, t, f, Failed(error));
    if s.frames[f].state.Resident? {
      DeleteFailedKeepsInv(s, t, p, f, error);
    } else {
      assert FrameOk(s, f);
      if s.frames[f].state.Free? {
        var i :| 0 <= i < |s.free| && s.free[i] == f;
        assert !s'.frames[s'.free[i]].state.Free?;
      } else {
        var u: Tid :| 0 <= u < |s.threads| && Claims(s.threads[u], f);
        assert ThreadOk(s, u);
        assert !ThreadOk(s', u);
      }
    }
  }

  /** A hit is safe exactly if the page has fewer than 255 pins: then counter and pins stay equal, else they part. */
  lemma HitExactly(s: State, t: Tid, p: PageId)
    requires At(s, t, Start(FetchPage(p))) && s.InBounds() && s.lock == None && Hits(s, p)
    ensures var s' := StartFetch(s, t, p);
            && s'.threads[t] == Idle(Page(p, s.table[p])) && s'.Pins(p) == s.Pins(p) + 1
            && (s'.frames[s.table[p]].metadata.value.pinCount == s'.Pins(p) <==> s.Pins(p) < MAX_PINS)
            && (Inv(s') <==> s.Pins(p) < MAX_PINS)
  {
    assert PageOk(s, p);
    if s.Pins(p) < MAX_PINS {
      StartFetchHitKeepsInv(s, t, p);
    } else {
      assert !PageOk(StartFetch(s, t, p), p);
    }
  }

  /** The sections that `Allowed` leaves out all break the invariant. */
  lemma ForbiddenSectionBreaksInv(s: State, t: Tid, io: Io)
    requires Inv(s) && s.InBounds() && Enabled(s, Work(t, io)) && !Allowed(s, Work(t, io))
    ensures !Inv(Section(s, t, io))
  {
    assert ThreadOk(s, t);
    var pc := s.threads[t];
    if pc.Start? {
      if pc.op.NewPage? {
        CreateFreeExactly(s, t);
      } else {
        HitExactly(s, t, pc.op.page);
      }
    } else if pc.VictimCommit? {
      CommitNewExactly(s, t, pc.goal.page, pc.v, pc.oldPage, pc.buffer);
    } else {
      SecondReleaseExactly(s, t, pc.p, pc.f, pc.error);
    }
  }

  /** The exact limit of the whole protocol: a step keeps the invariant if and only if it is allowed. */
  lemma StepKeepsInvExactly(s: State, l: Label)
    requires Inv(s) && s.InBounds() && Enabled(s, l)
    ensures Inv(Step(s, l)) <==> Allowed(s, l)
  {
    if Allowed(s, l) {
      StepKeepsInv(s, l);
    } else {
      ForbiddenSectionBreaksInv(s, l.tid, l.io);
    }
  }

  // ---------------------------------------------------------------------------
  // What a refused commit does to the bytes
  // ---------------------------------------------------------------------------

  /**
   * If the id is mapped by now, the swap is refused, but only after the frame has been
   * overwritten: the old page stays mapped to a frame of zeros labelled with the new id.
   */
  lemma RefusedCommitZeroesOldPage(s: State, t: Tid, n: PageId, v: FrameId, oldPage: PageId, buffer: PageData)
    requires At(s, t, VictimCommit(Create(n), v, oldPage, buffer)) && s.InBounds() && v < |s.frames| && n in s.table
    ensures var s' := CommitVictim(s, t, Create(n), v, oldPage, buffer);
            && s'.InBounds() && s'.threads[t] == Idle(Failed(TableError(PageAlreadyExist)))
            && s'.table == s.table && oldPage in s.table && s.table[oldPage] == v
            && s'.frames[v].metadata.Some? && s'.frames[v].metadata.value.pageId == n
            && View(s', oldPage) == ZeroPage()
            && forall q: PageId :: q != oldPage ==> View(s', q) == View(s, q)
  {
    assert ThreadOk(s, t);
    assert PageOk(s, oldPage);
    forall q: PageId | q != oldPage
      ensures View(CommitVictim(s, t, Create(n), v, oldPage, buffer), q) == View(s, q)
    {
      if q in s.table {
        assert PageOk(s, q);
      }
    }
  }

  /** The step changes the bytes of the pages by the writes it stands for, and by nothing else. */
  ghost predicate Coherent(s: State, l: Label)
    requires s.InBounds() && Enabled(s, l)
  {
    Step(s, l).InBounds() && forall q: PageId :: View(Step(s, l), q) == Apply(View(s, q), q, WritesOf(s, l))
  }

  /** The step commits a new page under an id that is mapped, over a page that is not all zeros. */
  ghost predicate Overwrites(s: State, l: Label)
    requires s.InBounds() && Enabled(s, l)
  {
    && l.Work? && s.threads[l.tid].VictimCommit? && s.threads[l.tid].goal.Create?
    && s.threads[l.tid].goal.page in s.table
    && View(s, s.threads[l.tid].oldPage) != ZeroPage()
  }

  lemma RefusedCommitIsCoherentExactly(s: State, t: Tid, io: Io)
    requires Inv(s) && s.InBounds() && Enabled(s, Work(t, io)) && s.threads[t].VictimCommit? && s.threads[t].goal.Create?
    requires s.threads[t].goal.page in s.table
    ensures Coherent(s, Work(t, io)) <==> !Overwrites(s, Work(t, io))
  {
    var pc := s.threads[t];
    RefusedCommitZeroesOldPage(s, t, pc.goal.page, pc.v, pc.oldPage, pc.buffer);
    var s' := CommitVictim(s, t, pc.goal, pc.v, pc.oldPage, pc.buffer);
    assert Step(s, Work(t, io)) == s' && WritesOf(s, Work(t, io)) == [];
    assert View(s', pc.oldPage) == ZeroPage();
    if View(s, pc.oldPage) == ZeroPage() {
      forall q: PageId ensures View(s', q) == View(s, q) {
        assert q != pc.oldPage ==> View(s', q) == View(s, q);
      }
    }
  }

  lemma AcceptedCommitIsCoherent(s: State, t: Tid, io: Io)
    requires Inv(s) && s.InBounds() && Enabled(s, Work(t, io)) && s.threads[t].VictimCommit? && s.threads[t].goal.Create?
    requires s.threads[t].goal.page !in s.table
    ensures Coherent(s, Work(t, io))
  {
    var pc, s' := s.threads[t], Step(s, Work(t, io));
    AcceptedCommitWrites(s, t, io);
    forall q: PageId ensures View(s', q) == Apply(View(s, q), q, WritesOf(s, Work(t, io))) {
      CommitKeepsView(s, t, pc.goal, pc.v, pc.oldPage, pc.buffer, q);
    }
  }

  lemma AcceptedCommitWrites(s: State, t: Tid, io: Io)
    requires Inv(s) && s.InBounds() && Enabled(s, Work(t, io)) && s.threads[t].VictimCommit? && s.threads[t].goal.Create?
    requires s.threads[t].goal.page !in s.table
    ensures Step(s, Work(t, io)).InBounds()
    ensures WritesOf(s, Work(t, io)) == [StoreWrite(s.threads[t].goal.page, ZeroPage())]
  {
    var pc := s.threads[t];
    CommitSucceeds(s, t, pc.goal, pc.v, pc.oldPage, pc.buffer);
  }

  /** A new page on a free frame costs no page its bytes, not even if its id is in use. */
  lemma CreateFreeIsCoherent(s: State, t: Tid, io: Io)
    requires Inv(s) && s.InBounds() && Enabled(s, Work(t, io)) && s.threads[t] == Start(NewPage)
    ensures Coherent(s, Work(t, io))
  {
    assert Step(s, Work(t, io)) == StartNew(s, t);
    StartNewInBounds(s, t);
    forall q: PageId ensures View(StartNew(s, t), q) == Apply(View(s, q), q, WritesOf(s, Work(t, io))) {
      StartNewKeepsView(s, t, q);
    }
  }

  lemma StartNewInBounds(s: State, t: Tid)
    requires s.InBounds() && t < |s.threads|
    ensures StartNew(s, t).InBounds()
  {
  }

  /** Nor does a hit on a page with too many pins. */
  lemma HitIsCoherent(s: State, t: Tid, io: Io)
    requires Inv(s) && s.InBounds() && Enabled(s, Work(t, io)) && s.threads[t].Start? && s.threads[t].op.FetchPage?
    requires Hits(s, s.threads[t].op.page)
    ensures Coherent(s, Work(t, io))
  {
    var p := s.threads[t].op.page;
    var s' := StartFetch(s, t, p);
    assert PageOk(s, p);
    assert Step(s, Work(t, io)) == s' && s'.InBounds() && WritesOf(s, Work(t, io)) == [];
    forall q: PageId ensures View(s', q) == View(s, q) {
      StartFetchKeepsView(s, t, p, q);
    }
  }

  /** Nor the second set_resident of a failed delete. */
  lemma SecondReleaseIsCoherent(s: State, t: Tid, io: Io)
    requires Inv(s) && s.InBounds() && Enabled(s, Work(t, io)) && s.threads[t].DeleteFailed?
    ensures Coherent(s, Work(t, io))
  {
    var pc := s.threads[t];
    var s' := Release(s, t, pc.f, Failed(pc.error));
    assert Step(s, Work(t, io)) == s' && s'.InBounds() && WritesOf(s, Work(t, io)) == [];
    assert forall q: PageId :: View(s', q) == View(s, q);
  }

  lemma ForbiddenSectionIsCoherentExactly(s: State, t: Tid, io: Io)
    requires Inv(s) && s.InBounds() && Enabled(s, Work(t, io)) && !Allowed(s, Work(t, io))
    ensures Coherent(s, Work(t, io)) <==> !Overwrites(s, Work(t, io))
  {
    var pc := s.threads[t];
    if pc.Start? {
      if pc.op.NewPage? {
        CreateFreeIsCoherent(s, t, io);
      } else {
        HitIsCoherent(s, t, io);
      }
    } else if pc.DeleteFailed? {
      SecondReleaseIsCoherent(s, t, io);
    } else if pc.goal.page in s.table {
      RefusedCommitIsCoherentExactly(s, t, io);
    } else {
      AcceptedCommitIsCoherent(s, t, io);
    }
  }

  lemma AllowedStepIsCoherent(s: State, l: Label)
    requires Inv(s) && s.InBounds() && Enabled(s, l) && Allowed(s, l)
    ensures Coherent(s, l)
  {
    StepKeepsInv(s, l);
    InvBounds(Step(s, l));
    forall q: PageId ensures View(Step(s, l), q) == Apply(View(s, q), q, WritesOf(s, l)) {
      StepRefinesStore(s, l, q);
    }
  }

  /**
   * The exact limit of coherence: in every state of the invariant and for every step,
   * allowed or not, the pages' bytes change only by the writes of the atomic store, unless
   * the step commits a new page under an id that is mapped, over a page that is not all
   * zeros.
   */
  lemma StepIsCoherentExactly(s: State, l: Label)
    requires Inv(s) && s.InBounds() && Enabled(s, l)
    ensures Coherent(s, l) <==> !Overwrites(s, l)
  {
    if Allowed(s, l) {
      AllowedStepIsCoherent(s, l);
      assert !Overwrites(s, l);
    } else {
      ForbiddenSectionIsCoherentExactly(s, l.tid, l.io);
    }
  }
}
