/** Second-chance (CLOCK) replacement. */
module ClockReplacers {
  import opened Storage
  import opened Frames

  /** How many frames the hand inspects before it reaches frame i. */
  function Distance(hand: nat, i: nat, n: nat): nat
    requires hand < n && i < n
  {
    if hand <= i then i - hand else i + n - hand
  }

  /** The next position of the hand, around the circle of n frames. */
  function Advance(hand: nat, n: nat): nat
    requires hand < n
  {
    if hand + 1 < n then hand + 1 else 0
  }

  /** The frame after its second chance has been taken away. */
  function Cleared(f: FrameValue): FrameValue {
    if f.metadata.Some? then f.WithReference(false) else f
  }

  /** Every frame CLOCK could take still has its second chance. */
  ghost predicate AllReferenced(fs: seq<FrameValue>) {
    forall i :: 0 <= i < |fs| && fs[i].Evictable() ==> fs[i].IsReferenced()
  }

  ghost predicate NoneEvictable(fs: seq<FrameValue>) {
    forall i :: 0 <= i < |fs| ==> !fs[i].Evictable()
  }

  /** What one uninterrupted search does to the frames `fs` when the hand is at `hand`. */
  ghost predicate SecondChance(fs: seq<FrameValue>, hand: nat, r: Option<FrameId>, fs': seq<FrameValue>, hand': nat) {
    && |fs'| == |fs|
    && match r
       case None =>
         NoneEvictable(fs) && fs' == fs && hand' == hand
       case Some(v) =>
         && v < |fs|
         && hand < |fs|
         && fs[v].Evictable()
         && (!AllReferenced(fs) ==> !fs[v].IsReferenced())
         && (forall i :: 0 <= i < |fs| && fs[i].Evictable() && (fs[i].IsReferenced() ==> AllReferenced(fs)) ==>
                           Distance(hand, v, |fs|) <= Distance(hand, i, |fs|))
         && (forall i :: 0 <= i < |fs| ==>
                           fs'[i] == if fs[i].Evictable() && (AllReferenced(fs) || Distance(hand, i, |fs|) < Distance(hand, v, |fs|))
                                     then Cleared(fs[i]) else fs[i])
         && hand' == Advance(v, |fs|)
  }

  /** The contract leaves no freedom: victim, second chances and hand are all determined. */
  lemma SecondChanceIsDeterministic(
      fs: seq<FrameValue>, hand: nat,
      r1: Option<FrameId>, fs1: seq<FrameValue>, hand1: nat,
      r2: Option<FrameId>, fs2: seq<FrameValue>, hand2: nat)
    requires SecondChance(fs, hand, r1, fs1, hand1)
    requires SecondChance(fs, hand, r2, fs2, hand2)
    ensures r1 == r2 && fs1 == fs2 && hand1 == hand2
  {
    if r1.Some? && r2.Some? {
      assert Distance(hand, r1.value, |fs|) == Distance(hand, r2.value, |fs|);
      assert r1 == r2;
      assert forall i :: 0 <= i < |fs| ==> fs1[i] == fs2[i];
    }
  }

  /** Nobody has pinned the frame and nobody is moving it. */
  predicate Takeable(f: FrameValue) {
    f.state != Reserved && (f.metadata.Some? ==> f.metadata.value.pinCount == 0)
  }

  lemma NoneEvictableMeans(fs: seq<FrameValue>)
    ensures NoneEvictable(fs) <==>
            forall i :: 0 <= i < |fs| ==> fs[i].state == Reserved || (fs[i].metadata.Some? && fs[i].metadata.value.pinCount > 0)
  {
  }

  predicate HasChance(f: FrameValue) {
    f.metadata.Some? && f.metadata.value.reference
  }

  /** Some reference bits apart, the frames are the same. */
  ghost predicate SameButReferences(fs: seq<FrameValue>, fs': seq<FrameValue>) {
    && |fs'| == |fs|
    && forall i :: 0 <= i < |fs| ==>
         || fs'[i] == fs[i]
         || (fs[i].metadata.Some? && fs'[i] == fs[i].(metadata := Some(fs[i].metadata.value.(reference := false))))
  }

  /**
   * What the contract comes to. The victim could be taken. Every frame between the hand
   * and the victim that could be taken had its second chance, and has it no more; and if
   * the victim had one too, so had every frame that could be taken, and none of them has
   * it any more.
   */
  lemma SecondChanceMeans(fs: seq<FrameValue>, hand: nat, v: FrameId, fs': seq<FrameValue>, hand': nat)
    requires SecondChance(fs, hand, Some(v), fs', hand')
    ensures v < |fs| == |fs'| && hand < |fs| && Takeable(fs[v]) && SameButReferences(fs, fs')
    ensures forall i :: 0 <= i < |fs| && (if hand <= v then hand <= i < v else i < v || hand <= i) && Takeable(fs[i]) ==>
              HasChance(fs[i]) && !HasChance(fs'[i])
    ensures forall i :: 0 <= i < |fs| && HasChance(fs[v]) && Takeable(fs[i]) ==> HasChance(fs[i]) && !HasChance(fs'[i])
    ensures forall i :: 0 <= i < |fs| && !Takeable(fs[i]) ==> fs'[i] == fs[i]
    ensures hand' == if v + 1 < |fs| then v + 1 else 0
  {
  }

  /** What the hand decides about the frame under it. */
  datatype Verdict = InUse | Spared | Chosen

  function Look(f: FrameValue): Verdict {
    if !f.Evictable() then InUse else if f.IsReferenced() then Spared else Chosen
  }

  /** The frames after the hand has looked at frame i. */
  function Inspected(fs: seq<FrameValue>, i: nat): (fs': seq<FrameValue>)
    requires i < |fs|
    ensures |fs'| == |fs|
  {
    if Look(fs[i]).Spared? then fs[i := Cleared(fs[i])] else fs
  }

  /**
   * The state `vs` of a search that started on `fs`, in its first or second revolution
   * and after `scanned` inspections of it.
   */
  ghost predicate Swept(fs: seq<FrameValue>, vs: seq<FrameValue>, start: nat, second: bool, scanned: nat) {
    && |vs| == |fs|
    && start < |fs|
    && (second ==> AllReferenced(fs) && !NoneEvictable(fs))
    && (forall i :: 0 <= i < |fs| ==>
                      vs[i] == if fs[i].Evictable() && (second || Distance(start, i, |fs|) < scanned)
                               then Cleared(fs[i]) else fs[i])
    && (forall i :: 0 <= i < |fs| && Distance(start, i, |fs|) < scanned && fs[i].Evictable() ==>
                      !second && fs[i].IsReferenced())
  }

  /** Some frame inspected so far in this revolution could have been taken. */
  ghost predicate Seen(fs: seq<FrameValue>, start: nat, scanned: nat)
    requires start < |fs|
  {
    exists i :: 0 <= i < |fs| && Distance(start, i, |fs|) < scanned && fs[i].Evictable()
  }

  /** The frame under the hand after `scanned` inspections. */
  function HandAt(start: nat, scanned: nat, n: nat): nat
    requires start < n && scanned <= n
  {
    if start + scanned < n then start + scanned else start + scanned - n
  }

  lemma SweepSkips(fs: seq<FrameValue>, vs: seq<FrameValue>, start: nat, second: bool, scanned: nat)
    requires scanned < |fs| && Swept(fs, vs, start, second, scanned)
    requires !Look(vs[HandAt(start, scanned, |fs|)]).Chosen?
    ensures Swept(fs, Inspected(vs, HandAt(start, scanned, |fs|)), start, second, scanned + 1)
    ensures Seen(fs, start, scanned + 1) <==>
            Seen(fs, start, scanned) || Look(vs[HandAt(start, scanned, |fs|)]).Spared?
  {
    var id := HandAt(start, scanned, |fs|);
    assert Distance(start, id, |fs|) == scanned;
    assert forall i :: 0 <= i < |fs| && Distance(start, i, |fs|) == scanned ==> i == id;
  }

  lemma SweepFinds(fs: seq<FrameValue>, vs: seq<FrameValue>, start: nat, second: bool, scanned: nat)
    requires scanned < |fs| && Swept(fs, vs, start, second, scanned)
    requires Look(vs[HandAt(start, scanned, |fs|)]).Chosen?
    ensures var id := HandAt(start, scanned, |fs|);
            SecondChance(fs, start, Some(id), vs, Advance(id, |fs|))
  {
    var id := HandAt(start, scanned, |fs|);
    assert Distance(start, id, |fs|) == scanned;
    assert !second ==> !fs[id].IsReferenced() && !AllReferenced(fs);
    assert forall i :: 0 <= i < |fs| && Distance(start, i, |fs|) == scanned ==> i == id;
  }

  /** A whole revolution without a victim leads to the second one, or to giving up. */
  lemma SweepEnds(fs: seq<FrameValue>, vs: seq<FrameValue>, start: nat, second: bool)
    requires Swept(fs, vs, start, second, |fs|)
    ensures Seen(fs, start, |fs|) <==> !NoneEvictable(fs)
    ensures NoneEvictable(fs) ==> vs == fs
    ensures !NoneEvictable(fs) ==> !second && Swept(fs, vs, start, true, 0)
  {
    assert forall i :: 0 <= i < |fs| ==> Distance(start, i, |fs|) < |fs|;
    if !NoneEvictable(fs) {
      var i :| 0 <= i < |fs| && fs[i].Evictable();
      assert Distance(start, i, |fs|) < |fs|;
    }
  }

  ghost predicate Distinct(frames: seq<Frame>) {
    forall i, j :: 0 <= i < j < |frames| ==> frames[i] != frames[j]
  }

  ghost predicate AllValid(frames: seq<Frame>) {
    forall i :: 0 <= i < |frames| ==> frames[i].Valid()
  }

  ghost function Values(frames: seq<Frame>): (vs: seq<FrameValue>)
    requires AllValid(frames)
    reads frames, set f | f in frames :: f.data
    ensures |vs| == |frames|
    ensures forall i :: 0 <= i < |frames| ==> vs[i] == frames[i].Value()
  {
    seq(|frames|, i requires 0 <= i < |frames| reads frames, set f | f in frames :: f.data => frames[i].Value())
  }

  class ClockReplacer {
    var clockHand: nat

    constructor ()
      ensures clockHand == 0
    {
      clockHand := 0;
    }

    method AdvanceHand(n: nat)
      requires clockHand < n
      modifies this
      ensures clockHand == Advance(old(clockHand), n)
    {
      clockHand := (clockHand + 1) % n;
    }

    /** Looks at the frame under the hand, takes its second chance if it has one, and moves on. */
    method InspectHand(frames: seq<Frame>) returns (verdict: Verdict)
      requires Distinct(frames) && AllValid(frames)
      requires clockHand < |frames|
      modifies this, (set f | f in frames)`metadata
      ensures verdict == Look(old(Values(frames))[old(clockHand)])
      ensures Values(frames) == Inspected(old(Values(frames)), old(clockHand))
      ensures clockHand == Advance(old(clockHand), |frames|)
    {
      var frame := frames[clockHand];
      ghost var vs := Values(frames);
      assert vs[clockHand] == frame.Value();
      if frame.metadata.Some? && frame.metadata.value.pinCount > 0 {
        verdict := InUse;
      } else if frame.state == Reserved {
        verdict := InUse;
      } else if frame.metadata.Some? && frame.metadata.value.reference {
        var _ := frame.MarkUnreferenced();
        verdict := Spared;
      } else {
        verdict := Chosen;
      }
      AdvanceHand(|frames|);
    }

    /** One turn of the inner loop of a search that started on `fs` with the hand at `start`. */
    method Turn(frames: seq<Frame>, foundBefore: bool, ghost fs: seq<FrameValue>, ghost start: nat, ghost second: bool, ghost scanned: nat)
      returns (victim: Option<FrameId>, foundUnpinned: bool)
      requires Distinct(frames) && AllValid(frames) && scanned < |frames|
      requires Swept(fs, Values(frames), start, second, scanned) && clockHand == HandAt(start, scanned, |frames|)
      requires foundBefore <==> Seen(fs, start, scanned)
      modifies this, (set f | f in frames)`metadata
      ensures victim.Some? ==> SecondChance(fs, start, victim, Values(frames), clockHand)
      ensures victim.None? ==>
                && Swept(fs, Values(frames), start, second, scanned + 1)
                && clockHand == HandAt(start, scanned + 1, |frames|)
                && (foundUnpinned <==> Seen(fs, start, scanned + 1))
    {
      var id := clockHand;
      ghost var vs := Values(frames);
      var verdict := InspectHand(frames);
      if verdict == Chosen {
        SweepFinds(fs, vs, start, second, scanned);
        return Some(id), true;
      }
      SweepSkips(fs, vs, start, second, scanned);
      return None, foundBefore || verdict == Spared;
    }

    /** One turn of the outer loop: once round the circle, or up to a victim. */
    method Revolution(frames: seq<Frame>, ghost fs: seq<FrameValue>, ghost start: nat, ghost second: bool)
      returns (victim: Option<FrameId>, foundUnpinned: bool, ghost turns: nat)
      requires Distinct(frames) && AllValid(frames) && frames != []
      requires Swept(fs, Values(frames), start, second, 0) && clockHand == start
      modifies this, (set f | f in frames)`metadata
      ensures turns <= |frames| && (victim.None? ==> turns == |frames|)
      ensures victim.Some? ==> SecondChance(fs, start, victim, Values(frames), clockHand)
      ensures victim.None? ==> clockHand == start && (foundUnpinned <==> !NoneEvictable(fs))
      ensures victim.None? ==> if foundUnpinned then !second && Swept(fs, Values(frames), start, true, 0) else Values(frames) == fs
    {
      var n := |frames|;
      turns := 0;
      foundUnpinned := false;
      var scanned := 0;
      while scanned < n
        invariant turns == scanned <= n && clockHand == HandAt(start, scanned, n)
        invariant Swept(fs, Values(frames), start, second, scanned)
        invariant foundUnpinned <==> Seen(fs, start, scanned)
      {
        turns := turns + 1;
        victim, foundUnpinned := Turn(frames, foundUnpinned, fs, start, second, scanned);
        if victim.Some? {
          return;
        }
        scanned := scanned + 1;
      }
      SweepEnds(fs, Values(frames), start, second);
      return None, foundUnpinned, turns;
    }

    /** Finds a victim; `inspections` counts the frames looked at on the way. */
    method FindVictim(frames: seq<Frame>) returns (r: Option<FrameId>, ghost inspections: nat)
      requires Distinct(frames) && AllValid(frames)
      requires frames == [] || clockHand < |frames|
      modifies this, (set f | f in frames)`metadata
      ensures SecondChance(old(Values(frames)), old(clockHand), r, Values(frames), clockHand)
      ensures r == None <==> NoneEvictable(old(Values(frames)))
      ensures inspections <= 2 * |frames|
    {
      inspections := 0;
      var n := |frames|;
      if n == 0 {
        return None, 0;
      }
      ghost var fs := Values(frames);
      ghost var start := clockHand;
      ghost var second := false;
      while true
        invariant clockHand == start
        invariant inspections == if second then n else 0
        invariant Swept(fs, Values(frames), start, second, 0)
        decreases !second
      {
        ghost var turns: nat;
        var foundUnpinned;
        r, foundUnpinned, turns := Revolution(frames, fs, start, second);
        inspections := inspections + turns;
        if r.Some? {
          return;
        }
        if !foundUnpinned {
          return None, inspections;
        }
        second := true;
      }
    }
  }
}
