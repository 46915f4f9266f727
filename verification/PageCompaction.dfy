/** What compact does to the bytes of a page, and exactly when it keeps the records. */
module PageCompaction {
  import opened Storage
  import opened PageLayout

  /** The bytes taken by the live records among slots i..n. */
  function LiveBytes(d: PageData, i: nat, n: nat): nat
    requires i <= n && SlotAt(n) <= PAGE_SIZE
    decreases n - i
  {
    if i == n then 0 else SlotLength(d, i) + LiveBytes(d, i + 1, n)
  }

  /** Slots from i on can be copied to `dest` and up without leaving the page. */
  ghost predicate Compactable(d: PageData, i: nat, dest: nat) {
    && DirectoryEnd(d) <= dest && i <= SlotCount(d) && DirectoryEnd(d) <= PAGE_SIZE
    && (forall k :: i <= k < SlotCount(d) ==> Readable(d, k))
    && dest + LiveBytes(d, i, SlotCount(d)) <= PAGE_SIZE
  }

  /** Slot i's record copied to `dest`, through a buffer, and its entry updated. */
  function Moved(d: PageData, i: nat, dest: nat): PageData
    requires Readable(d, i) && dest + SlotLength(d, i) <= PAGE_SIZE
  {
    WriteSlot(Splice(d, dest, Get(d, i)), i, dest, SlotLength(d, i))
  }

  /** d1 is d after slot i's record has been moved to `dest`. */
  ghost predicate IsMoved(d: PageData, d1: PageData, i: nat, dest: nat) {
    && Readable(d, i)
    && SlotCount(d1) == SlotCount(d) && FreeEnd(d1) == FreeEnd(d) && i < SlotCount(d)
    && DirectoryEnd(d) <= dest && dest + SlotLength(d, i) <= PAGE_SIZE
    && SlotOffset(d1, i) == dest && SlotLength(d1, i) == SlotLength(d, i)
    && d1[dest..dest + SlotLength(d, i)] == Get(d, i)
    && SameFrom(d, d1, dest + SlotLength(d, i))
    && SameBetween(d, d1, DirectoryEnd(d), dest)
    && (forall k :: 0 <= k < SlotCount(d) && k != i ==> SameSlot(d, d1, k))
  }

  ghost predicate SameBetween(d: PageData, d': PageData, lo: nat, hi: nat) {
    forall b {:trigger d'[b]} :: lo <= b < hi && b < PAGE_SIZE ==> d'[b] == d[b]
  }

  ghost predicate SameSlot(d: PageData, d': PageData, k: nat) {
    SlotAt(k) + 4 <= PAGE_SIZE ==>
      SlotOffset(d', k) == SlotOffset(d, k) && SlotLength(d', k) == SlotLength(d, k)
  }

  lemma MovedIsMoved(d: PageData, i: nat, dest: nat)
    requires i < SlotCount(d) && DirectoryEnd(d) <= dest && Readable(d, i) && dest + SlotLength(d, i) <= PAGE_SIZE
    ensures IsMoved(d, Moved(d, i, dest), i, dest)
  {
    var d1 := Splice(d, dest, Get(d, i));
    var d' := Moved(d, i, dest);
    WriteSlotIsLocal(d1, i, dest, SlotLength(d, i));
    assert forall b :: dest <= b < dest + SlotLength(d, i) ==> d'[b] == d1[b];
    assert d'[dest..dest + SlotLength(d, i)] == d1[dest..dest + SlotLength(d, i)];
  }

  lemma {:induction false} LiveBytesDependOnLengths(d: PageData, d': PageData, i: nat, n: nat)
    requires i <= n && SlotAt(n) <= PAGE_SIZE
    requires forall k :: i <= k < n ==> SlotLength(d', k) == SlotLength(d, k)
    ensures LiveBytes(d', i, n) == LiveBytes(d, i, n)
    decreases n - i
  {
    if i < n {
      LiveBytesDependOnLengths(d, d', i + 1, n);
    }
  }

  lemma MovedStaysCompactable(d: PageData, d1: PageData, i: nat, dest: nat)
    requires Compactable(d, i, dest) && i < SlotCount(d) && Readable(d, i) && IsMoved(d, d1, i, dest)
    ensures Compactable(d1, i + 1, dest + SlotLength(d, i))
  {
    forall k | i + 1 <= k < SlotCount(d) ensures Readable(d1, k) && SlotLength(d1, k) == SlotLength(d, k) {
      assert Readable(d, k);
      assert SameSlot(d, d1, k);
    }
    LiveBytesDependOnLengths(d, d1, i + 1, SlotCount(d));
  }

  /**
   * What the loop of compact does from slot i on: it turns d into d', skipping empty
   * slots, moving each live record to the write position, and setting the free end last.
   */
  ghost predicate CompactsTo(d: PageData, i: nat, dest: nat, d': PageData)
    decreases SlotCount(d) - i
  {
    && Compactable(d, i, dest)
    && if i == SlotCount(d) then d' == Write16(d, 2, dest)
       else if !Live(d, i) then CompactsTo(d, i + 1, dest, d')
       else exists d1: PageData :: IsMoved(d, d1, i, dest) && CompactsTo(d1, i + 1, dest + SlotLength(d, i), d')
  }

  /** The page after the turn of a live slot. */
  lemma NextPage(d: PageData, i: nat, dest: nat, d': PageData) returns (d1: PageData)
    requires CompactsTo(d, i, dest, d') && i < SlotCount(d) && Live(d, i)
    ensures IsMoved(d, d1, i, dest) && CompactsTo(d1, i + 1, dest + SlotLength(d, i), d')
  {
    d1 :| IsMoved(d, d1, i, dest) && CompactsTo(d1, i + 1, dest + SlotLength(d, i), d');
  }

  /** compact turns page d into d'. */
  ghost predicate Compaction(d: PageData, d': PageData) {
    CompactsTo(d, 0, DirectoryEnd(d), d')
  }

  lemma MoveThenRest(d: PageData, d1: PageData, i: nat, dest: nat, d': PageData)
    requires Compactable(d, i, dest) && i < SlotCount(d) && Live(d, i) && IsMoved(d, d1, i, dest)
    requires CompactsTo(d1, i + 1, dest + SlotLength(d, i), d')
    ensures CompactsTo(d, i, dest, d')
  {
  }

  /** Whatever the loop makes of d from slot i on, compact makes of d0. */
  ghost predicate Continues(d0: PageData, d: PageData, i: nat, dest: nat) {
    forall d': PageData :: CompactsTo(d, i, dest, d') ==> Compaction(d0, d')
  }

  lemma MoveContinues(d0: PageData, d: PageData, d1: PageData, i: nat, dest: nat)
    requires Continues(d0, d, i, dest)
    requires Compactable(d, i, dest) && i < SlotCount(d) && Live(d, i) && IsMoved(d, d1, i, dest)
    ensures Continues(d0, d1, i + 1, dest + SlotLength(d, i))
  {
    forall d': PageData | CompactsTo(d1, i + 1, dest + SlotLength(d, i), d') ensures Compaction(d0, d') {
      MoveThenRest(d, d1, i, dest, d');
    }
  }

  lemma SkipContinues(d0: PageData, d: PageData, i: nat, dest: nat)
    requires Continues(d0, d, i, dest)
    requires Compactable(d, i, dest) && i < SlotCount(d) && !Live(d, i)
    ensures Compactable(d, i + 1, dest) && Continues(d0, d, i + 1, dest)
  {
    forall d': PageData | CompactsTo(d, i + 1, dest, d') ensures Compaction(d0, d') {
      assert CompactsTo(d, i, dest, d');
    }
  }

  lemma {:induction false} CompactionExists(d: PageData, i: nat, dest: nat) returns (d': PageData)
    requires Compactable(d, i, dest)
    ensures CompactsTo(d, i, dest, d')
    decreases SlotCount(d) - i
  {
    if i == SlotCount(d) {
      d' := Write16(d, 2, dest);
    } else if Live(d, i) {
      var d1 := MoveExists(d, i, dest);
      d' := CompactionExists(d1, i + 1, dest + SlotLength(d, i));
      MoveThenRest(d, d1, i, dest, d');
    } else {
      d' := CompactionExists(d, i + 1, dest);
    }
  }

  lemma MoveExists(d: PageData, i: nat, dest: nat) returns (d1: PageData)
    requires Compactable(d, i, dest) && i < SlotCount(d)
    ensures IsMoved(d, d1, i, dest) && Compactable(d1, i + 1, dest + SlotLength(d, i))
  {
    assert Readable(d, i);
    d1 := Moved(d, i, dest);
    MovedIsMoved(d, i, dest);
    MovedStaysCompactable(d, d1, i, dest);
  }

  /** Where compaction puts slot k's record. */
  function Destination(d: PageData, k: nat): nat
    requires SlotAt(k) <= PAGE_SIZE
  {
    DirectoryEnd(d) + LiveBytes(d, 0, k)
  }

  lemma {:induction false} LiveBytesSplit(d: PageData, i: nat, k: nat, n: nat)
    requires i <= k <= n && SlotAt(n) <= PAGE_SIZE
    ensures LiveBytes(d, i, n) == LiveBytes(d, i, k) + LiveBytes(d, k, n)
    decreases k - i
  {
    if i < k {
      LiveBytesSplit(d, i + 1, k, n);
    }
  }

  /** The fields and the untouched bytes after the rest of the loop. */
  ghost predicate IsCompacted(d: PageData, d': PageData, i: nat, dest: nat)
    requires Compactable(d, i, dest)
  {
    && SlotCount(d') == SlotCount(d)
    && FreeEnd(d') == dest + LiveBytes(d, i, SlotCount(d))
    && SameFrom(d, d', dest + LiveBytes(d, i, SlotCount(d)))
    && SameBetween(d, d', DirectoryEnd(d), dest)
    && (forall k :: 0 <= k < SlotCount(d) ==> SlotIsCompacted(d, d', i, dest, k))
  }

  ghost predicate SlotIsCompacted(d: PageData, d': PageData, i: nat, dest: nat, k: nat)
    requires SlotAt(k) + 4 <= PAGE_SIZE
  {
    && SlotLength(d', k) == SlotLength(d, k)
    && SlotOffset(d', k) == if i <= k && Live(d, k) then dest + LiveBytes(d, i, k) else SlotOffset(d, k)
  }

  lemma MoveThenCompact(d: PageData, d1: PageData, d': PageData, i: nat, dest: nat)
    requires Compactable(d, i, dest) && i < SlotCount(d) && Live(d, i) && IsMoved(d, d1, i, dest)
    requires Compactable(d1, i + 1, dest + SlotLength(d, i)) && IsCompacted(d1, d', i + 1, dest + SlotLength(d, i))
    ensures IsCompacted(d, d', i, dest)
  {
    var n := SlotCount(d);
    forall k | 0 <= k < n && k != i ensures SlotLength(d1, k) == SlotLength(d, k) && SlotOffset(d1, k) == SlotOffset(d, k) {
      assert SameSlot(d, d1, k);
    }
    LiveBytesDependOnLengths(d, d1, i + 1, n);
    forall k | 0 <= k < n ensures SlotIsCompacted(d, d', i, dest, k) {
      assert SlotIsCompacted(d1, d', i + 1, dest + SlotLength(d, i), k);
      if i < k {
        LiveBytesDependOnLengths(d, d1, i + 1, k);
      }
    }
  }

  lemma {:induction false} CompactFields(d: PageData, i: nat, dest: nat, d': PageData)
    requires CompactsTo(d, i, dest, d')
    ensures IsCompacted(d, d', i, dest)
    decreases SlotCount(d) - i
  {
    if i == SlotCount(d) {
      Write16IsLocal(d, 2, dest);
    } else if Live(d, i) {
      var d1 := NextPage(d, i, dest, d');
      CompactFields(d1, i + 1, dest + SlotLength(d, i), d');
      MoveThenCompact(d, d1, d', i, dest);
    } else {
      CompactFields(d, i + 1, dest, d');
      SkipThenCompact(d, d', i, dest);
    }
  }

  lemma SkipThenCompact(d: PageData, d': PageData, i: nat, dest: nat)
    requires Compactable(d, i, dest) && i < SlotCount(d) && !Live(d, i)
    requires IsCompacted(d, d', i + 1, dest)
    ensures IsCompacted(d, d', i, dest)
  {
    forall k | 0 <= k < SlotCount(d) ensures SlotIsCompacted(d, d', i, dest, k) {
      assert SlotIsCompacted(d, d', i + 1, dest, k);
    }
  }

  /** The write position never passes a live record that is still to be copied. */
  ghost predicate NeverOverruns(d: PageData, i: nat, dest: nat)
    requires Compactable(d, i, dest)
  {
    forall k :: i <= k < SlotCount(d) && Live(d, k) ==> dest + LiveBytes(d, i, k) <= SlotOffset(d, k)
  }

  /** Slot k's record has been packed below `dest` already, or is empty, or is still to come. */
  ghost predicate Placed(d: PageData, i: nat, dest: nat, k: nat) {
    && k < SlotCount(d) && Readable(d, k)
    && (k < i && Live(d, k) ==> DirectoryEnd(d) <= SlotOffset(d, k) && SlotOffset(d, k) + SlotLength(d, k) <= dest)
  }

  /** Slot k reads as r. */
  ghost predicate Holds(d: PageData, k: nat, r: Record) {
    Readable(d, k) && Get(d, k) == r
  }

  lemma SettledRecordStays(d: PageData, d': PageData, i: nat, dest: nat, k: nat)
    requires Compactable(d, i, dest) && IsCompacted(d, d', i, dest) && Placed(d, i, dest, k)
    requires k < i || !Live(d, k)
    ensures Holds(d', k, Get(d, k))
  {
    assert SlotIsCompacted(d, d', i, dest, k);
  }

  lemma {:induction false} CompactKeepsRecord(d: PageData, i: nat, dest: nat, d': PageData, k: nat, r: Record)
    requires CompactsTo(d, i, dest, d')
    requires NeverOverruns(d, i, dest) && Placed(d, i, dest, k) && Holds(d, k, r)
    ensures Holds(d', k, r)
    decreases SlotCount(d) - i, 1
  {
    if k < i || !Live(d, k) {
      CompactFields(d, i, dest, d');
      SettledRecordStays(d, d', i, dest, k);
    } else if Live(d, i) {
      RecordSurvivesMove(d, i, dest, d', k, r);
    } else {
      SkipNeverOverruns(d, i, dest);
      CompactKeepsRecord(d, i + 1, dest, d', k, r);
    }
  }

  lemma {:induction false} RecordSurvivesMove(d: PageData, i: nat, dest: nat, d': PageData, k: nat, r: Record)
    requires CompactsTo(d, i, dest, d') && i < SlotCount(d) && Live(d, i)
    requires NeverOverruns(d, i, dest) && i <= k < SlotCount(d) && Holds(d, k, r) && Live(d, k)
    ensures Holds(d', k, r)
    decreases SlotCount(d) - i, 0
  {
    var d1 := NextPage(d, i, dest, d');
    MoveKeepsRecords(d, d1, i, dest, k);
    CompactKeepsRecord(d1, i + 1, dest + SlotLength(d, i), d', k, r);
  }

  lemma SkipNeverOverruns(d: PageData, i: nat, dest: nat)
    requires Compactable(d, i, dest) && NeverOverruns(d, i, dest) && i < SlotCount(d) && !Live(d, i)
    ensures Compactable(d, i + 1, dest) && NeverOverruns(d, i + 1, dest)
  {
  }

  lemma MoveKeepsRecords(d: PageData, d1: PageData, i: nat, dest: nat, k: nat)
    requires Compactable(d, i, dest) && NeverOverruns(d, i, dest)
    requires i < SlotCount(d) && Live(d, i) && IsMoved(d, d1, i, dest)
    requires Compactable(d1, i + 1, dest + SlotLength(d, i))
    requires i <= k < SlotCount(d) && Live(d, k)
    ensures NeverOverruns(d1, i + 1, dest + SlotLength(d, i))
    ensures Placed(d1, i + 1, dest + SlotLength(d, i), k) && Holds(d1, k, Get(d, k))
  {
    forall j | i < j < SlotCount(d) ensures SlotLength(d1, j) == SlotLength(d, j) && SlotOffset(d1, j) == SlotOffset(d, j) {
      assert SameSlot(d, d1, j);
    }
    forall j | i < j < SlotCount(d) && Live(d, j)
      ensures LiveBytes(d1, i + 1, j) == LiveBytes(d, i + 1, j)
      ensures dest + SlotLength(d, i) + LiveBytes(d, i + 1, j) <= SlotOffset(d, j)
    {
      LiveBytesDependOnLengths(d, d1, i + 1, j);
    }
    if k > i {
      SameBytesSameRecord(d, d1, dest + SlotLength(d, i), k);
    }
  }

  // ---------------------------------------------------------------------------
  // What compact guarantees
  // ---------------------------------------------------------------------------

  lemma LiveBytesLast(d: PageData, k: nat)
    requires SlotAt(k) + 4 <= PAGE_SIZE
    ensures LiveBytes(d, 0, k + 1) == LiveBytes(d, 0, k) + SlotLength(d, k)
  {
    LiveBytesSplit(d, 0, k, k + 1);
    assert LiveBytes(d, k + 1, k + 1) == 0;
  }

  /** The live records before slot k fit above any byte that none of them reaches down to. */
  lemma {:induction false} LiveBytesFitAbove(d: PageData, k: nat, x: nat)
    requires WellFormed(d) && k <= SlotCount(d) && x <= PAGE_SIZE
    requires forall j :: 0 <= j < k && Live(d, j) ==> x <= SlotOffset(d, j)
    ensures LiveBytes(d, 0, k) <= PAGE_SIZE - x
  {
    if k > 0 {
      LiveBytesLast(d, k - 1);
      if Live(d, k - 1) {
        LiveBytesFitAbove(d, k - 1, SlotOffset(d, k - 1) + SlotLength(d, k - 1));
      } else {
        LiveBytesFitAbove(d, k - 1, x);
      }
    }
  }

  lemma WellFormedIsCompactable(d: PageData)
    requires WellFormed(d)
    ensures Compactable(d, 0, DirectoryEnd(d))
  {
    LiveBytesFitAbove(d, SlotCount(d), FreeEnd(d));
  }

  /** compact keeps every record and packs the live ones in slot order, whenever it never overruns one. */
  lemma CompactKeepsRecords(d: PageData, d': PageData)
    requires Compaction(d, d') && NeverOverruns(d, 0, DirectoryEnd(d))
    ensures SlotCount(d') == SlotCount(d)
    ensures forall k :: 0 <= k < SlotCount(d) ==> Holds(d', k, Get(d, k))
    ensures forall k :: 0 <= k < SlotCount(d) && Live(d, k) ==> SlotOffset(d', k) == Destination(d, k)
    ensures FreeEnd(d') == Destination(d, SlotCount(d))
  {
    CompactFields(d, 0, DirectoryEnd(d), d');
    forall k | 0 <= k < SlotCount(d) ensures Holds(d', k, Get(d, k)) {
      CompactKeepsRecord(d, 0, DirectoryEnd(d), d', k, Get(d, k));
    }
    forall k | 0 <= k < SlotCount(d) && Live(d, k) ensures SlotOffset(d', k) == Destination(d, k) {
      assert SlotIsCompacted(d, d', 0, DirectoryEnd(d), k);
    }
  }

  /** On a page built by insert and delete, room in the gap for all live bytes is enough. */
  lemma RoomInGapSuffices(d: PageData)
    requires WellFormed(d) && LiveBytes(d, 0, SlotCount(d)) <= FreeSpace(d)
    ensures Compactable(d, 0, DirectoryEnd(d)) && NeverOverruns(d, 0, DirectoryEnd(d))
  {
    WellFormedIsCompactable(d);
    forall k | 0 <= k < SlotCount(d) && Live(d, k)
      ensures DirectoryEnd(d) + LiveBytes(d, 0, k) <= SlotOffset(d, k)
    {
      LiveBytesSplit(d, 0, k, SlotCount(d));
    }
  }

  // --- pages that compact has left ---

  /** The live records lie one after the other in slot order, right above the directory. */
  ghost predicate Packed(d: PageData) {
    && Compactable(d, 0, DirectoryEnd(d))
    && FreeEnd(d) == Destination(d, SlotCount(d))
    && forall k :: 0 <= k < SlotCount(d) && Live(d, k) ==> SlotOffset(d, k) == Destination(d, k)
  }

  /** What is left of a packed page after deletions: compact can only move records down. */
  ghost predicate Settled(d: PageData) {
    Compactable(d, 0, DirectoryEnd(d)) && NeverOverruns(d, 0, DirectoryEnd(d))
  }

  /** Whatever page it is given, compact leaves a packed one. */
  lemma CompactPacks(d: PageData, d': PageData)
    requires Compaction(d, d')
    ensures Packed(d') && Settled(d')
    ensures SlotCount(d') == SlotCount(d) && FreeSpace(d') == LiveBytes(d, 0, SlotCount(d))
  {
    var n, start := SlotCount(d), DirectoryEnd(d);
    CompactFields(d, 0, start, d');
    forall k | 0 <= k < n
      ensures SlotLength(d', k) == SlotLength(d, k)
      ensures SlotOffset(d', k) == if Live(d, k) then Destination(d, k) else SlotOffset(d, k)
    {
      assert SlotIsCompacted(d, d', 0, start, k);
    }
    forall k | 0 <= k <= n ensures Destination(d', k) == Destination(d, k) {
      LiveBytesDependOnLengths(d, d', 0, k);
    }
    forall k | 0 <= k < n ensures Readable(d', k) {
      LiveBytesSplit(d, 0, k, n);
      assert Readable(d, k);
    }
  }

  lemma {:induction false} FewerLiveBytes(d: PageData, d': PageData, i: nat, n: nat)
    requires i <= n && SlotAt(n) <= PAGE_SIZE
    requires forall k :: i <= k < n ==> SlotLength(d', k) <= SlotLength(d, k)
    ensures LiveBytes(d', i, n) <= LiveBytes(d, i, n)
    decreases n - i
  {
    if i < n {
      FewerLiveBytes(d, d', i + 1, n);
    }
  }

  /** Deletions keep a page safe to compact. */
  lemma DeleteKeepsSettled(d: PageData, k: nat)
    requires Settled(d) && k < SlotCount(d)
    ensures Settled(Deleted(d, k)) && SlotCount(Deleted(d, k)) == SlotCount(d)
  {
    var d', n := Deleted(d, k), SlotCount(d);
    WriteSlotIsLocal(d, k, 0, 0);
    forall j | 0 <= j < n
      ensures SlotLength(d', j) == (if j == k then 0 else SlotLength(d, j))
      ensures SlotOffset(d', j) == (if j == k then 0 else SlotOffset(d, j)) && Readable(d', j)
    {
      assert Readable(d, j);
    }
    FewerLiveBytes(d, d', 0, n);
    forall j | 0 <= j < n && Live(d', j) ensures DirectoryEnd(d) + LiveBytes(d', 0, j) <= SlotOffset(d', j) {
      FewerLiveBytes(d, d', 0, j);
    }
  }

  lemma RewriteSame16(d: seq<Byte>, i: nat)
    requires i + 1 < |d|
    ensures Write16(d, i, Read16(d, i)) == d
  {
    assert Read16(d, i) % 256 == d[i] as nat && Read16(d, i) / 256 == d[i + 1] as nat;
  }

  /** The fields determine the bytes of header and directory. */
  lemma SameSlotSameBytes(d: PageData, d1: PageData, k: nat)
    requires SlotAt(k) + 4 <= PAGE_SIZE && SameSlot(d, d1, k)
    ensures forall b :: SlotAt(k) <= b < SlotAt(k) + 4 ==> d1[b] == d[b]
  {
  }

  /** Moving a record to where it is changes nothing. */
  lemma MoveInPlace(d: PageData, d1: PageData, i: nat)
    requires Readable(d, i) && IsMoved(d, d1, i, SlotOffset(d, i))
    ensures d1 == d
  {
    var n, at, len := SlotCount(d), SlotOffset(d, i), SlotLength(d, i);
    forall b | 0 <= b < PAGE_SIZE ensures d1[b] == d[b] {
      if 4 <= b < SlotAt(n) {
        var k := (b - 4) / 4;
        assert SlotAt(k) <= b < SlotAt(k) + 4 && k < n;
        SameSlotSameBytes(d, d1, k);
      } else if at <= b < at + len {
        assert d1[at..at + len][b - at] == Get(d, i)[b - at];
      }
    }
  }

  /** The turn of a slot of a packed page leaves the page alone and the write position in step. */
  lemma PackedSlotStays(d: PageData, i: nat, dest: nat, d': PageData)
    requires Packed(d) && i < SlotCount(d) && dest == Destination(d, i) && CompactsTo(d, i, dest, d')
    ensures CompactsTo(d, i + 1, Destination(d, i + 1), d')
  {
    LiveBytesLast(d, i);
    if Live(d, i) {
      var d1 := NextPage(d, i, dest, d');
      MoveInPlace(d, d1, i);
    }
  }

  lemma {:induction false} CompactPackedFrom(d: PageData, i: nat, d': PageData)
    requires Packed(d) && i <= SlotCount(d) && CompactsTo(d, i, Destination(d, i), d')
    ensures d' == d
    decreases SlotCount(d) - i
  {
    if i == SlotCount(d) {
      RewriteSame16(d, 2);
    } else {
      PackedSlotStays(d, i, Destination(d, i), d');
      CompactPackedFrom(d, i + 1, d');
    }
  }

  /** compact changes nothing on a page it has just packed. */
  lemma CompactIsIdempotent(d: PageData, d1: PageData, d2: PageData)
    requires Compaction(d, d1) && Compaction(d1, d2)
    ensures d2 == d1
  {
    CompactPacks(d, d1);
    CompactPackedFrom(d1, 0, d2);
  }

  /**
   * compact leaves the end of the free area above the records it packed, so an insert
   * that still succeeds afterwards always lets the slot directory run into a live record.
   */
  lemma InsertAfterCompactBreaksPage(d: PageData, c: PageData, r: Record)
    requires Compaction(d, c) && |r| + SLOT_SIZE <= FreeSpace(c)
    ensures FreeEnd(c) <= PAGE_SIZE && DirectoryEnd(c) + 4 <= PAGE_SIZE
    ensures exists k :: 0 <= k < SlotCount(c) && Live(Inserted(c, r), k)
                     && SlotOffset(Inserted(c, r), k) < DirectoryEnd(Inserted(c, r))
  {
    CompactPacks(d, c);
    var n := SlotCount(c);
    var k := FirstLive(c, 0, n);
    InsertIntoPackedSlot(c, r, k);
  }

  /** A live slot with no live slot before it. */
  lemma {:induction false} FirstLive(d: PageData, i: nat, n: nat) returns (k: nat)
    requires i <= n && SlotAt(n) <= PAGE_SIZE && LiveBytes(d, i, n) > 0
    ensures i <= k < n && Live(d, k) && LiveBytes(d, i, k) == 0
    decreases n - i
  {
    if Live(d, i) {
      k := i;
    } else {
      k := FirstLive(d, i + 1, n);
    }
  }

  lemma InsertIntoPackedSlot(c: PageData, r: Record, k: nat)
    requires Packed(c) && |r| + SLOT_SIZE <= FreeSpace(c)
    requires k < SlotCount(c) && Live(c, k) && LiveBytes(c, 0, k) == 0
    ensures var c' := Inserted(c, r);
            Live(c', k) && SlotOffset(c', k) == DirectoryEnd(c) && DirectoryEnd(c') == DirectoryEnd(c) + SLOT_SIZE
  {
    var at, n := FreeEnd(c) - |r|, SlotCount(c);
    var c1 := Splice(c, at, r);
    var c2 := Write16(c1, 2, at);
    Write16IsLocal(c1, 2, at);
    var c3 := Write16(c2, 0, n + 1);
    Write16IsLocal(c2, 0, n + 1);
    WriteSlotIsLocal(c3, n, at, |r|);
  }

  // --- exactly when compact is safe ---

  /** Two pages with the same header and slot directory: the same layout, perhaps other records. */
  ghost predicate SameLayout(d: PageData, d': PageData) {
    && SlotCount(d') == SlotCount(d) && FreeEnd(d') == FreeEnd(d)
    && forall k :: 0 <= k < SlotCount(d) ==> SameSlot(d, d', k)
  }

  /** The layout of d with ones in slot l's record and zeros in every other record. */
  ghost function Marked(d: PageData, l: nat): PageData
    requires WellFormed(d) && l < SlotCount(d)
  {
    seq(PAGE_SIZE, b requires 0 <= b < PAGE_SIZE =>
      if b < DirectoryEnd(d) then d[b] else if InRecord(d, l, b) then 1 else 0)
  }

  predicate InRecord(d: PageData, l: nat, b: nat)
    requires Readable(d, l)
  {
    SlotOffset(d, l) <= b < SlotOffset(d, l) + SlotLength(d, l)
  }

  lemma MarkedIsWellFormed(d: PageData, l: nat)
    requires WellFormed(d) && l < SlotCount(d) && Live(d, l)
    ensures WellFormed(Marked(d, l)) && SameLayout(d, Marked(d, l))
  {
    var m := Marked(d, l);
    assert forall b :: 0 <= b < DirectoryEnd(d) ==> m[b] == d[b];
    assert SlotCount(m) == SlotCount(d) && FreeEnd(m) == FreeEnd(d);
    forall k | 0 <= k < SlotCount(d)
      ensures SlotOffset(m, k) == SlotOffset(d, k) && SlotLength(m, k) == SlotLength(d, k)
    {
    }
    assert DirectoryOk(m);
    assert forall k :: 0 <= k < SlotCount(d) ==> SameSlot(d, m, k);
  }

  /**
   * Halfway through compacting a marked page: everything above the directory is zero
   * except slot l's record, which is about to be overrun from `dest` downwards.
   */
  ghost predicate Erasing(d: PageData, i: nat, dest: nat, l: nat) {
    && Compactable(d, i, dest) && i <= l < SlotCount(d) && Live(d, l) && Readable(d, l)
    && (forall k :: i <= k < l && Live(d, k) ==> SlotOffset(d, l) + SlotLength(d, l) <= SlotOffset(d, k))
    && (forall b :: DirectoryEnd(d) <= b < PAGE_SIZE && (b < dest || !InRecord(d, l, b)) ==> d[b] == 0)
    && DirectoryEnd(d) <= SlotOffset(d, l) < dest + LiveBytes(d, i, l)
  }

  lemma MoveKeepsErasing(d: PageData, d1: PageData, i: nat, dest: nat, l: nat)
    requires Erasing(d, i, dest, l) && i < l && Live(d, i) && IsMoved(d, d1, i, dest)
    ensures Erasing(d1, i + 1, dest + SlotLength(d, i), l)
  {
    MovedStaysCompactable(d, d1, i, dest);
    assert SameSlot(d, d1, l);
    forall k | i < k < l ensures SlotLength(d1, k) == SlotLength(d, k) && SlotOffset(d1, k) == SlotOffset(d, k) {
      assert SameSlot(d, d1, k);
    }
    LiveBytesDependOnLengths(d, d1, i + 1, l);
    forall b | DirectoryEnd(d) <= b < PAGE_SIZE && (b < dest + SlotLength(d, i) || !InRecord(d, l, b))
      ensures d1[b] == 0
    {
      if dest <= b < dest + SlotLength(d, i) {
        assert d1[b] == d1[dest..dest + SlotLength(d, i)][b - dest] == d[SlotOffset(d, i) + (b - dest)];
      }
    }
  }

  /** When the overrun record's own turn comes, it is read back without its first byte. */
  lemma ErasedRecordIsRead(d: PageData, l: nat, dest: nat, d': PageData)
    requires Erasing(d, l, dest, l) && CompactsTo(d, l, dest, d')
    ensures ReadsZeroFirst(d', l)
  {
    var d1 := NextPage(d, l, dest, d');
    CompactFields(d1, l + 1, dest + SlotLength(d, l), d');
    FinishedRecordStays(d, d1, d', l, dest);
    assert Get(d, l)[0] == d[SlotOffset(d, l)];
  }

  ghost predicate ReadsZeroFirst(d: PageData, l: nat) {
    Readable(d, l) && |Get(d, l)| > 0 && Get(d, l)[0] == 0
  }

  /** An overrun record loses its first byte. */
  lemma {:induction false} ErasedRecordIsLost(d: PageData, i: nat, dest: nat, d': PageData, l: nat)
    requires Erasing(d, i, dest, l) && CompactsTo(d, i, dest, d')
    ensures ReadsZeroFirst(d', l)
    decreases l - i, 1
  {
    if i == l {
      ErasedRecordIsRead(d, i, dest, d');
    } else if Live(d, i) {
      ErasedAfterMove(d, i, dest, d', l);
    } else {
      SkipKeepsErasing(d, i, dest, l);
      ErasedRecordIsLost(d, i + 1, dest, d', l);
    }
  }

  lemma {:induction false} ErasedAfterMove(d: PageData, i: nat, dest: nat, d': PageData, l: nat)
    requires Erasing(d, i, dest, l) && i < l && Live(d, i) && CompactsTo(d, i, dest, d')
    ensures ReadsZeroFirst(d', l)
    decreases l - i, 0
  {
    var d1 := NextPage(d, i, dest, d');
    MoveKeepsErasing(d, d1, i, dest, l);
    ErasedRecordIsLost(d1, i + 1, dest + SlotLength(d, i), d', l);
  }

  lemma SkipKeepsErasing(d: PageData, i: nat, dest: nat, l: nat)
    requires Erasing(d, i, dest, l) && i < l && !Live(d, i)
    ensures Erasing(d, i + 1, dest, l)
  {
  }

  /** A record that has just been moved is what it was read as, to the end of the loop. */
  lemma FinishedRecordStays(d: PageData, d1: PageData, d': PageData, i: nat, dest: nat)
    requires Compactable(d, i, dest) && i < SlotCount(d) && Live(d, i) && IsMoved(d, d1, i, dest)
    requires Compactable(d1, i + 1, dest + SlotLength(d, i)) && IsCompacted(d1, d', i + 1, dest + SlotLength(d, i))
    ensures Holds(d', i, Get(d, i))
  {
    assert SlotIsCompacted(d1, d', i + 1, dest + SlotLength(d, i), i);
    assert d'[dest..dest + SlotLength(d, i)] == d1[dest..dest + SlotLength(d, i)];
  }

  /** compact can be run on page d, and keeps every record. */
  ghost predicate CompactKeepsAll(d: PageData) {
    && Compactable(d, 0, DirectoryEnd(d))
    && forall d': PageData, k :: Compaction(d, d') && 0 <= k < SlotCount(d) ==> Holds(d', k, Get(d, k))
  }

  lemma OverrunLosesMarkedRecord(d: PageData, l: nat)
    requires WellFormed(d) && Compactable(d, 0, DirectoryEnd(d))
    requires l < SlotCount(d) && Live(d, l) && SlotOffset(d, l) < Destination(d, l)
    ensures !CompactKeepsAll(Marked(d, l))
  {
    var m := Marked(d, l);
    MarkedIsWellFormed(d, l);
    WellFormedIsCompactable(m);
    forall k | 0 <= k < SlotCount(d) ensures SlotOffset(m, k) == SlotOffset(d, k) && SlotLength(m, k) == SlotLength(d, k) {
      assert SameSlot(d, m, k);
    }
    LiveBytesDependOnLengths(d, m, 0, l);
    var m' := CompactionExists(m, 0, DirectoryEnd(m));
    ErasedRecordIsLost(m, 0, DirectoryEnd(m), m', l);
    assert Get(m, l)[0] == 1;
    assert Compaction(m, m') && !Holds(m', l, Get(m, l));
  }

  lemma LayoutDecidesOverrun(d: PageData, d': PageData)
    requires Compactable(d, 0, DirectoryEnd(d)) && Compactable(d', 0, DirectoryEnd(d')) && SameLayout(d, d')
    requires NeverOverruns(d, 0, DirectoryEnd(d))
    ensures NeverOverruns(d', 0, DirectoryEnd(d'))
  {
    forall k | 0 <= k < SlotCount(d) ensures SlotOffset(d', k) == SlotOffset(d, k) && SlotLength(d', k) == SlotLength(d, k) {
      assert SameSlot(d, d', k);
    }
    forall k | 0 <= k < SlotCount(d) && Live(d', k) ensures DirectoryEnd(d') + LiveBytes(d', 0, k) <= SlotOffset(d', k) {
      LiveBytesDependOnLengths(d, d', 0, k);
    }
  }

  /**
   * The exact condition. A layout that insert and delete can leave is safe to compact,
   * whatever bytes its records hold, if and only if the records before each live record
   * fit between the directory and that record.
   */
  lemma CompactIsSafeExactly(d: PageData)
    requires WellFormed(d)
    ensures Compactable(d, 0, DirectoryEnd(d))
    ensures NeverOverruns(d, 0, DirectoryEnd(d)) <==>
            forall d' :: WellFormed(d') && SameLayout(d, d') ==> CompactKeepsAll(d')
  {
    WellFormedIsCompactable(d);
    if NeverOverruns(d, 0, DirectoryEnd(d)) {
      forall d' | WellFormed(d') && SameLayout(d, d') ensures CompactKeepsAll(d') {
        WellFormedIsCompactable(d');
        LayoutDecidesOverrun(d, d');
        forall e: PageData | Compaction(d', e)
          ensures forall k :: 0 <= k < SlotCount(d') ==> Holds(e, k, Get(d', k))
        {
          CompactKeepsRecords(d', e);
        }
      }
    } else {
      var l :| 0 <= l < SlotCount(d) && Live(d, l) && DirectoryEnd(d) + LiveBytes(d, 0, l) > SlotOffset(d, l);
      OverrunLosesMarkedRecord(d, l);
      MarkedIsWellFormed(d, l);
    }
  }

  // --- a page on which compact loses a record ---

  /** What two inserts of 3000 and 1000 bytes make of an empty page. */
  ghost function Crammed(a: Record, b: Record): (d: PageData)
    requires |a| == 3000 && |b| == 1000
    ensures WellFormed(d) && Records(d) == [a, b]
    ensures SlotOffset(d, 0) == 1096 && SlotLength(d, 0) == 3000
    ensures SlotOffset(d, 1) == 96 && SlotLength(d, 1) == 1000 && FreeEnd(d) == 96
  {
    EmptyPageIsEmpty();
    var d1 := Inserted(EmptyPage(), a);
    InsertedBytes(EmptyPage(), a);
    InsertAppends(EmptyPage(), a);
    InsertedBytes(d1, b);
    InsertedSlots(d1, b, 0);
    InsertAppends(d1, b);
    Inserted(d1, b)
  }

  /** compact copies the first record over the second one before it has read that. */
  lemma CrammedPageIsOverrun(a: Record, b: Record)
    requires |a| == 3000 && |b| == 1000
    ensures Compactable(Crammed(a, b), 0, DirectoryEnd(Crammed(a, b)))
    ensures !NeverOverruns(Crammed(a, b), 0, DirectoryEnd(Crammed(a, b)))
  {
    var d := Crammed(a, b);
    WellFormedIsCompactable(d);
    assert LiveBytes(d, 1, 1) == 0;
    assert LiveBytes(d, 0, 1) == 3000;
    assert Live(d, 1);
  }

  /** A page built by two inserts: 3000 zeros, then 1000 ones. After compact the second record starts with a zero. */
  lemma CompactLosesInsertedRecord(d': PageData)
    requires Compaction(Crammed(seq(3000, i => 0), seq(1000, i => 1)), d')
    ensures ReadsZeroFirst(d', 1)
    ensures Records(Crammed(seq(3000, i => 0), seq(1000, i => 1)))[1][0] == 1
  {
    var a, b: Record := seq(3000, i => 0), seq(1000, i => 1);
    var d := Crammed(a, b);
    CrammedPageIsOverrun(a, b);
    assert LiveBytes(d, 1, 1) == 0;
    assert LiveBytes(d, 0, 1) == 3000;
    forall x | DirectoryEnd(d) <= x < PAGE_SIZE && (x < DirectoryEnd(d) || !InRecord(d, 1, x)) ensures d[x] == 0 {
      if x >= 1096 {
        assert Get(d, 0) == Records(d)[0] == a;
        assert d[x] == Get(d, 0)[x - 1096];
      }
    }
    ErasedRecordIsLost(d, 0, DirectoryEnd(d), d', 1);
  }
}
