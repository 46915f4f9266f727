/** A heap file as a list of shelves, and what its operations promise about that list. */
module HeapModel {
  import opened Storage
  import opened PageLayout
  import opened FreeSpaceTrees

  datatype HeapFileError =
    | InvalidPageId
    | FreeSpaceMapError(error: FreeSpaceMapError)
    | HeapFileFull
    | SlottedPageError(fault: PageFault)
    | NoPageFoundForInsertion
    | InsufficientPageSpace

  /** The space a record takes: its bytes and its slot. */
  function Need(r: Record): nat {
    |r| + SLOT_SIZE
  }

  /** Page numbers are 16-bit. */
  const MAX_PAGES := 0x1_0000

  /** A page's number, cut down to 16 bits. */
  function PageNumber(n: nat): (p: PageId)
    ensures n < MAX_PAGES ==> p == n
    ensures n >= MAX_PAGES ==> p < MAX_PAGES <= n
  {
    n % MAX_PAGES
  }

  /** The pages that have a number of their own; no later page is ever looked at again. */
  function Numbered(shelves: seq<Shelf>): (ns: seq<Shelf>)
    ensures |ns| == if |shelves| < MAX_PAGES then |shelves| else MAX_PAGES
    ensures forall p :: 0 <= p < |ns| ==> ns[p] == shelves[p]
  {
    if |shelves| < MAX_PAGES then shelves else shelves[..MAX_PAGES]
  }

  const EMPTY_SHELF := Shelf([], MAX_AVAILABLE_SLOTTED_PAGE_SPACE)

  /** The first page in `order` with room for `need` bytes. */
  ghost function FirstWithRoom(order: seq<nat>, shelves: seq<Shelf>, need: nat): (r: Option<nat>)
    ensures r.Some? ==> r.value in order && r.value < |shelves| && shelves[r.value].room >= need
    ensures r.None? <==> forall p :: p in order && p < |shelves| ==> shelves[p].room < need
  {
    if order == [] then None
    else if order[0] < |shelves| && shelves[order[0]].room >= need then Some(order[0])
    else FirstWithRoom(order[1..], shelves, need)
  }

  /** First fit, in the order in which the free-space map of capacity c is searched. */
  ghost function FirstFit(c: nat, shelves: seq<Shelf>, need: nat): Option<nat>
    requires c >= 1
  {
    FirstWithRoom(SearchOrder(c), Numbered(shelves), need)
  }

  /** What a call leaves of the shelves, and the error it reports, if any. */
  datatype Effect = Effect(shelves: seq<Shelf>, error: Option<HeapFileError>)

  ghost function CreateIn(c: nat, shelves: seq<Shelf>): Effect {
    if |shelves| >= c then Effect(shelves, Some(HeapFileFull)) else Effect(shelves + [EMPTY_SHELF], None)
  }

  /**
   * What insert promises: first fit, with a new page exactly when no page has the room.
   * A new page without a number of its own cannot take the record: the record is tried
   * on the page that has the number, which lacks the room, and the new page stays empty.
   */
  ghost function InsertInto(c: nat, shelves: seq<Shelf>, r: Record): Effect
    requires c >= 1
  {
    if Need(r) > MAX_AVAILABLE_SLOTTED_PAGE_SPACE then Effect(shelves, Some(InsufficientPageSpace))
    else
      var fit := FirstFit(c, shelves, Need(r));
      if fit.Some? then Effect(shelves[fit.value := Shelved(shelves[fit.value], Put(r))], None)
      else if |shelves| >= c then Effect(shelves, Some(HeapFileFull))
      else if |shelves| >= MAX_PAGES then Effect(shelves + [EMPTY_SHELF], Some(SlottedPageError(OutOfSpace)))
      else Effect(shelves + [Shelved(EMPTY_SHELF, Put(r))], None)
  }

  /** Filling the page that has just been created. */
  lemma NewPageFilled(shelves: seq<Shelf>, r: Record)
    ensures var grown, n := shelves + [EMPTY_SHELF], |shelves|;
            grown[n] == EMPTY_SHELF && grown[n := Shelved(grown[n], Put(r))] == shelves + [Shelved(EMPTY_SHELF, Put(r))]
  {
  }

  ghost function DeleteFrom(shelves: seq<Shelf>, p: PageId, k: nat): Effect {
    if p >= |shelves| then Effect(shelves, Some(HeapFileError.InvalidPageId))
    else if k >= |shelves[p].records| then Effect(shelves, Some(SlottedPageError(NoSuchSlot)))
    else Effect(shelves[p := Shelved(shelves[p], Erase(k))], None)
  }

  // ---------------------------------------------------------------------------
  // The index
  // ---------------------------------------------------------------------------

  /** The leaf of each page with a number holds a bucket no smaller than that of its real free space; the others are empty. */
  ghost predicate IndexCovers(shelves: seq<Shelf>, buckets: seq<Option<Bucket>>) {
    && |shelves| <= |buckets|
    && forall p :: 0 <= p < |buckets| ==>
         if p < |Numbered(shelves)| then LeafCovers(shelves[p], buckets[p]) else buckets[p] == None
  }

  predicate LeafCovers(s: Shelf, b: Option<Bucket>) {
    0 <= s.room <= MAX_AVAILABLE_SLOTTED_PAGE_SPACE && AtLeast(b, GetBucketId(s.room).value)
  }

  /** Each leaf holds exactly the bucket of its page's real free space. */
  ghost predicate IndexAgrees(shelves: seq<Shelf>, buckets: seq<Option<Bucket>>) {
    && IndexCovers(shelves, buckets)
    && forall p :: 0 <= p < |Numbered(shelves)| ==> buckets[p] == Some(GetBucketId(shelves[p].room).value)
  }

  const EMPTY_BUCKET: Bucket := 7

  /**
   * Registering a new page. One without a number of its own is registered under a number
   * that another page has; that covers still, but agrees only if that page's bucket is
   * the largest anyway.
   */
  lemma IndexAfterCreate(shelves: seq<Shelf>, buckets: seq<Option<Bucket>>)
    requires IndexCovers(shelves, buckets) && |shelves| < |buckets|
    ensures GetBucketId(MAX_AVAILABLE_SLOTTED_PAGE_SPACE) == Success(EMPTY_BUCKET)
    ensures var n := PageNumber(|shelves|);
            && IndexCovers(shelves + [EMPTY_SHELF], buckets[n := Some(EMPTY_BUCKET)])
            && (IndexAgrees(shelves, buckets) ==>
                  (IndexAgrees(shelves + [EMPTY_SHELF], buckets[n := Some(EMPTY_BUCKET)]) <==> !Misleads(shelves)))
  {
    var n, grown := PageNumber(|shelves|), shelves + [EMPTY_SHELF];
    assert forall p :: 0 <= p < |Numbered(shelves)| ==> grown[p] == shelves[p];
    if IndexAgrees(shelves, buckets) && Misleads(shelves) {
      assert buckets[n := Some(EMPTY_BUCKET)][n] != Some(GetBucketId(grown[n].room).value);
    }
  }

  /** A page created now would be registered under the number of a page that is not nearly empty. */
  ghost predicate Misleads(shelves: seq<Shelf>) {
    |shelves| >= MAX_PAGES && GetBucketId(RoomOf(shelves, PageNumber(|shelves|))) != Success(EMPTY_BUCKET)
  }

  function RoomOf(shelves: seq<Shelf>, p: nat): nat
    requires p < |shelves|
  {
    if shelves[p].room < 0 then 0 else shelves[p].room
  }

  lemma IndexAfterPut(shelves: seq<Shelf>, buckets: seq<Option<Bucket>>, p: nat, r: Record)
    requires IndexCovers(shelves, buckets) && p < |Numbered(shelves)| && Need(r) <= shelves[p].room
    ensures var room := shelves[p].room - Need(r);
            && GetBucketId(room).Success? && buckets[p].Some?
            && var after, now := shelves[p := Shelved(shelves[p], Put(r))], buckets[p := Some(GetBucketId(room).value)];
            && IndexCovers(after, now)
            && (IndexAgrees(shelves, buckets) ==> IndexAgrees(after, now))
  {
  }

  lemma IndexAfterErase(shelves: seq<Shelf>, buckets: seq<Option<Bucket>>, p: nat, k: nat)
    requires IndexCovers(shelves, buckets) && p < |shelves|
    ensures IndexCovers(shelves[p := Shelved(shelves[p], Erase(k))], buckets)
    ensures IndexAgrees(shelves, buckets) ==> IndexAgrees(shelves[p := Shelved(shelves[p], Erase(k))], buckets)
  {
  }

  /** Buckets are too coarse to refuse a page that has the room: only false positives happen. */
  lemma RoomyPagesQualify(shelves: seq<Shelf>, buckets: seq<Option<Bucket>>, need: nat, excluded: set<PageId>, p: nat)
    requires IndexCovers(shelves, buckets) && need <= MAX_AVAILABLE_SLOTTED_PAGE_SPACE
    requires p < |Numbered(shelves)| && shelves[p].room >= need && p !in excluded
    ensures Qualifies(buckets, p, GetBucketId(need).value, excluded)
  {
    BucketsAreMonotone(need, shelves[p].room);
  }

  /**
   * A search that leaves out only pages without the room answers first fit, as soon as
   * its answer has the room or is `None`.
   */
  lemma {:induction false} SearchIsFirstFit(
      order: seq<nat>, shelves: seq<Shelf>, buckets: seq<Option<Bucket>>, need: nat, excluded: set<PageId>)
    requires IndexCovers(shelves, buckets) && need <= MAX_AVAILABLE_SLOTTED_PAGE_SPACE
    requires forall p :: p in excluded ==> p < |shelves| && shelves[p].room < need
    ensures var r := FirstQualifying(order, buckets, GetBucketId(need).value, excluded);
            && (r.Some? ==> r.value < |Numbered(shelves)|)
            && (r.Some? && shelves[r.value].room < need ==> r.value !in excluded)
            && (r.None? || shelves[r.value].room >= need ==> FirstWithRoom(order, Numbered(shelves), need) == r)
  {
    if order != [] {
      var p := order[0];
      if !Qualifies(buckets, p, GetBucketId(need).value, excluded) {
        if p < |Numbered(shelves)| && shelves[p].room >= need {
          RoomyPagesQualify(shelves, buckets, need, excluded, p);
        }
        SearchIsFirstFit(order[1..], shelves, buckets, need, excluded);
      }
    }
  }

  /** First fit answers a page of least rank among those with the room, and answers one if there is one. */
  lemma FirstFitIsOfLeastRank(c: nat, shelves: seq<Shelf>, need: nat, q: nat)
    requires |shelves| <= c && q < |Numbered(shelves)| && shelves[q].room >= need
    ensures var r := FirstFit(c, shelves, need);
            r.Some? && r.value < |Numbered(shelves)| && shelves[r.value].room >= need && Rank(c, r.value) <= Rank(c, q)
  {
    RankIsPlace(c, q);
    var k := EarlierWithRoom(SearchOrder(c), Numbered(shelves), need, Rank(c, q));
    RankIsPlace(c, k);
  }

  /** No first fit: no page with a number of its own has the room. */
  lemma NoRoom(c: nat, shelves: seq<Shelf>, need: nat)
    requires c >= 1 && |shelves| <= c && FirstFit(c, shelves, need).None?
    ensures forall p :: 0 <= p < |Numbered(shelves)| ==> shelves[p].room < need
  {
    SearchOrderIsPermutation(c);
  }

  lemma {:induction false} EarlierWithRoom(order: seq<nat>, shelves: seq<Shelf>, need: nat, j: nat) returns (k: nat)
    requires j < |order| && order[j] < |shelves| && shelves[order[j]].room >= need
    ensures k <= j && FirstWithRoom(order, shelves, need) == Some(order[k])
  {
    if order[0] < |shelves| && shelves[order[0]].room >= need {
      k := 0;
    } else {
      k := EarlierWithRoom(order[1..], shelves, need, j - 1);
      k := k + 1;
    }
  }

  // ---------------------------------------------------------------------------
  // Runs
  // ---------------------------------------------------------------------------

  datatype HeapOp = Create | Insert(record: Record) | Delete(page: PageId, slot: nat)

  ghost function Answer(c: nat, shelves: seq<Shelf>, op: HeapOp): Effect
    requires c >= 1
  {
    match op
    case Create => CreateIn(c, shelves)
    case Insert(r) => InsertInto(c, shelves, r)
    case Delete(p, k) => DeleteFrom(shelves, p, k)
  }

  /** The shelves after one call. */
  ghost function Next(c: nat, shelves: seq<Shelf>, op: HeapOp): seq<Shelf>
    requires c >= 1
  {
    Answer(c, shelves, op).shelves
  }

  // --- what the calls do, in terms of rooms and places alone ---

  /** Page p has a number of its own, and room for `need` bytes. */
  predicate Roomy(shelves: seq<Shelf>, need: nat, p: nat) {
    p < |shelves| && p < 65536 && shelves[p].room >= need
  }

  /** Of all roomy pages, p comes first in the order of the map's search. */
  ghost predicate FirstRoomy(c: nat, shelves: seq<Shelf>, need: nat, p: nat)
    requires |shelves| <= c
  {
    Roomy(shelves, need, p) && forall q: nat :: Roomy(shelves, need, q) ==> Rank(c, p) <= Rank(c, q)
  }

  /**
   * insert. A record of more than 4088 bytes is refused. If any page has the room, the
   * first such page gains the record, and no other page changes. If none has, a full file
   * refuses the record, and any other gets one page more: with the record on it, as long
   * as the page has a number of its own.
   */
  lemma InsertOutcome(c: nat, shelves: seq<Shelf>, r: Record)
    requires c >= 1 && |shelves| <= c
    ensures var e, need := Answer(c, shelves, Insert(r)), |r| + 4;
            if need > 4092 then e == Effect(shelves, Some(InsufficientPageSpace))
            else if exists p: nat :: Roomy(shelves, need, p) then
              exists p: nat :: FirstRoomy(c, shelves, need, p) && e == Effect(Placed(shelves, p, r), None)
            else if |shelves| >= c then e == Effect(shelves, Some(HeapFileFull))
            else if |shelves| < 65536 then e == Effect(shelves + [Shelf([r], 4092 - need)], None)
            else e == Effect(shelves + [Shelf([], 4092)], Some(SlottedPageError(OutOfSpace)))
  {
    var need := |r| + 4;
    if need <= 4092 {
      if q: nat :| Roomy(shelves, need, q) {
        var p := InsertFits(c, shelves, r, q);
        assert FirstRoomy(c, shelves, need, p);
      } else {
        var fit := FirstFit(c, shelves, need);
        assert fit.Some? ==> Roomy(shelves, need, fit.value);
        InsertGrows(c, shelves, r);
      }
    }
  }

  lemma InsertFits(c: nat, shelves: seq<Shelf>, r: Record, q: nat) returns (p: nat)
    requires c >= 1 && |shelves| <= c && |r| + 4 <= 4092 && Roomy(shelves, |r| + 4, q)
    ensures FirstRoomy(c, shelves, |r| + 4, p) && Answer(c, shelves, Insert(r)) == Effect(Placed(shelves, p, r), None)
  {
    FitIsFirstRoomy(c, shelves, |r| + 4, q);
    p := FirstFit(c, shelves, |r| + 4).value;
  }

  lemma InsertGrows(c: nat, shelves: seq<Shelf>, r: Record)
    requires c >= 1 && |r| + 4 <= 4092 && FirstFit(c, shelves, |r| + 4).None?
    ensures Answer(c, shelves, Insert(r)) ==
            if |shelves| >= c then Effect(shelves, Some(HeapFileFull))
            else if |shelves| < 65536 then Effect(shelves + [Shelf([r], 4092 - |r| - 4)], None)
            else Effect(shelves + [Shelf([], 4092)], Some(SlottedPageError(OutOfSpace)))
  {
    assert Shelved(EMPTY_SHELF, Put(r)) == Shelf([r], 4092 - |r| - 4);
  }

  lemma FitIsFirstRoomy(c: nat, shelves: seq<Shelf>, need: nat, p: nat)
    requires |shelves| <= c && Roomy(shelves, need, p)
    ensures FirstFit(c, shelves, need).Some? && FirstRoomy(c, shelves, need, FirstFit(c, shelves, need).value)
  {
    forall q: nat | Roomy(shelves, need, q)
      ensures FirstFit(c, shelves, need).Some? && Roomy(shelves, need, FirstFit(c, shelves, need).value)
      ensures Rank(c, FirstFit(c, shelves, need).value) <= Rank(c, q)
    {
      FirstFitIsOfLeastRank(c, shelves, need, q);
    }
  }

  /** The shelves with record r on page p. */
  function Placed(shelves: seq<Shelf>, p: nat, r: Record): seq<Shelf>
    requires p < |shelves|
  {
    shelves[p := Shelf(shelves[p].records + [r], shelves[p].room - |r| - 4)]
  }

  /** create_page: a full file is refused, and any other gets one empty page more. */
  lemma CreateOutcome(c: nat, shelves: seq<Shelf>)
    requires c >= 1
    ensures Answer(c, shelves, Create) ==
            if |shelves| < c then Effect(shelves + [Shelf([], 4092)], None) else Effect(shelves, Some(HeapFileFull))
  {
  }

  /** Deleting: a page past the last and a slot past the last are refused; any other slot is emptied, and gives no room back. */
  lemma DeleteOutcome(c: nat, shelves: seq<Shelf>, p: PageId, k: nat)
    requires c >= 1
    ensures Answer(c, shelves, Delete(p, k)) ==
            if p >= |shelves| then Effect(shelves, Some(HeapFileError.InvalidPageId))
            else if k >= |shelves[p].records| then Effect(shelves, Some(SlottedPageError(NoSuchSlot)))
            else Effect(shelves[p := Shelf(shelves[p].records[k := []], shelves[p].room)], None)
  {
  }

  /** No call makes a file grow past its capacity. */
  lemma NextFits(c: nat, shelves: seq<Shelf>, op: HeapOp)
    requires c >= 1 && |shelves| <= c
    ensures |shelves| <= |Next(c, shelves, op)| <= c
  {
  }

  /** A call that fails changes nothing, unless it is an insert for which a page without a number is created. */
  lemma FailureChangesNothing(c: nat, shelves: seq<Shelf>, op: HeapOp)
    requires c >= 1 && Answer(c, shelves, op).error.Some?
    ensures Next(c, shelves, op) ==
            if op.Insert? && Answer(c, shelves, op).error == Some(SlottedPageError(OutOfSpace)) then shelves + [EMPTY_SHELF]
            else shelves
    ensures op.Insert? && Answer(c, shelves, op).error == Some(SlottedPageError(OutOfSpace)) ==> MAX_PAGES <= |shelves| < c
  {
  }

  ghost function After(c: nat, shelves: seq<Shelf>, ops: seq<HeapOp>): seq<Shelf>
    requires c >= 1
    decreases |ops|
  {
    if ops == [] then shelves else After(c, Next(c, shelves, ops[0]), ops[1..])
  }

  /** The records that the inserts of a run put somewhere. */
  ghost function Accepted(c: nat, shelves: seq<Shelf>, ops: seq<HeapOp>): seq<Record>
    requires c >= 1
    decreases |ops|
  {
    if ops == [] then [] else AcceptedBy(c, shelves, ops[0]) + Accepted(c, Next(c, shelves, ops[0]), ops[1..])
  }

  ghost function AcceptedBy(c: nat, shelves: seq<Shelf>, op: HeapOp): seq<Record>
    requires c >= 1
  {
    if op.Insert? && Answer(c, shelves, op).error.None? then [op.record] else []
  }

  function TotalNeed(rs: seq<Record>): nat {
    if rs == [] then 0 else Need(rs[0]) + TotalNeed(rs[1..])
  }

  function TotalRoom(shelves: seq<Shelf>): int {
    if shelves == [] then 0 else shelves[0].room + TotalRoom(shelves[1..])
  }

  lemma {:induction false} TotalRoomUpdate(shelves: seq<Shelf>, p: nat, s: Shelf)
    requires p < |shelves|
    ensures TotalRoom(shelves[p := s]) == TotalRoom(shelves) - shelves[p].room + s.room
  {
    if p > 0 {
      assert shelves[p := s][1..] == shelves[1..][p - 1 := s];
      TotalRoomUpdate(shelves[1..], p - 1, s);
    } else {
      assert shelves[p := s][1..] == shelves[1..];
    }
  }

  lemma {:induction false} TotalRoomPush(shelves: seq<Shelf>, s: Shelf)
    ensures TotalRoom(shelves + [s]) == TotalRoom(shelves) + s.room
  {
    if shelves == [] {
      assert shelves + [s] == [s];
    } else {
      assert (shelves + [s])[1..] == shelves[1..] + [s];
      TotalRoomPush(shelves[1..], s);
    }
  }

  lemma {:induction false} TotalNeedConcat(a: seq<Record>, b: seq<Record>)
    ensures TotalNeed(a + b) == TotalNeed(a) + TotalNeed(b)
  {
    if a == [] {
      assert a + b == b;
    } else {
      assert (a + b)[1..] == a[1..] + b;
      TotalNeedConcat(a[1..], b);
    }
  }

  /** The room of all pages and the space ever given out, against the space of all pages. */
  ghost function Unaccounted(shelves: seq<Shelf>): int {
    TotalRoom(shelves) - MAX_AVAILABLE_SLOTTED_PAGE_SPACE * |shelves|
  }

  lemma UnaccountedUpdate(shelves: seq<Shelf>, p: nat, s: Shelf)
    requires p < |shelves|
    ensures Unaccounted(shelves[p := s]) == Unaccounted(shelves) + s.room - shelves[p].room
  {
    TotalRoomUpdate(shelves, p, s);
  }

  lemma UnaccountedPush(shelves: seq<Shelf>, s: Shelf)
    ensures Unaccounted(shelves + [s]) == Unaccounted(shelves) + s.room - MAX_AVAILABLE_SLOTTED_PAGE_SPACE
  {
    TotalRoomPush(shelves, s);
  }

  lemma InsertConserves(c: nat, shelves: seq<Shelf>, r: Record)
    requires c >= 1
    ensures var e := InsertInto(c, shelves, r);
            Unaccounted(e.shelves) == Unaccounted(shelves) - if e.error.None? then Need(r) else 0
  {
    var fit := FirstFit(c, shelves, Need(r));
    if fit.Some? {
      UnaccountedUpdate(shelves, fit.value, Shelved(shelves[fit.value], Put(r)));
    } else {
      UnaccountedPush(shelves, Shelved(EMPTY_SHELF, Put(r)));
      UnaccountedPush(shelves, EMPTY_SHELF);
    }
  }

  lemma StepConserves(c: nat, shelves: seq<Shelf>, op: HeapOp)
    requires c >= 1
    ensures Unaccounted(Next(c, shelves, op))
            == Unaccounted(shelves) - TotalNeed(AcceptedBy(c, shelves, op))
  {
    match op
    case Create => UnaccountedPush(shelves, EMPTY_SHELF);
    case Delete(p, k) =>
      if p < |shelves| {
        UnaccountedUpdate(shelves, p, Shelved(shelves[p], Erase(k)));
      }
    case Insert(r) =>
      InsertConserves(c, shelves, r);
      assert TotalNeed([r]) == Need(r);
  }

  /**
   * Conservation: over any run of create, insert and delete, free space and the space of
   * every record ever accepted add up to 4092 bytes a page. Deleting gives nothing back.
   */
  lemma {:induction false} RunConserves(c: nat, shelves: seq<Shelf>, ops: seq<HeapOp>)
    requires c >= 1
    ensures Unaccounted(After(c, shelves, ops)) + TotalNeed(Accepted(c, shelves, ops)) == Unaccounted(shelves)
    decreases |ops|
  {
    if ops != [] {
      var next := Next(c, shelves, ops[0]);
      StepConserves(c, shelves, ops[0]);
      RunConserves(c, next, ops[1..]);
      TotalNeedConcat(AcceptedBy(c, shelves, ops[0]), Accepted(c, next, ops[1..]));
    }
  }

  /** Of a heap file that started empty. */
  lemma HeapFileConserves(c: nat, ops: seq<HeapOp>)
    requires c >= 1
    ensures TotalRoom(After(c, [], ops)) + TotalNeed(Accepted(c, [], ops))
            == MAX_AVAILABLE_SLOTTED_PAGE_SPACE * |After(c, [], ops)|
  {
    RunConserves(c, [], ops);
  }
}
