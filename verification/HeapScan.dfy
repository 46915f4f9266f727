/** A scan over a heap file: a cursor that yields every record that has not been deleted. */
module HeapScans {
  import opened Storage
  import opened PageLayout
  import opened SlottedPages
  import opened HeapModel
  import opened HeapFiles

  /** The addition to the cursor's 16-bit page number overflows. */
  datatype CursorFault = PageNumberOverflow

  /** The records that are not empty, in order. */
  function NonEmpty(rs: seq<Record>): seq<Record> {
    if rs == [] then [] else (if rs[0] == [] then [] else [rs[0]]) + NonEmpty(rs[1..])
  }

  /** What a cursor at slot k of page p has still to yield. */
  ghost function Remaining(shelves: seq<Shelf>, p: nat, k: nat): seq<Record>
    decreases |shelves| - p
  {
    if p >= |shelves| then []
    else NonEmpty(shelves[p].records[if k < |shelves[p].records| then k else |shelves[p].records|..]) + Remaining(shelves, p + 1, 0)
  }

  /** Everything a new scan yields: pages without a number of their own are not visited. */
  ghost function Scanned(shelves: seq<Shelf>): seq<Record> {
    Remaining(Numbered(shelves), 0, 0)
  }

  /** A page whose slots have all been visited adds nothing. */
  lemma PageIsDone(shelves: seq<Shelf>, p: nat, k: nat)
    requires p < |shelves| && k >= |shelves[p].records|
    ensures Remaining(shelves, p, k) == Remaining(shelves, p + 1, 0)
  {
  }

  lemma SlotIsNext(shelves: seq<Shelf>, p: nat, k: nat)
    requires p < |shelves| && k < |shelves[p].records|
    ensures var r := shelves[p].records[k];
            Remaining(shelves, p, k) == (if r == [] then [] else [r]) + Remaining(shelves, p, k + 1)
  {
    var rs := shelves[p].records;
    assert rs[k..][0] == rs[k] && rs[k..][1..] == rs[k + 1..];
    var first := if rs[k] == [] then [] else [rs[k]];
    assert first + NonEmpty(rs[k + 1..]) + Remaining(shelves, p + 1, 0)
        == first + (NonEmpty(rs[k + 1..]) + Remaining(shelves, p + 1, 0));
  }

  // --- the order of a scan ---

  datatype Place = Place(page: nat, slot: nat)

  /** Pages are visited by number, and the slots of each page by number. */
  predicate Sooner(a: Place, b: Place) {
    a.page < b.page || (a.page == b.page && a.slot < b.slot)
  }

  /** The slot at this place holds a record that is not empty. */
  predicate Occupied(shelves: seq<Shelf>, a: Place) {
    a.page < |shelves| && a.slot < |shelves[a.page].records| && shelves[a.page].records[a.slot] != []
  }

  /** These are the occupied places from `start` on, all of them, each once and in order; and rs are their records. */
  ghost predicate IsVisit(shelves: seq<Shelf>, start: Place, places: seq<Place>, rs: seq<Record>) {
    && |places| == |rs|
    && (forall i :: 0 <= i < |places| ==>
          Occupied(shelves, places[i]) && rs[i] == shelves[places[i].page].records[places[i].slot] && !Sooner(places[i], start))
    && (forall i, j :: 0 <= i < j < |places| ==> Sooner(places[i], places[j]))
    && (forall a :: Occupied(shelves, a) && !Sooner(a, start) ==> a in places)
  }

  lemma {:induction false} RemainingIsVisit(shelves: seq<Shelf>, p: nat, k: nat) returns (places: seq<Place>)
    ensures IsVisit(shelves, Place(p, k), places, Remaining(shelves, p, k))
    decreases |shelves| - p, if p < |shelves| && k < |shelves[p].records| then |shelves[p].records| - k else 0
  {
    if p >= |shelves| {
      places := [];
    } else if k >= |shelves[p].records| {
      PageIsDone(shelves, p, k);
      places := RemainingIsVisit(shelves, p + 1, 0);
      VisitFromNextPage(shelves, p, k, places, Remaining(shelves, p, k));
    } else {
      SlotIsNext(shelves, p, k);
      var rest := RemainingIsVisit(shelves, p, k + 1);
      places := if Occupied(shelves, Place(p, k)) then [Place(p, k)] + rest else rest;
      VisitExtends(shelves, Place(p, k), rest, Remaining(shelves, p, k + 1));
    }
  }

  lemma VisitFromNextPage(shelves: seq<Shelf>, p: nat, k: nat, places: seq<Place>, rs: seq<Record>)
    requires p < |shelves| && k >= |shelves[p].records| && IsVisit(shelves, Place(p + 1, 0), places, rs)
    ensures IsVisit(shelves, Place(p, k), places, rs)
  {
    assert forall a :: Occupied(shelves, a) && !Sooner(a, Place(p, k)) ==> !Sooner(a, Place(p + 1, 0));
  }

  lemma VisitExtends(shelves: seq<Shelf>, a: Place, rest: seq<Place>, rs: seq<Record>)
    requires a.page < |shelves| && a.slot < |shelves[a.page].records|
    requires IsVisit(shelves, Place(a.page, a.slot + 1), rest, rs)
    ensures if Occupied(shelves, a) then IsVisit(shelves, a, [a] + rest, [shelves[a.page].records[a.slot]] + rs)
            else IsVisit(shelves, a, rest, rs)
  {
    forall b | Occupied(shelves, b) && !Sooner(b, a) ensures b == a || b in rest {
    }
  }

  /** A scan yields the record of every occupied place of the pages with a number, page by page and slot by slot. */
  lemma ScanIsInOrder(shelves: seq<Shelf>) returns (places: seq<Place>)
    ensures |places| == |Scanned(shelves)|
    ensures forall i :: 0 <= i < |places| ==>
              && places[i].page < |shelves| && places[i].page < 65536
              && places[i].slot < |shelves[places[i].page].records|
              && Scanned(shelves)[i] == shelves[places[i].page].records[places[i].slot] != []
    ensures forall i, j :: 0 <= i < j < |places| ==>
              places[i].page < places[j].page || (places[i].page == places[j].page && places[i].slot < places[j].slot)
    ensures forall p: nat, k: nat ::
              p < |shelves| && p < 65536 && k < |shelves[p].records| && shelves[p].records[k] != [] ==> Place(p, k) in places
  {
    places := RemainingIsVisit(Numbered(shelves), 0, 0);
    forall p: nat, k: nat | p < |shelves| && p < 65536 && k < |shelves[p].records| && shelves[p].records[k] != []
      ensures Place(p, k) in places
    {
      assert Occupied(Numbered(shelves), Place(p, k));
    }
  }

  class HeapFileScan {
    const heapFile: HeapFile
    var pageId: PageId
    var slotId: SlotId

    ghost predicate Valid()
      reads this, heapFile, heapFile.Repr()
    {
      heapFile.Valid() && pageId <= |heapFile.pages|
    }

    ghost function Rest(): seq<Record>
      requires Valid()
      reads this, heapFile, heapFile.Repr()
    {
      Remaining(Numbered(heapFile.Shelves()), pageId, slotId)
    }

    constructor (heapFile: HeapFile)
      requires heapFile.Valid()
      ensures Valid() && this.heapFile == heapFile && Rest() == Scanned(heapFile.Shelves())
    {
      this.heapFile := heapFile;
      pageId := 0;
      slotId := 0;
    }

    /** The cursor stands somewhere in the pages with a number, which hold `shelves`. */
    ghost predicate On(shelves: seq<Shelf>)
      reads this, heapFile, set page | page in heapFile.pages :: page.data
    {
      && Separate(heapFile.pages) && AllWellFormed(Images(heapFile.pages))
      && Numbered(heapFile.Shelves()) == shelves
      && pageId <= |shelves|
    }

    /** Past the last slot of a page, on to the next page, unless its number would overflow. */
    method SkipPage(ghost shelves: seq<Shelf>) returns (overflow: bool)
      requires On(shelves) && pageId < |shelves| && slotId >= |shelves[pageId].records|
      modifies this
      ensures On(shelves) && Remaining(shelves, pageId, slotId) == Remaining(shelves, old(pageId), old(slotId))
      ensures if overflow then |shelves| == MAX_PAGES && Remaining(shelves, pageId, slotId) == [] else pageId == old(pageId) + 1
    {
      PageIsDone(shelves, pageId, slotId);
      overflow := pageId + 1 == MAX_PAGES;
      if !overflow {
        MoveTo(shelves, pageId + 1, 0);
      }
    }

    /** Reads the slot under the cursor and moves past it. */
    method TakeSlot(ghost shelves: seq<Shelf>) returns (data: Record)
      requires On(shelves) && pageId < |shelves| && slotId < |shelves[pageId].records| <= PAGE_SIZE
      modifies this
      ensures On(shelves) && pageId == old(pageId) && slotId == old(slotId) + 1
      ensures Remaining(shelves, pageId, old(slotId)) == (if data == [] then [] else [data]) + Remaining(shelves, pageId, slotId)
    {
      SlotIsNext(shelves, pageId, slotId);
      data := ReadRecord(shelves, slotId);
      MoveTo(shelves, pageId, slotId + 1);
    }

    method CountSlots(ghost shelves: seq<Shelf>) returns (n: nat)
      requires On(shelves) && pageId < |shelves|
      ensures n == |shelves[pageId].records| && n <= PAGE_SIZE
    {
      var page := heapFile.GetPage(pageId);
      ShelvesAt(Images(heapFile.pages), pageId);
      return page.value.GetSlotCount();
    }

    method ReadRecord(ghost shelves: seq<Shelf>, slot: SlotId) returns (r: Record)
      requires On(shelves) && pageId < |shelves| && slot < |shelves[pageId].records|
      ensures r == shelves[pageId].records[slot]
    {
      var page := heapFile.GetPage(pageId);
      ShelvesAt(Images(heapFile.pages), pageId);
      assert Readable(page.value.Bytes(), slot);
      r := page.value.GetRecord(slot);
    }

    method MoveTo(ghost shelves: seq<Shelf>, p: PageId, k: SlotId)
      requires On(shelves) && p <= |shelves|
      modifies this
      ensures pageId == p && slotId == k && On(shelves)
    {
      pageId := p;
      slotId := k;
    }

    /**
     * next: the next record in page-then-slot order, and after the last one `None`, once
     * and for all; but on a file of 65536 pages or more, the page number overflows in place
     * of `None`.
     */
    method Next() returns (r: Result<Option<Record>, CursorFault>)
      requires Valid() && this !in heapFile.Repr()
      modifies this
      ensures Valid() && this !in heapFile.Repr() && heapFile.Shelves() == old(heapFile.Shelves())
      ensures r == Success(None) <==> old(Rest()) == [] && |heapFile.pages| < 65536
      ensures r == Failure(PageNumberOverflow) <==> old(Rest()) == [] && |heapFile.pages| >= 65536
      ensures old(Rest()) == [] ==> Rest() == []
      ensures old(Rest()) != [] ==> r == Success(Some(old(Rest())[0])) && Rest() == old(Rest())[1..]
    {
      r := Advance(Numbered(heapFile.Shelves()));
    }

    method Advance(ghost shelves: seq<Shelf>) returns (r: Result<Option<Record>, CursorFault>)
      requires On(shelves)
      modifies this
      ensures On(shelves)
      ensures var rest := Remaining(shelves, old(pageId), old(slotId));
              && r == (if rest != [] then Success(Some(rest[0]))
                       else if |shelves| < MAX_PAGES then Success(None) else Failure(PageNumberOverflow))
              && Remaining(shelves, pageId, slotId) == if rest == [] then [] else rest[1..]
    {
      ghost var rest := Remaining(shelves, pageId, slotId);
      while true
        invariant On(shelves)
        invariant Remaining(shelves, pageId, slotId) == rest
        decreases |shelves| - pageId, SlotsLeft(shelves, pageId, slotId)
      {
        var totalPages := |heapFile.pages|;
        if pageId >= totalPages {
          return Success(None);
        }
        var slotCount := CountSlots(shelves);
        if slotId >= slotCount {
          var overflow := SkipPage(shelves);
          if overflow {
            return Failure(PageNumberOverflow);
          }
          continue;
        }
        var data := TakeSlot(shelves);
        if data == [] {
          continue;
        }
        return Success(Some(data));
      }
    }
  }

  ghost function SlotsLeft(shelves: seq<Shelf>, p: nat, k: nat): nat {
    if p < |shelves| && k < |shelves[p].records| then |shelves[p].records| - k else 0
  }

  // ---------------------------------------------------------------------------
  // What a scan yields after a run of operations
  // ---------------------------------------------------------------------------

  /** How often record x occurs in rs. */
  ghost function Copies(rs: seq<Record>, x: Record): nat {
    if rs == [] then 0 else (if rs[0] == x then 1 else 0) + Copies(rs[1..], x)
  }

  lemma {:induction false} CopiesConcat(a: seq<Record>, b: seq<Record>, x: Record)
    ensures Copies(a + b, x) == Copies(a, x) + Copies(b, x)
  {
    if a == [] {
      assert a + b == b;
    } else {
      assert (a + b)[1..] == a[1..] + b;
      CopiesConcat(a[1..], b, x);
    }
  }

  lemma {:induction false} CopiesUpdate(rs: seq<Record>, k: nat, r: Record, x: Record)
    requires k < |rs|
    ensures Copies(rs[k := r], x) == Copies(rs, x) + Copies([r], x) - Copies([rs[k]], x)
  {
    if k > 0 {
      assert rs[k := r][1..] == rs[1..][k - 1 := r];
      CopiesUpdate(rs[1..], k - 1, r, x);
    } else {
      assert rs[k := r][1..] == rs[1..];
    }
  }

  lemma {:induction false} CopiesAreCounted(rs: seq<Record>, x: Record)
    ensures multiset(NonEmpty(rs))[x] == if x == [] then 0 else Copies(rs, x)
  {
    if rs != [] {
      CopiesAreCounted(rs[1..], x);
    }
  }

  /** How often record x occurs on page i or a later one. */
  ghost function Yields(shelves: seq<Shelf>, i: nat, x: Record): nat
    decreases |shelves| - i
  {
    if i >= |shelves| then 0 else Copies(shelves[i].records, x) + Yields(shelves, i + 1, x)
  }

  lemma {:induction false} YieldsAreCounted(shelves: seq<Shelf>, i: nat, x: Record)
    ensures multiset(Remaining(shelves, i, 0))[x] == if x == [] then 0 else Yields(shelves, i, x)
    decreases |shelves| - i
  {
    if i < |shelves| {
      assert shelves[i].records[0..] == shelves[i].records;
      CopiesAreCounted(shelves[i].records, x);
      YieldsAreCounted(shelves, i + 1, x);
    }
  }

  /** Changing one page changes what is scanned by the difference of that page. */
  lemma {:induction false} YieldsUpdate(shelves: seq<Shelf>, i: nat, p: nat, s: Shelf, x: Record)
    requires p < |shelves|
    ensures Yields(shelves[p := s], i, x)
            == Yields(shelves, i, x) + if i <= p then Copies(s.records, x) - Copies(shelves[p].records, x) else 0
    decreases |shelves| - i
  {
    if i < |shelves| {
      YieldsUpdate(shelves, i + 1, p, s, x);
    }
  }

  lemma {:induction false} YieldsPush(shelves: seq<Shelf>, i: nat, s: Shelf, x: Record)
    requires i <= |shelves|
    ensures Yields(shelves + [s], i, x) == Yields(shelves, i, x) + Copies(s.records, x)
    decreases |shelves| - i
  {
    if i < |shelves| {
      YieldsPush(shelves, i + 1, s, x);
    } else {
      assert Yields(shelves + [s], i + 1, x) == 0;
    }
  }

  /** The records that the deletes of a run took away. */
  ghost function Removed(c: nat, shelves: seq<Shelf>, ops: seq<HeapOp>): seq<Record>
    requires c >= 1
    decreases |ops|
  {
    if ops == [] then [] else RemovedBy(c, shelves, ops[0]) + Removed(c, Next(c, shelves, ops[0]), ops[1..])
  }

  ghost function RemovedBy(c: nat, shelves: seq<Shelf>, op: HeapOp): seq<Record>
    requires c >= 1
  {
    if op.Delete? && Answer(c, shelves, op).error.None? then [shelves[op.page].records[op.slot]] else []
  }

  /** Only a page with a number of its own adds to what is scanned. */
  lemma YieldsCreated(shelves: seq<Shelf>, s: Shelf, x: Record)
    ensures Yields(Numbered(shelves + [s]), 0, x)
            == Yields(Numbered(shelves), 0, x) + if |shelves| < MAX_PAGES then Copies(s.records, x) else 0
  {
    if |shelves| < MAX_PAGES {
      assert Numbered(shelves + [s]) == shelves + [s];
      YieldsPush(shelves, 0, s, x);
    } else {
      assert Numbered(shelves + [s]) == Numbered(shelves);
    }
  }

  lemma YieldsChanged(shelves: seq<Shelf>, p: nat, s: Shelf, x: Record)
    requires p < |Numbered(shelves)|
    ensures Yields(Numbered(shelves[p := s]), 0, x)
            == Yields(Numbered(shelves), 0, x) + Copies(s.records, x) - Copies(shelves[p].records, x)
  {
    assert Numbered(shelves[p := s]) == Numbered(shelves)[p := s];
    YieldsUpdate(Numbered(shelves), 0, p, s, x);
  }

  lemma ScanAfterInsert(c: nat, shelves: seq<Shelf>, r: Record, x: Record)
    requires c >= 1
    ensures Yields(Numbered(Next(c, shelves, Insert(r))), 0, x)
            == Yields(Numbered(shelves), 0, x) + Copies(AcceptedBy(c, shelves, Insert(r)), x)
  {
    var fit := FirstFit(c, shelves, Need(r));
    if Need(r) > MAX_AVAILABLE_SLOTTED_PAGE_SPACE {
    } else if fit.Some? {
      var s := shelves[fit.value];
      YieldsChanged(shelves, fit.value, Shelved(s, Put(r)), x);
      CopiesConcat(s.records, [r], x);
    } else if |shelves| < c {
      var s := Shelved(EMPTY_SHELF, Put(r));
      assert s.records == [r];
      YieldsCreated(shelves, s, x);
      YieldsCreated(shelves, EMPTY_SHELF, x);
    }
  }

  lemma ScanAfterStep(c: nat, shelves: seq<Shelf>, op: HeapOp, x: Record)
    requires c >= 1
    requires x != []
    ensures Yields(Numbered(Next(c, shelves, op)), 0, x) + Copies(RemovedBy(c, shelves, op), x)
            == Yields(Numbered(shelves), 0, x) + Copies(AcceptedBy(c, shelves, op), x)
  {
    match op
    case Create =>
      YieldsCreated(shelves, EMPTY_SHELF, x);
    case Delete(p, k) =>
      if p < |shelves| && k < |shelves[p].records| {
        YieldsChanged(shelves, p, Shelved(shelves[p], Erase(k)), x);
        CopiesUpdate(shelves[p].records, k, [], x);
      }
    case Insert(r) =>
      ScanAfterInsert(c, shelves, r, x);
  }

  lemma {:induction false} YieldsAfterRun(c: nat, shelves: seq<Shelf>, ops: seq<HeapOp>, x: Record)
    requires c >= 1 && x != []
    ensures Yields(Numbered(After(c, shelves, ops)), 0, x) + Copies(Removed(c, shelves, ops), x)
            == Yields(Numbered(shelves), 0, x) + Copies(Accepted(c, shelves, ops), x)
    decreases |ops|
  {
    if ops != [] {
      var next := Next(c, shelves, ops[0]);
      ScanAfterStep(c, shelves, ops[0], x);
      YieldsAfterRun(c, next, ops[1..], x);
      CopiesConcat(RemovedBy(c, shelves, ops[0]), Removed(c, next, ops[1..]), x);
      CopiesConcat(AcceptedBy(c, shelves, ops[0]), Accepted(c, next, ops[1..]), x);
    }
  }

  lemma CountAfterRun(c: nat, shelves: seq<Shelf>, ops: seq<HeapOp>, x: Record)
    requires c >= 1
    ensures multiset(Scanned(After(c, shelves, ops)))[x] + multiset(NonEmpty(Removed(c, shelves, ops)))[x]
         == multiset(Scanned(shelves))[x] + multiset(NonEmpty(Accepted(c, shelves, ops)))[x]
  {
    YieldsAreCounted(Numbered(After(c, shelves, ops)), 0, x);
    YieldsAreCounted(Numbered(shelves), 0, x);
    CopiesAreCounted(Removed(c, shelves, ops), x);
    CopiesAreCounted(Accepted(c, shelves, ops), x);
    if x != [] {
      YieldsAfterRun(c, shelves, ops, x);
    }
  }

  /**
   * Over any run, what is scanned at the end and what was deleted on the way is exactly,
   * with multiplicity, what was scanned at the start and what was accepted on the way.
   */
  lemma ScanAfterRun(c: nat, shelves: seq<Shelf>, ops: seq<HeapOp>)
    requires c >= 1
    ensures multiset(Scanned(After(c, shelves, ops))) + multiset(NonEmpty(Removed(c, shelves, ops)))
            == multiset(Scanned(shelves)) + multiset(NonEmpty(Accepted(c, shelves, ops)))
  {
    var after, removed, accepted := After(c, shelves, ops), Removed(c, shelves, ops), Accepted(c, shelves, ops);
    forall x
      ensures multiset(Scanned(after))[x] + multiset(NonEmpty(removed))[x]
           == multiset(Scanned(shelves))[x] + multiset(NonEmpty(accepted))[x]
    {
      CountAfterRun(c, shelves, ops, x);
    }
  }

  ghost predicate OnlyInserts(ops: seq<HeapOp>) {
    forall i :: 0 <= i < |ops| ==> !ops[i].Delete?
  }

  lemma {:induction false} NothingRemoved(c: nat, shelves: seq<Shelf>, ops: seq<HeapOp>)
    requires c >= 1 && OnlyInserts(ops)
    ensures Removed(c, shelves, ops) == []
    decreases |ops|
  {
    if ops != [] {
      NothingRemoved(c, Next(c, shelves, ops[0]), ops[1..]);
    }
  }

  /** After inserts alone into an empty file, a scan yields exactly the accepted records that are not empty. */
  lemma ScanAfterInserts(c: nat, ops: seq<HeapOp>)
    requires c >= 1 && OnlyInserts(ops)
    ensures multiset(Scanned(After(c, [], ops))) == multiset(NonEmpty(Accepted(c, [], ops)))
  {
    NothingRemoved(c, [], ops);
    forall x ensures multiset(Scanned(After(c, [], ops)))[x] == multiset(NonEmpty(Accepted(c, [], ops)))[x] {
      CountAfterRun(c, [], ops, x);
    }
  }
}
