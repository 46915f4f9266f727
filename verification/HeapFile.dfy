/** The heap file: slotted pages, and a free-space map that says where to look for room. */
module HeapFiles {
  import opened Storage
  import opened PageLayout
  import opened SlottedPages
  import opened FreeSpaceTrees
  import opened FreeSpaceMaps
  import opened HeapModel

  // ---------------------------------------------------------------------------
  // Pages as values
  // ---------------------------------------------------------------------------

  ghost predicate AllWellFormed(images: seq<PageData>) {
    images == [] || (WellFormed(images[0]) && AllWellFormed(images[1..]))
  }

  /** A page as a shelf. */
  ghost function ShelfOf(d: PageData): Shelf
    requires WellFormed(d)
  {
    Shelf(Records(d), FreeSpace(d))
  }

  ghost function ShelvesOf(images: seq<PageData>): (shelves: seq<Shelf>)
    requires AllWellFormed(images)
    ensures |shelves| == |images|
  {
    if images == [] then [] else [ShelfOf(images[0])] + ShelvesOf(images[1..])
  }

  lemma {:induction false} ShelvesAt(images: seq<PageData>, p: nat)
    requires AllWellFormed(images) && p < |images|
    ensures WellFormed(images[p]) && ShelvesOf(images)[p] == ShelfOf(images[p])
  {
    if p > 0 {
      ShelvesAt(images[1..], p - 1);
    }
  }

  lemma {:induction false} ShelvesUpdate(images: seq<PageData>, p: nat, d: PageData)
    requires AllWellFormed(images) && p < |images| && WellFormed(d)
    ensures AllWellFormed(images[p := d]) && ShelvesOf(images[p := d]) == ShelvesOf(images)[p := ShelfOf(d)]
  {
    var after, tail := images[p := d], images[1..];
    if p > 0 {
      assert after[0] == images[0] && after[1..] == tail[p - 1 := d];
      ShelvesUpdate(tail, p - 1, d);
      assert ShelvesOf(after) == [ShelfOf(images[0])] + ShelvesOf(tail)[p - 1 := ShelfOf(d)];
    } else {
      assert after[0] == d && after[1..] == tail;
    }
  }

  lemma {:induction false} ShelvesPush(images: seq<PageData>, d: PageData)
    requires AllWellFormed(images) && WellFormed(d)
    ensures AllWellFormed(images + [d]) && ShelvesOf(images + [d]) == ShelvesOf(images) + [ShelfOf(d)]
  {
    if images == [] {
      assert images + [d] == [d];
    } else {
      assert (images + [d])[1..] == images[1..] + [d];
      ShelvesPush(images[1..], d);
    }
  }

  // ---------------------------------------------------------------------------
  // Pages as objects
  // ---------------------------------------------------------------------------

  ghost predicate Separate(pages: seq<SlottedPage>) {
    && (forall i :: 0 <= i < |pages| ==> pages[i].Valid())
    && (forall i, j :: 0 <= i < j < |pages| ==> pages[i].data != pages[j].data)
  }

  ghost function Images(pages: seq<SlottedPage>): (images: seq<PageData>)
    requires Separate(pages)
    reads set page | page in pages :: page.data
    ensures |images| == |pages|
    ensures forall i :: 0 <= i < |pages| ==> images[i] == pages[i].Bytes()
  {
    seq(|pages|, i requires 0 <= i < |pages| reads set page | page in pages :: page.data => pages[i].Bytes())
  }

  /** The first n page numbers. */
  ghost function PageIds(n: nat): (ids: set<PageId>)
    requires n <= MAX_PAGES
    ensures forall p: PageId :: p in ids <==> p < n
  {
    if n == 0 then {} else PageIds(n - 1) + {n - 1}
  }

  class HeapFile {
    var pages: seq<SlottedPage>
    const fsm: FreeSpaceMap
    const capacity: nat

    ghost function Repr(): set<object>
      reads this
    {
      {this, fsm.nodes} + set page | page in pages :: page.data
    }

    /** Pages and map are all right, each by itself. */
    ghost predicate Sound()
      reads this, Repr()
    {
      && capacity >= 1 && fsm.capacity == capacity
      && fsm.Valid()
      && Separate(pages)
      && AllWellFormed(Images(pages))
    }

    /** And the map never says of a page that it has less room than it has. */
    ghost predicate Valid()
      reads this, Repr()
    {
      Sound() && IndexCovers(Shelves(), fsm.Buckets())
    }

    /** The map is exact. */
    ghost predicate Agrees()
      requires Sound()
      reads this, Repr()
    {
      IndexAgrees(Shelves(), fsm.Buckets())
    }

    ghost function Shelves(): (shelves: seq<Shelf>)
      requires Separate(pages) && AllWellFormed(Images(pages))
      reads this, set page | page in pages :: page.data
      ensures |shelves| == |pages|
    {
      ShelvesOf(Images(pages))
    }

    constructor WithMap(fsm: FreeSpaceMap)
      requires fsm.capacity >= 1 && fsm.Valid() && fsm.Buckets() == seq(fsm.capacity, p => None)
      ensures Valid() && Agrees() && Shelves() == [] && this.fsm == fsm && capacity == fsm.capacity
    {
      pages := [];
      this.fsm := fsm;
      capacity := fsm.capacity;
    }

    static method New(capacity: nat) returns (r: Result<HeapFile, HeapFileError>)
      ensures r.Failure? <==> capacity == 0
      ensures r.Failure? ==> r.error == HeapFileError.FreeSpaceMapError(InvalidArgument)
      ensures r.Success? ==> fresh(r.value) && r.value.Valid() && fresh(r.value.Repr()) && r.value.capacity == capacity
                             && r.value.Shelves() == [] && r.value.Agrees()
    {
      var fsm := FreeSpaceMap.New(capacity);
      if fsm.Failure? {
        return Failure(HeapFileError.FreeSpaceMapError(fsm.error));
      }
      var file := new HeapFile.WithMap(fsm.value);
      return Success(file);
    }

    function GetPage(pageId: PageId): (r: Result<SlottedPage, HeapFileError>)
      reads this
      ensures r == if pageId < |pages| then Success(pages[pageId]) else Failure(HeapFileError.InvalidPageId)
    {
      if pageId >= |pages| then Failure(HeapFileError.InvalidPageId) else Success(pages[pageId])
    }

    /**
     * create_page: refuses a full file. The new page's number is cut down to 16 bits. The
     * map goes on covering every page that has a number of its own, and stays exact unless
     * the number is that of a page that is not nearly empty.
     */
    method CreatePage() returns (r: Result<PageId, HeapFileError>)
      requires Valid()
      modifies Repr()
      ensures Valid() && fresh(Repr() - old(Repr()))
      ensures var e := CreateIn(capacity, old(Shelves()));
              && Shelves() == e.shelves
              && r == (if e.error.None? then Success(PageNumber(|old(Shelves())|)) else Failure(e.error.value))
      ensures old(Agrees()) ==> (Agrees() <==> r.Failure? || !Misleads(old(Shelves())))
    {
      if |pages| >= capacity {
        return Failure(HeapFileFull);
      }
      var slottedPage := new SlottedPage();
      EmptyPageIsEmpty();
      var pageId := AddPage(slottedPage);
      return Success(pageId);
    }

    /** Registers an empty page that is not part of the file yet, and appends it. */
    method AddPage(page: SlottedPage) returns (pageId: PageId)
      requires Valid() && |pages| < capacity
      requires page.Valid() && WellFormed(page.Bytes()) && ShelfOf(page.Bytes()) == EMPTY_SHELF
      requires forall i :: 0 <= i < |pages| ==> pages[i].data != page.data
      modifies `pages, fsm.nodes
      ensures Valid() && pages == old(pages) + [page]
      ensures pageId == PageNumber(|old(pages)|) && Shelves() == old(Shelves()) + [EMPTY_SHELF]
      ensures old(Agrees()) ==> (Agrees() <==> !Misleads(old(Shelves())))
    {
      pageId := PageNumber(|pages|);
      var freeSpace := page.GetFreeSpace();
      ghost var before, buckets := Shelves(), fsm.Buckets();
      IndexAfterCreate(before, buckets);
      var registered := fsm.RegisterPage(pageId, freeSpace);
      assert registered.Success?;
      PushPage(page);
    }

    /** Appends an empty page that is not part of the file yet. */
    method PushPage(page: SlottedPage)
      requires Separate(pages) && AllWellFormed(Images(pages))
      requires page.Valid() && WellFormed(page.Bytes()) && ShelfOf(page.Bytes()) == EMPTY_SHELF
      requires forall i :: 0 <= i < |pages| ==> pages[i].data != page.data
      modifies `pages
      ensures pages == old(pages) + [page]
      ensures Separate(pages) && AllWellFormed(Images(pages)) && Shelves() == old(Shelves()) + [EMPTY_SHELF]
    {
      ghost var before := Images(pages);
      pages := pages + [page];
      assert Images(pages) == before + [page.Bytes()];
      ShelvesPush(before, page.Bytes());
    }

    /** Inserts into a page, or finds that it lacks the room. */
    method PutRecord(pageId: PageId, record: Record) returns (r: Outcome<PageFault>)
      requires Separate(pages) && AllWellFormed(Images(pages)) && pageId < |pages|
      modifies pages[pageId].data
      ensures Separate(pages) && AllWellFormed(Images(pages))
      ensures r == if old(Shelves())[pageId].room < Need(record) then Fail(OutOfSpace) else Pass
      ensures Shelves() == if r.Pass? then old(Shelves())[pageId := Shelved(old(Shelves())[pageId], Put(record))]
                           else old(Shelves())
    {
      ghost var before, shelves := Images(pages), Shelves();
      ShelvesAt(before, pageId);
      var inserted := pages[pageId].Insert(record);
      ghost var after := pages[pageId].Bytes();
      assert Images(pages) == before[pageId := after];
      if inserted.Failure? {
        assert before[pageId := after] == before;
        return Fail(inserted.error);
      }
      InsertAppends(before[pageId], record);
      ShelvesUpdate(before, pageId, after);
      assert Shelves() == shelves[pageId := ShelfOf(after)];
      return Pass;
    }

    /** Deletes from a page, or finds that it has no such slot. */
    method EraseSlot(pageId: PageId, slot: SlotId) returns (r: Outcome<PageFault>)
      requires Separate(pages) && AllWellFormed(Images(pages)) && pageId < |pages|
      modifies pages[pageId].data
      ensures Separate(pages) && AllWellFormed(Images(pages))
      ensures r == if slot >= |old(Shelves())[pageId].records| then Fail(NoSuchSlot) else Pass
      ensures Shelves() == old(Shelves())[pageId := Shelved(old(Shelves())[pageId], Erase(slot))]
    {
      ghost var before := Images(pages);
      ShelvesAt(before, pageId);
      var deleted := pages[pageId].Delete(slot);
      ghost var after := pages[pageId].Bytes();
      assert Images(pages) == before[pageId := after];
      if deleted.Fail? {
        assert before[pageId := after] == before;
        return deleted;
      }
      DeleteEmptiesOne(before[pageId], slot);
      ShelvesUpdate(before, pageId, after);
      return Pass;
    }

    /** Puts a record into a given page and tells the map. */
    method InsertPage(pageId: PageId, record: Record) returns (r: Outcome<HeapFileError>)
      requires Valid()
      modifies Repr()
      ensures Valid() && (old(Agrees()) ==> Agrees())
      ensures Repr() == old(Repr()) && pages == old(pages)
      ensures pageId >= |pages| ==> r == Fail(HeapFileError.InvalidPageId)
      ensures pageId < |pages| ==>
                r == if old(Shelves())[pageId].room < Need(record) then Fail(SlottedPageError(OutOfSpace)) else Pass
      ensures Shelves() == if r.Pass? then old(Shelves())[pageId := Shelved(old(Shelves())[pageId], Put(record))]
                           else old(Shelves())
      ensures r.Fail? ==> fsm.nodes[..] == old(fsm.nodes[..])
    {
      if pageId >= |pages| {
        return Fail(HeapFileError.InvalidPageId);
      }
      r := PutAndTell(pageId, record);
    }

    method PutAndTell(pageId: PageId, record: Record) returns (r: Outcome<HeapFileError>)
      requires Valid() && pageId < |pages|
      modifies pages[pageId].data, fsm.nodes
      ensures Valid() && (old(Agrees()) ==> Agrees())
      ensures r == if old(Shelves())[pageId].room < Need(record) then Fail(SlottedPageError(OutOfSpace)) else Pass
      ensures Shelves() == if r.Pass? then old(Shelves())[pageId := Shelved(old(Shelves())[pageId], Put(record))]
                           else old(Shelves())
      ensures r.Fail? ==> fsm.nodes[..] == old(fsm.nodes[..])
    {
      ghost var before := Shelves();
      var put := PutRecord(pageId, record);
      if put.Fail? {
        return Fail(SlottedPageError(put.error));
      }
      TellMap(pageId, record, before);
      return Pass;
    }

    /** Brings the map up to date with a page that has just received a record. */
    method TellMap(pageId: PageId, ghost record: Record, ghost before: seq<Shelf>)
      requires Sound() && IndexCovers(before, fsm.Buckets())
      requires pageId < |before| == |pages| && Need(record) <= before[pageId].room
      requires Shelves() == before[pageId := Shelved(before[pageId], Put(record))]
      modifies fsm.nodes
      ensures Valid() && Shelves() == old(Shelves())
      ensures old(IndexAgrees(before, fsm.Buckets())) ==> Agrees()
    {
      IndexAfterPut(before, fsm.Buckets(), pageId, record);
      ShelvesAt(Images(pages), pageId);
      var freeSpace := pages[pageId].GetFreeSpace();
      var updated := fsm.UpdatePage(pageId, freeSpace);
      assert updated.Success?;
    }

    /**
     * insert: first fit in the order of the map's search. The one case in which it does
     * not do what it should is a new page without a number of its own: the record is
     * tried on the page that has the number, and an empty page is left behind.
     */
    method Insert(record: Record) returns (r: Outcome<HeapFileError>)
      requires Valid()
      modifies Repr()
      ensures Valid() && fresh(Repr() - old(Repr()))
      ensures var e := InsertInto(capacity, old(Shelves()), record);
              Shelves() == e.shelves && r == (if e.error.None? then Pass else Fail(e.error.value))
      ensures old(Agrees()) ==> (Agrees() <==> |Shelves()| == |old(Shelves())| || !Misleads(old(Shelves())))
    {
      var reqSpace := |record| + SLOT_SIZE;
      if reqSpace > MAX_AVAILABLE_SLOTTED_PAGE_SPACE {
        return Fail(InsufficientPageSpace);
      }
      var pageId := FindRoom(reqSpace);
      if pageId.Some? {
        r := InsertPage(pageId.value, record);
        return;
      }
      NoRoom(capacity, Shelves(), reqSpace);
      r := InsertNew(record);
    }

    /** How insert ends when no page has the room. */
    method InsertNew(record: Record) returns (r: Outcome<HeapFileError>)
      requires Valid() && Need(record) <= MAX_AVAILABLE_SLOTTED_PAGE_SPACE
      requires forall p :: 0 <= p < |Numbered(Shelves())| ==> Shelves()[p].room < Need(record)
      modifies Repr()
      ensures Valid() && fresh(Repr() - old(Repr()))
      ensures if |old(Shelves())| >= capacity then r == Fail(HeapFileFull) && Shelves() == old(Shelves())
              else if |old(Shelves())| >= MAX_PAGES
              then r == Fail(SlottedPageError(OutOfSpace)) && Shelves() == old(Shelves()) + [EMPTY_SHELF]
              else r == Pass && Shelves() == old(Shelves()) + [Shelved(EMPTY_SHELF, Put(record))]
      ensures old(Agrees()) ==> (Agrees() <==> r == Fail(HeapFileFull) || !Misleads(old(Shelves())))
    {
      ghost var before := Shelves();
      var created := CreatePage();
      if created.Failure? {
        return Fail(created.error);
      }
      NewPageFilled(before, record);
      r := InsertPage(created.value, record);
    }

    /**
     * The loop of insert: asks the map, looks at the real page, and asks again without
     * it as long as the page it names lacks the room.
     */
    method FindRoom(reqSpace: nat) returns (r: Option<PageId>)
      requires Valid() && reqSpace <= MAX_AVAILABLE_SLOTTED_PAGE_SPACE
      ensures r == FirstFit(capacity, Shelves(), reqSpace)
    {
      var excluded: set<PageId> := {};
      ghost var candidates := PageIds(|Numbered(Shelves())|);
      while true
        invariant excluded <= candidates
        invariant forall p :: p in excluded ==> p < |pages| && Shelves()[p].room < reqSpace
        decreases |candidates - excluded|
      {
        var found := fsm.FindPageExcluding(reqSpace, excluded);
        assert found.Success?;
        SearchIsFirstFit(SearchOrder(capacity), Shelves(), fsm.Buckets(), reqSpace, excluded);
        if found.value.None? {
          return None;
        }
        var pageId := found.value.value;
        var page := GetPage(pageId);
        assert page.Success?;
        ShelvesAt(Images(pages), pageId);
        var freeSpace := page.value.GetFreeSpace();
        if freeSpace >= reqSpace {
          return Some(pageId);
        }
        assert pageId in candidates - excluded;
        assert candidates - (excluded + {pageId}) == (candidates - excluded) - {pageId};
        excluded := excluded + {pageId};
      }
    }

    /** Deletes a record through the page, which the map need not be told about. */
    method Delete(pageId: PageId, slot: SlotId) returns (r: Outcome<HeapFileError>)
      requires Valid()
      modifies Repr()
      ensures Valid() && (old(Agrees()) ==> Agrees()) && Repr() == old(Repr())
      ensures var e := DeleteFrom(old(Shelves()), pageId, slot);
              Shelves() == e.shelves && r == (if e.error.None? then Pass else Fail(e.error.value))
    {
      var page := GetPage(pageId);
      if page.Failure? {
        return Fail(page.error);
      }
      ghost var before := Shelves();
      var erased := EraseSlot(pageId, slot);
      IndexAfterErase(before, fsm.Buckets(), pageId, slot);
      if erased.Fail? {
        return Fail(SlottedPageError(erased.error));
      }
      return Pass;
    }
  }
}
