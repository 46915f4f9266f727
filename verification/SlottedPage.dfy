/** A slotted page: an array of bytes that insert, delete and compact overwrite in place. */
module SlottedPages {
  import opened Storage
  import opened PageLayout
  import opened PageCompaction

  type SlotId = x: nat | x < 0x1_0000

  class SlottedPage {
    const data: array<Byte>

    ghost predicate Valid() {
      data.Length == PAGE_SIZE
    }

    /** The page as a value. */
    ghost function Bytes(): PageData
      requires Valid()
      reads data
    {
      data[..]
    }

    constructor ()
      ensures Valid() && fresh(data)
      ensures Bytes() == EmptyPage()
    {
      data := new Byte[PAGE_SIZE](i => 0);
      new;
      assert Bytes() == ZeroPage();
      Overwrite(2, Bytes16(PAGE_SIZE));
    }

    /** Copies the bytes `r` into the page from position `at` on. */
    method Overwrite(at: nat, r: seq<Byte>)
      requires Valid() && at + |r| <= PAGE_SIZE
      modifies data
      ensures Bytes() == Splice(old(Bytes()), at, r)
    {
      forall i | 0 <= i < |r| {
        data[at + i] := r[i];
      }
    }

    function Word(i: nat): (v: nat)
      requires Valid() && i + 1 < PAGE_SIZE
      reads data
      ensures v == Read16(Bytes(), i)
    {
      data[i] as nat + 256 * data[i + 1] as nat
    }

    function GetSlotCount(): (n: nat)
      requires Valid()
      reads data
      ensures n == SlotCount(Bytes())
    {
      Word(0)
    }

    function GetFreeEnd(): (n: nat)
      requires Valid()
      reads data
      ensures n == FreeEnd(Bytes())
    {
      Word(2)
    }

    /** Neither the product nor the difference leaves 16 bits on a page whose directory ends below the records. */
    function GetFreeSpace(): (n: nat)
      requires Valid() && DirectoryEnd(Bytes()) <= FreeEnd(Bytes())
      reads data
      ensures n == FreeSpace(Bytes()) && n < 0x1_0000
    {
      assert GetSlotCount() * SLOT_SIZE + HEADER_SIZE == DirectoryEnd(Bytes());
      GetFreeEnd() - (GetSlotCount() * SLOT_SIZE + HEADER_SIZE)
    }

    function ReadSlot(slot: SlotId): (r: (nat, nat))
      requires Valid() && SlotAt(slot) + 4 <= PAGE_SIZE
      reads data
      ensures r == (SlotOffset(Bytes(), slot), SlotLength(Bytes(), slot))
    {
      (Word(HEADER_SIZE + slot * SLOT_SIZE), Word(HEADER_SIZE + slot * SLOT_SIZE + 2))
    }

    method SetSlot(slot: SlotId, offset: nat, length: nat)
      requires Valid() && SlotAt(slot) + 4 <= PAGE_SIZE && offset < 0x1_0000 && length < 0x1_0000
      modifies data
      ensures Bytes() == WriteSlot(old(Bytes()), slot, offset, length)
    {
      var slotOffset := HEADER_SIZE + slot * SLOT_SIZE;
      Overwrite(slotOffset, Bytes16(offset));
      Overwrite(slotOffset + 2, Bytes16(length));
    }

    /** The writes of an insert that has the room. */
    method Append(record: Record) returns (slotCount: SlotId)
      requires Valid() && DirectoryEnd(Bytes()) + SLOT_SIZE + |record| <= FreeEnd(Bytes()) <= PAGE_SIZE
      modifies data
      ensures slotCount == SlotCount(old(Bytes()))
      ensures Bytes() == Inserted(old(Bytes()), record)
    {
      ghost var d := Bytes();
      var tupleOffset := GetFreeEnd() - |record|;
      Overwrite(tupleOffset, record);
      ghost var d1 := Bytes();
      Overwrite(2, Bytes16(tupleOffset));
      ghost var d2 := Bytes();
      slotCount := GetSlotCount();
      assert slotCount == SlotCount(d) by {
        Write16IsLocal(d1, 2, tupleOffset);
      }
      Overwrite(0, Bytes16(slotCount + 1));
      ghost var d3 := Bytes();
      assert d3 == Write16(d2, 0, SlotCount(d) + 1);
      SetSlot(slotCount, tupleOffset, |record|);
    }

    /** insert: refuses a record that does not fit, and appends any other. */
    method Insert(record: Record) returns (r: Result<SlotId, PageFault>)
      requires Valid() && DirectoryEnd(Bytes()) <= FreeEnd(Bytes()) <= PAGE_SIZE
      modifies data
      ensures FreeSpace(old(Bytes())) < |record| + SLOT_SIZE ==> r == Failure(OutOfSpace) && Bytes() == old(Bytes())
      ensures FreeSpace(old(Bytes())) >= |record| + SLOT_SIZE ==>
                r == Success(SlotCount(old(Bytes()))) && Bytes() == Inserted(old(Bytes()), record)
    {
      var requiredSize := |record| + SLOT_SIZE;
      if GetFreeSpace() < requiredSize {
        return Failure(OutOfSpace);
      }
      var slotCount := Append(record);
      return Success(slotCount);
    }

    method GetRecord(slot: SlotId) returns (r: Record)
      requires Valid() && Readable(Bytes(), slot)
      ensures r == Get(Bytes(), slot)
    {
      var (tupleOffset, tupleLength) := ReadSlot(slot);
      return data[tupleOffset..tupleOffset + tupleLength];
    }

    /** delete: refuses a slot that was never used, and empties any other. */
    method Delete(slot: SlotId) returns (r: Outcome<PageFault>)
      requires Valid() && (slot < SlotCount(Bytes()) ==> SlotAt(slot) + 4 <= PAGE_SIZE)
      modifies data
      ensures r == Fail(NoSuchSlot) <==> slot >= SlotCount(old(Bytes()))
      ensures r.Fail? ==> r == Fail(NoSuchSlot) && Bytes() == old(Bytes())
      ensures r.Pass? ==> Bytes() == Deleted(old(Bytes()), slot)
    {
      var slotCount := GetSlotCount();
      if slot >= slotCount {
        return Fail(NoSuchSlot);
      }
      SetSlot(slot, 0, 0);
      return Pass;
    }

    /** The turn of a live slot in compact: its record goes to `destination` through a buffer. */
    method MoveRecord(slot: SlotId, offset: nat, length: nat, destination: nat)
      requires Valid() && Compactable(Bytes(), slot, destination) && slot < SlotCount(Bytes())
      requires offset == SlotOffset(Bytes(), slot) && length == SlotLength(Bytes(), slot)
      modifies data
      ensures IsMoved(old(Bytes()), Bytes(), slot, destination)
    {
      ghost var d := Bytes();
      assert Readable(d, slot);
      var source := data[offset..offset + length];
      assert source == Get(d, slot);
      Overwrite(destination, source);
      SetSlot(slot, destination, length);
      assert Bytes() == Moved(d, slot, destination);
      MovedIsMoved(d, slot, destination);
    }

    /** One turn of the loop of compact: an empty slot is skipped, a live record moved. */
    method CompactSlot(ghost start: PageData, slot: SlotId, destination: nat) returns (next: nat)
      requires Valid() && Compactable(Bytes(), slot, destination) && slot < SlotCount(Bytes())
      requires Continues(start, Bytes(), slot, destination)
      modifies data
      ensures SlotCount(Bytes()) == SlotCount(old(Bytes()))
      ensures Compactable(Bytes(), slot + 1, next) && Continues(start, Bytes(), slot + 1, next)
    {
      var (offset, length) := ReadSlot(slot);
      ghost var d := Bytes();
      if length == 0 {
        SkipContinues(start, d, slot, destination);
        return destination;
      }
      MoveRecord(slot, offset, length, destination);
      MovedStaysCompactable(d, Bytes(), slot, destination);
      MoveContinues(start, d, Bytes(), slot, destination);
      return destination + length;
    }

    /** compact: copies the live records, in slot order, to right above the directory. */
    method Compact()
      requires Valid() && Compactable(Bytes(), 0, DirectoryEnd(Bytes()))
      modifies data
      ensures Compaction(old(Bytes()), Bytes())
    {
      ghost var start := Bytes();
      var slotCount := GetSlotCount();
      var destination: nat := HEADER_SIZE + SLOT_SIZE * slotCount;
      for i := 0 to slotCount
        invariant slotCount == SlotCount(Bytes())
        invariant Compactable(Bytes(), i, destination)
        invariant Continues(start, Bytes(), i, destination)
      {
        destination := CompactSlot(start, i, destination);
      }
      ghost var d := Bytes();
      Overwrite(2, Bytes16(destination));
      assert CompactsTo(d, slotCount, destination, Bytes());
    }
  }
}
