/**
 * A page of records, at the level of its bytes.
 *
 * Bytes 0-1 hold the number of slots and bytes 2-3 the lower end of the record area,
 * both little-endian. Slot k is the four bytes from 4 + 4k: offset, then length.
 * Records are placed downwards from the end of the page.
 */
module PageLayout {
  import opened Storage

  type Record = seq<Byte>

  const HEADER_SIZE := 4
  const SLOT_SIZE := 4
  const MAX_AVAILABLE_SLOTTED_PAGE_SPACE := PAGE_SIZE - HEADER_SIZE

  datatype PageFault = OutOfSpace | NoSuchSlot

  // ---------------------------------------------------------------------------
  // Bytes
  // ---------------------------------------------------------------------------

  /** The little-endian number in bytes i and i + 1. */
  function Read16(d: seq<Byte>, i: nat): (v: nat)
    requires i + 1 < |d|
    ensures v < 0x1_0000
  {
    d[i] as nat + 256 * d[i + 1] as nat
  }

  /** The bytes `r` written over d from position `at` on. */
  function Splice(d: seq<Byte>, at: nat, r: seq<Byte>): (d': seq<Byte>)
    requires at + |r| <= |d|
    ensures |d'| == |d|
    ensures d'[at..at + |r|] == r
    ensures forall i {:trigger d'[i]} :: 0 <= i < at || at + |r| <= i < |d| ==> d'[i] == d[i]
  {
    d[..at] + r + d[at + |r|..]
  }

  /** A 16-bit number as two bytes, the low one first. */
  function Bytes16(v: nat): (b: seq<Byte>)
    requires v < 0x1_0000
    ensures |b| == 2 && b[0] as nat + 256 * b[1] as nat == v
  {
    [(v % 256) as Byte, (v / 256) as Byte]
  }

  function Write16(d: seq<Byte>, i: nat, v: nat): (d': seq<Byte>)
    requires i + 1 < |d| && v < 0x1_0000
    ensures |d'| == |d|
  {
    Splice(d, i, Bytes16(v))
  }

  lemma Write16IsLocal(d: seq<Byte>, i: nat, v: nat)
    requires i + 1 < |d| && v < 0x1_0000
    ensures Read16(Write16(d, i, v), i) == v
    ensures forall j {:trigger Write16(d, i, v)[j]} :: 0 <= j < |d| && j != i && j != i + 1 ==> Write16(d, i, v)[j] == d[j]
  {
    var d' := Write16(d, i, v);
    assert d'[i] == d'[i..i + 2][0] && d'[i + 1] == d'[i..i + 2][1];
  }

  // ---------------------------------------------------------------------------
  // Fields
  // ---------------------------------------------------------------------------

  function SlotCount(d: PageData): nat {
    Read16(d, 0)
  }

  function FreeEnd(d: PageData): nat {
    Read16(d, 2)
  }

  /** The first byte of slot k's entry: HEADER_SIZE bytes of header, then SLOT_SIZE bytes for each slot. */
  function SlotAt(k: nat): nat {
    4 + 4 * k
  }

  /** The first byte after the slot directory. */
  function DirectoryEnd(d: PageData): nat {
    SlotAt(SlotCount(d))
  }

  function SlotOffset(d: PageData, k: nat): nat
    requires SlotAt(k) + 4 <= PAGE_SIZE
  {
    Read16(d, SlotAt(k))
  }

  function SlotLength(d: PageData, k: nat): nat
    requires SlotAt(k) + 4 <= PAGE_SIZE
  {
    Read16(d, SlotAt(k) + 2)
  }

  /** Slot k can be read: its entry lies in the page, and so do the bytes it points to. */
  predicate Readable(d: PageData, k: nat) {
    SlotAt(k) + 4 <= PAGE_SIZE && SlotOffset(d, k) + SlotLength(d, k) <= PAGE_SIZE
  }

  function Get(d: PageData, k: nat): Record
    requires Readable(d, k)
  {
    d[SlotOffset(d, k)..SlotOffset(d, k) + SlotLength(d, k)]
  }

  predicate Live(d: PageData, k: nat)
    requires SlotAt(k) + 4 <= PAGE_SIZE
  {
    SlotLength(d, k) > 0
  }

  // ---------------------------------------------------------------------------
  // Pages built by insert and delete
  // ---------------------------------------------------------------------------

  ghost predicate DirectoryOk(d: PageData) {
    && DirectoryEnd(d) <= FreeEnd(d) <= PAGE_SIZE
    && forall k :: 0 <= k < SlotCount(d) ==> Readable(d, k) && (Live(d, k) ==> FreeEnd(d) <= SlotOffset(d, k))
  }

  /** Live records lie below one another in slot order, so no two share a byte. */
  ghost predicate Descending(d: PageData)
    requires DirectoryOk(d)
  {
    forall j, k :: 0 <= j < k < SlotCount(d) && Live(d, j) && Live(d, k) ==>
                     SlotOffset(d, k) + SlotLength(d, k) <= SlotOffset(d, j)
  }

  /** The free area holds zeros. */
  ghost predicate GapIsZero(d: PageData) {
    forall i :: DirectoryEnd(d) <= i < FreeEnd(d) && i < PAGE_SIZE ==> d[i] == 0
  }

  ghost predicate WellFormed(d: PageData) {
    DirectoryOk(d) && Descending(d) && GapIsZero(d)
  }

  /** The records of the page in slot order; a deleted slot holds the empty record. */
  ghost function Records(d: PageData): (rs: seq<Record>)
    requires DirectoryOk(d)
    ensures |rs| == SlotCount(d)
  {
    seq(SlotCount(d), k requires 0 <= k < SlotCount(d) => Get(d, k))
  }

  function FreeSpace(d: PageData): int {
    FreeEnd(d) - DirectoryEnd(d)
  }

  // ---------------------------------------------------------------------------
  // Insert and delete on bytes
  // ---------------------------------------------------------------------------

  function WriteSlot(d: PageData, k: nat, offset: nat, length: nat): (d': PageData)
    requires SlotAt(k) + 4 <= PAGE_SIZE && offset < 0x1_0000 && length < 0x1_0000
  {
    Splice(d, SlotAt(k), Bytes16(offset) + Bytes16(length))
  }

  lemma WriteSlotIsLocal(d: PageData, k: nat, offset: nat, length: nat)
    requires SlotAt(k) + 4 <= PAGE_SIZE && offset < 0x1_0000 && length < 0x1_0000
    ensures var d' := WriteSlot(d, k, offset, length);
            && SlotOffset(d', k) == offset && SlotLength(d', k) == length
            && (forall i {:trigger d'[i]} :: 0 <= i < PAGE_SIZE && !(SlotAt(k) <= i < SlotAt(k) + 4) ==>
                              d'[i] == d[i])
  {
    var i, d', b := SlotAt(k), WriteSlot(d, k, offset, length), Bytes16(offset) + Bytes16(length);
    assert forall j :: 0 <= j < 4 ==> d'[i + j] == d'[i..i + 4][j] == b[j];
  }

  function Deleted(d: PageData, k: nat): PageData
    requires SlotAt(k) + 4 <= PAGE_SIZE
  {
    WriteSlot(d, k, 0, 0)
  }

  function Inserted(d: PageData, r: Record): (d': PageData)
    requires |r| <= FreeEnd(d) <= PAGE_SIZE && DirectoryEnd(d) + 4 <= PAGE_SIZE
  {
    var at := FreeEnd(d) - |r|;
    WriteSlot(Write16(Write16(Splice(d, at, r), 2, at), 0, SlotCount(d) + 1), SlotCount(d), at, |r|)
  }

  /** Two pages agree from byte `lo` on. */
  ghost predicate SameFrom(d: PageData, d': PageData, lo: nat) {
    forall i {:trigger d'[i]} :: lo <= i < PAGE_SIZE ==> d'[i] == d[i]
  }

  lemma SameBytesSameRecord(d: PageData, d': PageData, lo: nat, k: nat)
    requires SameFrom(d, d', lo) && Readable(d, k) && (Live(d, k) ==> lo <= SlotOffset(d, k))
    requires SlotOffset(d', k) == SlotOffset(d, k) && SlotLength(d', k) == SlotLength(d, k)
    ensures Readable(d', k) && Get(d', k) == Get(d, k)
  {
  }

  /** The bytes of a page after an insertion. */
  lemma InsertedBytes(d: PageData, r: Record)
    requires DirectoryOk(d) && |r| + SLOT_SIZE <= FreeSpace(d)
    ensures var d', at := Inserted(d, r), FreeEnd(d) - |r|;
            && SlotCount(d') == SlotCount(d) + 1 && FreeEnd(d') == at
            && SlotOffset(d', SlotCount(d)) == at && SlotLength(d', SlotCount(d)) == |r|
            && d'[at..at + |r|] == r
            && SameFrom(d, d', FreeEnd(d))
            && (forall i {:trigger d'[i]} :: HEADER_SIZE <= i < at && !(DirectoryEnd(d) <= i < DirectoryEnd(d) + 4) ==> d'[i] == d[i])
  {
    var at, n := FreeEnd(d) - |r|, SlotCount(d);
    var d1 := Splice(d, at, r);
    var d2 := Write16(d1, 2, at);
    Write16IsLocal(d1, 2, at);
    var d3 := Write16(d2, 0, n + 1);
    Write16IsLocal(d2, 0, n + 1);
    var d' := WriteSlot(d3, n, at, |r|);
    WriteSlotIsLocal(d3, n, at, |r|);
    assert d'[at..at + |r|] == d1[at..at + |r|];
  }

  lemma InsertedSlots(d: PageData, r: Record, k: nat)
    requires DirectoryOk(d) && |r| + SLOT_SIZE <= FreeSpace(d) && k < SlotCount(d)
    ensures var d' := Inserted(d, r);
            && SlotOffset(d', k) == SlotOffset(d, k) && SlotLength(d', k) == SlotLength(d, k)
            && Readable(d', k) && Get(d', k) == Get(d, k)
  {
    InsertedBytes(d, r);
    SameBytesSameRecord(d, Inserted(d, r), FreeEnd(d), k);
  }

  lemma InsertKeepsDirectory(d: PageData, r: Record)
    requires DirectoryOk(d) && |r| + SLOT_SIZE <= FreeSpace(d)
    ensures DirectoryOk(Inserted(d, r))
    ensures FreeSpace(Inserted(d, r)) == FreeSpace(d) - |r| - SLOT_SIZE
  {
    InsertedBytes(d, r);
    forall k | 0 <= k < SlotCount(d)
      ensures Readable(Inserted(d, r), k)
      ensures SlotOffset(Inserted(d, r), k) == SlotOffset(d, k) && SlotLength(Inserted(d, r), k) == SlotLength(d, k)
    {
      InsertedSlots(d, r, k);
    }
  }

  lemma InsertKeepsWellFormed(d: PageData, r: Record)
    requires WellFormed(d) && |r| + SLOT_SIZE <= FreeSpace(d)
    ensures WellFormed(Inserted(d, r))
  {
    var d', n := Inserted(d, r), SlotCount(d);
    InsertKeepsDirectory(d, r);
    InsertedBytes(d, r);
    forall j, k | 0 <= j < k < n + 1 && Live(d', j) && Live(d', k)
      ensures SlotOffset(d', k) + SlotLength(d', k) <= SlotOffset(d', j)
    {
      InsertedSlots(d, r, j);
      if k < n {
        InsertedSlots(d, r, k);
      }
    }
  }

  /** What each slot of a page reads as after an insertion. */
  lemma InsertedRecord(d: PageData, r: Record, k: nat)
    requires DirectoryOk(d) && |r| + SLOT_SIZE <= FreeSpace(d) && k <= SlotCount(d)
    ensures Readable(Inserted(d, r), k)
    ensures Get(Inserted(d, r), k) == if k < SlotCount(d) then Get(d, k) else r
  {
    if k < SlotCount(d) {
      InsertedSlots(d, r, k);
    } else {
      InsertedBytes(d, r);
    }
  }

  /** Two pages hold the same records if their slots read the same. */
  lemma RecordsByIndex(d: PageData, rs: seq<Record>)
    requires DirectoryOk(d) && |rs| == SlotCount(d)
    requires forall k :: 0 <= k < |rs| ==> Get(d, k) == rs[k]
    ensures Records(d) == rs
  {
  }

  /** insert appends a record, leaves every other slot's record alone, and keeps the page well formed. */
  lemma InsertAppends(d: PageData, r: Record)
    requires WellFormed(d) && |r| + SLOT_SIZE <= FreeSpace(d)
    ensures WellFormed(Inserted(d, r))
    ensures Records(Inserted(d, r)) == Records(d) + [r]
    ensures FreeSpace(Inserted(d, r)) == FreeSpace(d) - |r| - SLOT_SIZE
  {
    var d', rs := Inserted(d, r), Records(d) + [r];
    InsertKeepsWellFormed(d, r);
    InsertKeepsDirectory(d, r);
    InsertedBytes(d, r);
    forall k | 0 <= k < |rs| ensures Get(d', k) == rs[k] {
      InsertedRecord(d, r, k);
    }
    RecordsByIndex(d', rs);
  }

  /** delete empties one slot and touches nothing else. */
  lemma DeleteEmptiesOne(d: PageData, k: nat)
    requires WellFormed(d) && k < SlotCount(d)
    ensures WellFormed(Deleted(d, k))
    ensures Records(Deleted(d, k)) == Records(d)[k := []]
    ensures FreeSpace(Deleted(d, k)) == FreeSpace(d)
  {
    var d' := Deleted(d, k);
    WriteSlotIsLocal(d, k, 0, 0);
    forall j | 0 <= j < SlotCount(d) && j != k
      ensures SlotOffset(d', j) == SlotOffset(d, j) && SlotLength(d', j) == SlotLength(d, j)
      ensures Readable(d', j) && Get(d', j) == Get(d, j)
    {
      SameBytesSameRecord(d, d', FreeEnd(d), j);
    }
    assert Get(d', k) == [];
  }

  /** A slot number past the directory reads as the empty record as long as its entry lies in the free area. */
  lemma UnusedSlotReadsEmpty(d: PageData, k: nat)
    requires WellFormed(d) && SlotCount(d) <= k && SlotAt(k) + 4 <= FreeEnd(d)
    ensures Readable(d, k) && Get(d, k) == []
  {
    assert d[SlotAt(k)] == 0 && d[SlotAt(k) + 1] == 0;
    assert d[SlotAt(k) + 2] == 0 && d[SlotAt(k) + 3] == 0;
  }

  /** No two live records share a byte, and none reaches below the free area's end. */
  lemma LiveRecordsAreDisjoint(d: PageData, j: nat, k: nat)
    requires WellFormed(d) && j < SlotCount(d) && k < SlotCount(d) && j != k && Live(d, j) && Live(d, k)
    ensures FreeEnd(d) <= SlotOffset(d, j) && SlotOffset(d, j) + SlotLength(d, j) <= PAGE_SIZE
    ensures SlotOffset(d, j) + SlotLength(d, j) <= SlotOffset(d, k)
         || SlotOffset(d, k) + SlotLength(d, k) <= SlotOffset(d, j)
  {
  }

  // ---------------------------------------------------------------------------
  // Runs of insert and delete
  // ---------------------------------------------------------------------------

  function EmptyPage(): PageData {
    Write16(ZeroPage(), 2, PAGE_SIZE)
  }

  lemma EmptyPageIsEmpty()
    ensures WellFormed(EmptyPage()) && Records(EmptyPage()) == []
    ensures FreeSpace(EmptyPage()) == MAX_AVAILABLE_SLOTTED_PAGE_SPACE
  {
    Write16IsLocal(ZeroPage(), 2, PAGE_SIZE);
    assert EmptyPage()[0] == 0 && EmptyPage()[1] == 0;
  }

  datatype Edit = Put(record: Record) | Erase(slot: nat)

  /** What insert or delete leaves of the bytes; a refused call leaves them alone. */
  ghost function Edited(d: PageData, e: Edit): PageData
    requires WellFormed(d)
  {
    match e
    case Put(r) => if |r| + SLOT_SIZE <= FreeSpace(d) then Inserted(d, r) else d
    case Erase(k) => if k < SlotCount(d) then Deleted(d, k) else d
  }

  /** A page as a list: the records by slot, and the room that is left. */
  datatype Shelf = Shelf(records: seq<Record>, room: int)

  function Shelved(s: Shelf, e: Edit): Shelf {
    match e
    case Put(r) => if |r| + SLOT_SIZE <= s.room then Shelf(s.records + [r], s.room - |r| - SLOT_SIZE) else s
    case Erase(k) => if k < |s.records| then s.(records := s.records[k := []]) else s
  }

  function ShelvedAll(s: Shelf, es: seq<Edit>): Shelf
    decreases |es|
  {
    if es == [] then s else ShelvedAll(Shelved(s, es[0]), es[1..])
  }

  lemma EditRefinesShelf(d: PageData, e: Edit)
    requires WellFormed(d)
    ensures WellFormed(Edited(d, e))
    ensures Shelf(Records(Edited(d, e)), FreeSpace(Edited(d, e))) == Shelved(Shelf(Records(d), FreeSpace(d)), e)
  {
    match e
    case Put(r) => if |r| + SLOT_SIZE <= FreeSpace(d) { InsertAppends(d, r); }
    case Erase(k) => if k < SlotCount(d) { DeleteEmptiesOne(d, k); }
  }

  /** Through any run of insertions and deletions the page stays well formed, and its bytes stand for the list. */
  ghost function EditedAll(d: PageData, es: seq<Edit>): (d': PageData)
    requires WellFormed(d)
    ensures WellFormed(d')
    ensures Shelf(Records(d'), FreeSpace(d')) == ShelvedAll(Shelf(Records(d), FreeSpace(d)), es)
    decreases |es|
  {
    if es == [] then d
    else
      EditRefinesShelf(d, es[0]);
      EditedAll(Edited(d, es[0]), es[1..])
  }

  /** In particular for a page that starts empty. */
  lemma PageRefinesShelf(es: seq<Edit>)
    ensures WellFormed(EmptyPage())
    ensures var d := EditedAll(EmptyPage(), es);
            WellFormed(d) && Shelf(Records(d), FreeSpace(d)) == ShelvedAll(Shelf([], MAX_AVAILABLE_SLOTTED_PAGE_SPACE), es)
  {
    EmptyPageIsEmpty();
  }
}
