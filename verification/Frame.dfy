/**
 * One buffer-pool frame. `FrameValue` is what a frame holds at one moment; the
 * class updates it in place, and every method is tied to a function on values.
 */
module Frames {
  import opened Storage

  const MAX_PINS := 255

  datatype FrameState = Free | Reserved | Resident

  datatype FrameFault =
    | InvalidLength
    | AlreadyReserved
    | NoMetadata
    | CannotUnpin

  type PinCount = x: nat | x <= MAX_PINS

  datatype PageMeta = PageMeta(pageId: PageId, pinCount: PinCount, dirty: bool, reference: bool)

  datatype FrameValue = FrameValue(data: PageData, metadata: Option<PageMeta>, state: FrameState) {

    predicate IsPinned() {
      metadata.Some? && metadata.value.pinCount > 0
    }

    predicate IsDirty() {
      metadata.Some? && metadata.value.dirty
    }

    predicate IsReferenced() {
      metadata.Some? && metadata.value.reference
    }

    /** CLOCK may take this frame: nobody uses it and nobody is moving it. */
    predicate Evictable() {
      !IsPinned() && !state.Reserved?
    }

    function InState(st: FrameState): FrameValue {
      this.(state := st)
    }

    function Loaded(p: PageId, bytes: PageData): FrameValue {
      FrameValue(bytes, Some(PageMeta(p, 0, false, false)), Resident)
    }

    /** The pin counter is eight bits wide and sticks at its maximum. */
    function Pinned(): FrameValue
      requires metadata.Some?
    {
      var m := metadata.value;
      this.(metadata := Some(m.(pinCount := if m.pinCount < MAX_PINS then m.pinCount + 1 else MAX_PINS)))
    }

    function Unpinned(): FrameValue
      requires IsPinned()
    {
      this.(metadata := Some(metadata.value.(pinCount := metadata.value.pinCount - 1)))
    }

    function WithDirty(d: bool): FrameValue
      requires metadata.Some?
    {
      this.(metadata := Some(metadata.value.(dirty := d)))
    }

    function WithReference(r: bool): FrameValue
      requires metadata.Some?
    {
      this.(metadata := Some(metadata.value.(reference := r)))
    }

    function Modified(bytes: PageData): FrameValue
      requires metadata.Some?
    {
      this.(data := bytes).WithDirty(true)
    }
  }

  const EMPTY_FRAME := FrameValue(ZeroPage(), None, Free)

  class Frame {
    const data: array<Byte>
    var metadata: Option<PageMeta>
    var state: FrameState

    ghost predicate Valid() {
      data.Length == PAGE_SIZE
    }

    ghost function Value(): FrameValue
      requires Valid()
      reads this, data
    {
      FrameValue(data[..], metadata, state)
    }

    constructor ()
      ensures Valid() && fresh(data)
      ensures Value() == EMPTY_FRAME
    {
      data := new Byte[PAGE_SIZE](i => 0);
      metadata := None;
      state := Free;
      new;
      assert data[..] == ZeroPage();
    }

    method LoadPage(pageId: PageId, bytes: seq<Byte>) returns (r: Outcome<FrameFault>)
      requires Valid()
      modifies this, data
      ensures r == if |bytes| == PAGE_SIZE then Pass else Fail(InvalidLength)
      ensures r.Pass? ==> Value() == old(Value()).Loaded(pageId, bytes)
      ensures r.Fail? ==> Value() == old(Value())
    {
      if |bytes| != PAGE_SIZE {
        return Fail(InvalidLength);
      }
      forall i | 0 <= i < PAGE_SIZE {
        data[i] := bytes[i];
      }
      metadata := Some(PageMeta(pageId, 0, false, false));
      SetResident();
      assert data[..] == bytes;
      return Pass;
    }

    method ModifyData(bytes: seq<Byte>) returns (r: Outcome<FrameFault>)
      requires Valid()
      modifies this, data
      ensures |bytes| != PAGE_SIZE ==> r == Fail(InvalidLength) && Value() == old(Value())
      // As in the source, the bytes are replaced before the missing metadata is noticed.
      ensures |bytes| == PAGE_SIZE && old(metadata).None? ==>
                r == Fail(NoMetadata) && Value() == old(Value()).(data := bytes)
      ensures |bytes| == PAGE_SIZE && old(metadata).Some? ==> r == Pass && Value() == old(Value()).Modified(bytes)
    {
      if |bytes| != PAGE_SIZE {
        return Fail(InvalidLength);
      }
      forall i | 0 <= i < PAGE_SIZE {
        data[i] := bytes[i];
      }
      assert data[..] == bytes;
      r := MarkDirty();
    }

    method SetFree()
      requires Valid()
      modifies `state
      ensures Value() == old(Value()).InState(Free)
    {
      state := Free;
    }

    method SetResident()
      requires Valid()
      modifies `state
      ensures Value() == old(Value()).InState(Resident)
    {
      state := Resident;
    }

    method Reserve() returns (r: Outcome<FrameFault>)
      requires Valid()
      modifies `state
      ensures r == if old(state).Reserved? then Fail(AlreadyReserved) else Pass
      ensures Value() == old(Value()).InState(Reserved)
    {
      if state != Reserved {
        state := Reserved;
        return Pass;
      }
      return Fail(AlreadyReserved);
    }

    method Pin() returns (r: Outcome<FrameFault>)
      requires Valid()
      modifies `metadata
      ensures r == if old(metadata).Some? then Pass else Fail(NoMetadata)
      ensures Value() == if r.Pass? then old(Value()).Pinned() else old(Value())
    {
      if metadata.None? {
        return Fail(NoMetadata);
      }
      var m := metadata.value;
      metadata := Some(m.(pinCount := if m.pinCount == MAX_PINS then MAX_PINS else m.pinCount + 1));
      return Pass;
    }

    method Unpin() returns (r: Outcome<FrameFault>)
      requires Valid()
      modifies `metadata
      ensures r == if old(metadata).None? then Fail(NoMetadata)
                   else if old(metadata).value.pinCount == 0 then Fail(CannotUnpin) else Pass
      ensures Value() == if r.Pass? then old(Value()).Unpinned() else old(Value())
    {
      if metadata.None? {
        return Fail(NoMetadata);
      }
      if metadata.value.pinCount == 0 {
        return Fail(CannotUnpin);
      }
      metadata := Some(metadata.value.(pinCount := metadata.value.pinCount - 1));
      return Pass;
    }

    method MarkDirty() returns (r: Outcome<FrameFault>)
      requires Valid()
      modifies `metadata
      ensures r == if old(metadata).Some? then Pass else Fail(NoMetadata)
      ensures Value() == if r.Pass? then old(Value()).WithDirty(true) else old(Value())
    {
      if metadata.None? {
        return Fail(NoMetadata);
      }
      metadata := Some(metadata.value.(dirty := true));
      return Pass;
    }

    method ClearDirty() returns (r: Outcome<FrameFault>)
      requires Valid()
      modifies `metadata
      ensures r == if old(metadata).Some? then Pass else Fail(NoMetadata)
      ensures Value() == if r.Pass? then old(Value()).WithDirty(false) else old(Value())
    {
      if metadata.None? {
        return Fail(NoMetadata);
      }
      metadata := Some(metadata.value.(dirty := false));
      return Pass;
    }

    method MarkReferenced() returns (r: Outcome<FrameFault>)
      requires Valid()
      modifies `metadata
      ensures r == if old(metadata).Some? then Pass else Fail(NoMetadata)
      ensures Value() == if r.Pass? then old(Value()).WithReference(true) else old(Value())
    {
      if metadata.None? {
        return Fail(NoMetadata);
      }
      metadata := Some(metadata.value.(reference := true));
      return Pass;
    }

    method MarkUnreferenced() returns (r: Outcome<FrameFault>)
      requires Valid()
      modifies `metadata
      ensures r == if old(metadata).Some? then Pass else Fail(NoMetadata)
      ensures Value() == if r.Pass? then old(Value()).WithReference(false) else old(Value())
    {
      if metadata.None? {
        return Fail(NoMetadata);
      }
      metadata := Some(metadata.value.(reference := false));
      return Pass;
    }

    method Reset()
      requires Valid()
      modifies this, data
      ensures Value() == EMPTY_FRAME
    {
      forall i | 0 <= i < PAGE_SIZE {
        data[i] := 0;
      }
      metadata := None;
      SetFree();
      assert data[..] == ZeroPage();
    }
  }
}
