/** The map from resident pages to frames, with its checked swap. */
module PageTables {
  import opened Storage

  datatype PageTableError = PoisonedMapping | OldPageMissing | PageAlreadyExist

  type Table = map<PageId, FrameId>

  /** Two pages never share a frame. */
  ghost predicate Injective(t: Table) {
    forall p, q :: p in t && q in t && t[p] == t[q] ==> p == q
  }

  /** What a checked swap does: the error it reports, or the table it leaves. */
  function Replaced(t: Table, oldPage: PageId, newPage: PageId, frame: FrameId): (r: Result<Table, PageTableError>)
    ensures r.Success? <==> oldPage in t && t[oldPage] == frame && newPage !in t
  {
    if oldPage !in t then Failure(OldPageMissing)
    else if t[oldPage] != frame then Failure(PoisonedMapping)
    else if newPage in t then Failure(PageAlreadyExist)
    else Success((t - {oldPage})[newPage := frame])
  }

  /**
   * A successful swap moves one frame from the old page to the new one, keeps every
   * other mapping, never lets two pages share a frame, and is undone by the opposite swap.
   */
  lemma ReplacedMovesOneFrame(t: Table, oldPage: PageId, newPage: PageId, frame: FrameId)
    requires Replaced(t, oldPage, newPage, frame).Success?
    ensures var t' := Replaced(t, oldPage, newPage, frame).value;
            && t'.Keys == t.Keys - {oldPage} + {newPage}
            && t'[newPage] == frame
            && (forall p :: p in t && p != oldPage ==> t'[p] == t[p])
            && (Injective(t) ==> Injective(t'))
            && Replaced(t', newPage, oldPage, frame) == Success(t)
  {
    var t' := Replaced(t, oldPage, newPage, frame).value;
    assert (t' - {newPage})[oldPage := frame] == t;
  }

  class PageTable {
    var table: Table

    constructor ()
      ensures table == map[]
    {
      table := map[];
    }

    method Insert(pageId: PageId, frameId: FrameId)
      modifies this
      ensures table == old(table)[pageId := frameId]
    {
      table := table[pageId := frameId];
    }

    method Replace(oldPage: PageId, newPage: PageId, frameId: FrameId) returns (r: Outcome<PageTableError>)
      modifies this
      ensures match Replaced(old(table), oldPage, newPage, frameId)
              case Success(t) => r == Pass && table == t
              case Failure(e) => r == Fail(e) && table == old(table)
    {
      if oldPage in table {
        if table[oldPage] == frameId {
          if newPage !in table {
            table := table - {oldPage};
            table := table[newPage := frameId];
            return Pass;
          }
          return Fail(PageAlreadyExist);
        }
        return Fail(PoisonedMapping);
      }
      return Fail(OldPageMissing);
    }

    method GetFrameId(pageId: PageId) returns (r: Option<FrameId>)
      ensures r == if pageId in table then Some(table[pageId]) else None
    {
      if pageId in table {
        return Some(table[pageId]);
      }
      return None;
    }

    method RemovePage(pageId: PageId)
      modifies this
      ensures table == old(table) - {pageId}
    {
      table := table - {pageId};
    }
  }
}
