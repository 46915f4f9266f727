# Buffer pool and heap file: a Dafny verification project

The project models two parts of the storage engine and proves what they keep.

**The buffer pool** (`src/storage/buffer_pool/`). Any number of threads run `fetch_page`,
`new_page`, `unpin_page`, `mark_dirty_page`, `flush_page` and `delete_page` on one pool.
`PoolProtocol.dfy` is a step system: a thread stands at a program point with the local
variables it still needs, and one step is one critical section (of `state_lock`, or of one
frame's lock) or one disk call. Disk calls may fail, and a failed write may leave any bytes.
CLOCK, which holds `state_lock` while it visits frame after frame, is one step per frame,
because sections that lock only a frame may run in between. Clients may overwrite the bytes
of a page they could have fetched (a published, pinned frame that is not reserved).

- `Frame.dfy`, `PageTable.dfy`, `FreeFrames.dfy`, `ClockReplacer.dfy`: the parts of the pool,
  as classes that update themselves in place.
- `PoolManager.dfy`: the manager as an object built from those parts. Each section is a
  method, proved to do to the object what the protocol's section does to the state.
- `PoolInvariant.dfy`: one inductive invariant, stated through what each thread owns.
- `PoolTheorems.dfy`: what it gives over every run of every interleaving. `PoolIds.dfy`: in
  which order ids are handed out.
- `PoolLimits.dfy`, `PoolRaces.dfy`: the steps the theorems leave out are exactly those that
  break the invariant, and concrete runs in which they go wrong.
- `PoolSearch.dfy`: the search in single steps is the search of the replacer, and exactly when
  a fetch leaves its in-flight entry behind.
- `PoolOutcomes.dfy`, `PoolFetches.dfy`: for each operation, from every state of the
  invariant, what it answers and the whole state it leaves if no other thread moves
  meanwhile, with disk calls that succeed and with one that fails.
- `PoolReplies.dfy`: which answers each operation can give under any interleaving, and
  exactly when it reports a disk error.
- `LockOrder.dfy`: the locks that each step of the protocol takes, and in which order.
- `LockedPool.dfy`: protocol, locks and the threads asleep on `state_cv` as one system, and
  exactly when nothing in it can go on. `LostWakeup.dfy`: a run that ends that way.

**The heap file** (`src/storage/page`, `src/storage/fsm`, `src/storage/heap`).

- `PageLayout.dfy`, `PageCompaction.dfy`: the bytes of a slotted page, what insert, delete
  and compact do to them, and what list of records they stand for. `SlottedPage.dfy` is the
  class over a byte array.
- `FreeSpaceTree.dfy`: the free-space map as a value, with its searches; `FreeSpaceMap.dfy`
  is the class over the node array.
- `HeapModel.dfy`: a heap file as a list of shelves, and theorems about runs on it;
  `HeapFile.dfy` is the class over pages and map; `HeapScan.dfy` the cursor.

## What the theorems about the pool assume

`PoolInvariant.Allowed` names it, and it restricts no call: clients may call any operation on
any page id at any time, whether the id has been handed out or not. It leaves out three kinds
of sections, by a condition on the state in which they start, and
`PoolLimits.StepKeepsInvExactly` proves that these are exactly the steps that break the
invariant.

- A section of `new_page` that hands out an id which is mapped or in flight. That happens if
  an evicting `new_page` reads its id, gives up `state_lock`, and commits the id after another
  `new_page` has taken it (`src/storage/buffer_pool/manager.rs:947-950`, `1022-1063`), or if a
  client fetches an id before it is handed out.
  - A commit of a mapped id is refused with `PageAlreadyExist` after the frame has been
    overwritten, and the evicted page reads as zeros from then on.
    `PoolLimits.StepIsCoherentExactly` proves that this is the only way in which any step,
    allowed or not, changes the bytes of a page that nobody wrote: a commit of a mapped id,
    over a page that was not all zeros. It takes two overlapping calls
    (`PoolRaces.StaleCommitLosesWrite`), or one thread alone that writes to a page it has
    fetched before the page was handed out (`PoolRaces.EarlyFetchLosesWrite`).
  - If `new_page` hands the id out in the middle of an early fetch, a frame is lost
    (`PoolRaces.EarlyFetchLeaksFrame`).
- The second set-resident of a `delete_page` whose write failed (`manager.rs:826`, `904-907`)
  on a frame that is not resident any more. It lets a client pin a page that is just being
  evicted (`PoolRaces.DeleteRaceBreaksPinSafety`).
- A hit on a page with 255 pins, where the counter saturates (`PoolRaces.OnePinTooMany`).

Allowed steps can still hand the same id out twice: if the overtaking `new_page` is followed by
an unpin and a delete, the id is neither mapped nor in flight when the overtaken one commits
it, and what was stored under it becomes zeros (`PoolRaces.IdIsHandedOutTwice`). In the atomic
store that is a creation of the page like any other. `PoolIds.IdsCountUpExactly` says which
interleavings avoid it.

The comment at `manager.rs:481-492` says that a fetch for which CLOCK finds no victim waits
for an operation in progress. The code leaves the fetch's own in-flight entry behind, so the
retry waits for itself: `PoolSearch.FetchAbandonsExactly` says exactly when that happens,
`PoolRaces.WedgeIsReachable` shows a run of one thread, and `PoolTheorems.AbandonedPageIsLost`
states the consequence.

The comment at `manager.rs:102-109` says that a fetch of a reserved page waits until the state
changes. Only the ends of loads wake it (`LostWakeups.WokenExactly`); `flush_page`,
`delete_page` and `new_page` set the frame resident or free without a notification, so the
fetch can sleep on beside a page that is there (`LostWakeups.FlushLeavesFetchAsleep`).

## Model

| member | source | states |
|---|---|---|
| PoolInvariant.StepKeepsInv | src/storage/buffer_pool/manager.rs:66-1065 | the invariant survives every allowed step of every thread: any section of any operation, failed and torn disk calls, client writes |
| PoolInvariant.InitInv | src/storage/buffer_pool/manager.rs:44-64 | a new pool of any size, over any disk and with any number of threads, satisfies the invariant |
| PoolTheorems.ReachableInv | src/storage/buffer_pool/manager.rs:66-1065 | every state reachable by any interleaving satisfies the invariant, and no frame index in it is out of range |
| PoolTheorems.EveryFrameHasOneRole | src/storage/buffer_pool/manager.rs:217-463 | each frame is exactly one of free (no page, once in the free list), loading, loaded but unpublished, shared, or moving, and each role with an owner has exactly one |
| PoolTheorems.PageTableIsInjective | src/storage/buffer_pool/page_table.rs:26-56 | in every state of the invariant no two pages share a frame |
| PoolTheorems.CleanPageIsOnDisk | src/storage/buffer_pool/manager.rs:805-837 | a mapped page that is clean equals its disk copy |
| PoolTheorems.QuietPoolIsTidy | src/storage/buffer_pool/manager.rs:66-1065 | when no call is running, every frame is free or shared, state_lock is free, and only abandoned entries are in flight |
| PoolTheorems.ReaderIsOnlyLoader | src/storage/buffer_pool/manager.rs:161-176 | a page is read from disk only while it is unmapped and its reader is the only active loader of it |
| PoolTheorems.WriterOwnsFrame | src/storage/buffer_pool/manager.rs:805-821 | a page is written to disk only while it is mapped to a frame reserved by that writer alone |
| PoolTheorems.DiskCallsExclude | src/storage/buffer_pool/manager.rs:267-279 | no two threads are ever in a disk call on the same page |
| PoolTheorems.PinnedFrameIsNotMoved | src/storage/buffer_pool/manager.rs:896-898 | while a page is pinned, no thread has chosen its frame as a victim, and only a flush may have reserved it |
| PoolTheorems.PinnedPageStays | src/storage/buffer_pool/manager.rs:471-556 | whatever step any thread takes, a pinned page stays mapped to its frame |
| PoolTheorems.PinSafety | src/storage/buffer_pool/manager.rs:93-141 | over a whole run, a page stays in the same frame for as long as at least one pin of it is outstanding |
| PoolTheorems.PinCountIsOutstandingPins | src/storage/buffer_pool/frame.rs:100-120 | the counter in a mapped frame is the number of pins clients hold; an unmapped page has none |
| PoolTheorems.PinsFollowReplies | src/storage/buffer_pool/manager.rs:761-781 | a page's outstanding pins go up by one with each answer that hands it out and down by one with each successful unpin, and by nothing else |
| PoolTheorems.StepRefinesStore | src/storage/buffer_pool/manager.rs:541-725 | one step changes the store "frame bytes if mapped, else disk" only by a client write or a successful new_page |
| PoolTheorems.RunRefinesStore | src/storage/buffer_pool/manager.rs:541-725 | over any run each page holds its last write in the history of an atomic page store, whatever was fetched, evicted, flushed, deleted, rolled back or torn |
| PoolTheorems.CommitKeepsView | src/storage/buffer_pool/manager.rs:670-725 | committing an eviction for a page that is not mapped changes no page's bytes, except that a created page becomes zeros |
| PoolTheorems.UnmapKeepsView | src/storage/buffer_pool/manager.rs:914-924 | unmapping a page that equals its disk copy changes no page's bytes |
| PoolTheorems.GrantIsHonest | src/storage/buffer_pool/manager.rs:129-141 | an answer with a frame is true: the page is mapped to that frame, resident, referenced and pinned |
| PoolTheorems.FetchReturnsStoredBytes | src/storage/buffer_pool/manager.rs:66-760 | the frame that fetch_page answers holds the bytes the atomic store has for the page |
| PoolTheorems.NewPageIsUnused | src/storage/buffer_pool/manager.rs:942-1065 | new_page answers with an id that is not mapped, not in flight and not pinned, and with a page of zeros |
| PoolIds.NextIdFollowsCreation | src/storage/buffer_pool/manager.rs:991-994 | only a section that hands out a page moves the next id, to just past that page; the page is the next id, or, at the commit of an evicting new_page, the id which that call holds |
| PoolIds.IdsCountUpExactly | src/storage/buffer_pool/manager.rs:942-1065 | over any run that starts with no new_page under way, ids are handed out one after the other, none twice and none left out, if and only if no page is handed out while another thread is between reading an id and committing it |
| PoolIds.IdIsKept | src/storage/buffer_pool/manager.rs:947-950 | a thread that holds an id after a step held the same id before it, or has just read the next id in the first section of new_page |
| PoolTheorems.FlushIsDurable | src/storage/buffer_pool/manager.rs:839-870 | when flush_page answers, the page is mapped, resident, and its bytes are on disk |
| PoolTheorems.DeleteIsDurable | src/storage/buffer_pool/manager.rs:910-934 | when delete_page answers, the page is unmapped, its frame is reset and last in the free list, and its bytes are on disk |
| PoolTheorems.MarkDirtyMarks | src/storage/buffer_pool/manager.rs:783-803 | mark_dirty_page succeeds exactly on a mapped page whose frame is resident, and sets the dirty bit of that frame and nothing else in the whole state |
| PoolTheorems.DirtyVictimIsWritten | src/storage/buffer_pool/manager.rs:541-613 | an eviction gets past its write only with a frame whose bytes equal the disk copy of the old page |
| PoolTheorems.RefusalChangesNothing | src/storage/buffer_pool/manager.rs:761-781 | a call that is refused in its first section has changed nothing |
| PoolTheorems.NoBrokenReply | src/storage/buffer_pool/manager.rs:539-542 | the errors that would mean a broken manager (missing metadata, double reservation, a refused swap) are never reported |
| PoolTheorems.VictimIsUsable | src/storage/buffer_pool/page_table.rs:34-56 | a chosen victim is published, resident and unpinned; at the commit the swap succeeds if and only if the wanted page is not mapped |
| PoolTheorems.InFlightHasOneOwner | src/storage/buffer_pool/manager.rs:161-176 | every in-flight entry has exactly one running owner or has been abandoned, never both |
| PoolTheorems.AbandonedExactlyWithoutVictim | src/storage/buffer_pool/manager.rs:505-526 | no step adds an abandoned entry but the two ends of the look for reserved frames, and no step takes one away |
| PoolTheorems.NoEntryIsLeftBehind | src/storage/buffer_pool/manager.rs:306-313 | in a run in which CLOCK serves every fetch, the in-flight pages are exactly those some thread is loading, so none is left when nobody loads |
| PoolTheorems.AbandonedPageIsLost | src/storage/buffer_pool/manager.rs:505-526 | an abandoned entry stays for good: the page is never mapped and never handed out again |
| PoolLimits.StepKeepsInvExactly | src/storage/buffer_pool/manager.rs:66-1065 | in every state of the invariant, a step keeps the invariant if and only if it is allowed |
| PoolLimits.CreateFreeExactly | src/storage/buffer_pool/manager.rs:954-995 | new_page on a free frame keeps the invariant if and only if its id is neither mapped nor in flight |
| PoolLimits.CommitNewExactly | src/storage/buffer_pool/manager.rs:1039-1064 | an evicting new_page keeps the invariant at its commit if and only if its id is neither mapped nor in flight, whether or not it has been overtaken |
| PoolLimits.StepIsCoherentExactly | src/storage/buffer_pool/manager.rs:66-1065 | in every state of the invariant, any step, allowed or not, changes the bytes of the pages by the writes of the atomic store alone, if and only if it is not the commit of a new page under an id that is mapped over a page that is not all zeros |
| PoolLimits.RefusedCommitZeroesOldPage | src/storage/buffer_pool/manager.rs:1047-1058 | if the id is mapped, the commit is refused, the old page stays mapped to zeros under another label, and every other page keeps its bytes |
| PoolLimits.SecondReleaseExactly | src/storage/buffer_pool/manager.rs:903-908 | the second set-resident of a delete whose write failed keeps the invariant if and only if the frame is resident at that moment |
| PoolLimits.HitExactly | src/storage/buffer_pool/frame.rs:100-107 | a hit always succeeds; it keeps the pin counter equal to the outstanding pins, and with it the invariant, if and only if there were fewer than 255 |
| PoolRaces.DeleteRaceIsReachable | src/storage/buffer_pool/manager.rs:900-909 | allowed steps alone lead to a delete in the gap whose frame an eviction has reserved |
| PoolRaces.DeleteRaceBreaksInv | src/storage/buffer_pool/manager.rs:904-908 | in that state the second set-resident breaks the invariant |
| PoolRaces.DeleteRaceBreaksPinSafety | src/storage/buffer_pool/manager.rs:900-909 | from there four more sections leave a client with a pin on a page that has no frame |
| PoolRaces.StaleCommitIsReachable | src/storage/buffer_pool/manager.rs:947-950 | two overlapping new_page calls can both read id 2 and both reserve a victim for it |
| PoolRaces.StaleCommitLosesWrite | src/storage/buffer_pool/manager.rs:1056-1058 | the second commit is refused and turns a page the client had written into zeros |
| PoolRaces.IdIsHandedOutTwice | src/storage/buffer_pool/manager.rs:1061-1064 | allowed steps alone hand id 2 to one thread, which writes to the page and deletes it, and then to another as a page of zeros |
| PoolRaces.EarlyFetchIsReachable | src/storage/buffer_pool/manager.rs:161-176 | a fetch of an id that has not been handed out is an allowed step, after which everything proved about reachable states holds |
| PoolRaces.EarlyFetchMeetsNewPage | src/storage/buffer_pool/manager.rs:984-994 | the new_page that hands the id out during that load breaks the invariant |
| PoolRaces.EarlyFetchLeaksFrame | src/storage/buffer_pool/manager.rs:437-439 | and three sections later a frame is pinned but neither mapped nor free |
| PoolRaces.EarlyFetchLosesWrite | src/storage/buffer_pool/manager.rs:1056-1058 | one thread with one frame fetches page 0 early, writes to it, unpins it and calls new_page: the call is refused and the written page is zeros |
| PoolRaces.WedgeIsReachable | src/storage/buffer_pool/manager.rs:505-526 | one thread and one frame reach an abandoned entry in four calls, of a page that nobody has pinned |
| PoolRaces.WedgedPageIsLost | src/storage/buffer_pool/manager.rs:505-526 | in no run from there is that page ever handed out again |
| PoolRaces.PinsAreReachable | src/storage/buffer_pool/frame.rs:100-107 | any number of pins from 1 to 255 is reachable by fetching one page again and again |
| PoolRaces.OnePinTooMany | src/storage/buffer_pool/frame.rs:100-107 | the next fetch succeeds and leaves the counter at 255 with 256 pins out |
| PoolSearch.SearchIsSecondChance | src/storage/buffer_pool/clock_replacer.rs:28-72 | from any point of an undisturbed search in the protocol, the rest takes at most the turns left of two per frame and ends as the replacer's contract says |
| PoolSearch.WholeSearchIsSecondChance | src/storage/buffer_pool/manager.rs:471-478 | the same for a whole search: at most two turns a frame |
| PoolSearch.FetchAbandonsExactly | src/storage/buffer_pool/manager.rs:83-526 | an undisturbed fetch gets past its search within three turns a frame and three more, and whenever it is past it, then or later, it has left its in-flight entry behind if and only if at the start the page was neither mapped nor in flight, no frame was free and every frame was pinned or reserved |
| PoolOutcomes.EndIsUnique | src/storage/buffer_pool/manager.rs:66-1065 | an undisturbed call with a disk that works has one end, so the theorems below say of each call how it ends, not how it may |
| PoolOutcomes.UnpinOutcome | src/storage/buffer_pool/manager.rs:761-781 | PageNotFound exactly for an unmapped page, FrameReserved exactly for a reserved frame, CannotUnpin exactly for a page without pins; any other page, clean or dirty, has one pin less and nothing else changes |
| PoolOutcomes.MarkDirtyOutcome | src/storage/buffer_pool/manager.rs:783-803 | PageNotFound exactly for an unmapped page, FrameReserved exactly for a reserved frame; any other page is dirty and nothing else changes |
| PoolOutcomes.FlushOutcome | src/storage/buffer_pool/manager.rs:839-870 | PageNotFound exactly for an unmapped page, FrameReserved exactly for a reserved frame; any other page, pinned or not, ends up clean and resident with its bytes on disk and its pins as they were, within five sections |
| PoolOutcomes.DeleteOutcome | src/storage/buffer_pool/manager.rs:883-940 | PageNotFound exactly for an unmapped page, PagePinned exactly for a pinned page or a reserved frame; any other page, clean or dirty, ends up unmapped with its bytes on disk and its frame empty and last in the free list |
| PoolOutcomes.FlushFailureOutcome | src/storage/buffer_pool/manager.rs:822-829 | after a failed write of flush_page or delete_page the call ends with DiskError, the page mapped, resident and as dirty as it was; only its bytes on disk may have changed |
| PoolOutcomes.LoadFailureOutcome | src/storage/buffer_pool/manager.rs:281-324 | after a failed read into a free frame the call ends with DiskError, the frame free again and the page no longer in flight |
| PoolOutcomes.VictimWriteFailureOutcome | src/storage/buffer_pool/manager.rs:566-613 | after a failed write of a victim fetch_page and new_page end with DiskError, the old page mapped, resident and as dirty as it was; a page that was to be loaded is no longer in flight |
| PoolOutcomes.VictimReadFailureOutcome | src/storage/buffer_pool/manager.rs:628-668 | after a failed read into a victim fetch_page ends with DiskError, the old page mapped and resident, the wanted one no longer in flight |
| PoolFetches.FetchAnswersExactly | src/storage/buffer_pool/manager.rs:66-760 | an undisturbed fetch with a disk that works ends with its page, pinned, resident and with the bytes of the store, if and only if the page is mapped to a frame not reserved, or is neither mapped nor in flight while some frame is free or neither pinned nor reserved; it ends with an error, NoEvictableFrame, if and only if it misses, the page is not in flight, no frame is free and every frame is pinned and none reserved; otherwise it waits for good |
| PoolFetches.FetchOutcome | src/storage/buffer_pool/manager.rs:66-760 | the whole state such a fetch leaves: a hit with one pin more, the page in the first free frame, or the page in the frame of the second-chance victim whose old page has been saved if dirty and unmapped; within two turns a frame and five more |
| PoolFetches.WaiterLooksAgain | src/storage/buffer_pool/manager.rs:184-212 | a fetch that waited for another load starts from the beginning once the page is no longer in flight |
| PoolFetches.NewPageOutcome | src/storage/buffer_pool/manager.rs:942-1065 | NoPageIdAvailable exactly at id 65535; else a free frame takes the page; else a frame neither pinned nor reserved does, after its page has been saved if dirty, unless the id is mapped already, which is PageAlreadyExist; NoEvictableFrame exactly if there is no such frame, and then nothing changes |
| PoolReplies.CallIsAnswered | src/storage/buffer_pool/manager.rs:66-1065 | over any run, whatever other threads do, a call is answered with one of a few answers of its own, a fetch with its own page, and each error names its own page |
| PoolReplies.DiskErrorExactly | src/storage/buffer_pool/manager.rs:281-324 | over any run, whatever other threads do, an answered call was answered with DiskError if and only if one of its own disk calls had failed |
| ClockReplacers.ClockReplacer.FindVictim | src/storage/buffer_pool/clock_replacer.rs:18-73 | ends within 2·len inspections; None if and only if every frame is pinned or reserved; else the first evictable frame from the hand without a second chance, or the first evictable one if all have it; clears exactly the bits it passed; leaves the hand just past the victim |
| ClockReplacers.ClockReplacer.Turn | src/storage/buffer_pool/clock_replacer.rs:32-60 | one turn of the inner loop either ends the search with the victim of the contract or extends the part of the circle that has been swept |
| ClockReplacers.ClockReplacer.InspectHand | src/storage/buffer_pool/clock_replacer.rs:33-58 | looks at one frame, changes at most its reference bit, and advances the hand |
| ClockReplacers.ClockReplacer.AdvanceHand | src/storage/buffer_pool/clock_replacer.rs:75-79 | moves the hand one place around the circle |
| ClockReplacers.SecondChanceIsDeterministic | src/storage/buffer_pool/clock_replacer.rs:18-73 | the contract of find_victim leaves no freedom: victim, bits and hand are determined by frames and hand |
| ClockReplacers.SecondChanceMeans | src/storage/buffer_pool/clock_replacer.rs:32-67 | the victim is neither pinned nor reserved; each frame between hand and victim that is neither had its second chance and has lost it; a victim that had one too shows that all such frames had, and all have lost it; nothing but reference bits changes, and the hand stands just past the victim |
| ClockReplacers.NoneEvictableMeans | src/storage/buffer_pool/clock_replacer.rs:36-47 | there is no victim if and only if every frame is reserved or has a page with a pin |
| Frames.Frame.LoadPage | src/storage/buffer_pool/frame.rs:36-52 | refuses a buffer of the wrong length and changes nothing; else the frame is resident with the bytes, unpinned, clean and unreferenced |
| Frames.Frame.ModifyData | src/storage/buffer_pool/frame.rs:58-68 | replaces the bytes and marks the page dirty; without metadata the bytes are replaced all the same and the call fails |
| Frames.Frame.Reserve | src/storage/buffer_pool/frame.rs:92-98 | fails exactly on a reserved frame |
| Frames.Frame.Pin | src/storage/buffer_pool/frame.rs:100-107 | adds one pin, sticking at 255 |
| Frames.Frame.Unpin | src/storage/buffer_pool/frame.rs:109-120 | takes one pin away, and fails without metadata or pins |
| Frames.Frame.MarkDirty | src/storage/buffer_pool/frame.rs:122-129 | sets only the dirty bit, and fails exactly without metadata |
| Frames.Frame.ClearDirty | src/storage/buffer_pool/frame.rs:131-138 | clears only the dirty bit, and fails exactly without metadata |
| Frames.Frame.MarkReferenced | src/storage/buffer_pool/frame.rs:140-147 | sets only the reference bit, and fails exactly without metadata |
| Frames.Frame.MarkUnreferenced | src/storage/buffer_pool/frame.rs:149-156 | clears only the reference bit, and fails exactly without metadata |
| Frames.Frame.Reset | src/storage/buffer_pool/frame.rs:193-198 | the frame is again as new: zeros, no metadata, free |
| PageTables.PageTable.Replace | src/storage/buffer_pool/page_table.rs:34-56 | the checked swap: the three errors in the order of the checks, each leaving the table alone |
| PageTables.PageTable.Insert | src/storage/buffer_pool/page_table.rs:26-32 | maps the page, replacing any mapping it had |
| PageTables.PageTable.GetFrameId | src/storage/buffer_pool/page_table.rs:58-68 | the frame of a mapped page, None for any other |
| PageTables.PageTable.RemovePage | src/storage/buffer_pool/page_table.rs:92-98 | unmaps the page and no other |
| PageTables.ReplacedMovesOneFrame | src/storage/buffer_pool/page_table.rs:34-56 | a successful swap moves one frame, keeps every other mapping and injectivity, and is undone by the opposite swap |
| FreeLists.FreeFrames.Initialize | src/storage/buffer_pool/free_frames.rs:21-32 | queues all frames in order |
| FreeLists.FreeFrames.GetFrame | src/storage/buffer_pool/free_frames.rs:42-49 | takes the frame that was put in first |
| FreeLists.FreeFrames.AddFrame | src/storage/buffer_pool/free_frames.rs:34-40 | puts the frame in last |
| PoolManager.BufferPoolManager.constructor | src/storage/buffer_pool/manager.rs:46-64 | a new manager stands for the initial state of the protocol |
| PoolManager.BufferPoolManager.BeginFetch | src/storage/buffer_pool/manager.rs:83-268 | the first section of fetch_page does to frames, tables and queues what the protocol's section does: hit, wait, join a load, claim a free frame or start CLOCK |
| PoolManager.BufferPoolManager.BeginNew | src/storage/buffer_pool/manager.rs:943-996 | the first section of new_page, likewise |
| PoolManager.BufferPoolManager.UnpinPage | src/storage/buffer_pool/manager.rs:761-781 | unpin_page, with its errors in the order of the checks |
| PoolManager.BufferPoolManager.MarkDirtyPage | src/storage/buffer_pool/manager.rs:783-803 | mark_dirty_page, likewise |
| PoolManager.BufferPoolManager.BeginFlush | src/storage/buffer_pool/manager.rs:839-870 | flush_page up to the point where it owns a dirty frame, pinned or not |
| PoolManager.BufferPoolManager.BeginDelete | src/storage/buffer_pool/manager.rs:883-940 | delete_page up to the point where it owns a dirty frame or has unmapped a clean one |
| PoolManager.BufferPoolManager.LoadIntoFree | src/storage/buffer_pool/manager.rs:326-427 | loads, pins and marks a free frame outside state_lock |
| PoolManager.BufferPoolManager.Publish | src/storage/buffer_pool/manager.rs:432-463 | publishes a loaded page and removes its in-flight entry |
| PoolManager.BufferPoolManager.RollBackLoad | src/storage/buffer_pool/manager.rs:281-324 | gives a frame whose read failed back to the free list |
| PoolManager.BufferPoolManager.Inspect | src/storage/buffer_pool/clock_replacer.rs:32-67 | one turn of CLOCK on the pool's own frames, with the end of a revolution, and the end of the search in a pool without frames |
| PoolManager.BufferPoolManager.CheckNext | src/storage/buffer_pool/manager.rs:494-526 | one turn of the look for reserved frames, with the wait or the error at its end |
| PoolManager.BufferPoolManager.Reserve | src/storage/buffer_pool/manager.rs:535-556 | reserves the victim and takes down its page, its dirtiness and its bytes |
| PoolManager.BufferPoolManager.Commit | src/storage/buffer_pool/manager.rs:670-758 | loads, pins and swaps the page in, for a fetch or a new page |
| PoolManager.BufferPoolManager.RollBackEviction | src/storage/buffer_pool/manager.rs:572-612 | sets the victim resident after a failed disk call and, for a fetch, removes its in-flight entry |
| PoolManager.BufferPoolManager.CheckReservedFrame | src/storage/buffer_pool/manager.rs:805-821 | decides whether a reserved frame is to be written, and with which bytes |
| PoolManager.BufferPoolManager.FinishFlush | src/storage/buffer_pool/manager.rs:822-836 | clears the dirty bit after a write, or sets the frame resident after a failed one |
| PoolManager.BufferPoolManager.SetResident | src/storage/buffer_pool/manager.rs:860-863 | ends a flush, or a delete whose write failed, outside state_lock |
| PoolManager.BufferPoolManager.FinishDelete | src/storage/buffer_pool/manager.rs:910-924 | unmaps the page, resets the frame and frees it |
| LockOrder.StepIsDisciplined | src/storage/buffer_pool/manager.rs:66-1065 | every step of the protocol takes its locks in the order disk, state_lock, replacer, one frame, one of the small locks, gives back only what it holds, and leads from what the thread held before to what it holds after |
| LockOrder.BeginKeepsSound | src/storage/buffer_pool/manager.rs:83-86 | a thread that begins its next step of the protocol keeps the lock discipline of all threads |
| LockOrder.HolderCanGoOn | src/storage/buffer_pool/manager.rs:471-528 | a thread that holds a lock between two steps can always take the next one |
| LockOrder.ActKeepsSound | src/storage/buffer_pool/manager.rs:83-86 | so does every lock taken or given back |
| LockOrder.DiskCallHoldsNothing | src/storage/buffer_pool/manager.rs:275-279 | the disk is called only by a thread that holds no lock |
| LockedPool.StuckExactly | src/storage/buffer_pool/manager.rs:66-1065 | no deadlock: in the system of pool, locks and sleepers, nothing can go on without a new call if and only if every thread has finished its step and is idle, asleep on state_cv, or waiting for a page whose entry is abandoned |
| LockedPool.MoveKeepsConsistent | src/storage/buffer_pool/manager.rs:66-1065 | every move, be it a lock taken or given back or the beginning of an allowed step, keeps the invariant of the pool, the lock discipline, and the agreement of locks held with program points |
| LockedPool.WalkIsRun | src/storage/buffer_pool/manager.rs:66-1065 | with its locks the pool does nothing that the protocol does not do: the steps begun in any walk are a run of it, to the same pool |
| LockedPool.WalkIsStuckExactly | src/storage/buffer_pool/manager.rs:66-1065 | the no-deadlock theorem for every system that any walk from a new pool leads to |
| LockedPool.BusyGoesOn | src/storage/buffer_pool/manager.rs:670-677 | if a thread is inside a step or holds a lock between two steps, it or a thread that holds what it wants can move |
| LostWakeups.WokenExactly | src/storage/buffer_pool/manager.rs:455-462 | a thread asleep on state_cv stays asleep over a move exactly if the move takes no page out of flight |
| LostWakeups.FlushLeavesFetchAsleep | src/storage/buffer_pool/manager.rs:839-870 | four calls lead to a fetch that sleeps although its page is resident and unpinned and every other thread is idle; nothing goes on from there |
| PageLayout.InsertAppends | src/storage/page/slotted_page.rs:54-68 | on the bytes: insert appends the record, leaves every other slot's record alone, keeps the page well formed and takes its length plus four from the free space |
| PageLayout.DeleteEmptiesOne | src/storage/page/slotted_page.rs:73-83 | on the bytes: delete empties one slot and changes neither other records nor free space |
| PageLayout.LiveRecordsAreDisjoint | src/storage/page/slotted_page.rs:60-66 | live records share no byte and lie between the end of the free area and the end of the page |
| PageLayout.UnusedSlotReadsEmpty | src/storage/page/slotted_page.rs:69-72 | a slot number past the directory whose entry lies in the free area reads as the empty record |
| PageLayout.EditedAll | src/storage/page/slotted_page.rs:54-83 | from any well-formed page, any run of inserts and deletes, refused ones included, keeps the page well formed, and its bytes stand for the list of records and the room left |
| PageLayout.PageRefinesShelf | src/storage/page/slotted_page.rs:16-83 | the same from a new page |
| PageCompaction.CompactKeepsRecords | src/storage/page/slotted_page.rs:85-100 | if no record is overrun, compact keeps what every slot reads as and packs the live records in slot order above the directory |
| PageCompaction.CompactIsSafeExactly | src/storage/page/slotted_page.rs:85-100 | a layout that insert and delete can leave is safe to compact, whatever its records hold, if and only if the records before each live record fit between the directory and it |
| PageCompaction.CrammedPageIsOverrun | src/storage/page/slotted_page.rs:85-100 | a page on which records of 3000 and 1000 bytes were inserted is overrun |
| PageCompaction.CompactLosesInsertedRecord | src/storage/page/slotted_page.rs:85-100 | and if those are zeros and ones, compact turns the first byte of the second record into a zero |
| PageCompaction.RoomInGapSuffices | src/storage/page/slotted_page.rs:85-100 | that is so, in particular, if all live bytes fit in the free space |
| PageCompaction.CompactPacks | src/storage/page/slotted_page.rs:85-100 | whatever page it is given, compact leaves one whose live records lie one after the other from the directory on |
| PageCompaction.DeleteKeepsSettled | src/storage/page/slotted_page.rs:73-100 | a page that compact has left stays safe to compact through any deletions |
| PageCompaction.CompactIsIdempotent | src/storage/page/slotted_page.rs:85-100 | compact changes no byte of a page it has just left |
| PageCompaction.InsertAfterCompactBreaksPage | src/storage/page/slotted_page.rs:54-100 | an insert that succeeds after compact always lets the slot directory run into a live record |
| SlottedPages.SlottedPage.constructor | src/storage/page/slotted_page.rs:16-20 | a new page is the empty one |
| SlottedPages.SlottedPage.GetFreeSpace | src/storage/page/slotted_page.rs:30-34 | the free space, with no 16-bit overflow in it |
| SlottedPages.SlottedPage.ReadSlot | src/storage/page/slotted_page.rs:36-46 | offset and length of a slot, little-endian |
| SlottedPages.SlottedPage.SetSlot | src/storage/page/slotted_page.rs:48-52 | the bytes with one slot overwritten |
| SlottedPages.SlottedPage.Insert | src/storage/page/slotted_page.rs:54-68 | refuses exactly the records that do not fit and leaves the bytes alone; else the bytes are those of the specified insertion |
| SlottedPages.SlottedPage.GetRecord | src/storage/page/slotted_page.rs:69-72 | the bytes the slot points to |
| SlottedPages.SlottedPage.Delete | src/storage/page/slotted_page.rs:73-83 | refuses exactly the slots never used; else the bytes are those of the specified deletion |
| SlottedPages.SlottedPage.Compact | src/storage/page/slotted_page.rs:85-100 | the loop does the specified compaction on every page on which it stays inside the array |
| FreeSpaceTrees.GetBucketId | src/storage/fsm/tree.rs:218-230 | eight buckets of 512 bytes, and an error from 4096 bytes on |
| FreeSpaceTrees.LeavesDetermineTree | src/storage/fsm/tree.rs:178-193 | the maximum invariant leaves no freedom: the leaves determine every node |
| FreeSpaceTrees.GreedyIsBacktracking | src/storage/fsm/tree.rs:84-110 | find_leaf gives the answer of find_page_recursive without exclusions, from every node, and finds a page exactly if the node's bucket is large enough |
| FreeSpaceTrees.SearchIsFirst | src/storage/fsm/tree.rs:132-176 | pruning loses nothing: below any node the search finds the first qualifying leaf from left to right |
| FreeSpaceTrees.LeafOrderOfRoot | src/storage/fsm/tree.rs:156-175 | for every capacity c, with m the least power of two not below c, the leaves come in the order m-c, ..., c-1, 0, ..., m-c-1 |
| FreeSpaceTrees.SearchFromRoot | src/storage/fsm/tree.rs:118-176 | the whole search answers the qualifying page of least rank in that order, and None only if no registered page that is not excluded has the bucket |
| FreeSpaceTrees.SearchOrderIsPermutation | src/storage/fsm/tree.rs:132-176 | the order holds every page once |
| FreeSpaceTrees.RankIsPageNumber | src/storage/fsm/tree.rs:132-176 | the order is that of the page numbers if and only if the capacity is a power of two |
| FreeSpaceTrees.SearchIsShort | src/storage/fsm/tree.rs:132-176 | a search without exclusions looks at no more than 2·ceil(log2 c) + 1 nodes |
| FreeSpaceTrees.HeightOfRoot | src/storage/fsm/tree.rs:27-41 | the tree of capacity c has height ceil(log2 c) |
| FreeSpaceMaps.FreeSpaceMap.New | src/storage/fsm/tree.rs:27-41 | refuses capacity zero; else a valid tree with no page registered |
| FreeSpaceMaps.FreeSpaceMap.RegisterPage | src/storage/fsm/tree.rs:43-60 | its two errors, and else exactly one leaf set and every maximum restored |
| FreeSpaceMaps.FreeSpaceMap.UpdatePage | src/storage/fsm/tree.rs:62-82 | its three errors in the order of the checks, and else exactly one leaf set and every maximum restored |
| FreeSpaceMaps.FreeSpaceMap.RecomputeAncestors | src/storage/fsm/tree.rs:178-193 | if at most the given node is inconsistent, all are consistent afterwards and no leaf has changed |
| FreeSpaceMaps.FreeSpaceMap.FindPageExcluding | src/storage/fsm/tree.rs:118-130 | the first qualifying page in search order over the registered buckets, or the error for 4096 bytes and more |
| FreeSpaceMaps.FreeSpaceMap.FindPage | src/storage/fsm/tree.rs:112-116 | the same answer as the greedy descent, and InvalidFreeSpace exactly from 4096 bytes on |
| FreeSpaceMaps.FreeSpaceMap.GetLeafBucket | src/storage/fsm/tree.rs:195-204 | the bucket registered for the page, or the error for a page beyond the capacity |
| HeapModel.SearchIsFirstFit | src/storage/heap/mod.rs:69-91 | a search that leaves out only pages without the room names first fit as soon as the page it names has the room, and finds none exactly if first fit finds none |
| HeapModel.FirstFitIsOfLeastRank | src/storage/heap/mod.rs:62-92 | first fit is the page of least rank among those whose real free space suffices, and exists if any does |
| HeapModel.InsertOutcome | src/storage/heap/mod.rs:62-92 | insert by room, length plus four, and rank alone: InsufficientPageSpace exactly above 4092; if any page with a number has the room, the one of least rank gains the record and no other page changes; else HeapFileFull exactly at capacity; else one page more with the record on it, or, past 65536 pages, an empty one and OutOfSpace |
| HeapModel.CreateOutcome | src/storage/heap/mod.rs:37-49 | HeapFileFull exactly at capacity; else one empty page of 4092 bytes more |
| HeapModel.DeleteOutcome | src/storage/heap/mod.rs:109-114 | InvalidPageId exactly past the last page, an error exactly past the last slot; else that slot is emptied, and neither the room nor any other slot changes |
| HeapModel.IndexAfterCreate | src/storage/heap/mod.rs:37-49 | registering a new page keeps the map covering every page that has a number of its own; it keeps the map exact if and only if its 16-bit number is not that of a page that is not nearly empty |
| HeapModel.FailureChangesNothing | src/storage/heap/mod.rs:37-92 | a call that fails changes no page, except that an insert into a file of 65536 pages or more may leave one empty page behind and report OutOfSpace |
| HeapModel.HeapFileConserves | src/storage/heap/mod.rs:37-92 | over any run of create, insert and delete from an empty file of any capacity, free space and the space of every record ever accepted add up to 4092 bytes a page |
| HeapFiles.HeapFile.New | src/storage/heap/mod.rs:29-35 | fails exactly for capacity zero; for any other capacity an empty, valid file |
| HeapFiles.HeapFile.CreatePage | src/storage/heap/mod.rs:37-49 | refuses a full file and changes nothing; else one empty page more, answered by its number cut down to 16 bits; the map goes on covering the pages, and stays exact if and only if the number is not that of a page that is not nearly empty |
| HeapFiles.HeapFile.InsertPage | src/storage/heap/mod.rs:51-60 | its errors change nothing; else the record is appended to that page; the map goes on covering the pages, and stays exact if it was |
| HeapFiles.HeapFile.FindRoom | src/storage/heap/mod.rs:69-91 | the retry loop ends and finds first fit by real free space among the pages that have a number of their own, in spite of the map's false positives |
| HeapFiles.HeapFile.Insert | src/storage/heap/mod.rs:62-92 | for every capacity and every number of pages: first fit; a page is created exactly if none fits; InsufficientPageSpace and HeapFileFull change nothing; a created page without a number of its own stays empty and the record is refused; says exactly when the map stays exact |
| HeapFiles.HeapFile.Delete | src/storage/heap/mod.rs:109-114 | empties one slot of one page, with its two errors; the map goes on covering the pages, and stays exact if it was |
| HeapFiles.HeapFile.GetPage | src/storage/heap/mod.rs:102-107 | the page, or InvalidPageId for a number past the last |
| HeapScans.HeapFileScan.Next | src/storage/heap/scan.rs:28-49 | yields the next record of the scan; None if and only if none is left and the file has fewer than 65536 pages, and an overflow of the page number if and only if none is left and it has 65536 or more |
| HeapScans.ScanIsInOrder | src/storage/heap/scan.rs:28-49 | a scan yields the record of every slot that is not empty, on the first 65536 pages, each once, ordered by page number and then slot number |
| HeapScans.ScanAfterRun | src/storage/heap/scan.rs:28-49 | over any run on a file of any capacity, the records scanned at the end plus those deleted on the way are, with multiplicity, those scanned at the start plus those accepted on the way |
| HeapScans.ScanAfterInserts | src/storage/heap/mod.rs:62-92 | after inserts alone into an empty file of any capacity, a scan yields exactly the accepted records that are not empty |

## Left out

- Threads on the manager object: its sections are methods that update in place, but threads interleave only in the step system, whose states are values; the locks themselves appear only in `LockOrder.dfy` and `LockedPool.dfy`.
- DiskManager: the disk is a map from pages to bytes, zero where never written; seeking, short reads, syncing and opening the file are not modelled.
- Condition variables: a thread asleep on state_cv is woken by a notification and never without one; in the protocol by itself, without `LockedPool.dfy`, it may retry at any time. A wait for a page in flight goes on as soon as the entry is gone, because its owner notifies it then.
- Liveness of fetch_page among other threads: not claimed, because the code does not guarantee it (see above); of an undisturbed fetch `PoolFetches.FetchAnswersExactly` says whether it ends.
- Lock poisoning: no section panics, so no lock is poisoned.
- Error arms that no input can reach: a page buffer of the wrong length, and a pin or mark that fails right after a load.
- Read locks: the lock order counts the read lock of a frame as exclusive. A step takes effect with its first lock.
- 16-bit overflow in a scan: the cursor reports it where a checked build panics; the wrap-around of an unchecked build is not followed further.
- Metrics: counters that no operation reads.
- flush_all_pages: a plain loop over flush_page, in no particular order.
- Insert after compact, and compact through a heap file's pages: the heap file never calls compact, and InsertAfterCompactBreaksPage says what an insert after it does.
- Insert through get_page_mut: it would bypass the free-space map; only deletion goes that way here.
- scan_owned and OwnedAdapter: a copy of what the scan yields.
- FilterScan: imported, but not part of the repository.
- src/foundations, src/main.rs, the benches, the fuzz targets and src/bin: not part of this model.
