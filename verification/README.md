# Pintos frame table and NRU eviction, modelled in Dafny

This project models the frame table of the Pintos virtual-memory layer (`src/vm/frame.c`).
The frame table is a registry of the physical page frames handed to user processes. Each record
holds the frame's kernel address (`addr`), the user page it backs (`upage`) and the owning thread.
The model covers:

- the table operations `frame_init`, `frame_find` and `frame_free`;
- the hash-table key functions `frame_less` and `frame_hash`;
- `frame_get`, which asks the page allocator for a page and falls back to eviction;
- `get_class`, the not-recently-used (NRU) class of a page's accessed/dirty bits;
- `evict`, a scan of at most two rounds. Each round runs a class-1 pass and then a class-3 pass
  over the frames of the requesting thread.

The model is functional:

- The table is an immutable `map<Addr, Frame>`. The predicate `Frames.Wf` records that every
  record is filed under its own address. The C hash table has no other key, so this always holds.
- The thread's page directory is reduced to a `map<Page, Bits>` of accessed/dirty bits.
- The order in which the hash iterator visits the table is a `seq<Addr>` parameter.
- What `palloc_get_page` returned is an `Option<Addr>` parameter; `None` is NULL.
- `evict` is a recursive scan that threads the bit map through.
- `Evictor.ClassOneLoop`, `Evictor.ClassThreeLoop` and `Evictor.ScanForVictim` also write out
  the C loops and are proved to compute the same results as the recursive passes. The class-1
  loop drops the `page_dump` call as a no-op. The outer loop enters the class-3 loop only when
  the class-1 loop found nothing, where the C enters it and its guard fails at once.

Modules, one file each: `Wrappers` (Option), `Handles` (address, page and thread types),
`PageBits` (page-directory bits and `get_class`), `Frames` (the table), `Evictor` (`evict`),
`Allocator` (`frame_get`), `Scenarios` (concrete runs).

The model follows the code as written, including two behaviours that a reader might not expect:

- `evict` reads the class of the *faulting* page `upage` for every candidate frame, not the class
  of the frame's own page (frame.c:152, frame.c:164). The class-3 pass then clears the accessed
  bit of `upage` (frame.c:169). `Evictor.EvictIsExpected` proves a closed form. The victim
  depends only on the class `c` of `upage` and on the list `own` of the thread's frames in
  iteration order:
  - no own frame: no victim, after two rounds;
  - `c` = 1 or 3: `own[0]` in round 1;
  - `c` = 2: `own[0]` in round 2;
  - `c` = 4: `own[1]` in round 1, or `own[0]` in round 2 when the thread has only one frame.

  So `evict` fails only when the thread owns no frame.
- `evict` never removes the victim's record. The `hash_insert` in `frame_get` (frame.c:51) then
  finds an equal element already present and inserts nothing, which is how Pintos' `hash_insert`
  behaves. So after an eviction the table still records the victim's *old* user page
  (`Allocator.EvictedFrameKeepsOldRecord`).

How the code departs from a textbook NRU policy with write-back:

- A per-frame NRU policy would compute the class from each candidate's own page. The code uses
  the faulting page for every candidate (`Scenarios.ClassReadFromFaultingPage`).
- A policy that reuses a victim's frame would replace the victim's record with one for the new
  page. The code leaves the old record in place (`Allocator.EvictedFrameKeepsOldRecord`).
- A per-frame two-round scan takes a class-4 frame only in round 2, after its class-3 pass has
  cleared that frame's accessed bit. The code never reads a frame's own class, so it evicts
  whenever the thread owns a frame (`Evictor.EvictFailsIffNoFrames`), and which frame it takes
  and in which round depend only on the class of the faulting page (`Evictor.EvictIsExpected`):
  `own[0]` in round 1 when that page is in class 1, `own[1]` in round 1 when it is in class 4
  and the thread has two frames. In the usual case the faulting page has no entry yet, reads
  as class 1, and the thread's first frame is taken in round 1 (`Scenarios.UnmappedFaultingPageTakesFirst`).
  When the faulting page itself is in class 4, the clearing at frame.c:169 demotes it to class 3
  (`Scenarios.SecondFrameAfterDemotion`, `Scenarios.ClassFourOnlyStillEvicts`).
- NRU eviction writes dirty victims to swap. In the code `page_dump` has its body commented out,
  so no bit other than the accessed bit of `upage` ever changes.

Two behaviours come from Pintos code outside `frame.c`, which is not part of this model:

- `pagedir_is_accessed` and `pagedir_is_dirty` return false for a page with no page-table entry,
  and `pagedir_set_accessed` does nothing for one (`userprog/pagedir.c`).
- `hash_find`, `hash_insert` and `hash_delete` compare elements with `frame_less`. Two elements
  are equal when neither is less than the other (`lib/kernel/hash.c`).

## Model

| member | source | states |
|---|---|---|
| `PageBits.GetClass` | src/vm/frame.c:115-121 | the class is in 1..4, and each class holds exactly for its combination of bits: (clear, clear) is 1, (accessed only) is 2, (dirty only) is 3, (both) is 4 |
| `PageBits.ClassRoundTrip` | src/vm/frame.c:120 | the class determines both bits: decoding the class gives back the page's accessed and dirty bits |
| `PageBits.ClassBijective` | src/vm/frame.c:120 | every class 1..4 is reached, and by exactly one combination of bits |
| `PageBits.SetAccessed` | src/vm/frame.c:169 | clearing the accessed bit changes that bit of that page only: the same pages are mapped, the dirty bit is kept, and every other page keeps its bits |
| `PageBits.ClearAccessedDemotes` | src/vm/frame.c:164-169 | after the accessed bit is cleared, class 2 becomes 1, class 4 becomes 3, and classes 1 and 3 stay |
| `PageBits.ClearAccessedIdempotent` | src/vm/frame.c:169 | clearing the accessed bit a second time changes nothing |
| `Frames.FrameInit` | src/vm/frame.c:28-32 | the table starts empty |
| `Frames.SameKeyIsAddrEquality` | src/vm/frame.c:100-111 | two records are the same hash key exactly when their addresses are equal, and then their hashes agree |
| `Frames.FrameLessStrictOrder` | src/vm/frame.c:100-105 | `frame_less` is irreflexive, transitive, asymmetric and total on distinct addresses |
| `Frames.HashFind` | src/vm/frame.c:90 | a lookup succeeds exactly when some record is the same key as the probe, and returns that record |
| `Frames.HashFindIgnoresOtherFields` | src/vm/frame.c:86-90 | the probe's uninitialized `upage` and `thread` fields do not affect a lookup |
| `Frames.HashInsert` | src/vm/frame.c:50-52 | inserting adds the record under its address when the address is new and otherwise keeps the existing record; no other record changes |
| `Frames.FrameFind` | src/vm/frame.c:83-98 | returns the record whose address is `addr` if there is one and None otherwise |
| `Frames.FrameFree` | src/vm/frame.c:58-81 | returns true exactly when `addr` is present; the new table is the old one without `addr`, every other record unchanged; an absent `addr` leaves the table as it was |
| `Frames.FreeIdempotent` | src/vm/frame.c:65-79 | a second free of the same address returns false and leaves the table unchanged |
| `Frames.FreeThenFindMisses` | src/vm/frame.c:58-98 | after a free, a lookup of the same address finds nothing |
| `Frames.InsertThenFree` | src/vm/frame.c:50-81 | a record inserted under a new address is found by lookup, and freeing it restores the original table |
| `Evictor.Owned` | src/vm/frame.c:151 | the candidate list holds exactly the scanned addresses whose record belongs to `th` |
| `Evictor.OwnedEmptyIff` | src/vm/frame.c:147-151 | over a full iteration, the thread has no candidate exactly when it owns no record |
| `Evictor.OwnedInOrder` | src/vm/frame.c:148-151 | the candidate list keeps iteration order: its head is the first address in `order` that belongs to `th`, and its tail is the candidate list of the addresses after it |
| `Evictor.ClassOnePass` | src/vm/frame.c:147-158 | the class-1 pass finds a victim exactly when the thread has a frame and `upage` is in class 1, and the victim is the thread's first frame in iteration order |
| `Evictor.ClassThreePass` | src/vm/frame.c:160-171 | with no own frame nothing changes; otherwise the accessed bit of `upage` ends up cleared, and the victim is the first own frame for class 3, the second own frame (if any) for class 4, and none for classes 1 and 2 |
| `Evictor.Round` | src/vm/frame.c:147-171 | a round returns the class-1 pass's victim with the bits untouched when `upage` is in class 1, and otherwise the class-3 pass's outcome |
| `Evictor.EvictFrom` | src/vm/frame.c:147-172 | the outer loop runs at most two rounds, and runs both of them when it finds no victim |
| `Evictor.EvictIsExpected` | src/vm/frame.c:140-175 | the scan's victim, bits and round count equal the closed form given above |
| `Evictor.Evict` | src/vm/frame.c:140-175 | a victim is a scanned frame owned by `th`; there is no victim exactly when `th` has no frame; one or two rounds run; only the accessed bit of `upage` can change, and nothing changes when that bit is already clear; `page_dump` (frame.c:123-138) is a no-op, so it changes no bit |
| `Evictor.EvictFailsIffNoFrames` | src/vm/frame.c:140-175 | over a full iteration of the table, `evict` returns NULL exactly when no record belongs to `th` |
| `Evictor.ClassOneLoop` | src/vm/frame.c:148-158 | the class-1 `while` loop as written returns the class-1 pass's victim |
| `Evictor.ClassThreeLoop` | src/vm/frame.c:160-171 | the class-3 `while` loop as written returns the class-3 pass's victim and bits |
| `Evictor.ScanForVictim` | src/vm/frame.c:140-175 | the outer `for` loop as written, running the two inner loops, computes the same victim, bits and round count as the recursive scan |
| `Allocator.FrameGet` | src/vm/frame.c:34-56 | an allocated page is returned as is, and otherwise the eviction victim is returned; NULL comes back only when both fail, and then the table is untouched; existing records never change; a fresh page gets the record {kpage, upage, caller}; the eviction path leaves the table unchanged |
| `Allocator.AcquireFreshThenFindAndFree` | src/vm/frame.c:34-81 | after a page fresh from the allocator is acquired, a lookup finds the caller's record, and a free restores the table |
| `Allocator.EvictedFrameKeepsOldRecord` | src/vm/frame.c:38-52 | a page obtained by eviction keeps its old record, owned by the caller but naming the victim's old user page |
| `Allocator.ReleasedStaysReleased` | src/vm/frame.c:34-98 | after a release, an acquire that does not get the same page back from the allocator leaves the address unregistered, so a lookup misses |
| `Scenarios.AcquireOnEmptyTable` | src/vm/frame.c:34-98 | on an empty table, an acquired page is found by lookup with the requested user page and the caller as owner |
| `Scenarios.ReleaseTwice` | src/vm/frame.c:58-81 | releasing the same address twice returns true, then false |
| `Scenarios.ClassReadFromFaultingPage` | src/vm/frame.c:151-155 | with a class-1 faulting page, the thread's first frame is taken even though its own page is in class 4 and another own frame's page is in class 1; another thread's frame is skipped |
| `Scenarios.SecondFrameAfterDemotion` | src/vm/frame.c:160-171 | with a class-4 faulting page, the thread's second frame is taken in round 1, and the page is left in class 3 |
| `Scenarios.ClassFourOnlyStillEvicts` | src/vm/frame.c:147-172 | a thread with one frame and a class-4 faulting page gets that frame in round 2 |
| `Scenarios.UnmappedFaultingPageTakesFirst` | src/vm/frame.c:147-158 | with a faulting page that has no entry, the thread's first frame is taken in round 1 with no bit changed, although its frames' own pages are all in class 4 |
| `Scenarios.NoOwnFrameNoVictim` | src/vm/frame.c:147-175 | for any page-directory bits, a thread that owns no frame gets NULL after both rounds, with no bit changed |

## Left out

- Locking (`lock_frames`, `unlock_frames`, `frames_lock`, frame.c:10-26) and the unlocked read in `frame_find` (frame.c:92). These are concurrency concerns, and the model is single-threaded.
- `malloc`, `free` and `palloc_free_page`, including the `free (frame->addr)` at frame.c:72, which frees the page rather than the record. These are heap and page-allocator bookkeeping; the model only removes the record from the map.
- The `zero` flag of `frame_get`. It only selects whether the allocator zero-fills the page, and the allocator's result is a parameter.
- `hash_int` and the pointer-to-unsigned cast in `frame_hash` (frame.c:110). `Frames.FrameHash` keeps only the fact that the hash depends on the address alone.
- The internals of `pagedir_is_dirty`, `pagedir_is_accessed` and `pagedir_set_accessed`. They are reads and writes on an abstract bit map.
- The swap write-back in `page_dump` (frame.c:125-137). It is commented out, so `page_dump` is a no-op, and no write-back failure can occur.
- The identity of `thread_current()` as a pointer. It is an opaque integer id.
- Allocator.FrameGet: `Addr` includes 0, but `palloc_get_page` reports failure with NULL, which is `None` here. `Some(0)` is therefore not a real allocator result, and the NULL test of frame.c:44 is the `Some?` test.
- Evictor.Evict: a table key 0 is not excluded. The C tests `kpage == NULL` at frame.c:149 and frame.c:161, so a frame at address 0 would not end its scan, while the model returns `Some(0)`. No real table holds key 0, because frame.c:44 registers only non-NULL pages; the model does not state this as an invariant of `FrameTable`.
- The layout and iteration order of the hash table. The iteration order is a parameter.
