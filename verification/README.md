# BusTub buffer pool: clock replacer and pool bookkeeping, in Dafny

This project models the in-memory page cache of the BusTub database kernel. The pool
has a fixed array of frames. A page table maps resident page ids to frames. A FIFO free
list holds the frames that hold no page. A clock replacer tracks the resident frames that
nobody pins and picks one to evict when a page must be loaded and no frame is free.

- `ClockReplacer` (`clock_replacer.dfy`) models the replacer as two boolean vectors and a
  hand. `Victim` is the source's single bounded sweep with a remembered fallback, written
  as a tail-recursive function that mirrors the loop. Its outcome is specified in closed
  form by `ClockSweep`, using each frame's offset from the hand.
- `ClockClassic` (`clock_classic.dfy`) is an independent reference: textbook multi-pass
  CLOCK, in which the hand moves one frame per step. It proves that the single-pass sweep
  makes the same choice and leaves the same state.
- `DiskManager` (`disk_manager.dfy`) is the disk collaborator reduced to what the pool can
  observe: a map from page id to page image, the log of writes, and the page-id counter.
- `BufferPool` (`buffer_pool.dfy`) holds the pool state, its invariant `Valid`, and every
  operation as a pure transition. A returned frame index stands for the returned
  `Page *`, and `None` stands for `nullptr`.
- `BufferPoolProperties`, `BufferPoolReachability`, `BufferPoolCounting` and
  `BufferPoolScenarios` state and prove what the operations guarantee.

The invariant `Valid` says that every frame is in exactly one of three states:
- on the free list: unpinned, clean and untracked;
- resident and pinned: untracked;
- resident and unpinned: tracked by the replacer.

The page table agrees with the frames it points to, so it is injective.

The model follows the code as written:
- `DeletePageImpl` is a stub that always returns false, and the model keeps it so.
- `NewPageImpl` allocates a page id only after it has found a frame. When the pool is
  exhausted, no id is allocated.
- `FetchPageImpl` increments the claimed frame's pin count rather than setting it to 1.
  The two agree because free and evictable frames have pin count 0.
- `FlushAllPagesImpl` returns nothing and ignores each flush's result.
- The single-pass sweep is sometimes described as an approximation of multi-pass CLOCK
  that can pick a different victim. `ClockClassic.SinglePassMatchesClassic` proves it never
  does: on every replacer state the two pick the same victim and leave the same reference
  bits and hand.

## Model

| member | source | states |
|---|---|---|
| ClockReplacer.Init | src/buffer/clock_replacer.cpp:17-22 | A new replacer for n frames tracks nothing (size 0), has every reference bit clear and the hand at 0. |
| ClockReplacer.Victim | src/buffer/clock_replacer.cpp:32-73 | No victim exactly when no frame is tracked, and then the state is unchanged. Otherwise the victim was tracked and is now untracked, no other tracked flag changes, the tracked count drops by one and the hand is (victim + 1) mod N. If some tracked frame has a clear bit, the victim is the first such frame in sweep order; only the frames passed before it are aged and later frames are untouched. Otherwise every tracked frame is aged and the victim is the first tracked frame in sweep order (the fallback). |
| ClockReplacer.SweepMeetsClockSweep | src/buffer/clock_replacer.cpp:36-70 | The sweep loop, run from any intermediate step that satisfies the loop's invariant, ends in the outcome `ClockSweep` describes. |
| ClockReplacer.Pin | src/buffer/clock_replacer.cpp:79-86 | For a valid frame id, only that frame's tracked flag is cleared, the tracked count drops by one if it was tracked, and reference bits and hand are unchanged. An out-of-range id changes nothing. |
| ClockReplacer.Unpin | src/buffer/clock_replacer.cpp:92-100 | For a valid frame id, that frame becomes tracked with its reference bit set, the tracked count rises by one if it was untracked, and no other frame changes. An out-of-range id changes nothing. |
| ClockReplacer.Size | src/buffer/clock_replacer.cpp:103-112 | Returns the number of tracked frames. The result is at most N, and it is 0 exactly when no frame is tracked. |
| ClockReplacer.CountTrueUpdate | src/buffer/clock_replacer.cpp:103-112 | Changing one tracked flag changes the count by exactly the difference of the old and new flag. |
| ClockClassic.SinglePassMatchesClassic | src/buffer/clock_replacer.cpp:32-73 | The single sweep with a remembered fallback returns the same victim and the same replacer state as textbook multi-pass CLOCK, on every valid state. |
| ClockClassic.ClockSweepDeterministic | src/buffer/clock_replacer.cpp:32-73 | The closed-form outcome of `Victim` admits exactly one victim and one successor state. |
| BufferPool.Init | src/buffer/buffer_pool_manager.cpp:22-32 | The constructor puts every frame 0..N-1 on the free list in ascending order, leaves the page table empty and the replacer empty, and the result satisfies the pool invariant. |
| BufferPool.FlushPage | src/buffer/buffer_pool_manager.cpp:139-161 | Flushing succeeds exactly when the page is resident. |
| BufferPool.DeletePage | src/buffer/buffer_pool_manager.cpp:224-231 | The stub always reports failure and leaves the pool unchanged. |
| BufferPoolProperties.NothingTrackedIffAllPinned | src/buffer/buffer_pool_manager.cpp:80-86 | With an empty free list, the replacer has no victim exactly when every frame is pinned. |
| BufferPoolProperties.TakeVictimReclaims | src/buffer/buffer_pool_manager.cpp:79-105 | On reclaim, the victim is the frame the clock policy selects, and it is resident and unpinned. A dirty victim's bytes are written to disk under its old page id before reuse, and a clean victim causes no write. Only the old id leaves the page table. The write-back cannot fail under the invariant. |
| BufferPoolProperties.FetchResident | src/buffer/buffer_pool_manager.cpp:50-58 | Fetching a resident page returns its frame with one more pin, untracks it, does no disk I/O, and leaves the page table, the free list and the other frames unchanged. In the replacer only that frame's tracked flag changes; the reference bits and the hand stay as they were. |
| BufferPoolProperties.FetchFromFreeList | src/buffer/buffer_pool_manager.cpp:62-77 | Fetching a non-resident page with a free frame takes the front of the free list and binds it to the page with pin count 1, clean, holding the disk image. It adds the page to the page table and leaves the replacer and disk unchanged. |
| BufferPoolProperties.FetchEvicts | src/buffer/buffer_pool_manager.cpp:79-107 | Fetching a non-resident page with an empty free list and an unpinned frame always succeeds. It reuses the clock's victim, writes the victim back first if it is dirty, swaps the old id for the new one in the page table, and leaves the frame pinned once, clean and holding the disk image. |
| BufferPoolProperties.FetchExhausted | src/buffer/buffer_pool_manager.cpp:80-86 | Fetching a non-resident page fails exactly when the free list is empty and every frame is pinned, and then the pool, including the disk, is unchanged. |
| BufferPoolProperties.FetchPreservesValid | src/buffer/buffer_pool_manager.cpp:39-108 | Fetching keeps the partition of frames into free, pinned and tracked, and keeps the page table consistent. |
| BufferPoolProperties.UnpinOutcome | src/buffer/buffer_pool_manager.cpp:110-137 | Unpin fails exactly on a double unpin (a resident page with pin count 0), with no change. A non-resident page succeeds with no change. Otherwise the pin count drops by one, the dirty flag is or-ed in, and the frame becomes tracked, with its reference bit set, exactly when its pin count reaches 0. While pins remain, the replacer is untouched. The hand, other frames' tracked flags and other frames' reference bits never change. |
| BufferPoolProperties.DirtyIsSticky | src/buffer/buffer_pool_manager.cpp:127-128 | A dirty frame stays dirty across any unpin, whatever flag is passed. |
| BufferPoolProperties.UnpinPreservesValid | src/buffer/buffer_pool_manager.cpp:110-137 | Unpinning keeps the pool invariant. |
| BufferPoolProperties.FlushOutcome | src/buffer/buffer_pool_manager.cpp:139-161 | Flushing a non-resident page fails with no change. A clean page succeeds with no disk write. A dirty page has its bytes written under its id and is marked clean, and nothing else changes. |
| BufferPoolProperties.FlushTwice | src/buffer/buffer_pool_manager.cpp:149-160 | A second flush right after the first returns the same result and changes nothing, so two flushes perform at most one disk write. |
| BufferPoolProperties.FlushPreservesValid | src/buffer/buffer_pool_manager.cpp:139-161 | Flushing keeps the pool invariant. |
| BufferPoolProperties.NewPageFromFreeList | src/buffer/buffer_pool_manager.cpp:170-186 | With a free frame, the next page id is allocated and bound to the front free frame. The frame is zeroed, pinned once, clean and untracked, and the id is added to the page table. |
| BufferPoolProperties.NewPageEvicts | src/buffer/buffer_pool_manager.cpp:188-221 | With no free frame but an unpinned one, the clock's victim is reclaimed, after a write-back if it is dirty. Only then is the next id allocated and bound to that frame, zeroed, pinned once and clean, replacing the old id in the page table. |
| BufferPoolProperties.NewPageExhausted | src/buffer/buffer_pool_manager.cpp:190-197 | A new page fails exactly when the free list is empty and every frame is pinned. The pool is then unchanged, and no page id is allocated. |
| BufferPoolProperties.NewPagePreservesValid | src/buffer/buffer_pool_manager.cpp:163-222 | Creating a page keeps the pool invariant when the id to be allocated is not already resident. |
| BufferPoolProperties.NewPageOverwritesFetchedId | src/buffer/buffer_pool_manager.cpp:72-182 | Fetching page 0 of a fresh two-frame pool before any page is allocated, then creating a new page, binds id 0 to a second frame and breaks the invariant. So the precondition of `NewPagePreservesValid` cannot be dropped. |
| BufferPoolProperties.FlushAllPagesCleans | src/buffer/buffer_pool_manager.cpp:233-240 | Afterwards every frame is clean and otherwise unchanged. Every page that was dirty is on disk with its frame's bytes, every other page's disk image is untouched, and the invariant holds. |
| BufferPoolReachability.ReachableStatesValid | src/buffer/buffer_pool_manager.cpp:22-240 | Every state reached from the constructor by any sequence of calls satisfies the pool invariant, as long as each fetched id was already allocated. |
| BufferPoolCounting.FramesAccountedFor | src/buffer/buffer_pool_manager.cpp:28-31 | In a valid pool, page-table entries plus free-list entries equal the number of frames. |
| BufferPoolScenarios.NewUnpinFetchRoundTrip | src/buffer/buffer_pool_manager.cpp:163-186 | A new page, unpinned clean and then fetched, comes back in the same frame with the same zeroed bytes. It is pinned once, still clean, and no disk I/O happened. |
| BufferPoolScenarios.ClockPicksFirstAgedFrame | src/buffer/buffer_pool_manager.cpp:79-107 | Three frames hold pages a, b and c, and a and b are unpinned. Fetching d evicts a's frame 0, never the pinned c, and leaves the table {b, c, d}. |
| BufferPoolScenarios.ExhaustedPoolRefusesFetch | src/buffer/buffer_pool_manager.cpp:80-86 | In a one-frame pool with page a pinned, fetching another page fails and changes nothing. |

## Left out

- Logging (`LOG_INFO`, `LOG_ERROR`) and the log manager: these are diagnostics only.
- The disk manager's file I/O. The disk is an abstract map, a write log and an id counter.
  Reading a page that was never written yields a zeroed page. The disk manager itself is
  not part of this model.
- Raw memory management (`new Page[]`, `delete[]`, the destructor). Page bytes are an
  opaque `seq<bv8>`, and `ResetMemory` yields the zeroed page.
- Callers writing into a pinned frame's bytes through the returned `Page *`. No operation
  changes a frame's data except by loading or zeroing it.
- Concurrency and latching. No lock appears in the modelled code.
- ClockReplacer.Victim: the frame index and fallback are `short` in the source. The model
  assumes fewer than 32768 frames and does not model their narrowing.
- BufferPool.TakeVictim: both `FetchPageImpl` and `NewPageImpl` read the victim frame's
  page id before checking that `Victim` succeeded (undefined behaviour on failure). The
  model, which serves both paths, reads it only after success.
- Integer widths of page ids, frame ids and pin counts: they are unbounded here, and
  overflow of the page-id counter is not modelled.
- BufferPoolProperties.NewPagePreservesValid: requires that the id about to be allocated
  is not already resident. The source does not check this. A caller that fetched a
  not-yet-allocated id would make `NewPage` overwrite that page-table entry and orphan a frame.
  `BufferPoolProperties.NewPageOverwritesFetchedId` proves this on a concrete pool.
- BufferPoolReachability.ReachableStatesValid: assumes, for the same reason, that every
  fetched page id was already allocated.
