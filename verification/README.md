# Verified model of the executive's allocator and the protocols around it

A Dafny 4.11 model of the parts of userspace-ntos whose correctness needs a whole-run argument. `dafny verify
dfyconfig.toml` checks everything; no file depends on anything outside this directory.

## What is modelled

**The executive's global allocator** (`Words`, `Sizes`, `FreeList`, `FreeListMemory`, `FreeListWalk`, `Placement`,
`Arena`, `KeptBytes`, `Commitment`, `TransientLane`, `Heap`, `HeapScripts`, `HeapRuns`, `HeapLock`). Heap memory is
word cells; the free list lives in the memory it hands out, and every write to it is a write to those cells. The list
the memory encodes and the bytes lost to slack are ghost; the blocks callers hold are a ledger the allocator never
reads. The main results: in every well-nested run live and free blocks are disjoint, aligned and in range; the list
stays ordered and fully coalesced with no block at the frontier; `ctr = live + free + lost` exactly; list writes never
touch a held block; `realloc` preserves contents on every path, and over a whole run every byte of a block that stays
is the last one written to it; transient scopes restore the lane; the validator accepts exactly the well-formed lists
on arbitrary memory; `usage` is exact. Every operation says when it succeeds: the lane, the free list and growth in
place exactly, the durable arena whenever it has room. Frontier and list are shown to be a function of which bytes are
available, so any set of blocks may be freed in any order, and an allocation that lost nothing is undone by its free.
The root's commitment grows at most 14 times. The lock is a step system over any number of threads.

**Secondary protocols**, each with its own main theorem:

- `CasBump`: the lock-free bump allocator as interleaved loads (of any past value) and weak compare-exchanges. The
  grants equal those of a sequential allocator.
- `HotTable`: the profiler's linear-probing table as a stable injective map, with counters exact modulo 2^64, and
  the top-twelve report determined uniquely.
- `LogMarker`, `Supervisor`: the chunked marker search equals a search over the whole log, and exactly when a log that
  grows during a poll can make it miss a marker or invent one; the decision loop, with signals at any point, equals a
  reference that looks at whole logs.
- `FrameReclaim`, `FrameRetirement`: rows of the client frame registry give up their capabilities through calls
  that may fail; over any number of attempts each capability goes through its course of calls exactly once. The
  retirement loops over swap-remove.
- `IrpStaging`: both sides of the shared-frame protocol agree on bounds; exactly the requests without a harmful overlap
  of segments deliver the reference buffers whatever those hold.
- `SlotLedger`, `AcpiAuthority`, `AcpiReader`, `AcpiGrant`: with any kernel call free to fail, no root slot is
  leaked or released twice, reads through the validation windows return the physical bytes, and granting one range
  never takes away another.
- `PhysicalRanges`: normalizing and subtracting physical ranges gives the one tidy list of exactly the right pages.

Kernel calls, allocation refusals and clocks are nondeterministic choices or parameters. Concurrency is modelled
where the source is concurrent (the heap lock and the lock-free allocator); everything else runs under a lock or on
one serialized loop.

## Limits of what the code promises

- The lock-free allocator returns an address aligned as asked exactly when the array's base is
  (`CasBump.AddressAligned`), so for alignments up to 16; `CasBump.WideAlignMisplaced` is a request beyond that.
- The peer's copy loop moves the bytes as they were for all contents exactly when it does not copy upwards onto an
  overlapping range (`IrpStaging.CopyMovesExactly`). `dispatch` does not exclude overlapping segments: of the requests
  it accepts, exactly those with only harmless overlaps come back right for all buffers (`IrpStaging.DispatchExactly`),
  and `IrpStaging.WrongDelivery` is one that does not.
- The marker search takes the size and the contents in two calls. If the log grows by `e` bytes in between, a marker of
  `m` bytes can be missed exactly when `1 <= e <= m - 2` (`LogMarker.MissesExactly`; by all later polls,
  `LogMarker.TornPollMisses`), and one that is nowhere in the log can be reported exactly when `e >= 1` and `m >= 2`
  (`LogMarker.InventsExactly`; `LogMarker.TornPollInvents` is an example). So the search is exact for all logs and
  markers of a length exactly when the log does not grow in between or the marker is one byte
  (`LogMarker.TornPollExactly`).
- Bytes are really lost: tails too small to be a free node and alignment gaps. The accounting carries them as
  `lost`, which never decreases and grows by at most `max(8, align - 8)` per operation.

## Model

| member | source | states |
|---|---|---|
| Sizes.AlignUp | components/ntos-executive/src/allocator.rs:350-353 | the result is the least multiple of the alignment not below the value; none exactly when the rounding step would overflow 64 bits |
| Sizes.BlockSize | components/ntos-executive/src/allocator.rs:355-357 | a request occupies at least a free node, in whole granules, less than a granule more than needed; none exactly on overflow |
| Sizes.AlignedAsAsked | components/ntos-executive/src/allocator.rs:350-353 | an address aligned for the allocator is aligned as the caller asked and to the granule, in the bitwise and the divisibility reading |
| Sizes.AlignedMeans | components/ntos-executive/src/allocator.rs:350-353 | low bits zero is the same as divisible by the power of two |
| Sizes.AlignUpGap | components/ntos-executive/src/allocator.rs:350-353 | rounding a granule-aligned address up skips at most `align - 8` bytes, and none if it is aligned already |
| Words.CopyBytes | components/ntos-executive/src/allocator.rs:922-925 | the byte copy of a moving `realloc`: every byte of the destination range is the source byte, every byte outside keeps its value, in word-cell memory |
| Words.StoreByte | components/ntos-executive/src/allocator.rs:359-365 | a caller's byte store changes exactly that byte of word-cell memory |
| FreeList.UnlinkEncodes | components/ntos-executive/src/allocator.rs:663-701 | after redirecting one link, memory encodes the list without that node |
| FreeList.InsertEncodes | components/ntos-executive/src/allocator.rs:581-635 | after writing the node and one link, memory encodes the list with the node inserted |
| FreeList.MergeEncodes | components/ntos-executive/src/allocator.rs:581-635 | after rewriting the lower node, memory encodes the list with two touching nodes merged |
| FreeList.TrimEncodes | components/ntos-executive/src/allocator.rs:703-730 | after moving a node up by a whole number of granules, memory encodes the list with that node trimmed |
| FreeList.RemoveCovers | components/ntos-executive/src/allocator.rs:663-701 | removing a node uncovers exactly its bytes |
| FreeList.InsertCovers | components/ntos-executive/src/allocator.rs:581-635 | inserting a node covers exactly its bytes more |
| FreeList.MergeCovers | components/ntos-executive/src/allocator.rs:581-635 | merging touching nodes changes no covered byte |
| FreeList.UncoveredApart | components/ntos-executive/src/allocator.rs:581-635 | a range of bytes the list does not cover lies apart from every node |
| FreeList.CanonicalList | components/ntos-executive/src/allocator.rs:581-635 | two ordered, coalesced lists covering the same bytes are the same list |
| FreeListMemory.UnlinkWrite | components/ntos-executive/src/allocator.rs:663-701 | the unlink write keeps memory and list in step and touches only words of the list |
| FreeListMemory.InsertWrite | components/ntos-executive/src/allocator.rs:581-635 | the insert writes keep memory and list in step and touch only words of the list |
| FreeListMemory.MergeWrite | components/ntos-executive/src/allocator.rs:581-635 | the merge write keeps memory and list in step and touches only words of the list |
| FreeListMemory.TrimWrite | components/ntos-executive/src/allocator.rs:703-730 | the trim writes keep memory and list in step and touch only words of the list |
| FreeListMemory.HoldsFrame | components/ntos-executive/src/allocator.rs:581-730 | writes outside the list's words leave the encoded list as it is |
| FreeListMemory.FitsBetween | components/ntos-executive/src/allocator.rs:603-611 | an insertion position is free of overlap exactly when both neighbours are |
| FreeListMemory.ForwardGaps | components/ntos-executive/src/allocator.rs:612-625 | inserting and merging forward leaves every neighbouring pair apart but the one before the node |
| FreeListMemory.BackwardGaps | components/ntos-executive/src/allocator.rs:627-634 | merging backward then leaves no two blocks touching |
| FreeListMemory.Refilled | components/ntos-executive/src/allocator.rs:686-695 | a node taken off whole with its ends put back leaves exactly its middle taken |
| Placement.PlaceFacts | components/ntos-executive/src/allocator.rs:670-681 | a place inside a node is aligned and leaves a prefix that is empty or a node |
| Placement.ServesGranule | components/ntos-executive/src/allocator.rs:750-790 | at alignment up to 8 a request can be met exactly when one free block or the rest above the frontier is long enough |
| FreeListWalk.Refuted | components/ntos-executive/src/allocator.rs:551-579 | a node that fails any check belongs to no well-formed list the memory could encode |
| FreeListWalk.ListUnique | components/ntos-executive/src/allocator.rs:551-579 | memory encodes at most one well-formed list |
| FreeListWalk.WalkComplete | components/ntos-executive/src/allocator.rs:969-980 | the node bound of the walk never cuts a well-formed list short |
| ExecutiveHeap.Heap.constructor | components/ntos-executive/src/allocator.rs:359-365 | zeroed heap pages hold the empty list and no blocks |
| ExecutiveHeap.Heap.InitializeHeapLimit | components/ntos-executive/src/allocator.rs:376-393 | accepted exactly for zero frames, or a limit within the heap that is new or the same on an unused heap; an accepted limit makes a valid heap of exactly that many pages |
| ExecutiveHeap.Heap.InsertFreeBlock | components/ntos-executive/src/allocator.rs:581-635 | the list afterwards is ordered and fully coalesced and covers the old bytes and the block's; corruption is reported exactly for a block too small, out of range or overlapping, and a block already listed changes nothing |
| ExecutiveHeap.Heap.InsertAndMerge | components/ntos-executive/src/allocator.rs:612-635 | link and merge both ways: coalesced again, exactly the block's bytes more, only list words written |
| ExecutiveHeap.Heap.LinkNode | components/ntos-executive/src/allocator.rs:612-625 | the new node is linked at its place and merged forward if it touches |
| ExecutiveHeap.Heap.MergeForward | components/ntos-executive/src/allocator.rs:619-625 | the node and its successor become one exactly when they touch |
| ExecutiveHeap.Heap.MergeBackward | components/ntos-executive/src/allocator.rs:627-634 | the predecessor and the node become one exactly when they touch |
| ExecutiveHeap.Heap.ReleaseTopFreeBlocks | components/ntos-executive/src/allocator.rs:637-661 | no free block ends at the frontier afterwards; at most one block is released; which bytes are available does not change |
| ExecutiveHeap.Heap.ReleaseOne | components/ntos-executive/src/allocator.rs:637-661 | one pass releases a block exactly when one ends at the frontier |
| ExecutiveHeap.Heap.AllocFromFreeList | components/ntos-executive/src/allocator.rs:663-701 | first fit: the lowest node that can hold the request at its alignment is used, exactly the bytes `[p, hi)` leave the list, and null exactly when no node fits |
| ExecutiveHeap.Heap.TakeFrom | components/ntos-executive/src/allocator.rs:686-695 | splitting a node keeps every prefix and suffix large enough to be a node on the list |
| ExecutiveHeap.Heap.ReturnPiece | components/ntos-executive/src/allocator.rs:687-694 | a piece large enough goes back on the list; the corruption branch is not reached |
| ExecutiveHeap.Heap.GrowInPlace | components/ntos-executive/src/allocator.rs:703-730 | succeeds exactly when a node starts where the block ends and is large enough; takes those bytes and no others |
| ExecutiveHeap.Heap.TakeAdjacent | components/ntos-executive/src/allocator.rs:712-724 | the neighbour is trimmed or, when its rest is too small to be a node, removed |
| ExecutiveHeap.Heap.ValidateFreeList | components/ntos-executive/src/allocator.rs:551-579 | on arbitrary memory the walk ends and accepts exactly when memory encodes an ordered, disjoint, in-range, granule-aligned list |
| ExecutiveHeap.Heap.PublishRootHeapCommit | components/ntos-executive/src/allocator.rs:403-410 | under the asserted bounds whole windows keep the heap valid, or make a fresh one so; its durable end never retreats and an increase counts as one growth |
| ExecutiveHeap.Heap.GrowOwnHeap | components/ntos-executive/src/main.rs:14659-14677 | growth either covers the request with a whole-window commitment or changes nothing; nothing beyond the durable frames is granted |
| ExecutiveHeap.Heap.EnsureDurableEnd | components/ntos-executive/src/allocator.rs:485-490 | an end already covered needs no growth; success means the end is covered; a component never commits |
| ExecutiveHeap.Heap.AllocDurable | components/ntos-executive/src/allocator.rs:750-790 | a new block at fresh bytes, exactly `[lo, hi)` stops being available, slack lost is at most `max(8, align - 8)`, only list words are written; a request some node or the committed rest can hold is never refused, success means it was one or the heap grew to hold it, and refusal changes nothing |
| ExecutiveHeap.Heap.AllocFromList | components/ntos-executive/src/allocator.rs:761-764 | the free-list half: same, succeeding exactly when some node fits |
| ExecutiveHeap.Heap.AllocAtTop | components/ntos-executive/src/allocator.rs:766-789 | the bump half: same, with the alignment gap as the loss, succeeding whenever the aligned block ends by the durable end |
| ExecutiveHeap.Heap.StartAtTop | components/ntos-executive/src/allocator.rs:766-773 | the lowest suitably aligned address at or above the frontier |
| ExecutiveHeap.Heap.GiveBack | components/ntos-executive/src/allocator.rs:744-747 | a freed block becomes available, the frontier retreats, and only list words and the block's own words are written |
| ExecutiveHeap.Heap.DeallocUnlocked | components/ntos-executive/src/allocator.rs:733-748 | null, zero-sized and transient pointers change nothing; any other block leaves the ledger and its bytes become available |
| ExecutiveHeap.Heap.ReallocShrink | components/ntos-executive/src/allocator.rs:880-889 | shrinking keeps the first bytes, frees a tail that can be a node and loses a smaller one |
| ExecutiveHeap.Heap.GrowTop | components/ntos-executive/src/allocator.rs:891-907 | the block at the frontier grows by moving the frontier, always if its new end is committed; otherwise the heap grows to cover it or nothing changes |
| ExecutiveHeap.Heap.GrowAdjacent | components/ntos-executive/src/allocator.rs:909-911 | the block grows over the free block after it exactly when that starts at its end and is large enough, else nothing changes |
| ExecutiveHeap.Heap.GrowHere | components/ntos-executive/src/allocator.rs:891-911 | growing without moving succeeds whenever the frontier or the next free block allows it; other blocks keep their contents |
| ExecutiveHeap.Heap.ReallocMove | components/ntos-executive/src/allocator.rs:913-927 | allocate, copy, free: all old bytes arrive, other blocks keep theirs, refusal leaves the old block intact |
| ExecutiveHeap.Heap.ReallocDurable | components/ntos-executive/src/allocator.rs:874-928 | whichever path is taken the first `min(old, new)` bytes survive and the block stays durable; it does not move if it fits or can grow in place, and is refused only when no path has room |
| ExecutiveHeap.Heap.EnterTransient | components/ntos-executive/src/allocator.rs:215-235 | in the root the scope records mark and depth and routes to the lane; in a component it is inert |
| ExecutiveHeap.Heap.EnterDurable | components/ntos-executive/src/allocator.rs:241-255 | routes to the durable arena and remembers the depth |
| ExecutiveHeap.Heap.DropGuard | components/ntos-executive/src/allocator.rs:170-192 | dropping a transient scope restores lane, mark and depth to entry; a durable one restores the depth only; the debug-asserted depth always holds |
| ExecutiveHeap.Heap.AllocTransient | components/ntos-executive/src/allocator.rs:792-821 | a block below all earlier ones in the lane, aligned as asked; null exactly when the aligned block does not fit in the lane, with nothing changed |
| ExecutiveHeap.Heap.ReallocTransient | components/ntos-executive/src/allocator.rs:861-873 | shrinking keeps the block; growing copies into a new lane block, exactly when the layout is valid and the lane has room |
| ExecutiveHeap.Heap.Alloc | components/ntos-executive/src/allocator.rs:828-835 | the arena is chosen by scope; the new block overlaps nothing held and no held contents change; lost bytes grow by at most the slack; the lane refuses exactly what does not fit, the durable arena nothing it has room for |
| ExecutiveHeap.Heap.Dealloc | components/ntos-executive/src/allocator.rs:837-840 | the block leaves the ledger; every other held block keeps its contents |
| ExecutiveHeap.Heap.Realloc | components/ntos-executive/src/allocator.rs:842-928 | first `min(old, new)` bytes preserved, same arena, all other held contents unchanged; null only without room and leaves block and commitment as they were; zero size frees |
| ExecutiveHeap.Heap.StoreByteAt | components/ntos-executive/src/allocator.rs:581-790 | a caller writing inside a block it holds cannot break the allocator's invariant |
| ExecutiveHeap.Heap.SumFreeList | components/ntos-executive/src/allocator.rs:969-980 | the walk adds up every node and finds the largest, with no saturation |
| ExecutiveHeap.Heap.Usage | components/ntos-executive/src/allocator.rs:964-992 | `allocated + reusable = durable_capacity`, the free totals are those of the encoded list; a damaged list poisons instead |
| ExecutiveHeap.ReportExact | components/ntos-executive/src/allocator.rs:964-992 | the report's arithmetic is exact for the encoded list |
| Arena.ListAllocBooks | components/ntos-executive/src/allocator.rs:761-764 | the accounting equation survives a free-list allocation, with the loss bounded |
| Arena.TopAllocBooks | components/ntos-executive/src/allocator.rs:766-789 | the accounting equation survives a bump allocation, with the loss bounded |
| Arena.ExtendTopBooks | components/ntos-executive/src/allocator.rs:891-907 | the accounting equation survives growth at the frontier |
| Arena.ExtendListBooks | components/ntos-executive/src/allocator.rs:909-911 | the accounting equation survives growth over a free block |
| KeptBytes.MoveKeeps | components/ntos-executive/src/allocator.rs:913-927 | copy then free: the moved bytes and every other block's bytes are what they were |
| KeptBytes.KeptByList | components/ntos-executive/src/allocator.rs:581-790 | writes to list words change no byte of a live block |
| KeptBytes.FreedKeeps | components/ntos-executive/src/allocator.rs:733-748 | freeing a block changes no byte of any other live block |
| KeptBytes.LaneCopyKeeps | components/ntos-executive/src/allocator.rs:868-872 | copying into the newest lane block changes no earlier block and nothing below the lane |
| Arena.BooksFree | components/ntos-executive/src/allocator.rs:733-748 | freeing keeps `ctr = live + free + lost` and disjointness |
| Arena.BooksTake | components/ntos-executive/src/allocator.rs:750-790 | taking available bytes for a block keeps them, the unused rest being lost |
| Arena.BooksExtend | components/ntos-executive/src/allocator.rs:703-730 | extending a block keeps them |
| Arena.BooksShrink | components/ntos-executive/src/allocator.rs:880-889 | cutting a block keeps them |
| Arena.LiveInside | components/ntos-executive/src/allocator.rs:581-790 | live blocks lie below the frontier and apart from free blocks |
| Arena.LastFreed | components/ntos-executive/src/allocator.rs:637-661 | releasing the block at the frontier lowers the frontier to its start, changes no available byte and leaves the top in use |
| Arena.CanonicalArena | components/ntos-executive/src/allocator.rs:581-661 | frontier and free list are determined by which bytes are available |
| Arena.AllFreed | components/ntos-executive/src/allocator.rs:637-661 | with everything freed and nothing lost the frontier is zero and the list empty |
| Commitment.CommitTarget | components/ntos-executive/src/allocator.rs:418-437 | a grant covers the request, is whole windows below the transient lane, never shrinks, is the least such growth and is a fixed point; refusal exactly when the end lies beyond the durable frames |
| Commitment.GrowthChainBound | components/ntos-executive/src/allocator.rs:418-437 | at most 14 strictly growing commitments in a heap's lifetime |
| Commitment.PublishedGrowth | components/ntos-executive/src/allocator.rs:403-410 | a larger commitment is at least one whole window more |
| Commitment.GrowthsBounded | components/ntos-executive/src/allocator.rs:418-437 | a heap that has grown from its initial frames has done so at most 14 times |
| TransientLane.GuardsPop | components/ntos-executive/src/allocator.rs:170-192 | the guards left after a drop still describe the lane left after it |
| TransientLane.EntriesAscend | components/ntos-executive/src/allocator.rs:215-235 | scopes nest: inner scopes own later lane blocks |
| TransientLane.DescendingExtend | components/ntos-executive/src/allocator.rs:792-821 | a block carved below the used part keeps the lane disjoint and ordered |
| TransientLane.LanePop | components/ntos-executive/src/allocator.rs:170-192 | dropping the innermost scope leaves mark and depth as its guard recorded them |
| HeapRuns.Apply | components/ntos-executive/src/allocator.rs:828-928 | any single operation, or a refusal to make it, keeps the invariant, loses at most its slack, and carries every byte of every other block |
| HeapRuns.Run | components/ntos-executive/src/allocator.rs:170-255 | every well-nested run of operations and scopes keeps the invariant (so no corruption branch is ever taken), the open scopes and the outer transient blocks, loses at most the sum of its slacks, leaves the heap with at most 14 growths in its lifetime, and every byte of a block it neither releases nor resizes holds the last value it wrote there, or the one it found |
| HeapScripts.UntouchedKept | components/ntos-executive/src/allocator.rs:828-928 | a block that a run never releases, resizes or writes keeps every byte |
| HeapScripts.ContentsOn | components/ntos-executive/src/allocator.rs:828-928 | contents carried by two runs are carried by one after the other |
| HeapRuns.RunInTransient | components/ntos-executive/src/allocator.rs:170-184 | whatever runs inside it, a transient scope leaves lane, mark and depth as it found them |
| HeapRuns.RunInDurable | components/ntos-executive/src/allocator.rs:186-192 | a durable scope restores the routing around it |
| HeapRuns.DurableBlocksDisjoint | components/ntos-executive/src/allocator.rs:581-790 | in every reachable state live and free blocks are pairwise disjoint, in range and aligned |
| HeapRuns.FreeListCanonical | components/ntos-executive/src/allocator.rs:581-730 | in every reachable state the list is ordered, no two blocks touch, none ends at the frontier, and the validator accepts it |
| HeapRuns.TransientBlocksDisjoint | components/ntos-executive/src/allocator.rs:792-821 | every transient block lies in the lane, aligned as asked, below all earlier ones |
| HeapRuns.ArenasDisjoint | components/ntos-executive/src/allocator.rs:454-495 | every transient block is apart from every durable one |
| HeapRuns.ScopesDisjoint | components/ntos-executive/src/allocator.rs:170-235 | the blocks of an open scope are apart from those it found |
| HeapRuns.Accounting | components/ntos-executive/src/allocator.rs:637-790 | `ctr = live + free + lost`, and back to empty once all is freed and nothing was lost |
| HeapRuns.AllocThenFree | components/ntos-executive/src/allocator.rs:733-790 | freeing what was just allocated restores frontier and list exactly unless slack was lost |
| HeapRuns.FreeAll | components/ntos-executive/src/allocator.rs:733-748 | freeing any set of held blocks makes exactly their bytes available; freeing all of them with nothing lost empties the arena |
| HeapRuns.FreeInAnyOrder | components/ntos-executive/src/allocator.rs:733-748 | two heaps in the same state, freed of the same blocks in any two orders, end with the same frontier, list and ledger |
| HeapRuns.ReportThenAlloc | components/ntos-executive/src/allocator.rs:964-992 | in a component heap an allocation at alignment up to 8 succeeds exactly when its block size is at most `largest_reusable` |
| HeapLock.MutualExclusion | components/ntos-executive/src/allocator.rs:92-120 | in every run of any number of threads at most one is inside, and only while the word is held |
| HeapLock.PoisonIsForever | components/ntos-executive/src/allocator.rs:544-545 | once poisoned the word stays poisoned and no thread is ever inside again, even as unwinding drops guards |
| HeapLock.HolderCanRelease | components/ntos-executive/src/allocator.rs:110-120 | whenever the word is held some thread inside can release it |
| HeapLock.StepKeeps | components/ntos-executive/src/allocator.rs:92-120 | every step of any thread keeps holder and word in agreement |
| CasBump.Fit | components/configuration-manager/src/allocator.rs:36-44 | where a request goes for a counter value: aligned offset, within the array, gap below the alignment |
| CasBump.RefusalStands | components/configuration-manager/src/allocator.rs:41-44 | a request that does not fit at one counter value fits at no later one |
| CasBump.CasKeeps | components/configuration-manager/src/allocator.rs:45-50 | a successful compare-exchange hands out what a sequential allocator would |
| CasBump.LoadKeeps | components/configuration-manager/src/allocator.rs:39-44 | a relaxed load of any past value keeps the invariant |
| CasBump.RunKeeps | components/configuration-manager/src/allocator.rs:33-55 | along every run the counter never decreases and grants are never taken back |
| CasBump.Linearizable | components/configuration-manager/src/allocator.rs:33-55 | for every interleaving the grants are those of a sequential allocator in compare-exchange order: pairwise disjoint and within the array |
| CasBump.NullIsFinal | components/configuration-manager/src/allocator.rs:41-44 | a null answer, even from a stale load, is right then and at every later time |
| CasBump.FailureIsProgress | components/configuration-manager/src/allocator.rs:45-52 | a compare-exchange fails for a real reason only when another thread's allocation went through after the value it expected was current |
| CasBump.AddressAligned | components/configuration-manager/src/allocator.rs:20-49 | the returned address is aligned as asked exactly when the array's base is, so always up to 16 |
| CasBump.WideAlignMisplaced | components/configuration-manager/src/allocator.rs:27-31 | a request aligned to 32 over a 16-aligned base comes back misaligned |
| HotTable.EmptyMeansAbsent | tools/whoruns.c:54-63 | an empty slot after only misses proves the counter is not stored |
| HotTable.CycleMisses | tools/whoruns.c:54-63 | a whole cycle of misses means the table is full without the counter |
| HotTable.InsertKeepsTable | tools/whoruns.c:54-63 | storing at the first empty slot keeps every stored counter reachable and unique |
| HotTable.Profiler.HotSlot | tools/whoruns.c:54-63 | a stored counter finds its one cell, a new one takes an empty slot and nothing else changes, NULL exactly when the table is full without it |
| HotTable.Profiler.HotSlots | tools/whoruns.c:54-63 | for any sequence of nonzero counters: equal counters get the same cell, distinct ones distinct cells, cells are stable |
| HotTable.KernelConserved | tools/whoruns.c:83-100 | cells and refused kernel blocks together account for exactly the kernel bucket |
| HotTable.BucketsPartition | tools/whoruns.c:83-90 | the five buckets add up to everything retired |
| HotTable.TallyExec | tools/whoruns.c:83-90 | one execution keeps every 64-bit counter equal to its exact value modulo 2^64 |
| HotTable.ProfileExec | tools/whoruns.c:83-90 | executing a translated block keeps every invariant of the profile |
| HotTable.ProfileTrans | tools/whoruns.c:92-100 | so does translating one, whatever its lookup answers |
| HotTable.Profiler.TbTrans | tools/whoruns.c:92-100 | translation changes no count, keeps every earlier block's cell and truncates the instruction count to 32 bits |
| HotTable.Profiler.Count | tools/whoruns.c:83-90 | an execution is entered once in its bucket, the total and its cell |
| HotTable.Profiler.TbExec | tools/whoruns.c:83-90 | the same, reporting exactly when the total has reached the next report mark |
| HotTable.Profiler.Exact | tools/whoruns.c:83-100 | in every reachable state below 2^64 instructions: buckets sum to the total, each cell is the instructions retired at its counter, and cells sum to the kernel bucket as long as no lookup was refused, full table or not |
| HotTable.Best | tools/whoruns.c:74-75 | the first greatest entry, none when all are zero |
| HotTable.NextRank | tools/whoruns.c:73-79 | the best slot left over extends the ranking |
| HotTable.Profiler.Dump | tools/whoruns.c:65-81 | the report lists the best slots in order, at most twelve, leaving out only beaten and zero ones |
| HotTable.RankingUnique | tools/whoruns.c:65-81 | no other list satisfies that description |
| LogMarker.Find | scripts/run_with_timeout.py:59-61 | byte-string search finds exactly the contained markers |
| LogMarker.Poll | scripts/run_with_timeout.py:42-61 | one poll with its reset on truncation, skip on no growth, and retained tail |
| LogMarker.TailSuffices | scripts/run_with_timeout.py:59-61 | a marker not seen before occurs in the log exactly when it occurs after the retained tail |
| LogMarker.TailComposes | scripts/run_with_timeout.py:60-60 | retaining in two steps keeps the same tail |
| LogMarker.ReadyMarkerObserved | scripts/run_with_timeout.py:42-61 | a poll of an append-only log with its size and contents taken apart: a poll that reads is right about what it read, one whose size is that of the contents is right about the log, and in both cases, or for a one-byte marker, the watch is right for the next |
| LogMarker.FirstReport | scripts/run_with_timeout.py:42-61 | for every chunking the marker is first reported at exactly the first snapshot that contains it |
| LogMarker.ReadExact | scripts/run_with_timeout.py:56-61 | a poll reports exactly what its carried tail and the bytes it read contain |
| LogMarker.TornCandidate | scripts/run_with_timeout.py:45-61 | the poll after a torn one looks at the retained tail, the extra bytes a second time, and what followed |
| LogMarker.ReportsAfterTear | scripts/run_with_timeout.py:42-61 | all polls after a torn one report the marker at exactly the first snapshot whose reread bytes hold it; after a harmless tear, at the first snapshot of the log that holds it |
| LogMarker.MissesExactly | scripts/run_with_timeout.py:45-58 | a log that grows by `e` bytes between `stat` and `read` never makes a marker of length `m` be missed exactly when `e == 0` or `e >= m - 1` |
| LogMarker.InventsExactly | scripts/run_with_timeout.py:45-58 | it never makes one be reported that is not in the log exactly when `e == 0` or `m == 1` |
| LogMarker.TornPollExactly | scripts/run_with_timeout.py:45-58 | such a tear does neither, for every log, every growth after it and every marker of length `m`, exactly when `e == 0` or `m == 1` |
| LogMarker.TornPollMisses | scripts/run_with_timeout.py:45-58 | for every `0 < e <= m - 2` a log that holds the marker and in which, whatever is appended later, only the appended part can still be reported |
| LogMarker.TornPollInvents | scripts/run_with_timeout.py:45-58 | a marker that is nowhere in the log and that such a poll makes the search report |
| Supervisor.FailureObserved | scripts/run_with_timeout.py:120-129 | true exactly when some failure marker is in its log; otherwise all watches are up to date |
| Supervisor.CheckCompletion | scripts/run_with_timeout.py:168-184 | completion arms the grace period and disarms the deadline and readiness |
| Supervisor.CheckReady | scripts/run_with_timeout.py:198-215 | readiness replaces or disarms the deadline |
| Supervisor.TakeTurn | scripts/run_with_timeout.py:150-231 | one turn ends the run, or goes on, exactly as the reference over whole logs says |
| Supervisor.Supervise | scripts/run_with_timeout.py:145-231 | the chunked loop decides as the reference over whole logs for every finite environment, with a forwarded signal at any point |
| Supervisor.CleanReturn | scripts/run_with_timeout.py:150-228 | a run returns through a failure path exactly when the log it last checked holds a failure marker |
| Supervisor.DisarmedForGood | scripts/run_with_timeout.py:174-184 | once disarmed the deadline path is never taken |
| Supervisor.DeadlineMeansIncomplete | scripts/run_with_timeout.py:216-228 | a run ending on the deadline saw the completion marker in no turn, nor the readiness marker when readiness disarms |
| Supervisor.GraceMeansCompleted | scripts/run_with_timeout.py:186-196 | the grace path is taken only after the completion marker was seen |
| Supervisor.SuperviseRun | scripts/run_with_timeout.py:145-231 | the three together, for the loop itself |
| FrameReclaim.UnmapStep | crates/nt-memory-manager/src/client_frame_reclaim.rs:189-192 | an acknowledged unmap adds exactly one call to the capability's course |
| FrameReclaim.DeleteStep | crates/nt-memory-manager/src/client_frame_reclaim.rs:196-199 | an acknowledged delete adds exactly one call |
| FrameReclaim.RecycleStep | crates/nt-memory-manager/src/client_frame_reclaim.rs:200-202 | an acknowledged recycle adds exactly one call and clears every role of the capability |
| FrameReclaim.RevokeStep | crates/nt-memory-manager/src/client_frame_reclaim.rs:204-208 | an acknowledged revoke of the owned backing adds exactly one call |
| FrameReclaim.Journalled | crates/nt-memory-manager/src/client_frame_reclaim.rs:58-76 | the row's progress always accounts exactly for the calls made |
| FrameReclaim.FinishedCalls | crates/nt-memory-manager/src/client_frame_reclaim.rs:162-212 | a finished row unmapped each capability once, deleted and recycled each but the owned backing once, and revoked that once |
| FrameRetirement.CleanCap | crates/nt-memory-manager/src/client_frame_reclaim.rs:184-203 | one capability is done or the attempt stops with the acknowledged calls kept |
| FrameRetirement.CleanupRow | crates/nt-memory-manager/src/client_frame_reclaim.rs:162-212 | over any failures the row stays resumable; success means complete |
| FrameRetirement.CommitCompletes | crates/nt-memory-manager/src/client_frame_reclaim.rs:217-234 | publishing the backing completes the course |
| FrameRetirement.SwapRemoveMultiset | crates/nt-memory-manager/src/client_frame_storage.rs:77-88 | swap-remove takes out exactly the row at the index |
| FrameRetirement.RowStored | crates/nt-memory-manager/src/client_frame.rs:240-340 | replacing a row under its identity keeps the registry consistent and its reclaiming count exact |
| FrameRetirement.RowRemoved | crates/nt-memory-manager/src/client_frame_storage.rs:77-88 | so does swap-removing a row under reclamation |
| FrameRetirement.Registry.IndexFor | crates/nt-memory-manager/src/client_frame.rs:158-166 | the row of a page, or none |
| FrameRetirement.Registry.Insert | crates/nt-memory-manager/src/client_frame.rs:240-340 | a new page gets a row under a fresh identity; a known one is updated exactly when nothing disagrees, and then only gains capabilities it lacked; otherwise the first disagreement is the error. A refusal changes nothing but the one counter of its kind; success moves the next age past the row's, as far as 64 bits go |
| FrameRetirement.Judge | crates/nt-memory-manager/src/client_frame.rs:261-289 | the first disagreement between a row and a request in the fixed order, none exactly when there is none |
| FrameRetirement.Registry.InsertNew | crates/nt-memory-manager/src/client_frame.rs:305-339 | a row for a page without one, or the refusal that fits; identities are refused only when exhausted |
| FrameRetirement.Registry.CancelPageout | crates/nt-memory-manager/src/client_frame_reclaim.rs:247-263 | an unfinished pageout becomes a release with its progress kept |
| FrameRetirement.Registry.BeginReclaim | crates/nt-memory-manager/src/client_frame_reclaim.rs:130-156 | reclamation opens once and only for an exact, untransferred row |
| FrameRetirement.Registry.Cleanup | crates/nt-memory-manager/src/client_frame_reclaim.rs:162-212 | only the row itself advances |
| FrameRetirement.Registry.Commit | crates/nt-memory-manager/src/client_frame_reclaim.rs:217-234 | success removes exactly the row, whose calls are then complete; failure changes nothing |
| FrameRetirement.Registry.ReleaseAt | components/ntos-executive/src/client_frame_cleanup.rs:74-115 | on success the row is gone with every capability through its full course exactly once, over all attempts; on failure it is there, at most further along; no other row changes |
| FrameRetirement.Registry.DropRows | components/ntos-executive/src/client_frame_retirement.rs:15-34 | the loop ends; on success no row of the process is left, on an error only matching, unlocked rows are gone |
| FrameRetirement.Registry.DropProcessAll | components/ntos-executive/src/client_frame_retirement.rs:4-35 | as the loop, for a published process; result is the original row count |
| FrameRetirement.Registry.DropUnpublishedProcessAll | components/ntos-executive/src/client_frame_retirement.rs:37-68 | as the loop, for an unpublished image with a nonzero token, and refused for anything else |
| FrameRetirement.OthersKept | components/ntos-executive/src/client_frame_retirement.rs:15-34 | rows of other processes are the same multiset before and after |
| IrpStaging.FieldByte | crates/nt-io-abi/src/wire.rs:86-175 | byte `k` of a little-endian field is header byte `k` of its place |
| IrpStaging.StagedLenCovers | components/driver-host/src/io_side.rs:149-171 | the staged length covers the header and every segment; none exactly when some end overflows |
| IrpStaging.BoundsAgree | components/driver-host/src/peer.rs:123-137 | a request within the I/O side's bounds is never rejected for bounds by the peer |
| IrpStaging.AcceptedIsBounded | components/driver-host/src/io_side.rs:47-78 | what `dispatch` accepts lies past the header and inside the frame |
| IrpStaging.CopyMoves | components/driver-host/src/peer.rs:139-159 | copying downwards or between disjoint ranges moves the bytes as they were |
| IrpStaging.CopyMovesExactly | components/driver-host/src/peer.rs:153-157 | the byte-by-byte copy moves the bytes for all contents exactly when it does not go upwards onto an overlapping range |
| IrpStaging.CopyFrameBytes | components/driver-host/src/peer.rs:139-159 | refused exactly when either range leaves the staged bytes; otherwise the forward copy |
| IrpStaging.WriteSegment | components/driver-host/src/io_side.rs:184-192 | the frame afterwards is the old one overlaid with the data |
| IrpStaging.ReadSegment | components/driver-host/src/io_side.rs:194-202 | returns exactly the segment's bytes |
| IrpStaging.HandleRead | components/driver-host/src/peer.rs:71-81 | fills the front of the system buffer and reports how much |
| IrpStaging.HandleIoctl | components/driver-host/src/peer.rs:83-115 | copies the minimum of the four lengths or refuses for bounds |
| IrpStaging.Handle | components/driver-host/src/peer.rs:53-121 | answer and frame for any staged length and contents |
| IrpStaging.HeaderStaged | components/driver-host/src/io_side.rs:80-98 | no segment, overlapping or not, touches the staged header |
| IrpStaging.StagingKeepsHeader | components/driver-host/src/io_side.rs:80-98 | staging segments changes no header byte |
| IrpStaging.PartStaged | components/driver-host/src/io_side.rs:80-98 | a part of a segment that no later one overlaps holds its buffer's bytes |
| IrpStaging.PeerActs | components/driver-host/src/peer.rs:53-121 | within bounds the peer fills, copies between two segments or leaves the frame, as the header says |
| IrpStaging.LostInStaging | components/driver-host/src/io_side.rs:80-98 | a byte that matters and is overwritten by a later segment makes the request deliver wrongly for some buffers |
| IrpStaging.LostToPeer | components/driver-host/src/peer.rs:53-121 | so does one the peer overwrites |
| IrpStaging.DisjointHarmless | components/driver-host/src/io_side.rs:80-98 | disjoint segments overlap harmlessly, whatever the request |
| IrpStaging.HarmlessReturns | components/driver-host/src/io_side.rs:80-136 | without a harmful overlap the caller gets exactly the reference buffers |
| IrpStaging.DeliversExactly | components/driver-host/src/io_side.rs:80-136 | for every frame, all buffers come back right exactly when no overlap is harmful |
| IrpStaging.ActingKeepsHeader | components/driver-host/src/peer.rs:53-121 | the peer never changes the header of an accepted request, overlapping or not |
| IrpStaging.RoundTrip | components/driver-host/src/io_side.rs:42-136 | stage, handle, read back keeps the header and, without a harmful overlap, delivers exactly the reference buffers |
| IrpStaging.DispatchExactly | components/driver-host/src/io_side.rs:42-136 | of the requests `dispatch` accepts, exactly those whose overlaps are harmless come back right for every content of the buffers |
| IrpStaging.WrongDelivery | components/driver-host/src/io_side.rs:54-76 | a well-formed request that `dispatch` accepts and that comes back wrong |
| IrpStaging.SurtPeerTransport.Dispatch | components/driver-host/src/io_side.rs:42-136 | refused without a trace, or answered with header intact and, unless its overlaps are harmful, exactly the buffers that should be delivered |
| SlotLedger.Owner.AllocRun | components/ntos-executive/src/main.rs:7616-7641 | a run of slots none of which was live |
| SlotLedger.Owner.RecycleUnoccupiedRun | components/ntos-executive/src/acpi_platform.rs:497-503 | each loose slot of the run is released, once |
| SlotLedger.Owner.Recycle | components/ntos-executive/src/main.rs:7816-7841 | releases one live, loose slot; demanded of every caller, so no slot is released twice |
| SlotLedger.Owner.CopyCap | components/ntos-executive/src/main.rs:12867-12891 | a copy in a fresh slot, or no slot taken |
| SlotLedger.Owner.AdoptAlias | components/ntos-executive/src/hosted_pnp_context.rs:358-362 | a loose slot becomes an owned alias; the reserved room is never exceeded |
| SlotLedger.Owner.AdoptFrame | components/ntos-executive/src/hosted_pnp_context.rs:368-373 | a loose slot becomes an owned root frame; the reserved room is never exceeded |
| SlotLedger.Owner.PopAlias | components/ntos-executive/src/hosted_pnp_context.rs:403-418 | the last alias is unmapped, deleted and recycled, or still owned |
| SlotLedger.Owner.PopFrame | components/ntos-executive/src/hosted_pnp_context.rs:419-434 | the last root frame is deleted and recycled, or still owned |
| SlotLedger.Owner.ReserveSpan | components/ntos-executive/src/hosted_pnp_context.rs:509-527 | a span that overlaps none held from the same pool, recorded in the ledger |
| SlotLedger.Owner.RollbackTo | components/ntos-executive/src/hosted_pnp_context.rs:401-444 | everything above the checkpoint is released once or still owned, nothing below changes, mappings outside the rolled-back addresses stay, no loose slot is touched |
| AcpiAuthority.Abandon | components/ntos-executive/src/acpi_platform.rs:497-503 | an abandoned acquisition leaves exactly the slots loose that were loose before it, every slot held before it held for the same page, and every mapping outside its own addresses |
| AcpiAuthority.MapAlias | components/ntos-executive/src/acpi_platform.rs:297-327 | paging, copy and map in turn: the page mapped through a new alias, or at most an unmapped alias is left; each failure has its status |
| AcpiAuthority.ClaimFrame | components/ntos-executive/src/acpi_platform.rs:268-327 | one page: the frame is unadopted, adopted, or adopted with the expected page mapped at its window address; conflicting addresses exactly when the kernel gave another page |
| AcpiAuthority.ClaimAdvances | components/ntos-executive/src/acpi_platform.rs:267-329 | after each page the claimed pages are held and the rest of the run is loose |
| AcpiAuthority.ClaimFrames | components/ntos-executive/src/acpi_platform.rs:266-329 | every page claimed, or everything given back |
| AcpiReader.UniqueDeviceUntyped | components/ntos-executive/src/main.rs:27403-27435 | the one device untyped covering a page-aligned range, none when there is none or more than one |
| AcpiReader.WindowShows | components/ntos-executive/src/acpi_platform.rs:384-397 | inside a claimed region the window shows exactly the physical byte |
| AcpiReader.PhysicalReader.ClaimPage | components/ntos-executive/src/acpi_platform.rs:229-339 | for every sequence of kernel outcomes no root slot is leaked or released twice; a failed claim leaves regions and window count unchanged; the first failure's status is the one recorded, and a page without a unique device authority is a conflict |
| AcpiReader.PhysicalReader.ClaimRegion | components/ntos-executive/src/acpi_platform.rs:248-338 | the new region's window follows the others; windows stay disjoint and total at most 4096 pages |
| AcpiReader.OpenReader | components/ntos-executive/src/acpi_platform.rs:205-222 | a reader starts with a span for all its windows reserved and nothing claimed |
| AcpiReader.PhysicalReader.RetainRange | components/ntos-executive/src/acpi_platform.rs:341-363 | on success every page the range touches lies in claimed regions; a malformed range, or one the normaliser has no memory for, is refused with nothing changed and no status recorded; any other refusal has a recorded status |
| AcpiReader.PhysicalReader.Read | components/ntos-executive/src/acpi_platform.rs:366-401 | the read ends and returns exactly the physical bytes of the range however it is split over regions; a refusal short of address overflow has a recorded failure |
| AcpiReader.LedgerDeterminesSlots | components/ntos-executive/src/hosted_pnp_context.rs:401-444 | once the ledger is back where it was, so is every slot |
| AcpiGrant.CanonicalFrameFor | components/ntos-executive/src/acpi_platform.rs:505-515 | a frame exactly when one region contains the address |
| AcpiGrant.CanonicalIsPage | components/ntos-executive/src/acpi_platform.rs:189-192 | the frame found for a page is a capability for that page |
| AcpiGrant.GrantPage | components/ntos-executive/src/acpi_platform.rs:559-607 | one page: its capability is copied, owned and mapped for the broker, or the attempt fails with its slots accounted for; a conflict exactly when not one region contains the page |
| AcpiGrant.TableHeld | components/ntos-executive/src/acpi_platform.rs:807-808 | the regions a reader claimed are all held, with their windows in the span it reserved |
| AcpiGrant.StillGranted | components/ntos-executive/src/acpi_platform.rs:517-620 | a grant leaves every authority granted before in force: its capability copies, its broker mappings and its spans |
| AcpiGrant.PrepareMemoryAuthority | components/ntos-executive/src/acpi_platform.rs:517-620 | authority over every page of the range, each contained in exactly one region, or nothing leaked; either way the ledger's old entries stay a prefix, claimed regions are undisturbed and every earlier authority is still granted; an invalid parameter exactly for an empty or overflowing range |
| AcpiGrant.PrepareMemory | components/ntos-executive/src/acpi_platform.rs:810-843 | granting a list of ranges in order: on success all of them are in force at once, one for each range, no two sharing a broker or component address; on failure nothing granted before is lost |
| PhysicalRanges.RoundAll | crates/nt-acpi/src/lib.rs:666-683 | each range rounded out to the pages it touches; invalid exactly when some range is empty or cannot be rounded in 64 bits |
| PhysicalRanges.SortByStart | crates/nt-acpi/src/lib.rs:684-684 | the same ranges in ascending order of start |
| PhysicalRanges.Merge | crates/nt-acpi/src/lib.rs:685-704 | overlapping and touching ranges become one, and exactly the same addresses are covered |
| PhysicalRanges.Normalize | crates/nt-acpi/src/lib.rs:659-706 | exactly the pages the ranges touch, as whole pages in ascending order, no two ranges overlapping or adjacent |
| PhysicalRanges.TidyUnique | crates/nt-acpi/src/lib.rs:655-706 | there is one such list for each set of pages, so the order and the cutting of the input do not matter |
| PhysicalRanges.Cut | crates/nt-acpi/src/lib.rs:720-755 | what the exclusions leave of one range, in ascending pieces that lie inside it |
| PhysicalRanges.Subtract | crates/nt-acpi/src/lib.rs:713-758 | exactly the pages the ranges touch and no exclusion does, as such a list |

## Left out

- Out-of-memory reporting, debug printing, tracing scopes and context markers: output only.
- Reading heap metadata through memory: the metadata words other than `FREE_HEAD` are fields of `Heap`, so damage to
  them by stray writes is not modelled; damage to the list and its head is.
- Access faults: reads of memory are total, as if every frame were mapped.
- Bit masks are written as division and remainder by the power of two they stand for.
- `grow_own_heap`'s page-table work and the panic when mapping fails half-way: the model grants the whole window
  or refuses.
- The allocator's methods run one at a time: the lock that makes this so is the separate step system `HeapLock`, and
  the two are not composed.
- The copies of the bump allocator in the driver hosts: same code, other sizes.
- Memory ordering beyond a single atomic: a relaxed load may return any past value of that atomic; ordering between
  different locations is not modelled.
- Supervisor.Supervise: does not model process-group termination and message flushing, which do not affect the
  decisions; runs are finite because the environment is a finite sequence of turns.
- The profiler's printing and start-up, and concurrent execution of its callbacks.
- FrameRetirement.Registry.Insert: whether the records grew is a free choice, as their storage is not modelled;
  process identities are numbers, zero being the invalid one.
- Reads and trims of working-set ages (`touch`, trimming candidates): the age is only stored here.
- Admission checks of a release (thread retention, scratch quiescence, window detachment) and the draining of private
  pages before a retirement: modelled as refusals that change nothing here.
- `pageout`, `retry_pending` and multirow transfers of the frame registry: they use the reclamation steps modelled
  here.
- The request and completion rings and notifications between the I/O side and the peer: one request is outstanding at
  a time, answered by its own identifier.
- Header fields that neither side of the staging protocol looks at: carried as bytes.
- `get_frame_paddr` is taken to answer truthfully for a live frame, and kernel frames to be page-aligned.
- SlotLedger.Owner.ReserveSpan: the span allocators are not modelled, so which span is given is a free choice among
  those clear of this ledger's own in the same pool; the rounding of a span to the pool's stride and the spans of other
  ledgers are left out.
- AcpiGrant.PrepareMemory: one list of ranges stands for the read-only, writable and timer ranges in turn; the access
  rights and the resource index of an authority are not modelled.
- PhysicalRanges.SortByStart: an insertion sort for the library's unstable sort, of which only the order and the
  multiset are used.
- ACPI table parsing, `map_executive_hpet`, port authorities, and pinning of root slots.
- System calls, page-table construction, driver-host main programs, boot namespace, ELF loading and the NT services:
  outside the cores chosen here.
