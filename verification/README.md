# Verified kernel core

A Dafny 4.11 model of the memory management, the red-black tree, the scheduler, the timers and the terminals of the i.MX8MP kernel, with proofs
that the in-place algorithms do what their callers rely on. `dafny verify dfyconfig.toml` checks the whole project.

**Page tables** (`Descriptors`, `PageTable`, `MmuMeaning`, `UnmapMeaning`, `MmuLevels`, `Mmu`, `MmuExamples`). Descriptor words are modelled bit
field by bit field, in the VMSAv8-64 formats of the Arm architecture. Table memory is a map from frames
to 512 words, and a ghost place for each table (level, region, parent, index) says that every table is linked once. The meaning of a
tree is what the walk returns for each address. `Map` and `Unmap` are proved against that flat meaning, splitting, linking and freeing
included.

**Red-black tree** (`RbShape`, `RbMemory`, `RbRotate`, `RbInsert`, `RbSearch`, `RbErase`, `RbRemove`, `RbWalk`, `RbTree`). Nodes are
words in a memory, with parent and colour packed in one. A tree and a path to a focus (a zipper) describe memory during the loops.
The two mirror images of each case of the source are one case with a side.

**Buddy allocator** (`BuddyBlocks`, `BuddyTiling`, `FreeLists`, `BuddyNodes`, `PageAllocator`). The node and list-head arrays are
arrays. A ghost tiling gives the blocks, ghost sequences the lists. The central theorem is that the free pages determine the free blocks.

**User memory** (`UserRegions`, `UserBlocks`, `UserAddresses`, `UserSpace`, `UserExamples`). Regions, commit bits, buddy blocks, page tables and bytes of memory in one invariant. The
methods call `Allocator` and `Mapping` above, so the result covers a copy from a kernel buffer down to the physical bytes. Addresses are
64-bit: ends and gaps wrap as in the source.

**Virtual ranges** (`VirtualRanges`, `Vmalloc`). One object stands for one pair of free and reserved lists; the kernel has two.

**Scheduler** (`RunRing`, `TaskAccounts`, `ScanOrder`, `SchedulerFacts`, `PickOrder`, `Scheduler`). Each method is one section under the locks the
source takes, or one atomic operation, so the invariant that all methods keep holds over every interleaving of them. `*` stands for the
outcome of a try-lock.

**Time** (`Clock`, `TimerQueue`). Multiply-and-shift scales, and the ordered event list.

**Slabs** (`SlabCaches`). The bitmaps of one object size and the hint to a free slot, against a full scan.

**Terminals** (`TermBuffer`, `Terminal`). The chunks of the byte queue are arrays. The device is any sequence of answers, so the results hold
for a device that may refuse any byte at any time.

`Arithmetic` and `Sequences` hold what several of these share.

Where a property one would expect is false of the code, the code is modelled as it is, with the exact condition and an input.
- `mmu_unmap` may leave translated pages: `UnmapCompleteIff`, `SkippedPageStaysMapped`.
- A live last-level page under a larger block trips an assertion: `Obstructed`, `UnmapFails`, `UnmapMappedIff`, `LivePageObstructs`.
- A large block of user memory off a 2 MiB boundary cannot be freed: `BlockUnmapIff`, `DestroyRegion`, `StuckRegion`.
- A region of more than 64 pages that was never committed cannot be freed: `DestroyRegion`, `Free`, `UntouchedFreeableIff`.
- The access check of a range whose end wraps checks nothing or one page: `CheckSoundIff`, `LastPageUnchecked`.
- A region above the user limit makes the search for room hand out taken pages: `FindFree`, `ReserveAnywhere`, `TakenPageFound`.
- Committing a partly committed chunk replaces committed pages, since the tree insertion treats the overlap code of its condition as
  `greater`, or trips an assertion where it meets a block of the same start: `MapAgreesIff`, `MixedChunk`, `SameStart`.
- A merge may read past its array unless the page count is a power of two: `BuddyInRangeIff`.
- Freeing a page inside an allocated block goes unnoticed: `PageFree`, `NoTiling`, `InnerPageFreed`.
- A dead task can get a thread: `Spawn`.
- The scale loop leaves 64 bits, the clock turns negative, an event before the clock's offset is armed late: `NsOverflowIff`,
  `MonotoneIff`, `ArmedInTimeIff`, `InTimeIffNotBeforeOffset`.
- Printing an empty slice reports that nothing waits while bytes wait: `PrintSlice`.

A panic or a failed assertion of the source is an outcome of the method, and nothing is claimed about the state after it.

## Model

| member | source | states |
|---|---|---|
| Descriptors.BlockDescriptorHeader | src/arm/mmu/mmu_dc.h:275-300 | every built block or page descriptor is valid, has the type of its level, and keeps the low 36 bits of the frame number |
| Descriptors.BlockDescriptorCfg | src/arm/mmu/mmu_tbl_ctrl.h:14-26 | reading the attributes of a built descriptor gives the configuration cut to the field widths |
| Descriptors.StoredCfgExact | src/arm/mmu/mmu_tbl_ctrl.h:14-26 | attributes survive building and reading exactly when they fit their fields (if and only if) |
| Descriptors.ReadCfgInWidth | src/arm/mmu/mmu_tbl_ctrl.h:14-26 | attributes read from any word fit their fields, so splitting a block never loses one |
| Descriptors.TableDescriptorHeader | src/arm/mmu/mmu_dc.h:262-273 | a built table descriptor is a valid table at levels 0 to 2 and names the given frame |
| PageTable.WalkReaches | src/arm/mmu/mmu.c:341-400 | in a well-formed tree the walk of an address passes through every table that covers it |
| PageTable.NoFaults | src/arm/mmu/mmu.c:341-400 | no walk in a well-formed tree meets a missing table or a bad descriptor |
| PageTable.SetTerminal | src/arm/mmu/mmu.c:181-196 | writing a leaf or an absent entry changes the walks of exactly the addresses of that entry, and keeps the tree well formed |
| PageTable.LinkTable | src/arm/mmu/mmu_tbl_ctrl.h:114-147 | hanging a fresh table below an entry replaces its walks by those of the new table, and keeps every table linked once |
| PageTable.DropSubtree | src/arm/mmu/mmu_tbl_ctrl.h:160-173 | removing the tables under an entry keeps the rest well formed and changes no walk outside the entry |
| PageTable.LivePageIff | src/arm/mmu/mmu_tbl_ctrl.h:160-173 | a last-level page is live below a table exactly when the walk of some covered address ends at one |
| MmuMeaning.InRangeIff | src/arm/mmu/mmu.c:13-67 | the sign-bit and overflow tests accept exactly the non-empty ranges inside the mapping's half |
| MmuMeaning.SplitMeaning | src/arm/mmu/mmu_tbl_ctrl.h:114-147 | the table written for a block translates every address as the block did, one level deeper |
| MmuMeaning.TargetAligned | src/arm/mmu/mmu.c:70-92 | the chosen block level fits the remaining size and both addresses, and leaves an aligned remainder |
| UnmapMeaning.CompleteFromOutside | src/arm/mmu/mmu.c:204-326 | on any tree, holes included, a request that does not start strictly inside an absent entry clears every translated page of its range |
| UnmapMeaning.UnmapCompleteIff | src/arm/mmu/mmu.c:204-326 | every page of the range ends up untranslated exactly when the range does not start inside an absent entry from which a stride leads over translated pages (if and only if) |
| UnmapMeaning.UnmapFullyMapped | src/arm/mmu/mmu.c:204-326 | a range that is translated throughout is cleared throughout |
| UnmapMeaning.ClearedInside | src/arm/mmu/mmu.c:204-326 | nothing outside the range is cleared |
| UnmapMeaning.MapThenUnmap | src/arm/mmu/mmu.c:101-326 | mapping an untranslated range and unmapping it gives back every translation |
| MmuLevels.UnmapMappedIff | src/arm/mmu/mmu.c:101-326 | unmapping a range that one request mapped trips an assertion exactly when the range holds a whole 2 MiB slot and virtual and physical address differ modulo 2 MiB; it never splits a block (if and only if) |
| MmuLevels.LevelsSurvive | src/arm/mmu/mmu.c:101-326 | requests elsewhere leave a mapped range served by the same kind of blocks |
| MmuExamples.SkippedPageStaysMapped | src/arm/mmu/mmu.c:268-273 | unmapping past an absent large entry leaves a translated page of the range in place |
| MmuExamples.LivePageObstructs | src/arm/mmu/mmu.c:184-190 | mapping or unmapping a large block over a live last-level page trips the assertion |
| Mmu.GetTargetLevel | src/arm/mmu/mmu.c:70-92 | the largest block level that fits size and alignment |
| Mmu.SplitEntries | src/arm/mmu/mmu_tbl_ctrl.h:114-147 | the 512 descriptors of a split block, each with its share of the output range and the block's attributes |
| Mmu.Mapping.constructor | include/arm/mmu.h:283-307 | a new mapping is one empty table and translates nothing |
| Mmu.Mapping.SplitBlock | src/arm/mmu/mmu_tbl_ctrl.h:114-147 | no address changes its translation; one frame moves from the pool into the tree |
| Mmu.Mapping.Descend | src/arm/mmu/mmu.c:133-180 | the walk reaches the target level, splitting blocks and linking empty tables on the way, and no translation changes |
| Mmu.Mapping.FreeTable | src/arm/mmu/mmu_tbl_ctrl.h:160-173 | the subtree's frames return to the pool; refused exactly when it holds a live last-level page |
| Mmu.Mapping.MapBlock | src/arm/mmu/mmu.c:130-196 | one block is translated as asked, everything else as before |
| Mmu.Mapping.Map | src/arm/mmu/mmu.c:101-201 | the tree read as a flat map: the range goes to its physical range with the given attributes and all else is unchanged; the exact range error; assertions only for misaligned or obstructed requests; every address is served by the largest block that can serve it, levels 1, 2 and 3 told apart; frames are conserved and never shared |
| Mmu.Mapping.Unmap | src/arm/mmu/mmu.c:204-326 | the cleared addresses are untranslated and all else is unchanged; the exact error and assertion cases; it runs out of frames only where a block has to be split; frames are conserved |
| Mmu.Mapping.WalkPage | src/arm/mmu/mmu.c:341-400 | the walk returns the meaning of the address and never panics in a well-formed tree |
| RbMemory.ViewZip | src/lib/data_structures/rbtree.c:30-68 | a focused view of the tree in memory is the same as the whole tree, parent links and packed colours included |
| RbRotate.RotateView | src/lib/data_structures/rbtree.c:70-92 | the words written by a single rotation hold the rotated tree, whatever the side |
| RbRotate.RotateInnerView | src/lib/data_structures/rbtree.c:269-358 | the words written by a double rotation hold the rotated tree |
| RbShape.RotateItems | src/lib/data_structures/rbtree.c:269-358 | a rotation keeps the in-order sequence |
| RbShape.ZipRedBlack | src/lib/data_structures/rbtree.c:269-358 | a tree is red-black exactly through its path: local rules along the path and below it make the whole tree red-black |
| RbInsert.RecolorRules | src/lib/data_structures/rbtree.c:269-358 | recolouring a red uncle moves the only red-red violation two levels up |
| RbInsert.OuterRules | src/lib/data_structures/rbtree.c:269-358 | the outer rotation removes the last red-red violation and keeps black heights |
| RbInsert.InnerRules | src/lib/data_structures/rbtree.c:269-358 | the inner rotation removes the last red-red violation and keeps black heights |
| RbErase.RedSiblingRules | src/lib/data_structures/rbtree.c:360-464 | the rotation for a red sibling keeps every rule but the missing black, and gives a black sibling |
| RbErase.BlackSiblingRules | src/lib/data_structures/rbtree.c:360-464 | reddening the sibling moves the missing black one level up or repairs it at a red parent |
| RbErase.OuterNephewRules | src/lib/data_structures/rbtree.c:360-464 | the rotation with a red outer nephew restores every rule |
| RbErase.InnerNephewRules | src/lib/data_structures/rbtree.c:360-464 | the double rotation with a red inner nephew restores every rule |
| RbRemove.SubstituteView | src/lib/data_structures/rbtree.c:657-702 | putting the successor in the place of a removed node keeps the rest of the tree in memory |
| RbRemove.RemoveInserted | src/lib/data_structures/rbtree.c:527-708 | removing a node just inserted gives back the sequence of items |
| RbWalk.WalkOrders | src/lib/data_structures/rbtree.c:466-504 | the two walks are the key order and its reverse |
| RbWalk.HeightBound | src/lib/data_structures/rbtree.c:104-112 | a red-black tree of n nodes has height at most 2 log2 (n + 1) |
| RbWalk.PostOrderOnce | src/lib/data_structures/rbtree.c:710-740 | the freeing order lists every node once |
| RbWalk.PostOrderBelow | src/lib/data_structures/rbtree.c:710-740 | every node is freed after all nodes of its subtree |
| RbTree.RbTree.RotateSetParents | src/lib/data_structures/rbtree.c:70-92 | exactly the parent, colour and child words that a rotation rewrites |
| RbTree.RbTree.InsertRebalance | src/lib/data_structures/rbtree.c:269-358 | from a tree whose only fault is one red-red edge the loop ends in a red-black tree with the same items |
| RbTree.RbTree.FindU64 | src/lib/data_structures/rbtree.c:104-112 | the node with the key, or 0 exactly when there is none, in at most 2 log2 (n + 1) steps |
| RbTree.RbTree.InsertU64 | src/lib/data_structures/rbtree.c:527-546 | adds exactly the node in key order and keeps the tree red-black, or rejects a present key and changes nothing |
| RbTree.RbTree.EraseColor | src/lib/data_structures/rbtree.c:360-464 | the fix-up loop ends, and restores the red-black rules with the same items |
| RbTree.RbTree.Transplant | src/lib/data_structures/rbtree.c:657-702 | the words written when a node with two children is replaced by its successor |
| RbTree.RbTree.Detach | src/lib/data_structures/rbtree.c:611-704 | exactly the given node leaves the tree, and the place and kind of the missing black are reported |
| RbTree.RbTree.Remove | src/lib/data_structures/rbtree.c:611-708 | exactly the given node is removed, the tree stays red-black and sorted, and no word outside it is written |
| RbTree.RbTree.Next | src/lib/data_structures/rbtree.c:466-504 | the next node towards either side, or 0 at the end, with the rest of the walk known |
| RbTree.RbTree.ForEach | src/lib/data_structures/rbtree.c:589-609 | the visitor sees a prefix of the items in key order, or in reverse; it accepts all of it but perhaps the last, which it refuses unless it saw everything |
| RbTree.RbTree.Destroy | src/lib/data_structures/rbtree.c:710-740 | every node is freed once, in post-order; freed nodes leave memory and are not read again; other memory is unchanged |
| BuddyBlocks.BuddyHalves | src/kernel/mm/malloc/page_allocator/page_allocator.c:73-82 | the two buddies are the halves of the aligned block one order up |
| BuddyBlocks.Nested | src/kernel/mm/malloc/page_allocator/page_allocator.c:73-82 | two aligned blocks that meet are nested |
| BuddyBlocks.BuddyInRangeIff | src/kernel/mm/malloc/page_allocator/page_allocator.c:252-277 | the buddy that a merge reads lies inside the node array, for every block, exactly when the page count is a power of two (if and only if) |
| BuddyTiling.RunInBlock | src/kernel/mm/malloc/page_allocator/page_allocator.c:252-277 | an aligned run of free pages lies inside one free block |
| BuddyTiling.FreePagesDetermine | src/kernel/mm/malloc/page_allocator/page_allocator.c:227-328 | the set of free pages alone determines every free block, whatever the history and however the other pages are cut into allocated blocks (if and only if) |
| BuddyNodes.ListsDetermined | src/kernel/mm/malloc/page_allocator/page_allocator.c:176-224 | with the same pages free, every free list holds the same blocks |
| BuddyTiling.AllocatedDetermines | src/kernel/mm/malloc/page_allocator/page_allocator.c:227-328 | the allocated blocks determine the whole tiling |
| BuddyTiling.FreeIffNotTaken | src/kernel/mm/malloc/page_allocator/page_allocator.c:311-328 | the free pages are those outside the allocated blocks |
| BuddyNodes.StaleOrder | src/kernel/mm/malloc/page_allocator/page_allocator.c:155-173 | the order kept by a page inside a block is below the order of the block |
| BuddyNodes.InnerIff | src/kernel/mm/malloc/page_allocator/page_allocator.c:155-173 | the inner-index scan answers whether the page lies inside, not at the start of, a free block (if and only if) |
| BuddyNodes.NoTiling | src/kernel/mm/malloc/page_allocator/page_allocator.c:311-328 | freeing a page inside an allocated block leaves nodes that no tiling explains |
| BuddyNodes.InnerPageFreed | src/kernel/mm/malloc/page_allocator/page_allocator.c:311-328 | two pages in one allocated block: an allocator state and a page for which that happens |
| BuddyNodes.MallocThenFree | src/kernel/mm/malloc/page_allocator/page_allocator.c:280-328 | freeing what was just allocated gives back exactly the same blocks |
| FreeLists.PushedLinks | src/kernel/mm/malloc/page_allocator/page_allocator.c:176-195 | a pushed node is linked both ways at the head of its order's list, and every list holds exactly the free nodes of its order |
| FreeLists.RemovedLinks | src/kernel/mm/malloc/page_allocator/page_allocator.c:198-224 | a removed node is unlinked from both neighbours, and every list holds exactly the free nodes of its order |
| PageAllocator.LargestPiece | src/kernel/mm/malloc/page_allocator/page_allocator.c:500-514 | the largest aligned block that starts at a page and fits |
| PageAllocator.Allocator.constructor | src/kernel/mm/malloc/page_allocator/page_allocator.c:434-483 | every page is free, in merged aligned blocks, for any page count |
| PageAllocator.Allocator.PushToList | src/kernel/mm/malloc/page_allocator/page_allocator.c:176-195 | the lists stay exact; only links and the one free bit change |
| PageAllocator.Allocator.RemoveFromList | src/kernel/mm/malloc/page_allocator/page_allocator.c:198-224 | the lists stay exact; only links and the one free bit change |
| PageAllocator.Allocator.SplitToOrderAndPop | src/kernel/mm/malloc/page_allocator/page_allocator.c:227-249 | the block shrinks to the asked order, the rest is free again, and nothing else is allocated |
| PageAllocator.Allocator.TryMerge | src/kernel/mm/malloc/page_allocator/page_allocator.c:252-277 | all merges are done, with the same allocated blocks; on a page inside an allocated block nothing changes |
| PageAllocator.Allocator.PageMalloc | src/kernel/mm/malloc/page_allocator/page_allocator.c:280-308 | fails exactly when no aligned run of the order is free; otherwise exactly that run is allocated and tagged |
| PageAllocator.Allocator.IsInOrderFreeList | src/kernel/mm/malloc/page_allocator/page_allocator.c:129-147 | membership in the list of an order |
| PageAllocator.Allocator.IsInnerIdx | src/kernel/mm/malloc/page_allocator/page_allocator.c:155-173 | true exactly for the pages inside, not at the start of, a free block |
| PageAllocator.Allocator.PageFree | src/kernel/mm/malloc/page_allocator/page_allocator.c:311-328 | the exact case of each refusal; a freed block leaves the allocated blocks and everything is merged; for a page inside an allocated block no tiling explains the result |
| PageAllocator.Allocator.Reserve | src/kernel/mm/malloc/page_allocator/page_allocator.c:390-432 | succeeds exactly when the aligned run is wholly free, and allocates exactly it |
| PageAllocator.Allocator.ReserveRegion | src/kernel/mm/malloc/page_allocator/page_allocator.c:500-520 | succeeds exactly when every page is free; takes exactly those pages and tags the new blocks |
| PageAllocator.Allocator.UpdateMemregs | src/kernel/mm/malloc/page_allocator/page_allocator.c:486-522 | succeeds exactly when every region to reserve is free and meets no earlier one; takes exactly those pages |
| RunRing.InsertedRings | src/kernel/scheduler/scheduler.c:437-463 | the node is linked both ways at the end of its ring, and the other rings are untouched |
| RunRing.DetachedRings | src/kernel/scheduler/scheduler.c:465-484 | the node is on no ring any more, and the links of the others close over it |
| TaskAccounts.Spawned | src/kernel/scheduler/scheduler.c:508-553 | a new thread keeps every counter and reference list in agreement with the rings |
| TaskAccounts.Reaped | src/kernel/scheduler/scheduler.c:641-664 | an unlinked thread keeps every counter and list in agreement; the task is dead when it was the last |
| TaskAccounts.Moved | src/kernel/scheduler/scheduler.c:612-636 | a stolen thread keeps every counter and list in agreement |
| TaskAccounts.StealLowers | src/kernel/scheduler/scheduler.c:595-636 | a steal strictly lowers the sum of squared per-queue counts |
| TaskAccounts.RefCountIsSum | src/kernel/scheduler/task.c:63-137 | a task's reference count is the sum of its per-queue counts |
| ScanOrder.EveryTurn | src/kernel/scheduler/scheduler.c:776-876 | in a ring of n ready threads every one has its turn within n calls |
| PickOrder.FirstCandidate | src/kernel/scheduler/scheduler.c:776-876 | whatever was reaped and stolen on the way, a picked thread of the old ring is the first candidate behind the current one, and a stolen one is picked only if none stood between the current one and the ring's end |
| PickOrder.RoundStep | src/kernel/scheduler/scheduler.c:723-877 | with only candidates in the ring a call reaps nothing and picks the next thread |
| Scheduler.LeastLoaded | src/kernel/scheduler/scheduler.c:496-513 | the first queue that is least by task count and then by total count |
| Scheduler.MostLoaded | src/kernel/scheduler/scheduler.c:581-604 | the queue with most threads of the task, ties by total count, and their sum |
| Scheduler.RunQueues.constructor | src/kernel/scheduler/scheduler.c:168-189 | empty rings, zero counts |
| Scheduler.RunQueues.AddTask | src/kernel/scheduler/task.c:33-56 | a task without threads |
| Scheduler.RunQueues.InsertNode | src/kernel/scheduler/scheduler.c:437-463 | ring and count grow by the node |
| Scheduler.RunQueues.RemoveNode | src/kernel/scheduler/scheduler.c:465-484 | ring and count lose the node |
| Scheduler.RunQueues.FindOnQueue | src/kernel/scheduler/task.c:175-191 | a reference on the queue, or none exactly when there is none |
| Scheduler.RunQueues.TryBalance | src/kernel/scheduler/scheduler.c:573-637 | either nothing changes, or one thread that is neither running nor current is stolen and the task's spread is strictly more even; an even task is left alone |
| Scheduler.RunQueues.DeleteRef | src/kernel/scheduler/task.c:91-137 | the reference and its counts go; the task is dead when it was the last |
| Scheduler.RunQueues.Unqueue | src/kernel/scheduler/scheduler.c:641-693 | a dead thread leaves ring, task and total, and all counters agree again |
| Scheduler.RunQueues.Spawn | src/kernel/scheduler/scheduler.c:487-571 | a thread joins the least loaded queue or the caller's own; refused exactly at the thread limit; the invariant holds afterwards exactly when the task was not dead |
| Scheduler.RunQueues.Kill | include/kernel/scheduler.h:78-81 | the previous state; dead from then on |
| Scheduler.RunQueues.Promote | include/kernel/scheduler.h:84-97 | from new to ready and from no other state; a dead thread stays dead |
| Scheduler.RunQueues.Terminate | src/kernel/scheduler/task.c:139-152 | the task is dying, and the first call decides the exit code |
| Scheduler.RunQueues.GiveWay | src/kernel/scheduler/scheduler.c:733-774 | the current thread becomes ready, or is reaped if it was killed, and the scan starts behind it |
| Scheduler.RunQueues.Select | src/kernel/scheduler/scheduler.c:776-852 | the selection loop ends, reaps only dead or dying threads, passes only new ones, in the order of the ring and of the threads stolen meanwhile, and stops at a ready thread of a task that is not dying, or when the ring is empty |
| Scheduler.RunQueues.Schedule | src/kernel/scheduler/scheduler.c:723-877 | in every run, stealing included: the ring is what is left of the old one followed by the stolen threads, which come from other queues, at most one for each thread reaped; every thread examined before the picked one is freed or waits, and no other is freed; only the picked thread runs; no counter disagrees and no panic is reached |
| Scheduler.RunQueues.RunTurns | src/kernel/scheduler/scheduler.c:723-877 | repeated calls run the threads of a ring of candidates in turn |
| UserRegions.NoWriteExec | src/kernel/mm/malloc/uregion.c:146-195 | user pages are never kernel-executable, and writable ones are executable by nobody |
| UserRegions.UnmappedFree | src/arm/mmu/mmu.c:181-190 | mapping an untranslated range meets no live page, so it cannot trip the assertion |
| UserRegions.MapDone | src/kernel/mm/malloc/uregion.c:370-424 | one more block keeps regions, blocks and page tables in agreement |
| UserRegions.MapAgreesIff | src/kernel/mm/malloc/uregion.c:296-420 | where the insertion of a block goes through, regions and page tables agree afterwards exactly when no page of the block's range had a block; the insertion notices an overlap only with a block of the same start that its search meets, and then an assertion fails (if and only if) |
| UserExamples.MixedChunk | src/kernel/mm/malloc/uregion.c:765-791 | a region of two pages with its page tables, only the second page committed: its range mixes both kinds, and no block has the start of the one that a commit on demand adds |
| UserExamples.SameStart | src/kernel/mm/malloc/uregion.c:396-409 | the same with only the first page committed: its one block starts where the new one does, and the insertion asserts |
| UserExamples.TablesAgree | src/kernel/mm/malloc/uregion.c:370-424 | the page tables of these regions translate exactly the pages of their one block, with the region's permissions |
| UserRegions.CommitsKeep | src/kernel/mm/malloc/uregion.c:745-794 | committing on demand changes no existing translation, and adds none outside the checked range |
| UserRegions.NothingLeaks | src/kernel/mm/malloc/uregion.c:370-622 | a task that owned no block and owns none again has left the buddy allocator exactly as it was, whatever it did between |
| UserBlocks.BlockUnmapIff | src/kernel/mm/malloc/uregion.c:567-574 | unmapping a block of a region trips an assertion exactly when it has 1024 pages or more and a user address off a 2 MiB boundary, and never needs a frame (if and only if) |
| UserExamples.StuckRegion | src/kernel/mm/malloc/uregion.c:581-592 | a region of 4 MiB one page above a 2 MiB boundary, with well-formed page tables that agree with it, whose one block cannot be unmapped |
| UserBlocks.UntouchedFreeableIff | src/kernel/mm/malloc/uregion.c:70-84 | a region that was reserved and never committed can be freed exactly when it has at most 64 pages: a larger one has no bitmap to free (if and only if) |
| UserAddresses.CheckSoundIff | src/kernel/mm/malloc/uregion.c:745-794 | passing the access check implies that every byte is accessible, in every state, exactly when the range is empty, its rounded end does not wrap at 2^64, or its first page is checked and lies above the user limit (if and only if) |
| UserAddresses.LastPageUnchecked | src/kernel/mm/malloc/uregion.c:756-761 | for the last page of the 64-bit space the check examines nothing in any state, and nothing is accessible there |
| UserAddresses.FoundIff | src/kernel/mm/malloc/uregion.c:197-206 | a region is found for exactly the addresses in it, unless its end wraps, and then for none |
| UserAddresses.WrappedCompares | src/kernel/mm/malloc/uregion.c:208-220 | a region whose end wraps is never taken to overlap another |
| UserAddresses.TakenPageFound | src/kernel/mm/malloc/uregion.c:806-828 | two regions, one above the user limit, for which the search hands out a taken page |
| UserRegions.AgreesDropped | src/kernel/mm/malloc/uregion.c:559-579 | unmapping a destroyed block keeps regions, blocks and page tables in agreement |
| UserRegions.PhysApart | src/kernel/mm/malloc/uregion.c:370-424 | no two user addresses share a byte of physical memory |
| UserRegions.CommitBitMeans | src/kernel/mm/malloc/uregion.c:86-107 | a page's commit bit is set exactly when one block lies behind it, and exactly when the tables translate it, with the region's permissions |
| UserRegions.CountSetFull | src/kernel/mm/malloc/uregion.c:115-144 | the bit count is the page count exactly when every page is marked, and 0 exactly when none is |
| UserRegions.CopyRoundTrip | src/kernel/mm/malloc/uregion.c:864-923 | bytes copied to user memory and back are the same bytes |
| UserSpace.UserSpace.constructor | src/kernel/scheduler/task.c:33-56 | a task without regions, whose tables translate nothing |
| UserSpace.UserSpace.MapUserRegion | src/kernel/mm/malloc/uregion.c:370-424 | the whole range is backed by buddy blocks and translated, and no other page; blocks of others are untouched; it fails only for bad flags, missing table frames or a missing free run |
| UserSpace.UserSpace.CommittedSet | src/kernel/mm/malloc/uregion.c:86-107 | exactly the bits of the pages are set |
| UserSpace.UserSpace.CountCommitted | src/kernel/mm/malloc/uregion.c:115-144 | the number of marked pages |
| UserSpace.UserSpace.Commit | src/kernel/mm/malloc/uregion.c:426-473 | the pages become committed in bits, blocks and tables, and nothing else changes; the reasons of a failure |
| UserSpace.UserSpace.FindRegion | src/kernel/mm/malloc/uregion.c:223-236 | the region that holds an address, or none exactly when there is none |
| UserSpace.UserSpace.Reserve | src/kernel/mm/malloc/uregion.c:475-496 | for any 64-bit address: refused exactly when the end does not wrap and the range overlaps a region; the invariant holds afterwards exactly when it was refused or the end does not wrap |
| UserSpace.UserSpace.ReserveStatic | src/kernel/mm/malloc/uregion.c:498-534 | a new region that is committed throughout |
| UserSpace.UserSpace.ChunkCommitted | src/kernel/mm/malloc/uregion.c:653-695 | whether every byte of the chunk is committed, by flags or by bits |
| UserSpace.UserSpace.CheckPass | src/kernel/mm/malloc/uregion.c:745-780 | the first address that is not reserved, not allowed or not committed decides the answer; the areas to commit are apart and uncommitted |
| UserSpace.UserSpace.CheckAccess | src/kernel/mm/malloc/uregion.c:745-794 | on success every byte of the range, up to its end rounded in 64 bits, is accessible, missing pages having been committed, and no existing translation changed; on refusal some byte is not accessible, and nothing changed; pages are replaced only if a region mixes committed and uncommitted pages of the range, and success on demand means that none does |
| UserSpace.UserSpace.CopyIn | src/kernel/mm/malloc/uregion.c:892-920 | where every byte is accessible, each lands where its user address is translated to, and no other byte of memory changes; success means that the range ends below the user limit; otherwise the copy stops at an address of the range in no region, or in a page without a block |
| UserSpace.UserSpace.CopyOut | src/kernel/mm/malloc/uregion.c:892-920 | every byte is read from where its user address is translated to |
| UserSpace.UserSpace.CopyToUser | src/kernel/mm/malloc/uregion.c:864-923 | a flat byte copy through translation, across blocks and regions, or a refusal that writes no byte; only for a range whose end wraps the source comes to an address in no region, where it follows a null link, or in an uncommitted page, where it goes on with a stale block |
| UserSpace.UserSpace.CopyFromUser | src/kernel/mm/malloc/uregion.c:864-923 | a flat byte copy through translation, across blocks and regions, or a refusal that writes no byte; only for a range whose end wraps the source comes to an address in no region, where it follows a null link, or in an uncommitted page, where it goes on with a stale block |
| UserSpace.UserSpace.FindFree | src/kernel/mm/malloc/uregion.c:806-854 | with no region above the user limit: the highest room of the size, and none only when there is none; otherwise the pages just below the limit, which are the highest room exactly when they are free (if and only if) |
| UserSpace.UserSpace.ReserveAnywhere | src/kernel/syscall/handlers/mmap.c:87-104 | reserving at the address that was found succeeds exactly when no region lies above the limit or the pages below the limit are free; the reserved range is then the highest room (if and only if) |
| UserSpace.UserSpace.DestroyBlock | src/kernel/mm/malloc/uregion.c:559-579 | fails exactly when the block is stuck; otherwise exactly the block returns to the allocator and its range, no more and no less, is untranslated (if and only if) |
| UserSpace.UserSpace.DestroyRegion | src/kernel/mm/malloc/uregion.c:581-592 | fails exactly when a block of the region is stuck, or the region has more than 64 pages and was never committed; otherwise the region and all its blocks are gone, its range is untranslated, and other regions and blocks of others are unchanged (if and only if) |
| UserSpace.UserSpace.Free | src/kernel/mm/malloc/uregion.c:594-622 | the exact refusals and panics: freed exactly when the range is a whole region without a stuck block, of at most 64 pages or committed before; a freed region is gone and untranslated and the rest is unchanged (if and only if) |
| VirtualRanges.MaximalUnique | src/kernel/mm/malloc/vmalloc/vmalloc.c:145-198 | the spans of a free list are determined by the addresses they cover |
| VirtualRanges.RunInSpan | src/kernel/mm/malloc/vmalloc/vmalloc.c:225-296 | a range is wholly free exactly when one span holds it |
| VirtualRanges.TakeThenGive | src/kernel/mm/malloc/vmalloc/vmalloc.c:145-355 | taking a range and giving it back leaves exactly the same free list |
| Vmalloc.RangeLists.constructor | src/kernel/mm/malloc/vmalloc/vmalloc.c:72-95 | one free span over the whole range |
| Vmalloc.RangeLists.ReserveFrom | src/kernel/mm/malloc/vmalloc/vmalloc.c:145-198 | the four ways of cutting a span: exactly the range leaves, and the spans stay maximal |
| Vmalloc.RangeLists.PopAt | src/kernel/mm/malloc/vmalloc/vmalloc.c:225-296 | the fixed list gives a range exactly when it is wholly free |
| Vmalloc.RangeLists.PopAny | src/kernel/mm/malloc/vmalloc/vmalloc.c:225-296 | the dynamic list gives a range exactly when some span is large enough: from the first span that fits with the wanted alignment, or else from the first that fits |
| Vmalloc.RangeLists.PushFree | src/kernel/mm/malloc/vmalloc/vmalloc.c:299-355 | the range joins its neighbours, and the spans stay maximal |
| Vmalloc.RangeLists.PushReserved | src/kernel/mm/malloc/vmalloc/vmalloc.c:419-471 | the reserved list gains the range in address order |
| Vmalloc.RangeLists.PopReserved | src/kernel/mm/malloc/vmalloc/vmalloc.c:389-416 | the exact case of each outcome, the null link at the end of a list without the start included; otherwise exactly that range leaves the list |
| Vmalloc.RangeLists.VmallocAt | src/kernel/mm/malloc/vmalloc/vmalloc.c:474-508 | for any number of pages: succeeds exactly when it is a power of two, physical pages are to be assigned and the range is wholly free; free and reserved ranges still partition the space, with the same total |
| Arithmetic.IsPow2Iff | include/lib/math.h:65-68 | the test for a power of two (if and only if) |
| Vmalloc.RangeLists.VmallocAny | src/kernel/mm/malloc/vmalloc/vmalloc.c:474-508 | succeeds exactly when some free span is large enough; free and reserved ranges still partition the space, with the same total |
| Vmalloc.RangeLists.Vfree | src/kernel/mm/malloc/vmalloc/vmalloc.c:741-755 | the exact case of each outcome; free and reserved ranges still partition the space, with the same total, and the free spans are maximal |
| Vmalloc.RangeLists.GetAddrInfo | src/kernel/mm/malloc/vmalloc/vmalloc.c:569-622 | an address is free or reserved exactly as the lists say, and unregistered exactly outside the space |
| Clock.Scale | src/kernel/time/time.h:45-57 | the multiplier is below 2^32 and the next shift would not be |
| Clock.NsOverflowIff | src/kernel/time/time.h:45-50 | the shifts stay in 64 bits exactly when the frequency is at most 4 GHz (if and only if) |
| Clock.TicksNoOverflow | src/kernel/time/time.h:52-57 | the inverse scale never leaves 64 bits |
| Clock.ComputeMultShift | src/kernel/time/time.h:38-58 | both scales round down, fit 32 bits and could not be finer |
| Clock.ConversionMonotone | src/kernel/time/time.h:61-75 | both conversions are monotone before they are cut to 64 bits |
| Clock.ConversionError | src/kernel/time/time.h:61-75 | a conversion never exceeds the exact ratio and is short of it by a bounded amount |
| Clock.MonotoneIff | src/kernel/time/time.h:61-67 | the clock, cut to a signed 64-bit number, is monotone up to a tick exactly when its nanoseconds have not passed 2^63 by then (if and only if) |
| Clock.ArmedInTimeIff | src/kernel/time/timer.c:25-44 | the armed tick is no later than any tick at which the event has expired exactly when the event does not expire before the clock's offset, or the tick happens to be 0 (if and only if) |
| Clock.ArmedLate | src/kernel/time/timer.c:25-44 | up to 1 GHz an event that expires before the offset is armed 2^32 ticks or more after the start of the device |
| Clock.InTimeIffNotBeforeOffset | src/kernel/time/timer.c:25-44 | for a clock of at most 1 GHz the armed tick is no later than any tick at which the event has expired exactly when the event does not expire before the clock's offset (if and only if) |
| TimerQueue.Timer.Create | src/kernel/time/timer.c:88-154 | the list stays in order of expiry, ties in order of creation; the device is armed exactly when the new event is the head |
| TimerQueue.Timer.Handle | src/kernel/time/timer.c:46-85 | exactly the expired prefix fires, each event once and never early, and the device is armed for the head that remains |
| TimerQueue.Timer.Cancel | src/kernel/time/timer.c:167-201 | fails exactly when the event is not queued; otherwise exactly the event leaves the list, and a new head is armed |
| TimerQueue.ExpiredPrefix | src/kernel/time/timer.c:46-85 | stopping at the first unexpired event leaves no expired one behind |
| SlabCaches.FindEmptySlot | src/kernel/mm/malloc/cache_malloc/cache_malloc.c:341-373 | the first free slot from a given place on, or none exactly when all from there on are taken, although full words are skipped unread |
| SlabCaches.AddressParts | src/kernel/mm/malloc/cache_malloc/cache_malloc.c:504-515 | the address of an entry gives its slab and its entry back, and the entry ends before the bitmap |
| SlabCaches.LiveApart | src/kernel/mm/malloc/cache_malloc/cache_malloc.c:431-438 | two live objects of a size never overlap, and none reaches the bookkeeping of its slab |
| SlabCaches.Rescan | src/kernel/mm/malloc/cache_malloc/cache_malloc.c:455-476 | the scan names a free slot of a slab, or says that there is none exactly when all slabs are full |
| SlabCaches.SizeClass.Malloc | src/kernel/mm/malloc/cache_malloc/cache_malloc.c:393-491 | the hint agrees with a full scan before and after; the slot search never fails; a new slab is taken exactly when all are full; the object was not live, and it is the only change to the live objects |
| SlabCaches.SizeClass.Free | src/kernel/mm/malloc/cache_malloc/cache_malloc.c:494-589 | freed exactly for a live object, which is the only change to the live objects; a double free, a pointer off the entries and one into no slab are told apart; a slab is given back exactly with its last object; the hint agrees with a full scan afterwards (if and only if) |
| SlabCaches.SizeClass.DropSlab | src/kernel/mm/malloc/cache_malloc/cache_malloc.c:540-588 | an empty slab leaves the list without a change to the live objects, and a hint into it is replaced by a scan |
| TermBuffer.Buffer.Push | src/kernel/io/term/buffers.c:16-77 | the chunks hold one more byte at the end of one sequence; a new chunk doubles what is reserved |
| TermBuffer.Buffer.Peek | src/kernel/io/term/buffers.c:80-94 | the first byte and the number of bytes |
| TermBuffer.Buffer.Pop | src/kernel/io/term/buffers.c:96-117 | exactly the first byte leaves, or none exactly when there is none |
| TermBuffer.Buffer.PopMany | src/kernel/io/term/buffers.c:120-146 | as many bytes as there are, up to the number asked for, leave from the front across chunks, in order, and no other byte of the buffer they go to changes |
| TermBuffer.Buffer.Advance | src/kernel/io/term/buffers.c:43-57 | a chunk is freed exactly when its last byte leaves, and with the last chunk nothing stays reserved |
| Terminal.Term.PrintSlice | src/kernel/io/term/term.c:88-112 | the device is asked only when nothing waits, up to its first refusal, and the rest waits behind all else; the result says that nothing waits, also of an empty slice while bytes wait (if and only if) |
| Terminal.Term.PrintString | src/kernel/io/term/term.c:65-86 | as for a slice, up to the terminating byte; the result is exact (if and only if) |
| Terminal.Term.PrintChar | src/kernel/io/term/term.c:47-62 | one byte; the result is exact (if and only if) |
| Terminal.Term.NotifyReady | src/kernel/io/term/term.c:145-188 | what waits goes to the device in order, up to its first refusal; the result says exactly whether nothing waits (if and only if) |
| Terminal.Term.Flush | src/kernel/io/term/term.c:192-201 | with enough ready answers ahead, all that waits is sent, with exactly one ready answer for each byte |
| Terminal.Term.RemoveHead | src/kernel/io/term/term.c:114-125 | the first bytes that wait go to the reader instead of the device |
| Terminal.Term.Calls | src/kernel/io/term/term.c:47-201 | in every run, with a device that may refuse any byte at any time: bytes that have left followed by bytes that wait are the bytes printed, in order; without removals all that left was taken by the device |

## Left out

- Mmu.Mapping.Map: 4 KiB granule and 48-bit addresses only; frames come from a set instead of an allocator callback, and the operation counters are not modelled.
- Mmu.Mapping.Unmap: requires the range not to run past the 48-bit space, which the source does not check.
- `mmu_delete_mapping`, TLB and cache maintenance, the other granules.
- RbTree.RbTree.SpliceOut: the order of the two writes when a node with one child is replaced is not kept; the words are.
- Signed and comparator-based inserts and searches of the tree; they differ in the comparison only.
- PageAllocator.Allocator.TryMerge: a buddy past the last page counts as not free, where the source reads outside its array; with a power-of-two page count this never happens.
- PageAllocator.Allocator.ReserveRegion: requires pages below the page count, as for the regions of `UpdateMemregs`; the source would index past its array.
- PageAllocator.Allocator.UpdateMemregs: as `ReserveRegion`.
- PageAllocator.Allocator.PageMalloc: requires an order up to the largest, as the source assumes; the packed order and free bits are two fields.
- `page_allocator_get_data` and `page_allocator_set_data`, which pass an order where an index is expected.
- Scheduler.RunQueues.Schedule: requires that a thread can be picked, or that no thread is still new of those in the ring and those of the tasks whose threads are reaped; otherwise the source spins. States are fixed during one call, so a kill or promotion by another core comes before or after it. The sleeping state is never entered by the kernel.
- Scheduler.RunQueues.Spawn: publishing the reference and linking the node are one step.
- `runqueue_pick_ready` and waiting for a ready thread, context switching, the preemption timer, core entry and exit.
- UserSpace.UserSpace.CheckAccess: what becomes of the state when a partly committed chunk is committed is not modelled beyond `MapAgreesIff`; the method reports `AccessReplaces`.
- UserSpace.UserSpace.CopyToUser: where the source follows a null link or a stale block (`NullRegion`, `StaleBlock`), nothing is claimed about the bytes written before or after.
- UserSpace.UserSpace.Reserve: after a region whose end wraps has been let in, `Valid` is gone and nothing more is claimed; the page count is a 32-bit number, the truncation of the byte length by `mmap` and `munmap` comes before it.
- UserSpace.UserSpace.MapUserRegion: requires pages without blocks, by `MapAgreesIff`; an order above the allocator's largest is a failure, where the source asserts in debug builds only.
- UserSpace.UserSpace.Commit: requires pages without blocks, by `MapAgreesIff`; fresh pages are not zeroed, and the kernel's own mapping of them is not modelled.
- UserSpace.UserSpace.FindRegion: the tree of regions is its in-order sequence, and the tree of blocks of a region a set.
- `ustrncpy`, `umemzero`, instruction cache flushing, partial frees of a region (the source panics).
- Vmalloc.RangeLists.VmallocAny: requires a non-empty range.
- Vmalloc.RangeLists.VmallocAt: node storage, tags, the physical-address records of a range and the sign extension of addresses are not modelled.
- Clock.ComputeMultShift: requires a frequency of at most 4 GHz, by `NsOverflowIff`.
- Clock.ConversionError: bounds the result before it is cut to 64 bits; `MonotoneIff` and `ArmedInTimeIff` are about the cut results.
- TimerQueue.Timer.Handle: callbacks are not run; the linked list is a sequence.
- SlabCaches.SizeClass.Malloc: the links between slabs are a sequence; the address of a new slab is a parameter.
- SlabCaches.SizeClass.Free: the size class of a pointer is given; the source finds it by an identifying word in memory.
- The arenas of the user library (`userspace/stl/src/alloc/alloc.cpp`), whose lists are kept in another order than those of `SlabCaches`.
- Terminal.Term.Flush: requires enough ready answers ahead; without them the source spins.
- Terminal.Term.RemoveHead: requires a buffer to copy to; the source also takes none.
- Formatted output and the registry of terminals.
- Locks, drivers, boot code, the ELF loader, system calls: easier versions of what is here, or hardware.
