# quarkOS in Dafny

A model of the stateful cores of quarkOS, a 32-bit x86 kernel, with proofs of what they keep.
Code that changes things in place is modelled by classes and loops; what these compute is stated
on values, and the lasting properties are lemmas about those values.

| modules | what they model |
|---|---|
| `Qlib`, `Dyadic`, `Arith`, `Seqs`, `Platform` | bit tricks of `qlib`, powers of two, shared facts and types |
| `BuddyModel`, `BuddyBytes`, `BuddyAllocator` | the buddy page allocator: tiling, free lists, conservation, split, coalesce |
| `SlabPage`, `SlabLinks`, `Slab`, `SlabAllocator` | slab pages, their free chains in words and in bytes, and their lists |
| `KernelMap`, `Kmalloc`, `KernelHeap` | the linear kernel page table and `kmalloc`/`kfree` over buddy and slab |
| `Bitmap`, `BlockTree`, `BlockFreeing`, `BlockFile`, `BlockRuns` | the ext2 block map: direct and indirect pointers, bitmap, freeing, whole lives of files |
| `DirBlock`, `DirEntries`, `Directory` | ext2 directory blocks and directories |
| `FileBytes`, `FileIO` | reading, writing and seeking in a regular file |
| `Rings`, `Scheduler` | circular lists and the ready queues made of them |
| `Mlfq`, `MlfqEffects`, `MlfqRuns`, `MlfqFairness`, `MlfqPriority` | the scheduler as a state machine, what its steps do, and its runs |
| `Timers`, `SleepTimers` | the pool of sleep timers, and runs of scheduler and timers together |
| `TaskKernel` | the kernel code that refines both |
| `LfQueue`, `PageCache`, `InodeDirty` | the write-back cache over a plain disk, dirty queues, inode states and their way to the disk |
| `RwLock` | the reader/writer spinlock, step by step, for any number of threads |
| `FdTable` | file descriptors and the quadratic-probe index |
| `Malloc` | the user-space allocator |

## Main results

- Page allocator: every allocation and free keeps an aligned tiling with exact free lists and no two free
  buddies; a request is served exactly when an aligned unallocated run exists
  (`BuddyAllocator.Allocator.AllocPage`); the free lists depend on the live blocks alone, not on history
  (`BuddyModel.HistoryIndependent`, `FreeAllRestores`); free and live bytes always add up to all bytes
  (`BuddyBytes.Conservation`).
- Kernel heap: `kmalloc` and `kfree` over page allocator, slabs and page table hand out disjoint regions of
  exactly the rounded size, chunks up to 2048 bytes and blocks of pages up to 4 MiB, fail exactly when nothing
  can serve the request, and keep a frame mapped exactly while its block is live (`KernelHeap.Boot`,
  `Heap.Kmalloc`, `Heap.Kfree`, `MappedIffLive`).
- Block map: three levels of pointers are a plain map; allocation is insertion, exactly when block 0 comes
  first and the free bits suffice (`BlockFile.File.AllocBlock`); freeing is complete exactly without gaps,
  and a file that grew in order leaves no trace (`BlockFreeing.FreesAllIffGapFree`, `BlockRuns.AppendAndFree`);
  the free counter follows the bitmap throughout (`BlockFile.AccountedBalances`, `ClearedBalances`).
- Files: any sequence of appends, a seek and a read give back exactly that slice
  (`FileIO.AppendThenRead`).
- Directories: records always tile their blocks; insertion, removal and lookup are those of a list of
  entries, and of a map when names are distinct (`Directory.Dir.CreateDirEntry`, `RemoveFromParent`,
  `FindEntryDisk`, `DirEntries.LookupAdded`, `LookupRemoved`). An entry is refused by a record only when no
  tiling of its bytes could hold it (`DirBlock.FitsIffRoom`), and removed space is used again
  (`Directory.RemoveThenCreate`).
- Scheduler: in every run each task is in exactly one place (`MlfqRuns.ExactlyOnePlace`), the boost splices
  four rings into one (`Scheduler.ReadyQueues.ResetPriority`), and no queued task starves: with n tasks
  queued at most, each runs within 200 + 11n ticks (`MlfqFairness.NoStarvation`, `NoStarvationInTicks`).
  Between boosts a task's priority is exactly what the slices it used up have left of it
  (`MlfqPriority.PriorityFalls`). A task with a timer runs within 200 + 11n ticks after its time and sleeps
  until then (`SleepTimers.AlarmRuns`, `SleepsOn`). The linked-list code and the timers refine this state
  machine (`TaskKernel`).
- Page cache and inodes: the cache refines a plain disk, and a flush makes the disk equal to it
  (`PageCache.Cache.FlushPages`); after `page_fsync` every field of every inode that was ever marked is on
  the disk (`InodeDirty.InodeTable.PageFsync`, `UpdateAndSync`).
- Reader/writer lock, for any number of threads and every interleaving: exclusion (`RwLock.Exclusion`);
  some thread can always get on, every sequence of such steps ends, and from every reachable state all can
  finish (`Progress`, `FinishingEnds`, `AllFinish`); any set of readers can be inside together, and nobody is
  ever shut out (`ReadersTogether`, `NobodyIsShutOut`).
- User-space `malloc`, slabs and descriptors: exact tilings, disjoint live pieces, inverse tables
  (`Malloc.Allocator.Malloc`, `Slab.OutDisjoint`, `FdTable.Table.AllocFd`).

## How to read it

- A `Valid()` or `Inv` predicate holds at the start (constructor, `InitialInv`, `BootInv`) and is
  kept by every operation, so it holds in every reachable state. The lemmas under "whole runs" say so
  for explicit sequences of steps.
- `None` and `false` results stand for a failed assertion or `error`, after which the kernel stops.
- Addresses and pointers are natural numbers, 0 is NULL. Bit operations are defined on naturals by
  halving; 8-, 16- and 32-bit wrap-around is written out where it can happen (`fixSize`, the free
  counters, the tick, `vfs_lseek`, `allocator.size`).
- Locks are left out except in `RwLock`: each operation is one atomic step.

## Where the code does not do what its comments or callers suggest

- `fixSize` returns 0 above 2^31 (`Qlib.FixSize`).
- `PAGE_FLOOR` rounds up and `PAGE_CEIL` rounds down; the model follows their values.
- `allocator.size` is decremented by an allocation and never restored: it is the free bytes less all bytes
  ever put back, modulo 2^32 (`BuddyAllocator.Allocator.Counted`, kept by `AllocPage` and `FreePage`), so it
  is right exactly when these are a multiple of 2^32 (`BuddyBytes.CounterRight`, `OneFreeIsLost`). What
  `allocator_size` adds up is conserved (`BuddyBytes.Conservation`).
- A slab cache accepts chunks smaller than the 4-byte link of a free chunk; their chain is destroyed as it
  is built (`SlabLinks.LinksSurvive`). The slab allocator is modelled for sizes from 4 on.
- `find_group` halts on a file with blocks but without block 0, so a file that is first written behind its
  direct blocks stops the kernel (`BlockFile.SkippingBlockZeroHalts`; `AllocBlock` says exactly when).
- `free_ptr` stops at the first zero pointer, so a file with holes leaks blocks: it frees everything
  exactly when its tables have no gaps (`BlockFreeing.FreesAllIffGapFree`, `HoleLeaks`). Files that
  only grew at the end have none (`BlockRuns.SequentialGapFree`).
- `clear_block_bitmap` indexes the bitmap of a group by the global block id: it clears the right bit
  exactly in group 0 (`BlockFile.ClearsItsBitInGroupZero`). The block map is modelled in group 0.
- `ext2_read` looks at the end of the last block, not of the file: a read that crosses the end returns
  stale bytes unless the file fills its last block (`FileIO.ReadStopsAtEnd`, `OneByteTooMany`).
- `vfs_lseek` with `SEEK_CUR` adds in 32-bit unsigned arithmetic, so a seek before the start is not
  refused, and `SEEK_CUR` and `SEEK_END` wrap past 2^32 (`FileIO.SeekExact`, `SeekBeforeStart`).
- `mark_inode_dirty` with `I_NEW` on an inode with pending changes loses some of them
  (`InodeDirty.MarkedIsJoin`, `NewMarkLosesTimes`; `InodeTable.Update` says exactly when). An assertion
  there assigns instead of comparing.
- The state of a freshly allocated inode is never set: `inode_cpy` queues the inode exactly when the
  leftover value is not a pending state (`InodeDirty.InodeTable.InodeCpy`). A value outside the enumeration
  turns every mark into `I_NEW`, also `I_DEL`.
- `CACHE_EXPIRES * 1000` is compared with seconds: pages expire after 30000 s, not after the 30 s of its
  comment. The stored time has 32 bits, the subtraction 64 (`PageCache.ExpiredMeans`).
- `page_recycle` subtracts whole pages from a 32-bit size: a size that is not a multiple of the page
  size never reaches zero, so all expired clean pages go (`PageCache.Cache.PageRecycle`).
- Freeing a page is meant to clear its flags, but only sets some (kernel/mm/page_alloc.c:201), and taking it
  clears none: a frame dropped by `page_recycle` and taken for another sector is still marked valid and is
  not read (`PageCache.Cache.PageGet`, `RecycledFrameIsStale`).
- The user-space `malloc` takes its first chunk from 4096 bytes whatever the request: above 4084 bytes the
  rest underflows and the chunk leaves its arena (`Malloc.NewArenaSurvives`, `LargeRequestLeavesArena`).
- A second arena of the user-space allocator is never linked behind the first, so only the first is
  searched (`Malloc.Allocator.Malloc`); the invariant is per arena.

## Model

| member | source | states |
|---|---|---|
| `Qlib.FixSize` | kernel/include/lib/qlib.h:32-41 | `fixSize` returns the least power of two not below its argument for 1 to 2^31, and 0 for 0 and for everything above 2^31, where the 32-bit addition wraps |
| `Qlib.PowerTest` | kernel/include/lib/qlib.h:29 | `IS_POWER_OF_2` on a positive number holds exactly for the powers of two |
| `Qlib.SmearFills` | kernel/include/lib/qlib.h:35-40 | the five shift-or steps fill every bit below the highest one |
| `Qlib.Log2Loop` | kernel/lib/qlib.c:56-63 | `log2` returns the exponent of the highest power of two not above its argument |
| `BuddyAllocator.Allocator.GetPage` | kernel/mm/page_alloc.c:122-134 | `get_page` finds a descriptor exactly for page-aligned addresses from the start of the region on, and it inverts `page_addr` |
| `BuddyAllocator.Allocator.GetBuddyIsBuddy` | kernel/mm/page_alloc.c:136-145 | on an aligned block `get_buddy` returns the other half of the enclosing block of the next order, or nothing past the last descriptor |
| `BuddyAllocator.Allocator.AddBlock` | kernel/mm/page_alloc.c:46-54 | one round of `page_setup` appends one free block of the order and keeps the invariant |
| `BuddyAllocator.Allocator.PageSetup` | kernel/mm/page_alloc.c:29-58 | `page_setup` tiles the whole region by free aligned blocks, lists each once, leaves no two free buddies, and adds the bytes to the counter modulo 2^32 |
| `BuddyAllocator.Allocator.constructor` | kernel/mm/page_alloc.c:69-113 | after start-up the invariant holds, all blocks are free, and the page count and counter are those of the trimmed region |
| `BuddyModel.TakeKeeps` | kernel/mm/page_alloc.c:171-178 | giving a listed free block its first reference keeps the invariant and adds exactly this block to the live ones |
| `BuddyModel.SplitKeeps` | kernel/mm/page_alloc.c:160-167 | splitting keeps the tiling, the lists and the absence of free buddies; the assertion at line 163 holds |
| `BuddyModel.MergeKeeps` | kernel/mm/page_alloc.c:212-220 | absorbing the free buddy keeps the invariant and changes only the extent of the block in hand; the assertion at line 215 holds |
| `BuddyModel.ReleaseKeeps` | kernel/mm/page_alloc.c:205-211 | putting a block that cannot merge on its list keeps the invariant and removes exactly it from the live blocks |
| `BuddyModel.GrowKeeps` | kernel/mm/page_alloc.c:40-55 | appending blocks in decreasing order keeps all of them aligned and no two free buddies |
| `BuddyModel.BuddyIsHead` | kernel/mm/page_alloc.c:203-209 | what `__free_page` relies on: by the tiling alone an in-range buddy is the head of a block that is no larger |
| `BuddyModel.LiveDisjoint` | kernel/mm/page_alloc.c:147-180 | no page belongs to two live blocks |
| `BuddyModel.VacantRunInBlock` | kernel/mm/page_alloc.c:203-221 | coalescing is complete: every aligned run of unallocated pages lies inside one free block |
| `BuddyModel.FreeBlocksCanonical` | kernel/mm/page_alloc.c:203-221 | two allocators over the same pages with the same live blocks have the same free blocks, whatever their histories |
| `BuddyModel.HistoryIndependent` | kernel/mm/page_alloc.c:136-145 | the same, list by list: each order's list has the same members |
| `BuddyModel.FreeAllRestores` | kernel/mm/page_alloc.c:292-297 | once everything is freed, in any order, each list is again what `page_setup` built, up to order of the list |
| `BuddyAllocator.Allocator.FindList` | kernel/mm/page_alloc.c:155-157 | the search stops at the first nonempty list from the requested order on |
| `BuddyAllocator.Allocator.SplitOnce` | kernel/mm/page_alloc.c:160-167 | one round of the splitting loop gives the upper half of the block in hand to the list of its order |
| `BuddyAllocator.Allocator.TakeAndSplit` | kernel/mm/page_alloc.c:158-178 | a listed block is taken and split down; the invariant holds again and exactly one live block of the requested order is new |
| `BuddyAllocator.RequestOrder` | kernel/mm/page_alloc.c:148-152 | a request passes the assertion at line 149 exactly when an order serves it, and `log2` gives this order |
| `BuddyAllocator.Allocator.AllocPage` | kernel/mm/page_alloc.c:147-180 | `__alloc_page` succeeds exactly when some aligned run of unallocated pages is large enough; it then adds one live block of the least order that serves the request, on pages that were unallocated, and the counter keeps its relation to the free bytes |
| `BuddyAllocator.NoBlockNoRun` | kernel/mm/page_alloc.c:155-170 | when all lists from the requested order on are empty, no aligned unallocated run of that order exists |
| `BuddyAllocator.MergeCondition` | kernel/mm/page_alloc.c:205-208 | the three tests of the loop decide exactly whether the buddy is a free block of the same order |
| `BuddyAllocator.Allocator.MergePartner` | kernel/mm/page_alloc.c:204-209 | the loop goes on exactly with the free buddy, and stops only when merging is impossible |
| `BuddyAllocator.Allocator.MergeBlocks` | kernel/mm/page_alloc.c:212-220 | one merge keeps everything but the block in hand, which doubles |
| `BuddyAllocator.Allocator.Coalesce` | kernel/mm/page_alloc.c:203-221 | the merging loop ends in a valid heap whose live blocks are the old ones without the freed block |
| `BuddyAllocator.Allocator.FreePage` | kernel/mm/page_alloc.c:191-224 | `__free_page` is accepted exactly on live block heads; with one reference it removes this block and no other, with more it only drops a reference; the counter stays behind by exactly the bytes put back |
| `BuddyBytes.Conservation` | kernel/mm/page_alloc.c:250-262 | in every valid heap the bytes on the free lists and the bytes of the live blocks are together all managed bytes |
| `BuddyAllocator.Allocator.AllocatorSize` | kernel/mm/page_alloc.c:250-262 | `allocator_size` returns the free bytes modulo 2^32, which are all managed bytes less those of the live blocks, and its assertion on every listed block holds |
| `BuddyBytes.CounterRight` | kernel/mm/page_alloc.c:172 | `allocator.size`, which is the free bytes less all bytes ever put back modulo 2^32, shows the free bytes exactly when the latter are a multiple of 2^32 |
| `BuddyBytes.OneFreeIsLost` | kernel/mm/page_alloc.c:172 | after one page was allocated and put back all bytes are free again, and the counter shows a page less |
| `Bitmap.SetBitSpec` | kernel/include/lib/qlib.h:44-46 | `set_bit` changes one bit of the byte |
| `Bitmap.ClearBitSpec` | kernel/include/lib/qlib.h:49-51 | `clear_bit` changes one bit of the byte |
| `Bitmap.GetClearBit` | kernel/fs/ext2/block.c:12-20 | `get_clear_bit` returns the lowest clear bit of a byte that is not full |
| `Bitmap.SetNextZeroBit` | kernel/fs/ext2/block.c:22-32 | `set_next_zero_bit` sets the lowest clear bit of the scanned prefix, and returns -1 exactly when that prefix is full |
| `Bitmap.SetInMap` | kernel/fs/ext2/block.c:22-32 | setting bit i adds i to the set of used blocks |
| `Bitmap.ClearInMap` | kernel/fs/ext2/block.c:141-142 | clearing bit i removes i from the set of used blocks |
| `BlockTree.PathOfLeaf` | kernel/fs/ext2/block.c:149-170 | `find_block_layer` maps every block number below the limit to a leaf whose number, computed from the tree, is this number again |
| `BlockTree.LeafIsPathOf` | kernel/fs/ext2/block.c:149-170 | and every leaf is the path of its own number: block numbers and leaves correspond one to one |
| `BlockTree.BelowIsPrefix` | kernel/fs/ext2/block.c:149-170 | a block number in the span of a table has that table on its path |
| `BlockTree.PrefixBelow` | kernel/fs/ext2/block.c:149-170 | and a table on the path of a block number has this number in its span |
| `BlockTree.FillValue` | kernel/fs/ext2/block.c:216-227 | storing a fresh block in an empty slot changes the value of exactly this slot in the tree |
| `BlockTree.FillKeeps` | kernel/fs/ext2/block.c:172-227 | no block is used twice and every inner node has a table, also after a slot is filled |
| `BlockTree.FillMissing` | kernel/fs/ext2/block.c:201-235 | each filled slot on the way to a block leaves one node less to create |
| `BlockFile.File.constructor` | kernel/fs/ext2/block.c:201-213 | a file with no pointers set is consistent with any bitmap in which block 0 is used |
| `BlockFile.File.FindBlockLayer` | kernel/fs/ext2/block.c:149-170 | the method fills layer and digits of the path, and its assertion holds exactly below the limit |
| `BlockFile.File.SetBlockBitmap` | kernel/fs/ext2/block.c:86-130 | in block group 0 the lowest free block of the scanned prefix is taken and counted; it fails exactly when the file has blocks but no block 0, where `find_group` halts, or when that prefix is full |
| `BlockFile.File.FollowPath` | kernel/fs/ext2/block.c:191-197 | following the digits yields the value of the path in the tree, 0 below a missing table |
| `BlockFile.File.GetBid` | kernel/fs/ext2/block.c:182-198 | `get_bid` is lookup in the block map |
| `BlockFile.File.FillSlot` | kernel/fs/ext2/block.c:211-220 | an empty slot gets a new block, which is entered in the tree, the bitmap and both counters; it fails exactly as `set_block_bitmap` does |
| `BlockFile.File.EnsureNode` | kernel/fs/ext2/block.c:217-226 | one round of the loop makes one node on the path present and creates nothing else; it fails exactly when the node is missing and no block can be had |
| `BlockFile.File.AllocIndirect` | kernel/fs/ext2/block.c:215-227 | the loop creates exactly the missing nodes on the path; it succeeds exactly when block 0 is there and each missing node finds a free bit |
| `BlockFile.File.AllocBlock` | kernel/fs/ext2/block.c:201-235 | for an unmapped number `alloc_block` is an insertion into the block map: the new nonzero block was free, all other numbers keep their blocks, and blockCnt grows by the nodes that were missing; it succeeds exactly below the limit, with block 0 present or as a direct block of an empty file, and with a free bit for each missing node |
| `BlockFile.AccountedBalances` | kernel/fs/ext2/block.c:86-130 | conservation: however many blocks an allocation takes, the 16-bit free counter and the number of used blocks add up to the same modulo 2^16 as before; `AllocBlock` ensures it |
| `BlockFile.ClearedBalances` | kernel/fs/ext2/block.c:132-146 | and so they do after a freeing; `FreeBlocks` ensures it |
| `BlockFile.SkippingBlockZeroHalts` | kernel/fs/ext2/block.c:93-94 | a first write at block 12 of an empty file fails although every block is free: the table is allocated and `find_group` then halts for want of block 0 |
| `BlockFile.DirectCanInsert` | kernel/fs/ext2/block.c:201-213 | a direct block can be inserted exactly with block 0 present or an empty file, and one free bit |
| `BlockFile.ExtendedInserted` | kernel/fs/ext2/block.c:201-235 | filling only slots on one path is, seen through lookup, one insertion |
| `BlockFile.ClearsItsBitInGroupZero` | kernel/fs/ext2/block.c:129-142 | freeing a block clears the bit that allocating it has set exactly in block group 0 |
| `BlockFile.File.ClearBlockBitmap` | kernel/fs/ext2/block.c:132-146 | in block group 0 the block leaves the used set and the free counter grows by one modulo 2^16 |
| `BlockFile.File.FreePtr` | kernel/fs/ext2/block.c:238-249 | `free_ptr` clears each block below the node that it reaches once, then the node |
| `BlockFile.File.FreeEntries` | kernel/fs/ext2/block.c:245-247 | the loop over a table stops at the first zero pointer |
| `BlockFile.File.FreeBlocks` | kernel/fs/ext2/block.c:253-270 | `free_blocks` clears the blocks it reaches, each once, and resets blockCnt |
| `BlockFreeing.FreesAllIffGapFree` | kernel/fs/ext2/block.c:238-270 | `free_blocks` frees all blocks of the file exactly when no table has a nonzero pointer behind a zero one |
| `BlockFreeing.GapLeaks` | kernel/fs/ext2/block.c:245 | a block behind a zero pointer is not freed |
| `BlockFreeing.HoleLeaks` | kernel/fs/ext2/block.c:245 | for every number n >= 2 of pointers per table, a well-formed file with block 0 and a hole in its first table owns a data block that `free_blocks` does not free |
| `BlockFreeing.FreedAreOwned` | kernel/fs/ext2/block.c:238-270 | never more than the file's own blocks are freed |
| `BlockRuns.AppendRunInvariant` | kernel/fs/ext2/block.c:201-235 | after blocks 0, 1, ..., k-1 were allocated in order, a node is present exactly when its span begins below k, and all added blocks are accounted for |
| `BlockRuns.FirstComesFirst` | kernel/fs/ext2/block.c:93-94 | in a file that grew in order block 0 is there as soon as any block is, so that `find_group` never halts |
| `BlockRuns.SequentialGapFree` | kernel/fs/ext2/block.c:245-247 | such a file has no gaps |
| `BlockRuns.AppendRunMaps` | kernel/fs/ext2/block.c:182-198 | and maps exactly the numbers below k |
| `BlockRuns.AppendAndFree` | kernel/fs/ext2/block.c:201-270 | the whole life of a file: its states form a run that allocates blocks 0, ..., k-1 in order, and freeing that very tree leaves bitmap and free counter as they were; it stops early only without a free block in the searched part or a block number left |
| `BlockRuns.FreeRestores` | kernel/fs/ext2/block.c:253-270 | freeing such a file restores the bitmap and the free counter from before its first allocation |
| `DirBlock.InsertedSpec` | kernel/fs/ext2/dir.c:125-153 | a successful insertion keeps the block tiled by records, puts the entry right behind the record used, and changes no record header outside that record |
| `DirBlock.FitsIffRoom` | kernel/fs/ext2/dir.c:130-143 | the tests of `new_dir_entry` accept a record exactly when the bytes of this record can be tiled by records that hold its old entry, if it is live, and the new one: no insertion is refused that could be made |
| `DirBlock.InsertedTight` | kernel/fs/ext2/dir.c:125-153 | the new record is at most 12 bytes larger than its entry needs and a larger rest stays a free record; the record it was split from keeps just what its own entry needs |
| `Directory.Dir.NewDirEntry` | kernel/fs/ext2/dir.c:125-153 | `new_dir_entry` succeeds exactly when the bytes of the record can hold its old entry, if it is live, and the new one; it leaves the block untouched otherwise, and else produces the block and pointer of the specification |
| `Directory.FreeRun` | kernel/fs/ext2/dir.c:116-120 | the loop of `merge_dir_entry` measures the whole run of free records |
| `Directory.Dir.MergeDirEntry` | kernel/fs/ext2/dir.c:111-123 | merging keeps tiling and entries, and a free record is no longer followed by a free one |
| `Directory.Dir.CreateIn` | kernel/fs/ext2/dir.c:164-174 | inside a block the first record whose bytes can hold the entry as well takes it, and a free rest is merged with what follows; exactly when there is none nothing changes |
| `Directory.Dir.CreateDirEntry` | kernel/fs/ext2/dir.c:156-184 | `create_dir_entry` adds exactly the given (name, inode, type) entry at one place, and appends a block exactly when in no block the bytes of a record can hold the entry as well |
| `Directory.FindIn` | kernel/fs/ext2/dir.c:95-105 | the scan of a block finds the first live record with the name |
| `Directory.Dir.FindEntryDisk` | kernel/fs/ext2/dir.c:91-108 | `find_entry_disk` returns the first entry with the name, or nothing when there is none |
| `Directory.Dir.RemoveFromParent` | kernel/fs/ext2/dir.c:265-290 | `remove_from_parent` removes exactly the first entry with the name, and nothing exactly when there is none; its record is then free, large enough for the name, and not followed by a free one |
| `Directory.RemoveThenCreate` | kernel/fs/ext2/dir.c:156-290 | space is used again: after the removal of an entry the creation of one with a name that is no longer appends no block |
| `Directory.Dir.MakeEmptyDir` | kernel/fs/ext2/dir.c:186-202 | whatever the block held, afterwards its entries are "." and ".." |
| `Directory.Dir.DirEmpty` | kernel/fs/ext2/dir.c:238-263 | `dir_empty` holds exactly with two links and no entry besides "." and ".." |
| `Directory.MergedSpec` | kernel/fs/ext2/dir.c:111-123 | joining a run of free records keeps tiling and entries |
| `Directory.ClearedSpec` | kernel/fs/ext2/dir.c:281-283 | zeroing the inode of a record removes its entry and keeps the tiling |
| `DirEntries.LookupAdded` | kernel/fs/ext2/dir.c:156-184 | with distinct names, lookup after an insertion is a map update and names stay distinct |
| `DirEntries.LookupRemoved` | kernel/fs/ext2/dir.c:265-290 | with distinct names, lookup after a removal is a map removal and names stay distinct |
| `Rings.InitSpec` | kernel/include/lib/list.h:34-37 | `list_header_init` makes an empty ring |
| `Rings.AddPrevSpec` | kernel/include/lib/list.h:50-52 | `list_add_prev` appends at the tail of a well-formed ring |
| `Rings.AddNextSpec` | kernel/include/lib/list.h:46-48 | `list_add_next` inserts at the front of a well-formed ring |
| `Rings.DelSpec` | kernel/include/lib/list.h:55-58 | `list_del` removes one node and leaves a well-formed ring |
| `Scheduler.ReadyQueues.constructor` | kernel/task/schedule.c:27-33 | `scheduler_init` makes four empty rings |
| `Scheduler.ReadyQueues.SchedTaskAdd` | kernel/task/schedule.c:132-139 | `sched_task_add` appends a task to the ring of its priority |
| `Scheduler.ReadyQueues.ChoseNextTask` | kernel/task/schedule.c:80-93 | `chose_next_task` removes the first task of the highest nonempty ring, or finds all four empty |
| `Scheduler.ReadyQueues.SpliceAll` | kernel/task/schedule.c:97-120 | the pointer surgery leaves one well-formed ring old[3] ++ old[2] ++ old[1] ++ old[0] and three empty ones |
| `Scheduler.ReadyQueues.RaiseScan` | kernel/task/schedule.c:122-128 | the reverse scan, though it stops early, raises every spliced task |
| `Scheduler.ReadyQueues.ResetPriority` | kernel/task/schedule.c:96-129 | `reset_priority` as a whole: one ring in the old dispatch order, all its tasks at top priority, all others unchanged |
| `Mlfq.ChooseSpec` | kernel/task/schedule.c:80-93 | what is dispatched is the first in dispatch order, idle when nothing is queued |
| `Mlfq.BoostKeeps` | kernel/task/schedule.c:41-44 | the periodic boost keeps the invariant |
| `Mlfq.ScheduleKeeps` | kernel/task/schedule.c:38-77 | `schedule` restores the invariant from any state in which the current task may already be asleep or dead |
| `Mlfq.WakeKeeps` | kernel/task/fork.c:326-337 | `task_wakeup` keeps the invariant |
| `Mlfq.SleepKeeps` | kernel/task/fork.c:314-319 | the state in which `task_sleep` calls `schedule` is one from which the invariant is restored |
| `Mlfq.ExitKeeps` | kernel/task/fork.c:342-352 | so is the one in which `task_exit` does |
| `Mlfq.CreateKeeps` | kernel/task/fork.c:126-198 | a new task is queued at its priority and nowhere else |
| `Mlfq.ReapKeeps` | kernel/task/fork.c:281-302 | the cleaner removes zombies from the finish list only |
| `Mlfq.StepKeeps` | kernel/task/schedule.c:38-77 | every step of the kernel keeps the invariant |
| `Mlfq.TickExact` | kernel/task/timer.c:76-98 | slices are multiples of 10, so the 16-bit subtraction of the tick never wraps |
| `MlfqRuns.RunKeeps` | kernel/task/schedule.c:38-139 | the invariant holds along every run |
| `MlfqRuns.ExactlyOnePlace` | kernel/task/schedule.c:38-139 | in every reachable state each task but idle is in exactly one place: the running task on no list, a runnable one in the ready queue of its priority, a sleeper on the block list, a zombie on the finish list; a dead init is on none |
| `MlfqRuns.TopQueueBound` | kernel/task/schedule.c:38-93 | a task at position k of the top queue runs by the (k+1)-th call of `schedule` |
| `MlfqRuns.BoostBound` | kernel/task/schedule.c:38-129 | after a boost no queued task waits for more calls than tasks were queued at that moment |
| `MlfqRuns.BoostComesDue` | kernel/task/schedule.c:41-44 | without a boost 200 ticks make the next one due |
| `MlfqRuns.QueuedUntilDispatched` | kernel/task/schedule.c:38-139 | no step takes a task off the ready queues except by running it |
| `MlfqFairness.WaitBound` | kernel/task/schedule.c:38-139 | a queued task runs in every run that reaches the time of the next boost and then calls `schedule` as often as tasks are ever queued |
| `MlfqFairness.NoStarvation` | kernel/task/schedule.c:38-139 | a queued task runs in every run with 200 ticks and, after them, as many calls of `schedule` as tasks are ever queued, whatever the others do |
| `MlfqFairness.TicksSchedule` | kernel/task/timer.c:91-97 | ten ticks use up a slice and the next calls `schedule`: in every run the ticks are at most 11 per call of `schedule` plus what is left of the current slice |
| `MlfqFairness.NoStarvationInTicks` | kernel/task/schedule.c:38-139 | with at most n tasks queued, a queued task runs within 200 + 11n ticks, whatever the others do |
| `MlfqEffects.WakeEffect` | kernel/task/fork.c:326-337 | `task_wakeup` of a sleeper: it is runnable, leaves its block list, whose order is kept, and is last in the queue of its unchanged priority; nothing else changes, and nothing at all for a task that is runnable already |
| `MlfqEffects.SleepEffect` | kernel/task/fork.c:304-323 | `task_sleep`: the current task is asleep, first on the block list, in no queue, and another task has the CPU; no other task changes its state |
| `MlfqEffects.ExitEffect` | kernel/task/fork.c:339-354 | `task_exit`: the current task is a zombie in no queue and another task has the CPU; unless it is `init` it is first on the finish list and the cleaner is runnable, and so has the CPU or is queued; no other task changes its state |
| `MlfqEffects.CreateEffect` | kernel/task/fork.c:126-198 | a new task is runnable with a full slice of 100 and the priority of its parent, last in the queue of this priority, and nothing else changes |
| `MlfqEffects.ReapEffect` | kernel/task/fork.c:281-302 | a round of the cleaner removes exactly the zombies, all but an exited `init`, and changes no other task |
| `MlfqEffects.OutgoingTask` | kernel/task/schedule.c:55-67 | the task that leaves the CPU: with its slice used up it loses one level and gets a slice of 100, with slice left it keeps both, and at level 0 it always gets a slice of 100; if it is runnable it is last in the queue of its new priority, else in none |
| `MlfqEffects.OtherTasks` | kernel/task/schedule.c:38-77 | every other task keeps all its fields in `schedule`, except that a boost that is due sets the priority of queued tasks to 3 |
| `MlfqEffects.NextTask` | kernel/task/schedule.c:80-93 | the CPU goes to the head of the highest queue that is not empty, boost or not, and to idle when all are empty |
| `MlfqEffects.TickEffect` | kernel/task/timer.c:76-98 | after a tick every thread of a due timer is runnable, and so has the CPU or is queued; no other task changes its state, and the block lists lose exactly the woken tasks |
| `MlfqEffects.TickWithinSlice` | kernel/task/timer.c:91-97 | a tick that finds slice left takes 10 from it and nothing from any other task; the current task goes on and the queues only grow at their ends |
| `MlfqPriority.PriorityFalls` | kernel/task/schedule.c:55-64 | in every run without a boost the priority of a task falls by the number of times it left the CPU with its slice used up, and stops at 0; while it is above 0, 10 ms for each tick it ran through are exactly the 100 of each level it lost plus what its slice lost |
| `SleepTimers.TraceIsRun` | kernel/task/timer.c:60-98 | runs of scheduler and timers together are legal runs of the scheduler with one tick for each clock interrupt |
| `SleepTimers.AlarmStep` | kernel/task/timer.c:79-88 | at the tick that finds a timer due its task becomes runnable; until then the timer stays armed |
| `SleepTimers.AlarmRuns` | kernel/task/timer.c:60-98 | a timer set to a time gets its task the CPU at or after that time: the ticks that reach it, at least one, and 200 + 11n more are enough in every run with at most n tasks queued |
| `SleepTimers.SleepsOn` | kernel/task/timer.c:60-98 | and not before: a sleeper whose timers are all set to that time or later sleeps in every run that ends before it, unless it is woken by hand |
| `SleepTimers.NapLasts` | kernel/task/timer.c:60-68 | so after `ms_sleep_until` the caller sleeps with its timer armed in every run that ends before the time |
| `SleepTimers.LiveRuns` | kernel/task/timer.c:79-88 | in every run in which no task exits with an active timer, all timers are of tasks that have not exited, so that the clock interrupt never wakes a task that has |
| `TaskKernel.Kernel.constructor` | kernel/task/fork.c:63-80 | the start state satisfies the invariant |
| `TaskKernel.Kernel.BoostIfDue` | kernel/task/schedule.c:40-44 | refines the boost of the state machine |
| `TaskKernel.Kernel.RetireCurrent` | kernel/task/schedule.c:55-67 | on the fields: an expired slice costs one level and is renewed, at level 0 it is always renewed, else both stay; a runnable task goes to the end of the ring of its new priority, any other on none; refines the state machine |
| `TaskKernel.Kernel.Reschedule` | kernel/task/schedule.c:38-77 | `schedule` on the linked rings refines the state machine's step; the outgoing task pays for its slice as said for `RetireCurrent` and is last in the ring of its new priority if it is runnable |
| `TaskKernel.Kernel.TaskWakeup` | kernel/task/fork.c:326-337 | `task_wakeup` on the fields: the task is runnable, a sleeper is taken out of its block list and put at the end of the ring of its priority, the other rings and all priorities stay; refines its step |
| `TaskKernel.Kernel.TaskSleep` | kernel/task/fork.c:304-323 | `task_sleep` on the fields: the caller is asleep, first on the block list and without the CPU, and no other state changes; refines its step |
| `TaskKernel.Kernel.TaskExit` | kernel/task/fork.c:339-354 | `task_exit` on the fields: the caller is a zombie without the CPU; unless it is `init` it is first on the finish list and the cleaner is runnable; refines its step |
| `TaskKernel.Kernel.WakeExpired` | kernel/task/timer.c:79-88 | after the loop exactly the given tasks have become runnable, priorities are unchanged and the rings have only grown at their ends; refines the wake-up part of the tick |
| `TaskKernel.Kernel.ClockIsr` | kernel/task/timer.c:76-98 | with the tasks whose timers have run out given: each of them is runnable afterwards and has the CPU or is queued, and no other state changes; refines the tick |
| `TaskKernel.Kernel.ClockTick` | kernel/task/timer.c:76-98 | `clock_isr` over the timer pool: the thread of every timer that is due is runnable afterwards and has the CPU or is queued, a task changes its state only with a timer that is due, and exactly the other timers stay armed; refines the clock of `SleepTimers` |
| `TaskKernel.Kernel.UseSlice` | kernel/task/timer.c:91-97 | a current task with slice left loses exactly 10 of it and goes on; without, `schedule` is called |
| `TaskKernel.Kernel.MsSleepUntil` | kernel/task/timer.c:60-68 | `ms_sleep_until` fails exactly when all 20 timers are in use and then changes nothing; else the caller sleeps, first on the block list, and its timer is the last one armed; refines the nap of `SleepTimers` |
| `TaskKernel.Kernel.Create` | kernel/task/fork.c:126-198 | `kernel_fork` and `kthread_create` on the fields: the new task is runnable with a slice of 100 and its parent's priority, last in the ring of this priority; refines its step |
| `TaskKernel.Kernel.Reap` | kernel/task/fork.c:281-302 | a round of `cleaner_worker` refines its step: exactly the finished tasks are gone, and its assertion that each is a zombie holds |
| `Timers.Pool.constructor` | kernel/task/timer.c:47-58 | all 20 timers are free and the ring is empty |
| `Timers.Pool.Arm` | kernel/task/timer.c:36-68 | arming a timer fails exactly when all 20 are active; else one free timer joins the end of the ring with the task and its time |
| `Timers.Pool.Unlink` | kernel/task/timer.c:85-86 | unlinking and freeing never loses a timer: stack and ring together always hold each of the 20 once |
| `Timers.Pool.Expire` | kernel/task/timer.c:79-88 | the walk of `clock_isr`, which unlinks nodes as it goes, wakes exactly the tasks whose time has come, in the order in which they were armed, and leaves exactly the others in the ring |
| `TaskKernel.BootInv` | kernel/task/fork.c:63-80 | the state after start-up satisfies the invariant |
| `RwLock.InitialInv` | kernel/include/lib/rwlock.h:17-21 | the initial state satisfies the invariant |
| `RwLock.StepKeeps` | kernel/include/lib/rwlock.h:23-47 | every atomic step of any thread keeps: the inner lock has at most one holder, `readers` counts exactly the threads past the increment, `writelock` is held exactly by a writer or by the admitted reader group |
| `RwLock.RunKeeps` | kernel/include/lib/rwlock.h:23-47 | so does every interleaving |
| `RwLock.Exclusion` | kernel/include/lib/rwlock.h:23-47 | in every reachable state a writer inside is alone |
| `RwLock.WriterAlone` | kernel/include/lib/rwlock.h:40-46 | the same from the invariant |
| `RwLock.Progress` | kernel/include/lib/rwlock.h:23-47 | whenever some thread is not idle, some thread that is inside an operation can make a step that changes the state: never does every one of them only spin |
| `RwLock.FinishingEnds` | kernel/include/lib/rwlock.h:23-47 | as long as no thread starts a new operation, every sequence of steps that change the state ends after at most 11 per thread |
| `RwLock.AllFinish` | kernel/include/lib/rwlock.h:23-47 | from every reachable state some steps bring all threads back to idle with the lock free, without any new operation |
| `RwLock.ReadersTogether` | kernel/include/lib/rwlock.h:23-38 | from the free lock any set of threads can be brought to read at the same time |
| `RwLock.WriterEnters` | kernel/include/lib/rwlock.h:40-46 | from the free lock any thread can be brought to write |
| `RwLock.NobodyIsShutOut` | kernel/include/lib/rwlock.h:23-47 | after every run, whatever happened in it, every thread can still come to read and can still come to write |
| `LfQueue.Queue.constructor` | kernel/lib/queue.c:13-19 | an empty queue with its dummy node |
| `LfQueue.Queue.Put` | kernel/lib/queue.c:21-33 | `lfQueue_put` appends, although `tail` may be stale |
| `LfQueue.Queue.Get` | kernel/lib/queue.c:36-49 | `lfQueue_get` removes the first node, or finds the queue empty |
| `PageCache.Cache.PageGet` | kernel/fs/writeback.c:75-113 | one page per sector: a cached page is returned unchanged, else a new one is listed with whatever cache flags its frame brings; the cache stays in order exactly when these are not dirty, and valid only with the right content |
| `PageCache.RecycledFrameIsStale` | kernel/fs/writeback.c:75-85 | a frame that was dropped and is taken for another sector keeps its valid flag and is believed to hold that sector |
| `PageCache.Cache.PageRw` | kernel/fs/writeback.c:177-213 | the transfer of a page, finished by the interrupt, writes a dirty page or fills a clean one, moves it to the front and keeps the represented content |
| `PageCache.Cache.PageRead` | kernel/fs/writeback.c:127-140 | `page_read` makes the page valid with the represented content of its sector |
| `PageCache.Cache.ReadSector` | kernel/fs/writeback.c:115-119 | `page_read_no` on a frame with clear flags returns the page of a sector with the represented content and disturbs no other page |
| `PageCache.Cache.WriteAndMark` | kernel/fs/writeback.c:143-153 | writing a page and marking it changes the represented content of one sector; the page is queued once |
| `PageCache.Cache.FlushPages` | kernel/fs/writeback.c:215-236 | `flush_pages` empties the queue and makes the disk equal to the represented content |
| `PageCache.Cache.PageRecycle` | kernel/fs/writeback.c:279-298 | of the clean pages that have expired the least recently transferred are dropped: as many as the bytes ask for when these are a multiple of the page size, all of them otherwise; a page transferred less than 30000 s ago is never dropped, and the content is kept |
| `PageCache.ExpiredMeans` | kernel/fs/writeback.c:291-292 | a clean page counts as expired exactly when its last transfer is 30000 s or more ago, or has a time that lies ahead |
| `PageCache.Cache.Evict` | kernel/fs/writeback.c:272-276 | dropping a clean page keeps the represented content |
| `InodeDirty.MarkedIsJoin` | kernel/fs/writeback.c:310-342 | the new state is the join of old state and mark exactly unless I_NEW is marked on I_DATA or I_TIME |
| `InodeDirty.MarksJoin` | kernel/fs/writeback.c:310-342 | from a clean inode on, with I_NEW as first mark only, the state is the least upper bound of all marks made |
| `InodeDirty.NewMarkLosesTimes` | kernel/fs/writeback.c:310-342 | marking I_NEW on an inode with pending data loses the pending times |
| `InodeDirty.PutSpec` | kernel/fs/ext2/inode.c:26-35 | writing one raw inode into its block changes that one and no other |
| `InodeDirty.InodeTable.InodeCpy` | kernel/fs/ext2/inode.c:51-87 | an inode read from its block is queued with its new access time pending, exactly when the state left in its memory does not look like a pending one; otherwise it is marked but never queued |
| `InodeDirty.InodeTable.Update` | kernel/fs/writeback.c:310-342 | a change and its mark keep every field either on disk or pending, exactly unless I_NEW meets one pending field group and the other has changed; the inode is queued exactly when nothing was pending |
| `InodeDirty.InodeTable.WriteBack` | kernel/fs/ext2/inode.c:253-284 | `ext2_write_back` leaves the inode clean with both field groups in its raw inode, or, if it was deleted, gone and marked so; every other inode, raw inode and block is as before |
| `InodeDirty.InodeTable.FlushInode` | kernel/fs/writeback.c:238-251 | `flush_inode` empties the FIFO; every inode that was not deleted remains, and if its state was ever set it is clean with all its fields in the cached inode block; deleted ones are gone and marked so; no sector is lost and only that block and the superblock change |
| `InodeDirty.InodeTable.PageFsync` | kernel/fs/writeback.c:253-256 | after `page_fsync` both queues are empty, the disk equals the represented content, every inode whose state was ever set can be read back from its slot on the disk with all its fields, and no sector but that block and the superblock has changed |
| `InodeDirty.UpdateAndSync` | kernel/fs/writeback.c:253-342 | from a change to the disk: after a change, its mark and `page_fsync` the raw inode on the disk has the new fields, and a deleted inode is marked so there |
| `FileIO.Node.constructor` | kernel/fs/ext2/ext2.c:119-155 | an empty file has no bytes |
| `FileIO.Node.Ext2Write` | kernel/fs/ext2/ext2.c:119-155 | a write at the end appends the buffer up to the end of the block; it stops the kernel on a file that is not regular or without space |
| `FileIO.Node.VfsWrite` | kernel/fs/vfs.c:107-122 | `vfs_write` at the end appends the whole buffer or stops the kernel, and that only on a file that is not regular or without a free block in the searched part or a block number left |
| `FileIO.Node.Ext2Read` | kernel/fs/ext2/ext2.c:90-108 | a read returns the bytes of one block; the end of the file is not looked at, only the end of its last block |
| `FileIO.Node.VfsRead` | kernel/fs/vfs.c:86-100 | `vfs_read` returns the bytes from the offset up to the end of the last block and advances the offset by their number |
| `FileIO.Node.VfsLseek` | kernel/fs/vfs.c:124-149 | `vfs_lseek` sets the offset of the specification or returns -1 and leaves it; an accepted seek returns the offset, less 2^32 from 2^31 on |
| `FileIO.SeekExact` | kernel/fs/vfs.c:129-147 | a seek goes to its target or refuses a negative one exactly when it is absolute, or its target is below 2^32 and it is not a relative seek before the start |
| `FileIO.SeekBeforeStart` | kernel/fs/vfs.c:140-145 | a relative seek before the start wraps to a large offset, and seeks past 2^32 wrap to small ones |
| `FileIO.MappedExactly` | kernel/include/fs/ext2.h:333-337 | exactly the block numbers below ceil(size / blockSize) are mapped |
| `FileIO.ReadStopsAtEnd` | kernel/fs/ext2/ext2.c:96-99 | a read returns exactly the bytes up to the end of the file exactly when it is empty, ends inside the file, starts behind the last block, or the file fills its last block |
| `FileIO.OneByteTooMany` | kernel/fs/ext2/ext2.c:96-99 | reading two bytes of a file of one byte gives two |
| `FileIO.AppendThenRead` | kernel/fs/vfs.c:86-149 | round trip: after any sequence of writes to an empty regular file, seeking and reading inside the file yields exactly that slice of the concatenated writes; it fails only without space |
| `FileBytes.WriteSpec` | kernel/fs/ext2/ext2.c:148-150 | a write into one page is a patch of the file and leaves all other blocks alone |
| `FileBytes.ReadSpec` | kernel/fs/ext2/ext2.c:105-107 | bytes read from a page are bytes of the file |
| `FdTable.ProbesDistinct` | kernel/fs/hash.c:41-43 | the 33 probed slots are different |
| `FdTable.FoundIffOpen` | kernel/fs/hash.c:61-72 | an inode has a descriptor exactly when one of its probes holds it, whatever was deleted before |
| `FdTable.OneDescriptor` | kernel/fs/hash.c:32-117 | no inode has two descriptors |
| `FdTable.Table.HashFindf` | kernel/fs/hash.c:61-72 | `hash_findf` finds exactly the open inodes and their descriptors |
| `FdTable.Table.HashInsert` | kernel/fs/hash.c:45-58 | `hash_insert` fails exactly when all 33 probed slots are taken |
| `FdTable.Table.AllocFd` | kernel/fs/hash.c:98-113 | `alloc_fd` returns the descriptor an inode already has, else the lowest free one, and fails exactly without a free one or a free probe |
| `FdTable.Table.FreeFd` | kernel/fs/hash.c:80-95 | `free_fd` frees exactly this descriptor and keeps both tables inverse to each other |
| `FdTable.Table.GetInode` | kernel/fs/hash.c:115-117 | `get_inode` reads the table; no other descriptor has the same inode |
| `Malloc.LiveDisjoint` | userspace/malloc.c:40-95 | no two chunks in use overlap |
| `Malloc.CarveSpec` | userspace/malloc.c:40-56 | carving a free chunk keeps the arena exactly tiled and makes one chunk live |
| `Malloc.Allocator.AllocChunk` | userspace/malloc.c:40-56 | `alloc_chunk`, with its 32-bit rest; from a chunk that is large enough exactly the chunk at the given header becomes live, fewer than 14 bytes larger than asked for, and a rest is split off exactly from 14 bytes on |
| `Malloc.Allocator.Malloc` | userspace/malloc.c:58-73 | the arenas stay tiled exactly for requests up to 4084 bytes; these get a payload at least as large as asked for that overlaps no chunk in use, in a chunk that exceeds the rounded request by fewer than 14 bytes; it is cut from the first free chunk of the first arena that is large enough, and from a new arena exactly when there is none |
| `Malloc.Allocator.AllocInNewArena` | userspace/malloc.c:67-72 | a new arena is one free chunk of 4096 bytes, from which the request is served; it stays tiled exactly when the request fits |
| `Malloc.NewArenaSurvives` | userspace/malloc.c:40-73 | over all 32-bit arguments of `malloc`: a new arena stays tiled exactly up to 4084 bytes, and for the largest argument, whose size wraps to a bare header |
| `Malloc.LargeRequestLeavesArena` | userspace/malloc.c:43-49 | a request of 4085 bytes gets a chunk that leaves the arena, and a header with a size near 2^32 is written behind it |
| `Malloc.FreeRun` | userspace/malloc.c:82-87 | the loop of `free` finds the whole run of free chunks behind the chunk |
| `Malloc.JoinedSpec` | userspace/malloc.c:80-94 | joining chunks keeps the arena exactly tiled and takes back exactly the freed chunk |
| `Malloc.Allocator.Free` | userspace/malloc.c:76-95 | `free` takes back exactly this chunk; the chunk behind it is then in use or the arena ends |
| `SlabPage.FreshPage` | kernel/mm/slab.c:146-168 | the chunks of a new page are PAGE_SIZE / size different slots |
| `SlabPage.LinkChunks` | kernel/mm/slab.c:160-166 | the loop of `add_slab` links all chunks of at least 4 bytes in order and ends in NULL |
| `SlabLinks.LinksSurvive` | kernel/mm/slab.c:160-166 | over bytes, with 4-byte little-endian links: every link of a fresh page survives the loop exactly when chunks have at least 4 bytes |
| `SlabLinks.NarrowLinks` | kernel/mm/slab.c:160-166 | with chunks of 1, 2 or 3 bytes some link is overwritten by the next, on every page |
| `SlabPage.TakeKeeps` | kernel/mm/slab.c:134-136 | taking the first chunk keeps the free chain duplicate-free and free plus outstanding equal to all slots |
| `SlabPage.GiveKeeps` | kernel/mm/slab.c:117-120 | so does giving a chunk back |
| `Slab.OutDisjoint` | kernel/mm/slab.c:124-144 | chunks handed out never overlap |
| `Slab.TakeSpec` | kernel/mm/slab.c:128-144 | `__slab_alloc` keeps page and list invariants and hands out one new chunk |
| `Slab.GiveSpec` | kernel/mm/slab.c:98-121 | `__slab_free` keeps them and takes back exactly its chunk; the page is found by rounding the address down |
| `Slab.AddSpec` | kernel/mm/slab.c:146-168 | `add_slab` keeps them and hands out nothing |
| `SlabAllocator.Allocator.AddSlab` | kernel/mm/slab.c:146-168 | `add_slab` puts a page of free chunks at the front of its list, keeps all invariants and hands out nothing |
| `SlabAllocator.Allocator.TakeFirst` | kernel/mm/slab.c:128-144 | the first page of the list gives a chunk and moves to the full list when it was its last |
| `SlabAllocator.Allocator.AllocFrom` | kernel/mm/slab.c:124-144 | `__slab_alloc` as `cache_alloc` uses it: a new chunk of the cache's size that overlaps none handed out |
| `SlabAllocator.Allocator.Free` | kernel/mm/slab.c:98-121 | `__slab_free` takes back exactly the chunk at the address and keeps all invariants |
| `SlabAllocator.Allocator.OwnerWrites` | kernel/mm/slab.c:124-144 | whatever the owner writes into a chunk, the free chains stay intact |
| `KernelMap.KvmMaps` | kernel/mm/vm.c:92-102 | `kvm_maps` succeeds exactly when all entries are absent, and then sets exactly these |
| `KernelMap.KvmUnmap` | kernel/mm/vm.c:140-152 | `kvm_unmap3` clears exactly its entries |
| `KernelMap.FreshBlockUnmapped` | kernel/mm/vm.c:97 | the entries of a newly allocated block are absent, so the assertion of `kvm_maps` does not fail |
| `KernelMap.MapKeeps` | kernel/mm/vm.c:104-112 | mapping a new block keeps "present exactly when live" |
| `KernelMap.UnmapKeeps` | kernel/mm/vm.c:154-158 | unmapping a freed block keeps it too |
| `KernelMap.V2PInverts` | kernel/mm/vm.c:128-131 | `v2p` inverts the linear map on live pages and is 0 elsewhere |
| `Kmalloc.RegionsDisjoint` | kernel/mm/kmalloc.c:12-19 | no two regions handed out by `kmalloc` overlap, whether blocks or chunks |
| `KernelHeap.MappedIffLive` | kernel/mm/vm.c:92-131 | a managed frame is present exactly when its page is allocated, and then `v2p` gives its physical address |
| `KernelHeap.Heap.constructor` | kernel/mm/kmalloc.c:12-19 | over an empty page allocator, an empty slab allocator and unmapped frames the invariant holds and nothing is handed out |
| `KernelHeap.Boot` | kernel/mm/page_alloc.c:69-113 | from `pmm_init` and `slab_init` to a heap on which `kmalloc` can be called, with nothing handed out |
| `KernelHeap.Heap.AllocMapped` | kernel/mm/kmalloc.c:16-18 | a block of the page allocator is mapped as a whole; the remap assertion never fires |
| `KernelHeap.Heap.GrowSlab` | kernel/mm/slab.c:146-168 | a slab page comes from the page allocator, is mapped, and hands out nothing yet |
| `KernelHeap.Heap.AllocFromList` | kernel/mm/slab.c:124-144 | `__slab_alloc` over the page allocator: a chunk of the list's size, with a new page exactly when the list is empty |
| `KernelHeap.Heap.SlabRoute` | kernel/mm/slab.c:72-84 | `slab_alloc` hands out a chunk of the least power of two from 4 on, exactly when its list has a page or a page can be had, and asks for a page only when its list has none |
| `KernelHeap.Heap.Kmalloc` | kernel/mm/kmalloc.c:12-19 | `kmalloc` hands out one more region, apart from all others, whose size is the least power of two that holds the request but not below 4. Up to 2048 bytes it is a chunk of a slab page, and it succeeds exactly when the list of that size has a page or one page can be had; from 2049 bytes to 4 MiB it is a block of pages, and it succeeds exactly when an aligned unallocated run of the rounded size exists; 0 and more than 4 MiB fail |
| `KernelHeap.RegionSnug` | kernel/mm/kmalloc.c:12-19 | the region handed out is large enough and less than twice as large as asked for, or has 4 bytes; `Kmalloc` ensures it |
| `KernelHeap.ServedIffServable` | kernel/mm/kmalloc.c:12-19 | this, in numbers, agrees with what the two allocators say of the rounded size |
| `KernelHeap.Heap.VaGetPage` | kernel/mm/vm.c:114-121 | `va_get_page` finds the block that holds a region, and its slab flag tells chunks from blocks |
| `KernelHeap.Heap.FreeChunk` | kernel/mm/slab.c:86-95 | `slab_free` takes back exactly the chunk |
| `KernelHeap.Heap.FreeBlock` | kernel/mm/kmalloc.c:53-54 | unmapping and freeing a block takes back exactly this block |
| `KernelHeap.Heap.Kfree` | kernel/mm/kmalloc.c:47-55 | `kfree` takes back exactly the region that begins at the address |

## Left out

- Directory.Dir.CreateDirEntry: asks for fewer than 12 blocks or for room in them, because `next_block` never gets past the direct blocks (its first index stays 12).
- Directory.Dir.DirEmpty: asks for nonempty live names, because the source looks at the first byte of a name without its length.
- FileIO.Node.VfsWrite: stated for writes at the end of the file, because `ext2_write` sets the size to the end of any write, which breaks what a later `alloc_block` relies on.
- FileIO.Node.Ext2Write: stated for writes at the end of the file, as `FileIO.Node.VfsWrite`.
- FileIO.Node.VfsRead: the offset and the length add up to less than 2^32, since `node->offset` has 32 bits; so for writes.
- BlockFile.File.AllocBlock: one block group (group 0) and an unmapped number; of the choice of a group only its halt is modelled. For a mapped number the source indexes a digit that does not exist.
- BlockFile.File.FreeBlocks: the block map is stated in the page cache, because pointer blocks are written there and not marked dirty.
- BuddyAllocator.Allocator.constructor: one memory region, because the indices of a second one are not aligned to its orders.
- Malloc.Allocator.Malloc: requests that do not wrap when the header is added (`Malloc.NewArenaSurvives` covers those too, on a new arena); `sbrk` always succeeds.
- KernelMap.KvmMaps: presence and frame of an entry only, no other flags and no TLB; the managed region is mapped at a fixed distance, as `kvm_map` does.
- RwLock.Progress: some thread can move and all can finish, but no bound for a given thread; the lock is not fair.
- TaskKernel.Kernel.constructor: the start state is the one after idle has left the ready queue, where start-up code puts it once.
- SleepTimers.SleepsOn: not for the cleaner, which `task_exit` wakes.
- TaskKernel.Kernel.ClockIsr: the tasks to wake are a parameter, as in `WakeExpired`; `TaskKernel.Kernel.ClockTick` takes them from the timers.
- TaskKernel.Kernel.TaskWakeup: a task that has not exited, as in `Mlfq.WakeKeeps`; the source would take a zombie off the finish list and put it back on a ready queue.
- Mlfq.WakeKeeps: a task that has not exited; see `TaskKernel.Kernel.TaskWakeup`.
- TaskKernel.Kernel.WakeExpired: the tasks to wake are a parameter; `TaskKernel.Kernel.ClockTick` takes them from the timers.
- TaskKernel.Kernel.ClockTick: no timer of a task that has exited, which holds as long as no task exits with an active timer (`SleepTimers.LiveRuns`); a task woken early keeps its timer, and if it exits first the source wakes a zombie.
- PageCache.Cache.ReadSector: a new frame has no cache flags left from an earlier use, here and in everything built on it; `PageCache.Cache.PageGet` says what happens otherwise.
- FdTable.Table.FreeFd: descriptors below 1024, because the source reads past its table from there on.
- FdTable.Table.GetInode: descriptors from 0 to 1023; outside, the source reads past its table.
- InodeDirty.UpdateAndSync: where `InodeDirty.InodeTable.Update` does not lose the change.
- KernelHeap.Boot: one region of memory below `PHYS_TOP`, with the page table entries from it on absent.
- BuddyAllocator.Allocator.PageSetup: one region, on blank descriptors from the first one on; see the constructor.
- SlabAllocator.Allocator.constructor: chunk sizes from 4 bytes to a page; below 4 the chain is destroyed (`SlabLinks.LinksSurvive`), above a page a chunk leaves its page.
- SlabAllocator.Allocator.OwnerWrites: a store into the first word of a chunk; no other word is part of the model, and none is read by the allocator.
- KernelHeap.Heap.constructor: managed memory below `PHYS_TOP`; a block above it fails the assertion of `kvm_map` at kernel/mm/vm.c:107 as soon as it is handed out.
- InodeDirty.InodeTable.constructor: inodes of the first block of the inode table, because `get_raw_inode` adds the inode's index in its group, not in its block, to the page's address (kernel/fs/ext2/inode.c:34); a raw inode is its times, its other fields and a deleted mark.
- Drivers, interrupt and descriptor setup, assembly, boot, the shell and the network card: port I/O with little state.
- Copy-on-write and user page tables (kernel/mm/uvm.c): two lines there lose the frame and the write permission.
- `slab_recycle` and `krealloc`: the first walks a node after moving it, the second measures the wrong block.
- Inode location and inode bitmaps across blocks and groups, path parsing, open-file lists, the ELF loader, printing and calendar code.
- `page_sync` and `page_read_sync`, which bypass the dirty queue, and the release of memory in `recycle`.
- `thread_mutex` and `ticklock`: the first wakes the list head, the second takes a ticket on every spin.
- Races inside `schedule`, `task_sleep`, `page_get` and `page_read`; page locks of the page allocator, one of which stays held.
- Bytes of directory records: a block is a map from header offsets to fields; names are byte sequences.
- The magic numbers of chunks and pages, which the source only asserts.
