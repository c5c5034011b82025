# Spinix verification

A Dafny model of the parts of the spinix x86_64 kernel where the hard promises are made, with proofs of those
promises:

* the ticket mutex with sleeping waiters, as a transition system with one step per atomic access, for every schedule
  of any number of threads (`TicketMutex`, `TicketMutexProofs`, `TicketMutexTheorems`), and for every endless fair
  schedule of finitely many (`TicketMutexLiveness`);
* virtual memory: the zoned frame allocator, the four-level page tables, the sorted list of areas and the address
  space built from them, with an exact account of every frame (`FrameAllocator`, `PageTree`, `PageTables`, `PteBits`,
  `Areas`, `AreaForms`, `FrameOwners`, `AddressSpaceSteps`, `AddressSpace`), fork with copy-on-write
  (`PhysicalMemory`, `Fork`), and runs of all these calls (`MemoryRuns`);
* the buffer cache over block devices (`Blocks`, `CacheIndex`, `BufferCache`, `CacheRuns`);
* the slab allocator (`Slabs`, `SlabRuns`);
* files: reference counts of vnodes and open files, the bytes of tmpfs files, lexical path resolution and
  getdents64 (`FileTable`, `Files`, `TmpfsFile`, `Paths`, `Getdents`);
* the segment loader for ELF programs, down to frames and page tables (`ElfLoader`).

`Options`, `Arithmetic` and `Words` hold small shared definitions.

`dafny verify dfyconfig.toml` checks everything. Objects that the kernel updates in place are classes whose methods
are proved against functions of their old state; the promises themselves are invariants, lemmas about those functions,
and methods that take an arbitrary sequence of calls.

Where a promise does not hold of the code, the model keeps the code, gives the case in which it fails, and proves the
exact condition under which it holds:

* a slab that is behind the first one of the full list keeps a freed object there (`Slabs.FreeObjectOnFullList`,
  `Slabs.SlabCache.Free`);
* a slab cache whose alignment exceeds the size of a slab never hands out an object (`Slabs.SlabCache.Alloc`), and page
  alignment of slab memory gives aligned objects exactly for alignments that divide a page
  (`Slabs.PageAlignmentSuffices`);
* O_CREAT with O_EXCL fails even when the file was just created (`Files.FileState.OpenEntry`);
* getdents64 passes over an entry when the buffer is too small for its record (`Getdents.GetDents`);
* sizes from 2^31 on do not survive the int result of read and write (`TmpfsFile.Install`, `TmpfsFile.Load`);
* a segment with more bytes in the file than in memory can overwrite another one (`ElfLoader.OversizedOverwrites`);
  memory is what the headers say exactly if every file byte that lands in another segment is the byte wanted there
  (`ElfLoader.LoadedExactly`), in particular if file bytes stay on the pages of their segment;
* a path that normalizes to "." is accepted for a buffer of one byte, and only then is a result that does not fit
  (`Paths.Normalize`);
* stores of a parent after a fork show up in the child exactly where the two still share the frame
  (`Fork.ParentStoreSeen`, `Fork.ForkSharesStores`);
* no translation forbids execution, whether or not an area or a segment asks for it (`PageTables.MmuContext.MapPage`,
  `AddressSpace.VmSpace.MapRegion`, `ElfLoader.LoadSegments`);
* a path means what its components say exactly if they do not lead more than 32 names deep without coming back to the
  start (`Paths.NormalMeans`, `Paths.DotDotCancels`);
* first fit on an empty list is not measured against the search window (`AreaForms.EmptyListFits`);
* the sectors of a block cover it exactly if the sector size divides the block size (`Blocks.SectorsCover`).

## Model

| member | source | states |
|---|---|---|
| TicketMutexTheorems.MutualExclusion | src/kernel/core/mutex.c:34-149 | in every reachable state of every interleaving at most one thread is between acquiring the lock and passing it on |
| TicketMutexTheorems.FastPathTakesFreeLock | src/kernel/core/mutex.c:36-48 | a compare-and-swap of entries succeeds only while nobody holds a ticket, and the ticket it draws is the one being served |
| TicketMutexTheorems.NoLostWakeup | src/kernel/core/mutex.c:62-101 | if it is the turn of a thread that sleeps or is about to and is not ready, then the unlocker that published this turn has not finished its scan |
| TicketMutexTheorems.TicketsConserved | src/kernel/core/mutex.c:51-56 | the tickets from exits to entries are in bijection with the threads that hold one |
| TicketMutexTheorems.FirstComeFirstServed | src/kernel/core/mutex.c:34-135 | threads enter the critical section in the order in which they drew tickets, each draw at most once, and exits counts those who left |
| TicketMutexTheorems.WaitQueueExact | src/kernel/core/mutex.c:58-101 | the linked wait queue is duplicate-free and holds exactly the threads between enqueue and dequeue, each with the ticket it announced |
| TicketMutexTheorems.OwnerExact | src/kernel/core/mutex.c:126-131 | the owner field names exactly the thread in the critical section |
| TicketMutexTheorems.FreeLockTaken | src/kernel/core/mutex.c:34-124 | in every state with a free lock an idle thread that runs alone has it after four steps of mutex_try_lock or mutex_lock, without touching the wait queue |
| TicketMutexTheorems.TryFailsForAReason | src/kernel/core/mutex.c:107-124 | in every interleaving mutex_try_lock gives up exactly if entries is beyond the value of exits it had loaded, which for the compare-and-swap means that entries changed since it was loaded |
| TicketMutexTheorems.UnstalledMoves | src/kernel/core/mutex.c:13-23 | a thread that neither spins on a taken queue lock nor sleeps unready changes its place with its next step |
| TicketMutexTheorems.NeverStuck | src/kernel/core/mutex.c:34-149 | deadlock freedom: whenever some thread is inside a call or a critical section, one such thread can move |
| TicketMutexLiveness.TurnCases | src/kernel/core/mutex.c:34-149 | every turn passes the lock on, or lowers a bound on the steps left before that, walks along the queue included, or is quiet: a thread that waits or tries in vain, while another can still move |
| TicketMutexLiveness.ExitsGrow | src/kernel/core/mutex.c:126-149 | on every fair schedule, while a ticket is out, the lock is passed on some time |
| TicketMutexLiveness.EveryHolderEnters | src/kernel/core/mutex.c:51-108 | starvation freedom: on every fair schedule of finitely many threads a thread that drew a ticket enters its critical section with that ticket |
| TicketMutexLiveness.EveryLockSucceeds | src/kernel/core/mutex.c:34-108 | on such a schedule every call of mutex_lock gets the lock |
| TicketMutexProofs.ExecInv | src/kernel/core/scheduler.c:356-389 | the invariant of tickets, lock, owner, queue and pending wakeups holds after every schedule, with unblock_task leaving a task ready across a later block_task |
| FrameAllocator.Frames.AddRegion | src/kernel/mm/pmm.c:74-99 | exactly the whole pages inside a memory region become managed and free |
| FrameAllocator.Frames.AllocZone | src/kernel/mm/pmm.c:173-200 | the top frame of one zone leaves its stack, or the zone has none |
| FrameAllocator.Frames.Alloc | src/kernel/mm/pmm.c:152-171 | a free frame of the highest zone that has one; failure exactly when no frame is free |
| FrameAllocator.Frames.AllocFlags | src/kernel/mm/pmm.c:272-296 | the frame is below the limit asked for, and failure means no free frame is |
| FrameAllocator.Frames.Free | src/kernel/mm/pmm.c:202-225 | the frame goes on the stack of the zone of its own address; the counters stay the stack lengths |
| PteBits.CreateSplits | src/include/arch/x86_64/mmu.h:52-66 | address bits and flag bits of an entry do not disturb each other, and together they are the entry |
| PteBits.ShareBits | src/kernel/mm/mmu.c:870-871 | the bit operations of the copy are an update of the flags record |
| PteBits.BreakBits | src/kernel/mm/mmu.c:629-631 | the bit operations of a broken copy-on-write are an update of the flags record |
| PteBits.LinkBits | src/kernel/mm/mmu.c:88-89 | the bit operations on a link to a new table are an update of the flags record |
| PteBits.FrameOfIs | src/include/arch/x86_64/mmu.h:52-66 | the address bits of a word are the address of a page below 2^52 |
| PteBits.ZeroEntry | src/kernel/mm/mmu.c:65-67 | a table as memset leaves it has absent entries |
| PteBits.CreateEntry | src/include/arch/x86_64/mmu.h:52-66 | the word of pte_create stands for the record with the masked address and the flags |
| PteBits.ShareEntry | src/kernel/mm/mmu.c:868-873 | the word that the copy writes stands for the record that the tables get |
| PteBits.BreakEntry | src/kernel/mm/mmu.c:629-631 | the word of a broken copy-on-write stands for the record that the tables get |
| PteBits.LinkEntry | src/kernel/mm/mmu.c:87-89 | the word of a link to a new table stands for the record that the tables get |
| PteBits.ClearEntry | src/kernel/mm/mmu.c:75-80 | clearing no-execute in the word is clearing it in the record |
| PageTree.PathDetermines | src/include/arch/x86_64/mmu.h:39-42 | a user address is determined by its four indices and its page offset, and uses only the lower half of the root |
| PageTree.PathInjective | src/include/arch/x86_64/mmu.h:39-42 | addresses with the same indices lie in the same page |
| PageTree.LeafUpdate | src/kernel/mm/mmu.c:208-253 | writing one leaf entry changes the translation of exactly one page and keeps the tables an unshared tree |
| PageTree.SameChildUpdate | src/kernel/mm/mmu.c:75-80 | clearing no-execute on a link changes no translation |
| PageTree.AddTable | src/kernel/mm/mmu.c:82-92 | linking a new empty table into an absent slot changes no translation and keeps the tables an unshared tree |
| PageTables.MmuContext.constructor | src/kernel/mm/mmu.c:162-184 | a new context translates no user page and has the kernel half it was given |
| PageTables.MmuContext.GetOrCreate | src/kernel/mm/mmu.c:72-92 | the child of a slot, created from a free frame if absent; its link does not forbid execution, and a new one is writable and open to the program exactly if asked for; no translation changes; failure only when no frame is free |
| PageTables.MmuContext.WalkCreate | src/kernel/mm/mmu.c:94-136 | the leaf table of an address with all tables on the way, each new one from a free frame; no translation changes |
| PageTables.MmuContext.Walk | src/kernel/mm/mmu.c:94-136 | the leaf table of an address, exactly if the tree leads to one |
| PageTables.MmuContext.MapPage | src/kernel/mm/mmu.c:208-233 | the flat page map changes at the page named and nowhere else; the entry is writable, user and uncached exactly as asked for, global only where the processor has it, and never forbids execution; failure changes no translation |
| PageTables.MmuContext.UnmapPage | src/kernel/mm/mmu.c:235-253 | the page named is gone from the flat map and no other; success exactly if it was there |
| PageTables.MmuContext.UnmapRange | src/kernel/mm/mmu.c:278-290 | exactly the pages of the range are gone from the flat map |
| PageTables.MmuContext.VirtToPhys | src/kernel/mm/mmu.c:292-306 | frame plus offset as the flat map says, or 0 |
| PageTables.MmuContext.IsMapped | src/kernel/mm/mmu.c:308-315 | true exactly for pages of the flat map |
| PageTables.MmuContext.RemapPage | src/kernel/mm/mmu.c:879-892 | the entry moves from one page to the other; if no table can be had the old translation is gone all the same |
| PageTables.MmuContext.CopyRange | src/kernel/mm/mmu.c:860-877 | the pages of the range that the source translates are shared, read-only and marked, and the others stay; a failure, for lack of frames only, has done this for exactly the pages before one that the source translates |
| Areas.SplitKeeps | src/kernel/mm/vmm.c:631-681 | a split keeps the attributes and the physical address of every address, the order, and the total size |
| Areas.MergeKeeps | src/kernel/mm/vmm.c:145-167 | a merge pass keeps the attributes of every address, the order and the total size, and leaves nothing to merge |
| AreaForms.MaximalFormUnique | src/kernel/mm/vmm.c:683-714 | two maximal lists with the same meaning are the same list up to descriptors |
| AreaForms.SplitRegionKeeps | src/kernel/mm/vmm.c:631-681 | splitting at an address keeps order and meaning |
| AreaForms.MergeUndoesSplits | src/kernel/mm/vmm.c:631-714 | merging after any sequence of splits gives what merging before them gives |
| AreaForms.InsertKeeps | src/kernel/mm/vmm.c:106-126 | inserting over a clear range keeps the order, gives the range its attributes and changes no other address |
| AreaForms.RemoveKeeps | src/kernel/mm/vmm.c:128-143 | removing an area takes the attributes from its addresses and from no others |
| AreaForms.FindFree | src/kernel/mm/vmm.c:63-104 | the lowest place in the window that fits, and 0 only if none fits |
| AreaForms.EmptyListFits | src/kernel/mm/vmm.c:63-79 | on an empty list the result fits exactly when the request fits the window |
| FrameOwners.PageTaken | src/kernel/mm/vmm.c:338-371 | backing a page with a free frame keeps one owner per frame and loses none |
| FrameOwners.PagesReturned | src/kernel/mm/vmm.c:411-423 | returning the frames of a range with their translations keeps one owner per frame and loses none |
| FrameOwners.AreaInserted | src/kernel/mm/vmm.c:296-310 | a new area takes one free frame for its descriptor |
| FrameOwners.AreaRemoved | src/kernel/mm/vmm.c:425-431 | a removed area gives its descriptor frame back |
| FrameOwners.AreaSplit | src/kernel/mm/vmm.c:651-676 | a split takes one free frame for the new descriptor |
| FrameOwners.AreaJoined | src/kernel/mm/vmm.c:695-707 | a join gives the descriptor frame of the second area back |
| AddressSpaceSteps.AllocFreeRoundTrip | src/kernel/mm/vmm.c:452-497 | allocation and then freeing restores list and translations, and every frame is back but those of new tables |
| AddressSpace.VmSpace.constructor | src/kernel/mm/vmm.c:202-223 | a new space has no areas and no translations |
| AddressSpace.VmSpace.MapAnonPages | src/kernel/mm/vmm.c:336-374 | every page of the range is backed by a frame of its own, or everything but new tables is undone |
| AddressSpace.VmSpace.MapPhysPages | src/kernel/mm/vmm.c:314-329 | every page of the range shows its physical address, or everything but new tables is undone |
| AddressSpace.VmSpace.InsertArea | src/kernel/mm/vmm.c:106-126 | the loop over the linked list is sorted insertion |
| AddressSpace.VmSpace.MapRegion | src/kernel/mm/vmm.c:266-392 | a clear range gets exactly the requested area; pages are translated at once exactly for physical and for eager anonymous memory, and then writable, user and uncached exactly as asked for; a failure leaves list and translations, and loses no frame but those of new tables; it fails only on an empty or taken range or with at most four free frames for each page and one for the descriptor |
| AddressSpace.VmSpace.FindArea | src/kernel/mm/vmm.c:804-819 | the first area that contains the address, or none does |
| AddressSpace.VmSpace.UnmapRegion | src/kernel/mm/vmm.c:394-450 | success exactly on the range of one whole area, whose attributes, translations, data frames and descriptor are gone and returned; nothing else changes |
| AddressSpace.VmSpace.SplitRegion | src/kernel/mm/vmm.c:631-681 | success exactly if an area straddles the page and a frame is free; the list is split there |
| AddressSpace.VmSpace.MergeRegions | src/kernel/mm/vmm.c:683-714 | the list becomes its maximal form, the count returned is the number of areas gone, frames are conserved |
| AddressSpace.VmSpace.Munmap | src/kernel/arch/x86_64/syscall.c:625-659 | on success exactly the pages of the rounded range lose attributes and translations, over any areas, gaps and partial overlaps; with two free frames it fails only on bad arguments; a failure has done exactly a prefix |
| AddressSpace.VmSpace.AllocRegion | src/kernel/mm/vmm.c:452-476 | the lowest fitting range gets the area, with pages as asked for, so the overlap test of the mapping step cannot fire; a failure changes only tables |
| AddressSpace.VmSpace.FreeRegion | src/kernel/mm/vmm.c:478-497 | success exactly if an area starts at the address, which is then gone |
| Fork.ForkInto | src/kernel/mm/vmm.c:742-802 | the child has the parent's areas and, at anonymous pages, exactly the parent's frames, read-only and marked; with frames left every page of a physical mapping shows its address with what the area asks for; it took frames for its tables and one for each descriptor, and no others; the parent is untouched |
| Fork.CopyMeansSame | src/kernel/mm/vmm.c:754-768 | a list copied area by area gives every address the same attributes |
| Fork.ChildReadsTheSame | src/kernel/mm/vmm.c:770-780 | right after the fork the child reads the parent's byte at every anonymous address |
| Fork.BreakCow | src/kernel/mm/mmu.c:604-637 | a marked page gets a free frame with the same contents, writable; without a free frame nothing changes |
| Fork.HandleFault | src/kernel/mm/vmm.c:499-591 | a fault breaks copy-on-write, or backs a lazy page with zeros and what its area asks for, or changes no translation and fails; which of them is decided by area, entry and error code; a lazy page, loaded from or stored to, is backed unless at most four frames are free |
| Fork.RunChild | src/kernel/mm/vmm.c:499-534 | every store and fault of the child does what it should, stores through exactly where the processor lets them, and no sequence of them changes a frame of the parent |
| Fork.ForkAndRun | src/kernel/mm/vmm.c:742-802 | after a fork and any run of the child, which starts from the inherited pages and in which every event happens as it should, the parent reads at every anonymous address what it read before |
| Fork.ParentStoreSeen | src/kernel/mm/mmu.c:868-873 | the parent's entries stay writable: its store is seen by the child exactly where the frame is still shared |
| Fork.ForkSharesStores | src/kernel/mm/mmu.c:868-873 | right after a fork every store of the parent to an anonymous page shows up in the child |
| MemoryRuns.RunMmu | src/kernel/mm/mmu.c:208-253 | any sequence of map, unmap and remap of single pages acts on the tables as on a flat map, and unmap succeeds exactly on pages that are there |
| MemoryRuns.OwnFault | src/kernel/mm/vmm.c:536-567 | a fault in a space that shares nothing backs exactly a lazy page, unless at most four frames are free, and keeps one owner per frame |
| MemoryRuns.RunCalls | src/kernel/mm/vmm.c:266-714 | over any run of mapping, unmapping, splitting, merging, allocation, freeing, faults and stores every call does to attributes and translations what it says, every translation allows exactly what its area asks for, every frame keeps one owner, none is lost and none appears |
| MemoryRuns.StoreIn | src/kernel/mm/mmu.c:208-233 | after any such run a store goes through exactly if the area of its page is writable, and open to the program if it is the program that stores; then exactly that byte changes, and otherwise nothing |
| MemoryRuns.MapThenStore | src/kernel/mm/vmm.c:266-392 | a store to a new region changes exactly that byte if the region was mapped with write access, and user access for a store of the program, and nothing otherwise |
| Blocks.SectorsDisjoint | src/kernel/blk/bcache.c:243-245 | distinct blocks use disjoint sectors for every sector size |
| Blocks.SectorsCover | src/kernel/blk/bcache.c:243-245 | the sectors of a block cover exactly its bytes if and only if the sector size divides 4096 |
| Blocks.OverwriteBlock | src/kernel/blk/blk.c:171-196 | writing one block changes that block and no other |
| CacheIndex.SameData | src/kernel/blk/bcache.c:336-380 | writing back buffers changes no block logically |
| CacheIndex.DropClean | src/kernel/blk/bcache.c:166-183 | dropping a buffer that shows the disk changes no block logically |
| CacheIndex.FillClean | src/kernel/blk/bcache.c:229-250 | filling a buffer from the disk changes no block logically and keeps one buffer per block |
| BufferCache.Cache.constructor | src/kernel/blk/bcache.c:67-113 | every buffer is empty and once in the ring |
| BufferCache.Cache.Lookup | src/kernel/blk/bcache.c:115-126 | the buffer of a block is found by its own hash chain, or there is none |
| BufferCache.Cache.Evict | src/kernel/blk/bcache.c:140-188 | the unused buffer nearest to the back of the ring; a dirty one is written first; no block changes logically; none exactly if all are in use |
| BufferCache.Cache.Bread | src/kernel/blk/bcache.c:190-260 | the buffer holds what the block logically holds, with one reference more, at the front of the ring; buffers in use are not recycled; no block changes logically |
| BufferCache.Cache.Bwrite | src/kernel/blk/bcache.c:262-284 | no block changes logically; with sync the disk holds the block, and only that block changed there |
| BufferCache.Cache.Brelse | src/kernel/blk/bcache.c:286-310 | one reference less; a buffer nobody holds goes to the back of the ring and is the next victim |
| BufferCache.Cache.Bpin | src/kernel/blk/bcache.c:312-321 | one pin more, no block changes logically |
| BufferCache.Cache.Bunpin | src/kernel/blk/bcache.c:323-334 | one pin less if there is one, no block changes logically |
| BufferCache.Cache.Bsync | src/kernel/blk/bcache.c:336-380 | no block changes logically, and afterwards the disk holds what every block logically holds unless a client edited it without bwrite |
| BufferCache.Cache.Invalidate | src/kernel/blk/bcache.c:387-433 | no block changes logically, and only buffers in use remain for the device |
| CacheRuns.ReadBlock | src/kernel/blk/bcache.c:190-310 | on a cache in any state, bread and brelse give the block or nothing exactly if 256 other blocks are in use, and leave what clients see as it was |
| CacheRuns.WriteBlock | src/kernel/blk/bcache.c:190-310 | on a cache in any state, bread, a change, bwrite and brelse change that block and no other, on the disk too if sync |
| CacheRuns.Run | src/kernel/blk/bcache.c:115-433 | any run of bread, changes, bwrite, brelse, bpin, bunpin, bsync and invalidation, with buffers held and pinned across calls, answers as a plain array of blocks with counters; a buffer stays with its block while the block is in use |
| CacheRuns.ServedExactly | src/kernel/blk/bcache.c:190-227 | counting blocks in use tells exactly when bread finds a buffer |
| CacheRuns.BufferShows | src/kernel/blk/bcache.c:115-126 | a buffer shows what clients see of its block |
| CacheRuns.AnyCacheStands | src/kernel/blk/bcache.c:67-113 | every cache in which no unwritten change has been let go stands for some plain array with counters, so a run can start anywhere |
| Slabs.SlabCache.constructor | src/kernel/mm/heap.c:148-177 | a new cache has one partial slab and no live object |
| Slabs.SlabCache.FormatSlab | src/kernel/mm/heap.c:131-146 | the free chain of a new slab holds every object once |
| Slabs.SlabCache.Alloc | src/kernel/mm/heap.c:179-230 | an object that nobody has becomes live and no other changes; it comes from the first partial slab, else the first empty one, else new memory, and the slab moves to the full list with its last object; failure exactly if no slab can be had or the alignment exceeds a slab, so the empty-chain branch is reached exactly then |
| Slabs.SlabCache.Free | src/kernel/mm/heap.c:232-288 | a live object is no longer live and no other changes, a foreign address changes nothing; the full list stays full exactly if the slab is not behind its first one, or slabs hold one object |
| Slabs.LiveApart | src/kernel/mm/heap.c:134-143 | live objects do not overlap |
| Slabs.LiveInside | src/kernel/mm/heap.c:134-143 | a live object lies inside its slab |
| Slabs.LiveAligned | src/kernel/mm/heap.c:134-143 | live objects are aligned if the alignment divides a page |
| Slabs.LiveListed | src/kernel/mm/heap.c:239-264 | the slab of a live object is on the full or the partial list and the only one that contains it, so the search of free finds it |
| Slabs.PageAlignmentSuffices | src/kernel/mm/heap.c:119-135 | page-aligned slab memory suffices exactly for alignments that divide a page |
| Slabs.StrideTooBig | src/kernel/mm/heap.c:134-135 | a slab holds no object exactly if the alignment exceeds its size |
| Slabs.ObjectsAligned | src/kernel/mm/heap.c:134-143 | all objects of a slab are aligned exactly if its memory is |
| Slabs.FreeObjectOnFullList | src/kernel/mm/heap.c:179-288 | four allocations and one free after which a slab with a free object is on the full list |
| SlabRuns.Run | src/kernel/mm/heap.c:179-288 | whatever a client takes and gives back, and whatever page-aligned memory apart from the slabs is on offer, the objects it holds are exactly the live ones, do not overlap, lie inside slabs and are aligned |
| FileTable.AliveExactly | src/kernel/fs/vfs.c:312-341 | between calls exactly the vnodes that some entry or open file refers to exist |
| FileTable.UnrefVnode | src/kernel/fs/vfs.c:312-341 | dropping a reference keeps every count exact, and the vnode goes exactly with the last one |
| FileTable.UnrefFile | src/kernel/fs/vfs.c:688-707 | dropping a reference keeps every count exact, and the open file goes exactly with the last one |
| Files.OpenExactly | src/kernel/fs/vfs.c:688-707 | between calls exactly the open files that some descriptor names exist |
| Files.FileState.VnodeRef | src/kernel/fs/vfs.c:305-310 | one reference in flight more, every count exact |
| Files.FileState.VnodeUnref | src/kernel/fs/vfs.c:312-341 | one reference in flight less, every count exact, bytes of remaining vnodes kept |
| Files.FileState.DirentAdd | src/kernel/fs/tmpfs.c:111-137 | a new name with a reference of its own, refused exactly if the name exists |
| Files.FileState.CreateEntry | src/kernel/fs/tmpfs.c:446-493 | a fresh empty file under a new name, with a reference for the caller |
| Files.FileState.OpenEntry | src/kernel/fs/vfs.c:608-686 | a new open file takes over the reference to the vnode; every error path gives it back, and each error has its exact condition; with O_CREAT and O_EXCL it always fails; only the file truncated loses bytes |
| Files.FileState.CloseFile | src/kernel/fs/vfs.c:688-707 | the open file goes with its last reference, and its reference to the vnode with it |
| Files.FileState.Link | src/kernel/fs/vfs.c:953-979 | another name for the same vnode, with exact errors and counts |
| Files.FileState.Unlink | src/kernel/fs/vfs.c:981-1003 | the name goes; a file that is open stays |
| Files.FileState.FreeDescriptor | src/kernel/core/proc.c:954-968 | the lowest unused descriptor |
| Files.FileState.SysOpen | src/kernel/arch/x86_64/syscall.c:397-445 | the lowest unused descriptor, not a standard stream, names a new open file, otherwise the open is undone; each error has its exact condition; exactly the vnode of the name is truncated, and only with O_TRUNC |
| Files.FileState.SysClose | src/kernel/arch/x86_64/syscall.c:447-470 | only the descriptor goes from the table; standard streams stay; names and bytes are kept; EBADF exactly if the descriptor is not open |
| Files.FileState.SysDup | src/kernel/arch/x86_64/syscall.c:749-786 | the lowest unused descriptor names the same open file; each error has its exact condition |
| Files.FileState.SysDup2 | src/kernel/arch/x86_64/syscall.c:788-836 | the target names the same open file after what it named is closed; it stays closed if memory runs out; each error has its exact condition |
| Files.FileState.SysDupFrom | src/kernel/arch/x86_64/syscall.c:838-903 | the lowest unused descriptor from the minimum and from 3 on names the same open file; each error has its exact condition |
| Files.Run | src/kernel/fs/vfs.c:608-707 | over any run of calls every count is exact; the calls alone tell every answer with its error, which names and descriptors a file has, whether it was truncated, and so that it exists exactly while it has a name or a descriptor; a descriptor that was not closed reads the same open file, also after the last name is gone |
| TmpfsFile.File.Read | src/kernel/fs/tmpfs.c:263-294 | as many bytes as asked for and as there are from the offset on, each the byte of the file at its place; the int of their number |
| TmpfsFile.File.Write | src/kernel/fs/tmpfs.c:296-355 | the bytes are put at the offset with zeros in a gap, over whatever the buffer held; it fails exactly if the buffer is too small and there is no memory, and then nothing changes |
| TmpfsFile.File.Truncate | src/kernel/fs/tmpfs.c:357-414 | the bytes are cut or filled up with zeros, and the vnode shows the size; it fails exactly if the buffer is too small and there is no memory, and then nothing changes |
| TmpfsFile.Run | src/kernel/fs/tmpfs.c:263-414 | any mix of reads, writes and truncations, with and without memory to be had, behaves as on a plain byte sequence with a capacity; calls fail exactly when they need a larger buffer and there is none |
| TmpfsFile.Handle.Read | src/kernel/fs/vfs.c:709-729 | the bytes at the position, each the byte of the file at its place; the position moves behind them |
| TmpfsFile.Handle.Write | src/kernel/fs/vfs.c:731-759 | the bytes go to the position or, when appending, to the end, and the position moves behind them; on a writable file it fails exactly if the buffer is too small and there is no memory |
| TmpfsFile.ReadPieces | src/kernel/fs/vfs.c:709-729 | reads with buffers of any positive sizes give the bytes from the position on without gap or overlap, and all of them by the time an answer is empty |
| TmpfsFile.ReadToEnd | src/kernel/fs/vfs.c:709-729 | reading until an empty answer gives the whole file, whatever the size of the buffer |
| TmpfsFile.ToIntRest | src/kernel/fs/tmpfs.c:293 | the int of a size is off by a multiple of 2^32 |
| TmpfsFile.WriteThenRead | src/kernel/fs/tmpfs.c:296-355 | what was written is read back |
| TmpfsFile.CutThenGrow | src/kernel/fs/tmpfs.c:357-414 | a file that was cut reads as zeros where it grows again |
| TmpfsFile.WriteInPieces | src/kernel/fs/tmpfs.c:296-355 | writing in two pieces is writing at once |
| TmpfsFile.AppendIsConcat | src/kernel/fs/vfs.c:750-756 | appending puts the bytes behind the old ones |
| TmpfsFile.Install | src/kernel/fs/runit.c:112-131 | the write loop puts the image into the file, and with memory succeeds exactly below 2^31 bytes |
| TmpfsFile.Load | src/kernel/fs/elf.c:225-265 | the read loop gives the whole file exactly for sizes from 1 to below 2^31 |
| TmpfsFile.InstallThenLoad | src/kernel/fs/elf.c:251-265 | what was installed is what is loaded |
| Paths.Tokenize | src/kernel/fs/vfs.c:367-400 | the one-pass tokenizer computes the fold of the components over a stack |
| Paths.Normalize | src/kernel/fs/vfs.c:351-433 | for every buffer size, the normal form if it fits, else the error, apart from "." in a buffer of one byte |
| Paths.JoinPaths | src/kernel/fs/vfs.c:466-487 | for every buffer size, the first path, one slash exactly if it is not empty and does not end in one, and the second path, if they fit, else the error |
| Paths.NormalIsPlain | src/kernel/fs/vfs.c:351-433 | a normal form has no empty, "." or ".." component, apart from the result "." |
| Paths.NormalMeans | src/kernel/fs/vfs.c:351-433 | the components of a normal form are the names among the first 511 bytes that no later ".." takes back, in order, if and only if they do not lead too deep; it is absolute if the path is, and "." exactly if nothing is left of a relative path |
| Paths.StackMeans | src/kernel/fs/vfs.c:367-400 | the stack of 32 keeps exactly the names that no later ".." takes back, if and only if they never lead more than 32 deep without coming back to the start |
| Paths.DotDotCancels | src/kernel/fs/vfs.c:381-395 | a name and ".." after it leave the normal form of an absolute path as it was, if and only if it has fewer than 32 components |
| Paths.RootParent | src/kernel/fs/vfs.c:381-395 | there is nothing above the root |
| Paths.NormalIdempotent | src/kernel/fs/vfs.c:351-433 | normalizing twice is normalizing once, for every path |
| Paths.NormalOfJoin | src/kernel/fs/vfs.c:351-487 | a path below an absolute directory can be resolved after the directory was |
| Paths.NormalLength | src/kernel/fs/vfs.c:402-428 | a normal form is no longer than the path |
| Getdents.ParsePack | src/kernel/arch/x86_64/syscall.c:992-1006 | packed records parse back to inodes, types, names and positions, in order |
| Getdents.ReadDir | src/kernel/fs/tmpfs.c:692-742 | the entry at the position, which moves on, and nothing at the end |
| Getdents.GetDents | src/kernel/arch/x86_64/syscall.c:943-1013 | as many whole records as fit from the position on, and no fewer; failure exactly if the first does not fit, and the entry is passed over |
| Getdents.Enumerate | src/kernel/arch/x86_64/syscall.c:943-1013 | calls with buffers for the largest record show every entry once and in order, and all of them after as many calls as entries |
| ElfLoader.MapSegment | src/kernel/fs/elf.c:81-93 | new zeroed pages over a range where there were none, each with a frame of its own; the area is readable, writable and executable exactly as the header says, the translations are for the program and writable exactly as it says; failure only if the range is taken or frames run out |
| ElfLoader.ZeroPages | src/kernel/mm/vmm.c:353-356 | zeroing through the frames of a range zeroes exactly its bytes |
| ElfLoader.ShownIsRead | src/kernel/mm/mmu.c:292-306 | the image of a space is what loads through its translations give |
| ElfLoader.CopySegment | src/kernel/fs/elf.c:95-115 | copying page by page through the frames puts the file bytes at the addresses of the segment and changes no other byte of the space |
| ElfLoader.LoadSegments | src/kernel/fs/elf.c:65-118 | whatever the headers say, success leaves exactly the pages of the segments, no two segments on one page; at every address the area is for the program and readable, writable and executable exactly as the header says, and every page is writable exactly as it says; memory is what the headers say exactly if copies agree with the segments they meet, in particular if they stay on their own pages; with enough frames success exactly if segments are apart, inside the file, and every copy lands on segments that are there |
| ElfLoader.LoadedExactly | src/kernel/fs/elf.c:65-118 | after a load every segment is in place exactly if each file byte that lands last in a segment is the byte wanted there |
| ElfLoader.SpillsBack | src/kernel/fs/elf.c:95-115 | file bytes beyond the pages of their segment are in segments loaded before, unless a later copy went over them |
| ElfLoader.FitsLands | src/kernel/fs/elf.c:81-115 | file bytes that stay on the pages of their segment always find a page |
| ElfLoader.FitsAgree | src/kernel/fs/elf.c:81-115 | file bytes that stay on the pages of their segment disturb no other segment |
| ElfLoader.OversizedOverwrites | src/kernel/fs/elf.c:65-118 | a load of two headers that succeeds and after which the first segment is not in place |
| ElfLoader.HeapBase | src/kernel/fs/elf.c:188-210 | the page-aligned end of the last segment, at or above every segment end and below the stack; refused exactly if there is none or it reaches the stack |

## Left out

- Integer widths: tickets, addresses, sizes and counters are unbounded; ranges that wrap 2^64 and counters that wrap are
  not modelled. The int result of tmpfs reads and writes is.
- Ready queue links: the model knows which tasks unblock_task made ready and not yet dispatched, not the linked list.
  Inserting a task a second time while it is still linked, as can happen to a preempted waiter, is not modelled; tasks
  that are not blocked may always run.
- Mutex misuse: unlocking by a thread that does not hold the lock and locking twice are not modelled, nor is the
  wait_queue field of a task, which nothing reads.
- Weak memory: each atomic access is one step of a sequentially consistent machine.
- TicketMutexLiveness.EveryLockSucceeds: for finitely many threads, all of which have turns again and again, so that
  every critical section ends. With ever new threads the test-and-set queue lock can be taken by others each time.
- FrameAllocator.Frames.AddRegion: the first whole page is not frame 0, whose address means failure to callers.
- FrameAllocator.Frames.AllocZone: does not model the zeroing of the frame, because contents are modelled elsewhere.
- FrameAllocator.Frames.AllocFlags: does not model the zeroing of the frame, because contents are modelled elsewhere.
- AddressSpace.VmSpace.MapAnonPages: does not model the zeroing of the pages; `ElfLoader.MapSegment` and
  `Fork.HandleFault` do.
- ElfLoader.MapSegment: the segment lies in the user half.
- Frames: frame 0 is not managed, physical addresses have 52 bits, and the contents of data frames are modelled in
  `PhysicalMemory`, for fork and for loading only. Memory that holds tables is a map per address space.
- PageTables.MmuContext.MapPage: what an entry allows; the user bits of the links on the way to it are those of the first
  mapping below them, and the processor asks for both.
- Page tables: the kernel half, huge pages, the recursive slot and the flushing of translation caches.
- Indices of an address are modelled by division, not by shifts and masks.
- vmm_protect_region, vmm_mark_cow_region, vmm_destroy_space, sys_mmap, sys_brk, the statistics counters and mapped_size.
- Locks of the memory manager, of the caches and of the file system: each call is one step.
- After a fork: unmapping and destroying a space that shares frames, and runs in which parent and child take turns. When
  fork fails, the partly built child is destroyed by code that is not part of this model.
- AddressSpace.VmSpace.MapRegion: the range ends in the user half and does not wrap.
- AddressSpace.VmSpace.Munmap: the range ends in the user half and does not wrap.
- AddressSpace.VmSpace.AllocRegion: only for user memory, for requests that fit the search window, and for lists inside
  it. Mapping may fail for lack of frames only with at most four free frames for each page and one for the descriptor.
- MemoryRuns.RunCalls: calls stay in the window for user memory, and the space is not forked.
- Fork.ForkAndRun: physical mappings show device memory and not managed frames.
- AreaForms.FindFree: the list ends inside the search window, as the unsigned subtraction at its end assumes.
- Buffer cache: devices that fail, runs in which the cache lock is dropped in the middle of a call, buffers for which
  bcache_init found no memory, statistics, and blocks beyond the end of a device. Chains and ring are sequences, not
  links.
- BufferCache.Cache.Bread: the block is on the device.
- CacheRuns.Run: clients write a changed buffer before they let it go, and name buffers in use by their blocks; waiting
  for the lock of a buffer that another client holds is left out.
- BufferCache.Cache.Evict: edits that a client makes without bwrite to a buffer it then releases are not kept.
- Slabs.SlabCache.Free: the address is a live object or outside all slabs.
- Slabs: alignments are taken as powers of two, memory for a slab is given as a new page-aligned region, and freeing an
  address inside a slab that is not a live object is not modelled. General heap blocks are left out.
- Files.FileState.OpenEntry: the path is already resolved to a name in a directory; directories, other file types,
  reference counts of directories, names longer than 255 bytes and v_nlink are not modelled.
- Files.FileState.SysOpen: the allocation of the descriptor record itself does not fail; the path kept with it is left
  out, as are descriptor flags.
- Exit, fork and exec of processes with open descriptors, rename, symlinks, mounts and stdin.
- Paths.Normalize: memory for the work buffers is always there; the byte behind a one-byte buffer is not modelled.
- Paths.NormalOfJoin: for joined paths under 512 bytes, beyond which the work buffer cuts the path.
- Getdents.Enumerate: the directory does not change between calls.
- ElfLoader.LoadSegments: segments lie in the user half, and zeroing follows the mapping of a whole segment instead of
  preceding that of each page; header validation, the initial stack and process creation are left out.
- Scheduler aging, sleeping, priorities, the process tree, drivers, interrupt controllers, console and logging.
