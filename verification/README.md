# GIET-VM: a model of the kernel's memory, synchronisation and file structures

GIET-VM is a static operating system kernel for a clustered multi-processor machine. This
project models six of its parts and proves what they are relied upon to do. `Basics` and
`Powers` hold what several of them need.

* **Kernel heap** (`BuddyTiling`, `BuddySpec`, `BuddyTheorems`, `KernelHeap`). The
  class `KernelHeap` works on the memory of one heap: NEXT words inside free blocks, the 32
  list heads and the `alloc[]` bytes. Its methods are proved against functions on lists; the
  invariant says that free and used blocks tile the heap and that no two free buddies are
  left. Consequences: a drained heap is the initial heap, `free` undoes `malloc`, a request
  fails only when no aligned interval is free.
* **Barriers and locks** (`SimpleBarrier`, `SqtTree`, `SqtBarrier`, `SqtBarrierReuse`,
  `SqtBarrierProgress`, `SqtLock`, `SqtBuild`). State machines with one shared memory access
  per step, any number of processors, any schedule, 32-bit counters that wrap. The quad tree
  itself is built by a class whose result is proved to be a tree on which the barrier and lock
  theorems hold.
* **Physical pages and page tables** (`Pmem`, `PageTable`, `BootPages`, `BootMapping`). The
  boot loader's allocator and table builder against the kernel's translation, up to one whole
  segment mapped and registered.
* **Scheduler** (`Scheduler`). The round-robin choice with pending kill and exec signals.
* **Cluster caches and the FAT** (`CacheTree`, `BufferCache`, `FatCache`, `FatChains`). The
  64-ary write-back cache tree, the FAT seen through it, and the allocation of clusters.
* **Files and directories** (`FatFile`, `FatSystem`, `FatDirectory`, `FatDirectoryCalls`,
  `FatVolume`, `FatCalls`). Read, write and close against the byte sequence of a file;
  directory entries byte by byte; all files of a volume together over any run. `FatCalls`
  shows that every call, whether it succeeds or not, is a step of such a run. A device may
  fail at any access; on devices that never do (`Faultless`) no call reports a device error,
  so that a write succeeds exactly when the clusters can be taken, and an add exactly when
  there is room.

Code that updates structures in place is a class or a method with loops, proved against a
specification function or predicate; the theorems are lemmas about those, over all runs where
the property is about runs. Ghost fields (`lists`, `tiles`, `slot`, `chain`, `fat`) hold what
the words in memory stand for.

Some properties one would expect do not hold in the code. For these the model keeps the code as
it is, gives the exact condition, and shows an input that violates it:

| expected | holds exactly when | violated by |
|---|---|---|
| the SQT barrier can be used again and again | no processor decrements a node between the write of `sense` and the write of `count` (`ReusableIff`); after such a decrement no processor completes more waits than that node was toggled (`OvertakenBarrierIsDead`) | `ReuseCanDeadlock` |
| n small pages are handed out once | n is at most 512 (`SmallRequestLimit`) | `LongRequestOverlaps` |
| the pages of a RAM segment can be handed out | the segment ends below 4 Gbytes (`InitFree`) | `TopSegmentIsLost` |
| a segment in big pages keeps the offsets inside it | the two bases are congruent modulo 2 Mbytes (`MapSegment`, `BigPagesCover`) | `IncongruentBases` |
| the pages of a mapped RAM segment are not handed out again | its first big page was not mapped before, or all its big pages have been handed out (`MapSegment`, `SharedIsOwnedIff`) | `SharedSegmentIsGivenAway` |
| page tables start on 8 Kbyte boundaries | the segment they are cut from does (`SubSegments`) | `MisalignedTable` |
| page tables of a cluster stay apart when another cluster sets the number of second level tables | that number does not grow, and no table has used up more (`ResizeIff`) | `LargerTablesOverlap` |
| n free clusters can be allocated | n is below the number of free clusters up to `max` (the data clusters are 2 to `max` + 1), or equal to it with the last two clusters of the FAT free, or all are allocated, the last one included, and the word behind the FAT is zero (`CanTake`) | `LastFreeClusterIsRefused`, `WordBehindDecides` |
| without device error, the chain of a file covers its size after a write | the clusters the write needs can be taken (`Write`; otherwise the size is the new one and the chain is shorter) | `FullDiskKeepsSize` |
| a new inode knows its directory entry | the normal entry lies in the cluster where the end mark was (`DentryIsRight`) | `DentryCanBeWrong` |
| a removal by the recorded index removes the file and nothing else | the recorded index is that of its normal entry (`RemovalIsExactIff`); just after an add, the normal entry lies in the cluster where the end mark was (`AddThenRemoveIff`) | `WrongFileRemoved` |
| after a write that grows a file, the search finds the new size and cluster | the recorded index is that of its normal entry (`GrownFileIsFound`) | `GrownFileIsMissed` |
| an add that fails leaves a directory that can be searched to its end | the new entries fit in the cluster of the end mark, or a later cluster holds another end mark (`FailedAddKeepsEndIff`) | `FailedAddLosesEnd` |

## Model

| member | source | states |
|---|---|---|
| `BuddyTiling.FreeIntervalIsOneTile` | giet_common/kernel_malloc.c:433-509 | In a heap without two free buddies, an aligned interval that is entirely free lies inside one free block |
| `BuddySpec.SizeIndex` | giet_common/kernel_malloc.c:70-102 | GET_SIZE_INDEX: the index of the smallest power of two that is not below the size |
| `BuddySpec.RequestedIndexFacts` | giet_common/kernel_malloc.c:366-370 | A block is never smaller than 64 bytes, holds the request, and half of it would not (unless it is the smallest block) |
| `BuddySpec.GetBlockSearch` | giet_common/kernel_malloc.c:306-339 | The search fails if and only if all lists from the requested index up are empty; otherwise it takes the front block of the first non-empty one, which is split |
| `BuddySpec.SplitKeeps` | giet_common/kernel_malloc.c:283-301 | Splitting keeps an exact tiling without free buddies and lists that hold each free block once; it leaves one used block of the requested size at the same base and no other use changes |
| `BuddySpec.MallocKeeps` | giet_common/kernel_malloc.c:344-416 | A successful malloc keeps the invariant and turns free space into exactly one used block of the requested power of two, whose alloc[] byte was 0 |
| `BuddySpec.MallocFailsOnlyWhenFull` | giet_common/kernel_malloc.c:306-339 | Malloc fails if and only if every aligned interval of the normalised size contains a byte in use |
| `BuddySpec.MergeKeeps` | giet_common/kernel_malloc.c:433-509 | Merging a block with its free companion keeps the tiling and the lists; only the merged block is new |
| `BuddySpec.CoalesceKeeps` | giet_common/kernel_malloc.c:433-509 | Giving a block back restores the absence of free buddies, removes exactly that use, and the recursion ends below the heap index |
| `BuddySpec.FreeAccepts` | giet_common/kernel_malloc.c:532-562 | The three checks of free accept exactly the bases of blocks in use, and then alloc[] holds the size of the block |
| `BuddySpec.FreeKeeps` | giet_common/kernel_malloc.c:514-573 | An accepted free keeps the invariant and ends the use of exactly that block |
| `BuddyTheorems.InitInv` | giet_common/kernel_malloc.c:183-278 | The initial lists (one block of each size below the heap, none in the alloc[] area) and the zero alloc[] satisfy the invariant |
| `BuddyTheorems.DrainedHeapIsInitial` | giet_common/kernel_malloc.c:433-509 | A heap that satisfies the invariant and has no block in use has exactly the lists and the alloc[] that initialisation builds |
| `BuddyTheorems.CoalesceUndoesSplit` | giet_common/kernel_malloc.c:283-301 | Merging the lower block of a split back up restores every list, order included |
| `BuddyTheorems.FreeUndoesMalloc` | giet_common/kernel_malloc.c:344-416 | free of the block that malloc has just returned is accepted and restores every list element for element and alloc[] |
| `BuddyTheorems.RunKeepsInvariant` | giet_common/kernel_malloc.c:344-573 | Every sequence of mallocs and frees, refused ones included, from the initial heap keeps the invariant |
| `BuddyTheorems.RunThatFreesAllReturnsToInit` | giet_common/kernel_malloc.c:344-573 | Every sequence of mallocs and frees after which nothing is in use ends in the initial heap |
| `KernelHeap.ChainUnlink` | giet_common/kernel_malloc.c:433-509 | Storing the NEXT word of a listed block in the link to it takes exactly this block out of the list threaded through memory |
| `KernelHeap.KernelHeap.Init` | giet_common/kernel_malloc.c:183-278 | Refuses exactly a size that is no power of two and a base that is not aligned; otherwise memory holds the initial heap |
| `KernelHeap.KernelHeap.SplitBlock` | giet_common/kernel_malloc.c:283-301 | Memory, lists and tiles after a split are those of the specification; NEXT words are only written in blocks that end up free |
| `KernelHeap.KernelHeap.GetBlock` | giet_common/kernel_malloc.c:306-339 | Pops and splits as specified; returns 0 with everything unchanged exactly when no list suffices |
| `KernelHeap.KernelHeap.Malloc` | giet_common/kernel_malloc.c:344-416 | Result and new state are those of the specification; no word of a used block is written |
| `KernelHeap.KernelHeap.UpdateFreeArray` | giet_common/kernel_malloc.c:433-509 | The recursive merge over memory computes the specified lists, ends the use of one block and writes no used block |
| `KernelHeap.KernelHeap.Free` | giet_common/kernel_malloc.c:514-573 | Accepts exactly the bases of blocks in use; refuses an address outside the heap, one whose alloc[] byte is 0, and any other with three different codes; a refused pointer changes nothing, an accepted one gives the specified heap |
| `KernelHeap.KernelHeap.UserWrite` | giet_common/kernel_malloc.c:283-339 | The owner of a block may overwrite any word of it, the former NEXT word included, without touching the heap |
| `SimpleBarrier.RunKeepsInv` | giet_common/kernel_barriers.c:44-85 | The invariant that relates count, sense, the place of every task and the episodes holds after every schedule of any number of tasks |
| `SimpleBarrier.StartedStep` | giet_common/kernel_barriers.c:44-85 | What the safety theorem counts: the step of a task outside starts a wait, the step that leads outside completes it, and no other step counts |
| `SimpleBarrier.BarrierIsSafe` | giet_common/kernel_barriers.c:44-85 | A task has completed k waits only if every task has started k; tasks are at most one episode apart; count stays within 0..ntasks |
| `SimpleBarrier.BarrierProgresses` | giet_common/kernel_barriers.c:44-85 | In every reachable state some task can move, and every move that is not a failing poll opens the barrier or lowers a bound of 5 * ntasks |
| `SqtBarrier.StepKeepsInv` | giet_common/kernel_barriers.c:294-341 | Every single memory access of every processor keeps the invariant of all nodes and all call stacks, also between the writes of sense and count |
| `SqtBarrier.RunKeepsInv` | giet_common/kernel_barriers.c:294-370 | The invariant holds after every schedule on every tree |
| `SqtBarrier.NotAheadOfRoot` | giet_common/kernel_barriers.c:294-341 | No node has been toggled more often than the root |
| `SqtBarrier.ArrivedForRoot` | giet_common/kernel_barriers.c:294-341 | Every participant of every node has arrived at least as often as the root was toggled |
| `SqtBarrier.StartedStep` | giet_common/kernel_barriers.c:294-370 | What the safety theorem counts: the first step of a call starts a wait, the return from it completes the wait, and no other step counts |
| `SqtBarrier.BarrierIsSafe` | giet_common/kernel_barriers.c:294-370 | For every tree, schedule and number of episodes, a processor returns from its k-th wait only after every processor has started its k-th wait |
| `SqtBarrierReuse.OvertakenStep` | giet_common/kernel_barriers.c:314-337 | A node becomes overtaken exactly by a decrement between its two reset writes, and is not toggled while overtaken |
| `SqtBarrierReuse.OvertakenIff` | giet_common/kernel_barriers.c:314-337 | After a schedule a node is overtaken if and only if some step decremented it between the write of sense and the write of count |
| `SqtBarrierReuse.OvertakenForever` | giet_common/kernel_barriers.c:314-337 | An overtaken node is never toggled again, whatever is scheduled; OvertakenBarrierIsDead says what this means for the waits |
| `SqtBarrierReuse.SomebodyCanGoOn` | giet_common/kernel_barriers.c:294-341 | Without an overtaken node, not all processors poll a value that has not been written |
| `SqtBarrierReuse.RunGoesOn` | giet_common/kernel_barriers.c:294-341 | After a schedule without such an early decrement, not all processors poll in vain; EpisodeEnds bounds how long the wait lasts |
| `SqtBarrierReuse.ReuseCanDeadlock` | giet_common/kernel_barriers.c:323-324 | A schedule of two processors after which both stay inside their second wait for ever |
| `SqtBarrierProgress.StepBringsCloser` | giet_common/kernel_barriers.c:294-341 | Every step of every processor that is not a failing poll toggles the root or lowers a measure |
| `SqtBarrierProgress.MeasureBound` | giet_common/kernel_barriers.c:294-341 | In every reachable state the measure is at most a bound that depends on the tree alone, because in one episode nobody arrives twice and no node is toggled twice |
| `SqtBarrierProgress.EpisodeEnds` | giet_common/kernel_barriers.c:294-370 | Every continuation without failing polls that is longer than the bound ends the episode |
| `SqtBarrierProgress.OvertakenBarrierIsDead` | giet_common/kernel_barriers.c:314-337 | Once a node has been overtaken, no processor ever completes more waits than that node had been toggled, whatever is scheduled |
| `SqtBarrierProgress.ReusableIff` | giet_common/kernel_barriers.c:294-370 | After a schedule every number of further waits can be completed by all processors if and only if no step of it decremented a node between its toggle and its reset |
| `SqtLock.RunKeepsInv` | giet_common/kernel_locks.c:405-494 | Tickets, current words and holders of all nodes stay consistent after every schedule of fewer than 2^32 processors |
| `SqtLock.GrantInTurn` | giet_common/kernel_locks.c:405-434 | A poll succeeds exactly for the oldest ticket not yet served, although both words wrap at 2^32 |
| `SqtLock.MutualExclusion` | giet_common/kernel_locks.c:405-494 | In every interleaving at most one processor is between the end of its acquire and the end of its release |
| `SqtLock.OwnerOnlyWrites` | giet_common/kernel_locks.c:458-477 | Only the holder of a node changes its current word, so the separate read and write lose no update |
| `SqtLock.SomebodyGoesOn` | giet_common/kernel_locks.c:405-494 | If some processor acquires or releases, some processor that acquires or releases is not waiting in vain |
| `SqtLock.BoundedOvertaking` | giet_common/kernel_locks.c:405-494 | While a processor waits with its ticket at a node, under any schedule, every other one is served there at most once and only if it drew its ticket before: fewer than there are processors |
| `SqtBuild.GetFootprint` | giet_common/utils.c:674-706 | The smallest rectangle from (0,0) that contains every cluster with processors, and the smallest depth of a quad tree over it |
| `SqtBuild.BelowChild` | giet_common/kernel_barriers.c:146-206 | The subtrees of the four children partition the subtree of a node without the node |
| `SqtBuild.SqtBuilder.Build` | giet_common/kernel_barriers.c:102-207 | The recursive build writes each node of its subtree exactly once, with arity, count, parent and children as required, and no other node |
| `SqtBuild.SqtBuilder.Init` | giet_common/kernel_barriers.c:223-285 | Exactly the nodes of the footprint are allocated, and each of them is initialised exactly once |
| `SqtBuild.ChildPartsSize` | giet_common/kernel_barriers.c:146-181 | The arity of an inner node is the number of its children that exist |
| `SqtBuild.BuiltTreeIsValid` | giet_common/kernel_locks.c:211-395 | The links that the construction writes form a tree to which the lock and barrier theorems apply |
| `SqtBuild.LeafChainEndsAtRoot` | giet_common/kernel_locks.c:211-395 | From the leaf of every processor, levels - 1 parent links lead to node[0][0][levels-1] |
| `Pmem.UnpackPpn` | giet_common/pmem.c:55-118 | The four fields of a packed page number can be read back, so packing is injective |
| `Pmem.PackPpn` | giet_common/pmem.c:55-118 | Packing the fields of a page number gives the page number |
| `Pmem.InitFree` | giet_common/pmem.c:20-52 | Initialisation fails exactly for an unaligned segment; the free pages are then those of the segment but for the reserved one of cluster (0,0), if the segment ends below 4 Gbytes; otherwise the sum of base and size wraps and there are none |
| `Pmem.TopSegmentIsLost` | giet_common/pmem.c:36-38 | The last 2 Mbytes below 4 Gbytes: a segment of which no page can be handed out |
| `Pmem.GetBigTakes` | giet_common/pmem.c:55-77 | n contiguous big pages that were free stop being free and nothing else changes; fails exactly when fewer are left |
| `Pmem.GetSmallTakes` | giet_common/pmem.c:80-118 | n contiguous small pages that were free stop being free; besides them only the rest of an abandoned big page is lost |
| `Pmem.SmallRequestLimit` | giet_common/pmem.c:80-118 | A small request hands out free pages once if and only if it asks for at most 512 |
| `Pmem.LongRequestOverlaps` | giet_common/pmem.c:80-118 | A request for 600 small pages whose range overlaps the next big page handed out |
| `Pmem.RunTakes` | giet_common/pmem.c:55-118 | Over any requests in all clusters, pages handed out were available and never become available again |
| `Pmem.GrantsAreDisjoint` | giet_common/pmem.c:55-118 | Over any requests in all clusters, no page is handed out twice |
| `Pmem.GrantsStayInSegment` | giet_common/pmem.c:20-118 | Every page handed out lies in the segment of its own cluster and is not the reserved one |
| `Pmem.PmemAllocator.Initialise` | giet_common/pmem.c:20-52 | Sets the allocator to the specified initial state, or refuses and changes nothing |
| `Pmem.PmemAllocator.GetBigPpn` | giet_common/pmem.c:55-77 | Result and new state are those whose effect GetBigTakes states |
| `Pmem.PmemAllocator.GetSmallPpn` | giet_common/pmem.c:80-118 | Result and new state are those whose effect GetSmallTakes states |
| `PageTable.Pte1Fields` | giet_boot/boot.c:215-221 | A first level word for a big page is valid, is no pointer, and gives back flags and page |
| `PageTable.PtdFields` | giet_boot/boot.c:284-292 | A first level pointer is valid, is a pointer, and gives back the address of the second level table |
| `PageTable.TableLayout` | giet_boot/boot.c:195-305 | Where the words of a registered page lie: first level word at 4 * ix1, second level tables behind the first 8 Kbytes, flags at 8 * ix2 and page number in the next word |
| `PageTable.TranslateRegistered` | giet_common/vmem.c:15-103 | Every address in a registered page, big or small, is translated to the same offset in the physical page, with V and the registered flags |
| `PageTable.TranslateUnregistered` | giet_common/vmem.c:15-103 | An address whose first level entry was never registered is reported as unmapped |
| `PageTable.AddPte1Registers` | giet_boot/boot.c:195-225 | Registers the page, keeps every other registered page in every table, and writes inside its own table only |
| `PageTable.AddPte2Registers` | giet_boot/boot.c:236-305 | The same for a small page, with a second level table that no other entry uses; fails only if no table is left |
| `PageTable.RegisteringKeepsTranslations` | giet_boot/boot.c:195-305 | Registering a page never changes the translation of an address in another registered page, in any table |
| `PageTable.AddTableKeepsValid` | giet_boot/boot.c:504-512 | A cleared table in fresh memory joins the others; all registered pages are kept |
| `BootPages.BigPagesCover` | giet_boot/boot.c:538-710 | Big pages cover the segment, and keep the offset if and only if the bases are congruent modulo 2 Mbytes |
| `BootPages.SegmentIsMapped` | giet_boot/boot.c:538-710 | With all pages registered, vbase + d is translated to pbase + d with V and the flags that FlagsOfMode spells out, for every d below the length |
| `BootPages.Loader.AddFirstLevel` | giet_boot/boot.c:195-225 | Writes the first level word as specified; fails exactly when the table does not exist |
| `BootPages.Loader.AddSecondLevel` | giet_boot/boot.c:236-305 | Writes the second level entry, opening a second level table if needed, as specified |
| `BootPages.Loader.TargetsByKind` | giet_boot/boot.c:595-705 | Which tables need a segment: one, those of all vspaces of its cluster, those of one vspace in all clusters with processors, or all of them |
| `PageTable.AddPte2Demand` | giet_boot/boot.c:236-305 | The second level tables used and still needed for a range of entries stay the same in number when a small page in it is registered; this fails only if they are too many |
| `BootPages.Loader.VsegPte` | giet_boot/boot.c:538-710 | Succeeds exactly if every table that needs the segment exists and has a second level table left for each of its entries that is still unused; then each has every page of it, and every address is translated; other pages are kept; only those tables are written |
| `BootPages.Loader.BigPages` | giet_boot/boot.c:426-466 | New big pages, exactly if enough are left, or those from the big page on that the word read for the segment shows, provided its mode is the same; without a table the word is the one at 4 * ix1 |
| `BootPages.Loader.HomeWordIsEntry` | giet_boot/boot.c:434-462 | With a table whose entry is not used for small pages, the word is valid exactly if a big page is registered there, and shows its number and mode |
| `BootPages.Loader.HomeWordWithoutTable` | giet_boot/boot.c:434-439 | Where no table exists, its address is 0 and the word is one of the first 8 Kbytes of physical memory |
| `BootPages.Loader.VsegMap` | giet_boot/boot.c:351-476 | Fails exactly for an unaligned base, too few pages left, or a shared big page of another mode; otherwise the physical base for identity, RAM and peripheral segments: fresh pages, the big page that the word read shows, or the segment's own base; congruent for big pages in RAM; MapSegment completes it |
| `BootPages.Loader.PtabCut` | giet_boot/boot.c:486-513 | Cuts a segment into one sub-segment per vspace, each cleared and registered as an empty table at its physical and virtual address, with the number of second level tables that follows from their size |
| `BootPages.Loader.PtabMap` | giet_boot/boot.c:397-513 | Mapping the segment of the page tables, which fails exactly as VsegMap says, cuts freshly allocated pages; the resulting tables are right and apart from all others, with all registered pages kept, exactly if those mapped before bear the new number of second level tables |
| `BootPages.CutValidIff` | giet_boot/boot.c:486-513 | Cutting a segment in fresh pages leaves tables that are right and apart if and only if those mapped before are with the new number of second level tables; then all registered pages are kept |
| `BootPages.MaxPt2Fits` | giet_boot/boot.c:494-498 | The number of second level tables is the number of pages minus two if and only if there are two pages; below, the unsigned subtraction wraps |
| `BootPages.Loader.PagesPerTableIs` | giet_boot/boot.c:489-495 | Each table gets the largest even number of small pages with which all tables fit in the segment |
| `BootPages.SubSegments` | giet_boot/boot.c:486-513 | The sub-segments contain their tables, follow each other without overlap, and are aligned on 8 Kbytes if and only if the segment is |
| `BootPages.CutTaken` | giet_boot/boot.c:486-513 | No table lies in a page that can still be handed out |
| `BootPages.CutIsPacked` | giet_boot/boot.c:486-513 | In a cut segment each table ends where the next one begins |
| `BootPages.ResizeIff` | giet_boot/boot.c:486-513 | With tables so packed, another number of second level tables keeps all tables apart and bounded if and only if it is not larger and no table has used up more |
| `BootMapping.MapSegment` | giet_boot/boot.c:351-710 | Mapping and registering one segment, which succeeds exactly if it can be placed and every table that needs it has room: in every table that needs it every address is translated to pbase plus its offset with the right flags if and only if the bases are congruent; pages registered before are kept; no page of a RAM segment can be handed out again, by the allocator of any cluster, except exactly when it starts in a shared big page and not all its big pages had been handed out |
| `BootMapping.TakenIffHandedOut` | giet_boot/boot.c:426-466 | None of n big pages can be handed out again by an allocator exactly when they lie below its next big page or outside its cluster, and none is being handed out in small pages |
| `BootMapping.FlagsOfMode` | giet_boot/boot.c:559-571 | The flags of a segment bit by bit: C, X, W and U follow the four mode bits, G is set exactly for all vspaces, L, R and D always, and no other bit; the mode read back from an entry (boot.c:450-453) is the mode it was registered with |
| `BootMapping.WordsOfTable` | giet_boot/boot.c:215-305 | The three words of a page table bit by bit: V and T at the top, then the flags or the address of the second level table, then the number of the big page |
| `BootMapping.SharedIsOwnedIff` | giet_boot/boot.c:441-462 | The same for the pages of a segment that starts in a big page mapped before |
| `BootMapping.SharedSegmentIsGivenAway` | giet_boot/boot.c:426-476 | A segment of several big pages whose first one is shared and was the last one handed out: after it has been mapped, the next request for a big page gets its second page |
| `BootMapping.MisalignedTable` | giet_boot/boot.c:486-513 | A page table that is not aligned on 8 Kbytes |
| `BootMapping.LargerTablesOverlap` | giet_boot/boot.c:494-513 | Two tables cut from one segment that overlap as soon as the number of second level tables grows |
| `BootMapping.IncongruentBases` | giet_boot/boot.c:351-710 | A peripheral segment at 0x1000, registered in a big page at 0x200000, whose first address is translated to 0 |
| `Scheduler.ReadyMeans` | giet_kernel/ctx_handler.c:162-181 | A task can run after its signals are applied if and only if exec is pending, or nothing blocks it and kill is not pending; applying them acknowledges them and is idempotent; the registers change exactly for exec |
| `Scheduler.DistanceFacts` | giet_kernel/ctx_handler.c:158-160 | The scan meets each task at exactly one step between 1 and the number of tasks |
| `Scheduler.IdleIffNothingRuns` | giet_kernel/ctx_handler.c:158-190 | The idle task is chosen if and only if no task can run; otherwise the chosen task can run |
| `Scheduler.GetsCloser` | giet_kernel/ctx_handler.c:138-213 | A task that can run is chosen or gets strictly closer in scan order |
| `Scheduler.BoundedWaiting` | giet_kernel/ctx_handler.c:138-213 | A task that can run at each call becomes current within as many calls as there are tasks, from any current task, whatever happens to the contexts between calls |
| `Scheduler.StaticScheduler.KillTask` | giet_kernel/ctx_handler.c:27-76 | Blocks the given task and changes nothing else in the scheduler |
| `Scheduler.StaticScheduler.ExecTask` | giet_kernel/ctx_handler.c:80-101 | Sets return address, status, stack pointer and program counter to those the task starts with, and unblocks it completely |
| `Scheduler.StaticScheduler.Switch` | giet_kernel/ctx_handler.c:138-213 | Chooses the first task of the scan that can run, or idle, having applied the signals of exactly the tasks it met |
| `CacheTree.StoreIsUpdate` | giet_fat32/fat32.c:1018-1112 | The tree implements a map from cluster index to descriptor: storing changes exactly one index |
| `CacheTree.AddLevelKeeps` | giet_fat32/fat32.c:995-1005 | A new root with the old one as child 0 keeps every lookup, and the new indices are empty |
| `CacheTree.LevelsAreEnough` | giet_fat32/fat32.c:671-677 | The number of levels computed from a size is the smallest that can index all its clusters |
| `BufferCache.Find` | giet_fat32/fat32.c:1018-1112 | The walk from the root finds the descriptor that the tree maps the index to |
| `BufferCache.LoadKeepsView` | giet_fat32/fat32.c:1027-1093 | Loading a missing cluster changes nothing that the cache shows |
| `BufferCache.WriteChangesView` | giet_fat32/fat32.c:1194-1215 | Changing a cached cluster changes what the cache shows there and nowhere else |
| `BufferCache.GrowKeepsView` | giet_fat32/fat32.c:995-1005 | Adding a level changes nothing that the cache shows |
| `BufferCache.UpdateDevice` | giet_fat32/fat32.c:1340-1396 | A dirty bit is cleared only after a successful write, the device only changes at dirty clusters, and an error is reported exactly when a cluster is still dirty, and never by a device that does not fail |
| `BufferCache.FlushKeepsView` | giet_fat32/fat32.c:1340-1396 | A flush, even one that fails half-way, changes nothing that the cache shows; after a success the device shows the same |
| `BufferCache.ReleaseMemory` | giet_fat32/fat32.c:1401-1438 | Empties the tree and keeps its root and depth |
| `BufferCache.ReleaseKeepsView` | giet_fat32/fat32.c:1401-1438 | Dropping a clean cache and reading again from the device shows the same |
| `FatCache.EntryAddress` | giet_fat32/fat32.c:1035-1043 | Entry c lies at byte 4 * c of the FAT, and the cache tree, with the levels computed from the size of the FAT, covers all its entries |
| `FatCache.FatCache.GetFatEntry` | giet_fat32/fat32.c:1169-1189 | Returns the entry as the cache shows it and changes none, or reports a device error, which a device that never fails does not have |
| `FatCache.FatCache.SetFatEntry` | giet_fat32/fat32.c:1194-1215 | Changes exactly one entry as the cache shows it, and not the device |
| `FatCache.FatCache.Update` | giet_fat32/fat32.c:1340-1396 | Keeps every entry; without error, so always if the device never fails, the device equals what the cache shows |
| `FatCache.RunIsTransparent` | giet_fat32/fat32.c:974-1215 | Over every run of hits, misses, sets, flushes and device errors, the cache shows the last value set |
| `FatCache.ReadsAndFlushesSeeLastSet` | giet_fat32/fat32.c:1169-1396 | Over every run, a read returns the last value set, and a flush without error has put the last value set on the device |
| `FatChains.ChainIsAcyclic` | giet_fat32/fat32.c:1445-1526 | A chain never comes back to one of its clusters |
| `FatChains.ChainIsUnique` | giet_fat32/fat32.c:1470-1476 | The first cluster determines the chain |
| `FatChains.ChainExtends` | giet_fat32/fat32.c:1445-1526 | Linking a free cluster behind the last one gives the chain with that cluster at the end |
| `FatChains.TakeFree` | giet_fat32/fat32.c:1288-1334 | Taking the first free cluster and moving to the next one keeps the counters exact |
| `FatChains.GiveFree` | giet_fat32/fat32.c:1531-1558 | Freeing a cluster and lowering the first free index if needed keeps the counters exact |
| `FatChains.Fat.NextFree` | giet_fat32/fat32.c:1290-1315 | The scan finds the next free entry up to its limit, or there is none |
| `FatChains.Fat.AllocateOneCluster` | giet_fat32/fat32.c:1288-1334 | Takes the smallest free cluster with exact counters, but only if the scan meets another free word, be it behind the FAT; a refusal or error changes nothing, and there is no error if the device never fails |
| `FatChains.Fat.ClustersRelease` | giet_fat32/fat32.c:1531-1558 | Frees exactly the clusters of a chain, counts them, and writes the FAT to the device |
| `FatChains.TookNext` | giet_fat32/fat32.c:1288-1334 | Clusters are taken in increasing order, and one more has been taken only if that many can be |
| `FatChains.CannotTake` | giet_fat32/fat32.c:1290-1315 | When the scan finds no other free cluster, the requested number could not be taken |
| `FatChains.LastFreeClusterIsRefused` | giet_fat32/fat32.c:1290-1315 | A FAT with one free cluster, counted as such, for which a request for one cluster fails |
| `FatChains.AllocationCounts` | giet_fat32/fat32.c:1288-1334 | Taking the first free cluster and moving the index to the next free word found keeps the counters exact, also when that word lies behind the end of the FAT and no free cluster is left |
| `FatChains.WordBehindDecides` | giet_fat32/fat32.c:1290-1315 | When only the last cluster of the FAT is free, it can be taken if and only if the word behind the FAT, which stands for no cluster, is zero |
| `FatFile.OtherFileKept` | giet_fat32/fat32.c:3023-3115 | A file whose clusters are not written by others keeps its content |
| `FatFile.ClusterAddresses` | giet_fat32/fat32.c:705-714 | Cluster 2 lies where the data begin, and each next cluster 8 sectors further |
| `FatFile.FlushFile` | giet_fat32/fat32.c:1340-1396 | Writing a file back, even with errors, keeps its content and touches only its own clusters; without error the device holds the content |
| `FatFile.ReleaseFile` | giet_fat32/fat32.c:1401-1438 | Emptying the cache of a file that is entirely on the device keeps its content |
| `FatSystem.FileSystem.GetBuffer` | giet_fat32/fat32.c:974-1115 | Returns the descriptor of the cluster that is cached, or else the content of the device at data_lba + 8 * (cluster - 2) for the id-th cluster of the chain; an error only if the device fails or the cluster is the one behind the last; the content of the file is unchanged |
| `FatSystem.FileSystem.FindCluster` | giet_fat32/fat32.c:1053-1059 | Following the FAT id times from the first cluster gives the id-th cluster of the chain, or its end mark |
| `FatSystem.FileSystem.AllocateOneBuffer` | giet_fat32/fat32.c:1220-1282 | The file gets a dirty buffer with the address of its new cluster; the clusters before it keep their content |
| `FatSystem.FileSystem.ClustersAllocate` | giet_fat32/fat32.c:1445-1526 | On devices that never fail, and otherwise without device error, succeeds exactly if the number can be taken; then the chain is extended by that many formerly free clusters, no other entry changes, and the FAT is on the device; otherwise the chain is extended by fewer of them, unless the device failed while the last one was linked |
| `FatSystem.ClustersAreEnough` | giet_fat32/fat32.c:3391-3398 | The number of clusters that Grow asks for is the least that holds the bytes |
| `FatSystem.FileSystem.UpdateDirEntry` | giet_fat32/fat32.c:2047-2075 | Rewrites the size and cluster fields of one directory entry and nothing else |
| `FatSystem.FileSystem.CopyOut` | giet_fat32/fat32.c:3218-3293 | The cluster by cluster copy yields exactly the bytes of the file from seek on |
| `FatSystem.FileSystem.Read` | giet_fat32/fat32.c:3176-3308 | The error codes, with nothing changed; 0 beyond the end of the file; otherwise exactly the requested slice, seek advanced, file unchanged; an I/O error only if a device may fail |
| `FatSystem.FileSystem.Grow` | giet_fat32/fat32.c:3384-3438 | The size is the new one on every outcome; the bytes are kept; the file gets the clusters the new size needs (ClustersAreEnough) and its directory entry is rewritten; if they cannot be taken, it gets fewer and the directory is unchanged |
| `FatSystem.FileSystem.CopyIn` | giet_fat32/fat32.c:3440-3513 | The cluster by cluster copy replaces exactly the bytes from seek on; after a device error, a first part of them |
| `FatSystem.FileSystem.Write` | giet_fat32/fat32.c:3330-3528 | The four refusals by condition and code, with nothing changed; on success exactly bytes seek .. seek + count are the data, the size is the larger one, only formerly free clusters were added and only this file's directory entry changed; after an error the size is the new one, old bytes are kept but for a first part of the data, and the chain covers the size if the clusters were allocated and is too short if space ran out, which happens only when they cannot be taken; an I/O error only if a device may fail |
| `FatSystem.FileSystem.FullDiskKeepsSize` | giet_fat32/fat32.c:3384-3438 | One byte written to an empty file while one cluster is free: no space, and the size is 1 without a cluster |
| `FatSystem.FileSystem.LastClose` | giet_fat32/fat32.c:3060-3106 | Writes file and directory back and empties the cache of the file; contents unchanged; on success no cluster of either is dirty and the device holds both |
| `FatSystem.FileSystem.Close` | giet_fat32/fat32.c:3023-3115 | The refusals by condition and code, with nothing changed; an error only if a device may fail; otherwise content of file and directory unchanged, device only changed at their clusters; after a last close that succeeds the device alone holds the file, and holds every block of its directory |
| `FatVolume.GrowKeepsVolume` | giet_fat32/fat32.c:3330-3528 | Extending one file by free clusters, by a write that succeeds or runs out of space, keeps all chains disjoint and every other file intact |
| `FatVolume.CloseKeepsVolume` | giet_fat32/fat32.c:3023-3115 | Closing one file changes the content of none |
| `FatVolume.RemoveKeepsVolume` | giet_fat32/fat32.c:1531-1558 | Releasing the chain of one file keeps every other file intact |
| `FatVolume.LossKeepsVolume` | giet_fat32/fat32.c:1445-1558 | A device error while the chain of one file is extended or released keeps every other file intact, and all other chains disjoint |
| `FatVolume.RewriteKeepsVolume` | giet_fat32/fat32.c:1733-2041 | Writing entries of one directory keeps every other file intact |
| `FatVolume.SyncKeepsVolume` | giet_fat32/fat32.c:1340-1396 | Writing one file back to the device, even with errors, changes the content of none |
| `FatVolume.FillKeepsVolume` | giet_fat32/fat32.c:974-1115 | Loading clusters of one file changes the content of none |
| `FatVolume.CreateKeepsVolume` | giet_fat32/fat32.c:900-930 | A new file without clusters changes the content of none |
| `FatVolume.RunKeepsVolume` | giet_fat32/fat32.c:900-3528 | Over every run of reads, searches, creations, writes, closes, directory changes and removals, failed ones included, chains stay acyclic and pairwise disjoint, and a file that none of them concerns reads the same |
| `FatVolume.WrittenIsReadBack` | giet_fat32/fat32.c:3023-3528 | What a file holds after a write is what a later read returns, after any operations on other files, failed ones included, and after being closed and loaded again |
| `FatCalls.CreateFile` | giet_fat32/fat32.c:900-930 | A new inode has no cluster, size 0 and the given type, parent and index; it is the step Create of a run, and keeps the session: right counters, consistent files, disjoint chains |
| `FatCalls.ReadFile` | giet_fat32/fat32.c:3176-3308 | A read, whatever it returns, is a step Fill or no step at all; it returns 0 exactly beyond the end of the file; the bytes it returns are those the file holds |
| `FatCalls.WriteFile` | giet_fat32/fat32.c:3330-3528 | A write is no step if refused, a step Grow if it succeeds or runs out of space, and a step Lose if a new cluster could not be linked; the session is kept; after a success the file holds the data; if the devices never fail it succeeds exactly when the clusters it needs can be taken |
| `FatCalls.CloseFile` | giet_fat32/fat32.c:3023-3115 | A close, successful or not, is a step Close, or none if refused; it fails only if a device may fail; a last close that succeeds leaves file and directory on the device and the cache of the file empty |
| `FatCalls.SearchDirectory` | giet_fat32/fat32.c:2137-2214 | A search in a directory, whatever it returns, is a step Fill; with an end mark and devices that never fail, it tells whether the name is there |
| `FatCalls.AddEntry` | giet_fat32/fat32.c:1733-1980 | Adding an entry, successful or not, is a step Rewrite of the directory; if the devices never fail it succeeds exactly when there is room |
| `FatCalls.EraseEntry` | giet_fat32/fat32.c:1985-2041 | Removing an entry, successful or not, is a step Rewrite of the directory; it fails only for a name over 31 characters or if a device may fail |
| `FatCalls.SyncDirectory` | giet_fat32/fat32.c:1340-1396 | Writing a directory back, successful or not, is a step Sync; after a success the device holds every block of it |
| `FatCalls.ReleaseFile` | giet_fat32/fat32.c:1531-1558 | Releasing a chain is a step Remove, or a step Lose after an error; after a success its clusters are free, on the device too |
| `FatCalls.RemoveNode` | giet_fat32/fat32.c:2375-2402 | Removing a file erases its entries backwards from the recorded index and is the run Rewrite, Sync, Remove; the device holds the directory before the clusters are freed; after a success they are free on the device and the cache is empty; it fails only for a name over 31 characters or if a device may fail; then it is a beginning of this run, or one that loses the file |
| `FatDirectory.LongEntryHoldsPiece` | giet_fat32/fat32.c:811-878 | Reading a long entry gives back the 13 characters of the name it was written for |
| `FatDirectory.NormalEntryFields` | giet_fat32/fat32.c:1927-1960 | A normal entry gives back any 32-bit cluster and size, and the type |
| `FatDirectory.ShortNameIs` | giet_fat32/fat32.c:780-808 | An entry that holds an upper-case stem of up to 8 characters and an extension of up to 3, padded with blanks, has the name stem, or stem.extension if there is one |
| `FatDirectory.LongEntryBytes` | giet_fat32/fat32.c:1849-1926 | A long entry byte by byte: the number, marked with 0x40 in the last one, the characters at their places, attribute 0x0F and checksum 0xCA |
| `FatDirectory.NormalEntryBytes` | giet_fat32/fat32.c:1927-1960 | A normal entry byte by byte: the first 8 characters in upper case, no extension, the type, and cluster and size with the low byte first |
| `FatDirectory.NormalEntryHoldsStem` | giet_fat32/fat32.c:780-808 | The short name of a file with at most 8 characters, none upper-case or blank, is its name |
| `FatDirectory.LongEntriesNeeded` | giet_fat32/fat32.c:1637-1664 | The number of long entries is the least that holds the name, 13 characters each |
| `FatDirectory.AddedOrder` | giet_fat32/fat32.c:1824-1980 | What an add writes from the end mark on: the long entries with descending numbers, the first one marked, then the normal entry and the new end mark; nothing else changes |
| `FatDirectory.SearchIsNamed` | giet_fat32/fat32.c:2137-2214 | The scan with its three name buffers finds the first file of that name in the list of files of the directory |
| `FatDirectory.CountIsFiles` | giet_fat32/fat32.c:1670-1728 | The number of normal entries is the number of files |
| `FatDirectory.AddAppends` | giet_fat32/fat32.c:1733-1980 | Adding a file appends it to the list of files and leaves the directory well formed |
| `FatDirectory.WipeRemoves` | giet_fat32/fat32.c:1985-2041 | Marking the entries of the k-th file free removes it from the list of files and nothing else |
| `FatDirectory.AddThenLookup` | giet_fat32/fat32.c:1733-2214 | After an add, a search gives back name, cluster, size, type and index; other searches are unchanged; one file more |
| `FatDirectory.RemoveThenLookup` | giet_fat32/fat32.c:1985-2214 | After a removal the name is not found; other searches are unchanged; one file less |
| `FatDirectory.EraseBackWipes` | giet_fat32/fat32.c:1985-2041 | Erasing backwards from the normal entry of the k-th file wipes exactly its entries |
| `FatDirectory.RemovalIsExactIff` | giet_fat32/fat32.c:1985-2041 | Erasing from the recorded index removes exactly the k-th file if and only if this index is that of its normal entry |
| `FatDirectory.AddThenRemoveIff` | giet_fat32/fat32.c:1824-2041 | Removing a file just added by the index recorded for it wipes exactly the entries just written if and only if those of the file all lie in the cluster of the old end mark |
| `FatDirectory.WrongFileRemoved` | giet_fat32/fat32.c:1824-2041 | A directory where a file is added over a cluster boundary and removed by the index recorded for it: another file is gone and the removed one is still found |
| `FatDirectory.UpdateThenLookup` | giet_fat32/fat32.c:2047-2214 | After rewriting the size and cluster fields of an entry, the search finds them for the k-th file if and only if it is its normal entry; then other searches are unchanged |
| `FatDirectory.GrownFileIsMissed` | giet_fat32/fat32.c:1956-2075 | A file added over a cluster boundary grows: its size and cluster are written to the entry with the recorded index 0, and the search does not find them |
| `FatDirectory.DentryIsRight` | giet_fat32/fat32.c:1824-1956 | The recorded index is that of the normal entry if and only if this entry is in the cluster of the old end mark |
| `FatDirectory.DentryCanBeWrong` | giet_fat32/fat32.c:1824-1956 | With the end mark in the last entry of a cluster, the recorded index is wrong |
| `FatDirectoryCalls.GetNbEntries` | giet_fat32/fat32.c:1670-1728 | Counts the files through the cache, leaving the directory unchanged; without an end mark there is only an error, with one there is none if the devices never fail |
| `FatDirectoryCalls.GetNameFromLong` | giet_fat32/fat32.c:811-878 | The three loops read the characters of a long entry, as LongEntryHoldsPiece uses them |
| `FatDirectoryCalls.GetNameFromShort` | giet_fat32/fat32.c:780-808 | Reads the lower-case name of an entry without long entries: stem, or stem.extension, as ShortNameIs says |
| `FatDirectoryCalls.GetChildFromParent` | giet_fat32/fat32.c:2137-2214 | The search through the cached clusters returns what AddThenLookup and RemoveThenLookup are about, an entry without long entries having the name of ShortNameIs; a name is reported missing only in a directory that has an end mark, and if the devices never fail there is an error exactly when the name is missing and the end mark too |
| `FatDirectoryCalls.WriteLong` | giet_fat32/fat32.c:1849-1926 | Writes the long entry that LongEntryHoldsPiece reads back |
| `FatDirectoryCalls.WriteNormal` | giet_fat32/fat32.c:1927-1960 | Writes the normal entry that NormalEntryFields reads back |
| `FatDirectoryCalls.AddDirEntry` | giet_fat32/fat32.c:1733-1980 | Succeeds only if the entries fit in the clusters of the directory, and always then if the devices never fail; writes those of AddThenLookup at the end mark, over a cluster boundary too; an add that fails leaves the directory as it was or has written exactly the entries up to the end of the cluster of the end mark; a name over 31 characters is refused |
| `FatDirectoryCalls.RemoveDirEntry` | giet_fat32/fat32.c:1985-2041 | Erases from the given index backwards over a cluster boundary too, which RemovalIsExactIff is about; after a device error the directory is as it was or erased back to the beginning of the cluster |
| `FatDirectoryCalls.FailedAddKeepsEndIff` | giet_fat32/fat32.c:1820-1975 | Every way in which an add can fail leaves an end mark if and only if the new entries fit in the cluster of the old one or a later cluster holds another one |
| `FatDirectoryCalls.FailedAddLosesEnd` | giet_fat32/fat32.c:1820-1975 | A cluster with its end mark in its last entry: an add of a one-letter name has no room, and if it fails after anything was written, no end mark is left |
| `FatDirectoryCalls.UpdatedDir` | giet_fat32/fat32.c:2047-2075 | The rewrite of the directory by a write changes two fields of one entry of the directory |
| `FatDirectoryCalls.GrownFileIsFound` | giet_fat32/fat32.c:2047-2214 | After a write that grew a file, the search for the k-th file gives the new size and cluster if and only if the recorded index is that of its normal entry; then other searches are unchanged |

## Left out

- Locks inside the allocator and file calls: those operations are modelled as sequential; the locks have their own model. `_simple_lock_acquire` is not modelled.
- Weak memory order, caches of the processors and the `sync` instruction: memory is sequentially consistent.
- Device drivers, TTY, interrupts, ELF loading, the IOMMU table, boot phases and the parsing of the mapping file.
- `memcpy` and `memset` are exact copies; the loops of giet_common/utils.c:719-769, which restart at the buffer start for the remaining bytes, are not part of this model.
- The user allocator of giet_libs, which keeps its own copy of the heap code.
- KernelHeap.KernelHeap.Malloc: a request is at most 0x80000000 bytes; above, the source shifts by 32. The exit of the kernel is the result 0; the checks of the cluster coordinates are left out.
- KernelHeap.KernelHeap.Init: the heap is larger than its alloc[] array and at most 1 Gbyte, and its base is not 0; smaller or larger ones break the source's own arithmetic.
- SqtBarrier.BarrierIsSafe: claims no progress when the barrier is used again; SqtBarrierProgress says exactly when it can be.
- SqtBuild.SqtBuilder.Build: pointers to nodes are the coordinates of their slots, and the lock's node, which has `current` and `free` instead of `sense` and `count`, is the same recursion. As in the source, every cluster of the footprint counts NB_PROCS_MAX processors.
- Pmem.GetSmallTakes: for at most 512 pages, which is what callers may ask for (SmallRequestLimit). Sums of page indices do not wrap at 2^32.
- PageTable.TranslateUnregistered: says nothing about an unregistered small page of a second level table, because these tables are not cleared. Page table words are naturals with bit fields as arithmetic, and the table is read in physical memory.
- PageTable.AddPte1Registers: a first level entry is never used for a big page and for a second level table; the source does not check it.
- BootPages.Loader.VsegMap: of a segment in more than 512 small pages it only says that no page becomes available (SmallRequestLimit). As a global of C, the address of a page table that does not exist is 0.
- BootPages.Loader.PtabMap: the segment is not in more than 512 small pages (SmallRequestLimit).
- BootMapping.MapSegment: the same, and the entries that the pages need are free.
- Scheduler.StaticScheduler.KillTask: the release of the peripheral channels of a killed task is left out. The registers with which a task starts are part of its context, where the source computes the stack pointer from the mapping.
- CacheTree.StoreIsUpdate: the trees and their descriptors are values; a changed descriptor is stored back where the source writes through a pointer. BufferCache.UpdateDevice therefore returns the new tree, and handles a descriptor as a tree of level 0.
- BufferCache.UpdateDevice: the device is a map from the address of a cluster (8 sectors) to its content, one for FAT clusters and one for data clusters; an access succeeds as a whole or changes nothing. Either any access may fail, or none to an address of the device ever does. `_malloc` never fails here.
- FatChains.Fat.AllocateOneCluster: some free cluster is counted, which `_clusters_allocate` checks before; `_fat_mkdir`, which does not, is not modelled.
- FatSystem.FileSystem.Read: a file and not a directory, which the source lets be read beyond its size; at least one byte, and seek + count below 2^32, as the source's arithmetic on positions needs.
- FatSystem.FileSystem.Write: as for Read, with seek not beyond the end of the file, and a chain as long as the size needs. When a new cluster could not be linked because of a device error, nothing is said of the bytes of this file.
- FatSystem.FileSystem.Close: the file has a parent directory; the root directory, which has none, is not closed.
- FatVolume.RunKeepsVolume: a directory that changes because a file in it was written counts as concerned; its entries are the subject of FatDirectory. A file lost by a device error takes no further part in the run.
- FatDirectoryCalls.AddDirEntry: the device ends below the address that an end mark of the FAT would stand for, so that reading behind the last cluster of a directory fails; the source does not check this.
- FatDirectoryCalls.GetChildFromParent: only the scan of the cached directory; the search among the inodes in memory and the creation of the inode found are left out.
- FatCalls.RemoveNode: the file has a parent directory and at least one cluster.
- `_fat_open` with truncation, removal of files never written, directory rename, special directories, FS_INFO sector, path names: not modelled.
