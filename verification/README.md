# OS/161 kernel and C library: a verified model

A Dafny 4.11 model of the stateful core of an OS/161 system: two memory allocators, the paging
layer, the thread system with its semaphores, locks and condition variables, a client protocol over
the semaphores, and the C library routines that have a real bound or refinement behind them. Each
part is a set of methods on mutable state or a step machine, a specification on values, and theorems
over all inputs or all runs. `dafny verify dfyconfig.toml` checks everything.

| files | models |
|---|---|
| `HeapBlocks`, `HeapRuns`, `Malloc`, `MallocTheorems`, `MallocClients` | `malloc` and `free`: headers as bit fields in the same memory as the payloads, first fit, split, merge |
| `SubpagePool`, `SubpageRuns`, `PagerefBits`, `KHeap`, `KHeapClients` | `kmalloc` and `kfree`: freelists threaded through pages, two intrusive lists, a bitmap of pagerefs |
| `Coremap`, `PageTables`, `Frames`, `Vm`, `VmRuns`, `VmProgress` | frames, two-level page tables, the TLB, faults, fork copy, their refinement of flat memories, and what a program needs to run to its end |
| `Queue`, `PtrArray`, `SleepLists`, `Kernel`, `KernelPlaces`, `KernelMemory`, `KernelSync`, `KernelLocks`, `KernelRuns`, `KernelCalls`, `KernelClock` | ring queue, pointer array, sleep and wakeup, and one step machine for scheduler, clock, semaphores, locks and condition variables with an explicit interrupt level |
| `Stoplight` | the cars of the intersection as sequences of P and V |
| `Random`, `RandomSeeds` | the additive feedback generator |
| `Numerals`, `Formats`, `Printf`, `Fields`, `Atoi` | `vsnprintf` over the printf machine, and `atoi` |
| `MemCopy` | `memcpy` and `memmove` by words and bytes |
| `Basics` | 32-bit words, the interrupt levels and an option type |

## How the model is built

- **Memory.** malloc's memory is an array of 8-byte cells of two 32-bit words; a header is decoded from
  its cell. kmalloc's memory is an array of 16-byte granules of which the first word matters. The paging
  layer has an array of frames. Every method is tied to a list, pool or flat memory by a validity
  predicate that it keeps.
- **Error exits.** An exit that the model proves unreachable stands as an `assert` where the code tests
  for it. The other outcomes are values of a result type.
- **Threads.** Each primitive is the list of its C statements with splhigh and splx among them. The timer
  may strike between any two statements at interrupt level 0, an interrupt handler may do a V then, both
  may come while the scheduler is in cpu_idle, and a run is any sequence of enabled events.
- **What the code gets wrong** is kept as it is, with the exact condition: requests within 16 bytes of
  2^32 and empty payloads at the heap top (`MallocServesIff`, `MallocThenFree`), an undetected double
  kfree (`PushThreadsIff`, `GivenTwiceIff`, `EarlyRelease`), a page count that wraps (`Kmalloc`), frames laid out beyond RAM (`FramesInRamIff`), an interrupt level left high
  (`GetPpages`, `VmFault`, `AsCreate`), a crash when frames run out (exactly when: `Visit`, `AsCopy`), the address 0x80000000 admitted by vm_fault
  (`FaultAnswer`), a run queue one slot short and a zombies array
  that a fork cannot reserve (`NeedsMemoryIff`, `PreallocatedRoomIff`), a stale position
  in setstate (`SetSame`), zeros on the right of a number (`AtoiInvertsIff`, `ReadBackIff`), and four cars that block
  each other (`StuckHasCircle`).
- **Where code and comment disagree** the code is followed: random.c says that setstate may be called
  with the table in use; the position it then takes up is the one last put away. thread.c says that
  putting a thread on its list cannot fail because of what thread_fork reserves; it can.

## Model

| member | source | states |
|---|---|---|
| `HeapRuns.EveryRunKeepsHeap` | lib/libc/malloc.c:265-514 | after every run of malloc and free the headers tile [heapbase, heaptop), each back link is the size of the block before, no two neighbours are both free, and the blocks in use are exactly the outstanding requests |
| `MallocClients.Run` | lib/libc/malloc.c:307-514 | any program over malloc and free, refusals and free of NULL included, is told exactly what a reference of independent buffers says, pointers, cells and outcomes of free alike, and leaves the heap the reference has: over real memory, with headers among the payloads, every cell read holds what was last written to it |
| `MallocClients.Exec` | lib/libc/malloc.c:307-514 | one operation: answer and heap are those of the reference |
| `MallocClients.Obtain` | lib/libc/malloc.c:307-403 | malloc answers NULL exactly when the first-fit specification does; a buffer lies in a block of its own, and all others keep their contents |
| `MallocClients.GiveBack` | lib/libc/malloc.c:456-514 | free accepts every buffer and releases exactly its block; all others keep their contents |
| `MallocClients.EnoughNeverRefused` | lib/libc/malloc.c:307-403 | a program whose requests, each below 2^31 bytes, together fit between heap top and limit is never refused: first fit grows the heap only when nothing fits |
| `MallocClients.RefusedIff` | lib/libc/malloc.c:332-389 | malloc answers NULL iff every free block has fewer bytes than asked and the heap cannot grow by the request |
| `MallocClients.NewPlace` | lib/libc/malloc.c:307-403 | the block handed out is large enough and shares its address with no block in use |
| `MallocClients.DropAccepted` | lib/libc/malloc.c:456-490 | the pointer of a block with a payload is always accepted |
| `MallocClients.WriteKeepsHeap` | lib/libc/malloc.c:307-403 | a program that writes within its payload damages no header and no wiped cell |
| `HeapRuns.EveryFreeIsDefined` | lib/libc/malloc.c:456-514 | after every run, free of any outstanding pointer finds its block and keeps the heap well formed |
| `HeapRuns.EveryRunRoomy` | lib/libc/malloc.c:257-302 | the split leaves a payload in what it splits off: if no request is empty, every block of every run has one |
| `HeapRuns.ReleaseIsSquash` | lib/libc/malloc.c:425-508 | the two local merges of free give the list that joins every run of free blocks over the whole heap |
| `HeapRuns.ReleaseUndoesTake` | lib/libc/malloc.c:266-302 | freeing at once what a fitting block supplied restores the very same block list; needs the no-adjacent-free invariant |
| `HeapRuns.ReleaseAfterGrow` | lib/libc/malloc.c:386-402 | freeing at once what growth supplied only adds or lengthens one trailing free block |
| `HeapRuns.LiveTake` | lib/libc/malloc.c:332-377 | a served request puts exactly one block into use, of the size asked or one unit more |
| `HeapRuns.LiveRelease` | lib/libc/malloc.c:456-514 | free takes exactly one block out of use and leaves every other as it was |
| `HeapRuns.MallocStepKeeps` | lib/libc/malloc.c:307-403 | one malloc keeps the invariant and adds its request |
| `HeapRuns.FreeStepKeeps` | lib/libc/malloc.c:456-514 | one free keeps the invariant and removes its request |
| `HeapBlocks.FirstFit` | lib/libc/malloc.c:332-377 | the lowest block that is free and large enough |
| `HeapBlocks.TakeKeeps` | lib/libc/malloc.c:265-302 | splitting and marking a fitting block keeps tiling, links and coalescing |
| `HeapBlocks.MergeKeeps` | lib/libc/malloc.c:425-451 | merging two free neighbours keeps tiling and links |
| `HeapBlocks.ReleaseKeeps` | lib/libc/malloc.c:456-514 | free keeps the heap well formed |
| `HeapBlocks.TiledIsOrdered` | lib/libc/malloc.c:265-302 | blocks of a tiled heap lie in address order and do not overlap |
| `Malloc.SetPrev` | lib/libc/malloc.c:45-109 | writing the previous-block field leaves size, flag and magic bits |
| `Malloc.SetNext` | lib/libc/malloc.c:45-109 | writing the next-block field leaves back link, flag and magic bits |
| `Malloc.SetInUse` | lib/libc/malloc.c:45-109 | writing the in-use flag leaves the other fields |
| `Malloc.NewHeader` | lib/libc/malloc.c:45-109 | a fresh header reads back what was written, with valid magic bits |
| `Malloc.Allocator.constructor` | lib/libc/malloc.c:113-117 | before the first call there is no heap |
| `Malloc.Allocator.Sbrk` | lib/libc/malloc.c:236-255 | the contract given to the system call |
| `Malloc.Allocator.Init` | lib/libc/malloc.c:121-178 | the break is aligned upwards, by less than 8 bytes, and becomes an empty heap; neither of its error exits is taken |
| `Malloc.Allocator.Split` | lib/libc/malloc.c:265-302 | headers in memory after a split are those of the cut block list, and only three headers are written |
| `Malloc.Allocator.MallocSbrk` | lib/libc/malloc.c:236-255 | grows the heap or answers failure without change; the heap top never moves by itself |
| `Malloc.Allocator.Allocate` | lib/libc/malloc.c:364-376 | the memory holds the block list with block k taken; no payload of a block in use is written |
| `Malloc.Allocator.Extend` | lib/libc/malloc.c:378-402 | a new block is asked of sbrk only when none fits |
| `Malloc.Allocator.Malloc` | lib/libc/malloc.c:307-403 | heap and pointer are those of the first-fit specification, no heap-corrupt exit is taken, and no payload of a live block is written |
| `Malloc.Allocator.Deadbeef` | lib/libc/malloc.c:411-420 | wipes exactly the cells given |
| `Malloc.Allocator.TryMerge` | lib/libc/malloc.c:425-451 | headers after a merge are those of the merged list; nothing but three cells is written; its consistency check never fails |
| `Malloc.Allocator.MarkFree` | lib/libc/malloc.c:492-496 | block k free and wiped, all else as before |
| `Malloc.Allocator.Recycle` | lib/libc/malloc.c:492-508 | mark, merge upwards, merge downwards: the released list, other payloads untouched |
| `Malloc.Allocator.Free` | lib/libc/malloc.c:456-514 | free of NULL is accepted, ready or not; otherwise not ready before the first malloc, out of range exactly outside the heap, and else as the header says; a refusal changes nothing; an accepted free releases exactly that block |
| `Malloc.LaidCut` | lib/libc/malloc.c:265-302 | the header writes of the split hold the cut block list |
| `Malloc.LaidMerge` | lib/libc/malloc.c:425-451 | the header writes of the merge hold the merged block list |
| `Malloc.LaidGrow` | lib/libc/malloc.c:386-402 | the header written at the old top holds the grown list |
| `Malloc.TakeKeepsOthers` | lib/libc/malloc.c:364-376 | the cells an allocation writes lie in no live payload |
| `Malloc.FreeKeepsOthers` | lib/libc/malloc.c:492-508 | the cells a free writes lie in no other live payload |
| `MallocTheorems.RoundsUp` | lib/libc/malloc.c:330-330 | rounding is upwards exactly below the top eight sizes, and where the growth request wraps to zero |
| `MallocTheorems.MallocIsStep` | lib/libc/malloc.c:307-403 | malloc is one step of the runs, its pointer 8-aligned |
| `MallocTheorems.FreeIsStep` | lib/libc/malloc.c:456-514 | an accepted free is one step of the runs |
| `MallocTheorems.MallocServesIff` | lib/libc/malloc.c:330-402 | a non-NULL answer is a payload of at least the size asked iff the size is at most 2^32 - 16 |
| `MallocTheorems.TooLargeNotServed` | lib/libc/malloc.c:330-402 | for the sixteen largest sizes no payload of that size is handed out |
| `MallocTheorems.FreeAcceptsIff` | lib/libc/malloc.c:473-490 | free accepts a live pointer iff it is not an empty payload at the very top of the heap |
| `MallocTheorems.ZeroSizeRefused` | lib/libc/malloc.c:386-402 | concretely: the first malloc(0) answers a pointer that free refuses |
| `MallocTheorems.FreeCellRefused` | lib/libc/malloc.c:473-490 | free refuses every pointer just above a cell of a free block |
| `MallocTheorems.DoubleFreeRefused` | lib/libc/malloc.c:473-508 | a pointer freed twice in a row is refused the second time |
| `MallocTheorems.MallocThenFree` | lib/libc/malloc.c:307-514 | free of what malloc has just answered, NULL included, is accepted iff that is NULL or below the top of the heap: always for sizes from 1 to 2^32 - 16, and not for an empty payload at the very top |
| `MallocTheorems.AnswerIsLive` | lib/libc/malloc.c:307-403 | what malloc answers below the top of the heap is the pointer of a block in use |
| `SubpageRuns.EveryRunKeepsPool` | kern/lib/kheap.c:350-577 | after every run of kmalloc and kfree below 2048 bytes the pool invariant holds and the blocks in use are exactly the outstanding ones, each of its type |
| `SubpagePool.FreePlusUsed` | kern/lib/kheap.c:165-199 | free blocks and blocks in use make up the page |
| `SubpageRuns.ReleasedIffLast` | kern/lib/kheap.c:528-534 | a page leaves the pool exactly when its last block in use is freed |
| `SubpageRuns.PushUndoesPop` | kern/lib/kheap.c:380-405 | freeing at once what an existing page supplied restores the pool |
| `SubpageRuns.PushUndoesAdd` | kern/lib/kheap.c:414-459 | freeing at once the block for which a page was added removes the page again |
| `SubpageRuns.PtrInjective` | kern/lib/kheap.c:350-460 | live blocks never share an address |
| `SubpageRuns.PopKeeps` | kern/lib/kheap.c:380-405 | taking a block keeps the pool invariant |
| `SubpageRuns.AddKeeps` | kern/lib/kheap.c:414-459 | adding a page keeps the pool invariant |
| `SubpageRuns.PushKeeps` | kern/lib/kheap.c:518-534 | freeing a block keeps the pool invariant |
| `SubpageRuns.RemoveKeeps` | kern/lib/kheap.c:307-330 | removing a page keeps the pool invariant |
| `SubpageRuns.UsedPush` | kern/lib/kheap.c:518-534 | freeing takes exactly one block out of use |
| `SubpageRuns.UsedPop` | kern/lib/kheap.c:380-405 | allocation puts exactly one unused block into use |
| `SubpagePool.FirstRoom` | kern/lib/kheap.c:372-407 | the first page of the size list with a free block |
| `SubpagePool.SizesDouble` | kern/lib/kheap.c:332-348 | the block sizes double from 16 bytes to 2048 |
| `PagerefBits.AllocPageref` | kern/lib/kheap.c:110-133 | marks and returns the lowest unmarked number, or -1 and no change when all are marked |
| `PagerefBits.FreePageref` | kern/lib/kheap.c:135-148 | unmarks exactly the number given |
| `KHeap.TypeFor` | kern/lib/kheap.c:333-348 | the smallest block type that holds the request |
| `KHeap.Subpages.constructor` | kern/lib/kheap.c:62-108 | the static tables: no pageref in use, all lists empty |
| `KHeap.Subpages.FindType` | kern/lib/kheap.c:333-348 | the table search finds that type |
| `KHeap.Subpages.DoAlloc` | kern/lib/kheap.c:380-405 | takes the head of the threaded freelist, as TakeHead says; none of its assertions fails |
| `KHeap.Subpages.AllocFrom` | kern/lib/kheap.c:380-405 | the whole structure stays consistent and memory is not written |
| `KHeap.Subpages.Format` | kern/lib/kheap.c:440-450 | the freelist threaded through a fresh page is acyclic and in order |
| `KHeap.Subpages.NewPage` | kern/lib/kheap.c:414-459 | a fresh page enters both lists and gives its last block |
| `KHeap.Subpages.SubpageKmalloc` | kern/lib/kheap.c:350-460 | an existing page if one has room, else a new page if a pageref and a page are to be had, else NULL; writes only the new page |
| `KHeap.Subpages.RemoveFrom` | kern/lib/kheap.c:307-330 | one list walk unlinks exactly the pageref |
| `KHeap.Subpages.RemoveLists` | kern/lib/kheap.c:307-330 | the pageref leaves both lists, which stay linked as before otherwise |
| `KHeap.Subpages.PushBlock` | kern/lib/kheap.c:507-526 | exactly the block and two fields of its pageref are written, whether or not the block was free already |
| `KHeap.Subpages.FreeIn` | kern/lib/kheap.c:507-534 | the pool after a free, the page released if it now looks wholly free; a block that was free already leaves the pool as the pageref and the memory no longer show it |
| `KHeap.Subpages.FindPage` | kern/lib/kheap.c:481-498 | finds the page that contains the pointer, if any |
| `KHeap.Subpages.SubpageKfree` | kern/lib/kheap.c:462-540 | each error case, the block freed, or what a double free does; only the block itself is written |
| `KHeap.Subpages.Kmalloc` | kern/lib/kheap.c:545-563 | large requests are rounded up to whole pages, except the last 4095 sizes, whose rounding wraps and gives NULL; small ones go to the subpages |
| `KHeap.Subpages.Kfree` | kern/lib/kheap.c:565-577 | NULL does nothing; a pointer into a subpage frees its block, or frees it twice; any other is passed on as a page |
| `KHeap.ChainCut` | kern/lib/kheap.c:307-330 | unlinking a position spells out the list without it |
| `KHeap.KmallocIsStep` | kern/lib/kheap.c:350-460 | kmalloc is one step of the runs |
| `KHeap.KfreeIsStep` | kern/lib/kheap.c:462-540 | kfree is one step of the runs |
| `KHeap.PushThreadsIff` | kern/lib/kheap.c:507-526 | on memory: after a kfree the page has a freelist without repetition iff the block was in use, which nothing checks |
| `KHeap.DoubleFreeLoops` | kern/lib/kheap.c:507-526 | after a double kfree the links from the new head come back to it |
| `KHeap.GivenTwiceIff` | kern/lib/kheap.c:378-405 | after a double kfree the next kmallocs from the page hand out the same block twice iff it was not the last of the freelist; if it was, an assertion fails first |
| `KHeap.DrawnLoop` | kern/lib/kheap.c:378-405 | those kmallocs go round the loop, one block each, until the assertion on nfree fails |
| `KHeap.ReleasedInUse` | kern/lib/kheap.c:525-534 | a double kfree that fills the count releases the page while exactly one block of it is in use |
| `KHeap.EarlyRelease` | kern/lib/kheap.c:525-534 | concretely: two blocks of 2048 bytes, one freed twice, and the page of the other is gone |
| `KHeap.SelfLoop` | kern/lib/kheap.c:513-526 | concretely, in memory: the only free block freed again becomes its own successor |
| `KHeap.PushHeld` | kern/lib/kheap.c:513-526 | a block in use that is freed becomes the head of the freelist |
| `KHeapClients.Run` | kern/lib/kheap.c:350-577 | any program over kmalloc and kfree below 2048 bytes, beside any other blocks in use, is told what a reference of independent blocks says: every granule read holds what was last written to it |
| `KHeapClients.Exec` | kern/lib/kheap.c:350-577 | one operation: answer and pool are those of the reference |
| `KHeapClients.Obtain` | kern/lib/kheap.c:350-460 | a block from kmalloc is at an address of its own, and all others keep their contents |
| `KHeapClients.GiveBack` | kern/lib/kheap.c:462-577 | kfree of a held block takes it out of use, and all others keep their contents |
| `KHeapClients.LiveApart` | kern/lib/kheap.c:350-460 | blocks in use at different addresses do not overlap |
| `KHeapClients.WriteKeepsPages` | kern/lib/kheap.c:350-460 | a holder that writes within its block damages no freelist |
| `Coremap.CoreMap.constructor` | kern/vm/vm.c:27-68 | every frame free |
| `Coremap.CoreMap.GetPpages` | kern/vm/vm.c:70-146 | the lowest run of n free frames, or 0 exactly when there is none; the early return leaves interrupts off |
| `Coremap.CoreMap.TakeRun` | kern/vm/vm.c:99-118 | walking back marks exactly the n frames and returns the first |
| `Coremap.CoreMap.FreeKpages` | kern/vm/vm.c:165-194 | frees exactly the run that starts at the address |
| `Coremap.GrabKeeps` | kern/vm/vm.c:70-146 | taking a free window keeps live runs disjoint and equal to the taken frames |
| `Coremap.DropKeeps` | kern/vm/vm.c:165-194 | freeing a live run keeps it |
| `Coremap.DropUndoesGrab` | kern/vm/vm.c:70-194 | freeing at once restores every flag and run |
| `Coremap.CountMark` | kern/vm/vm.c:70-194 | pageleft goes down and up by the length of the run |
| `Coremap.WindowCounts` | kern/vm/vm.c:86-87 | n consecutive free frames need n free frames, so the early test refuses nothing it could serve |
| `Coremap.FramesInRamIff` | kern/vm/vm.c:27-68 | the frames vm_bootstrap lays out end within RAM iff it was given at most 204 pages |
| `Vm.Machine.constructor` | kern/vm/vm.c:27-68 | after boot: no space, an empty TLB |
| `Vm.Machine.AllocKpages` | kern/vm/vm.c:148-163 | the lowest run of n frames, or failure exactly when there is no window; the interrupt level it leaves |
| `Vm.Machine.EnsureTable` | kern/vm/vm.c:310-316 | a missing second-level table is allocated and empty; no visible memory changes |
| `Vm.Machine.EnsurePage` | kern/vm/vm.c:318-331 | a missing page gets a zeroed frame; no visible memory changes |
| `Vm.Machine.FillTlb` | kern/vm/vm.c:338-353 | the entry goes into an invalid slot, if there is one |
| `Vm.Machine.ServePage` | kern/vm/vm.c:307-353 | table, frame and TLB entry of a fault, exactly as the frames and slots taken before decide |
| `Vm.Machine.VmFault` | kern/vm/vm.c:224-354 | each error code by address, fault type and process; the rest of its answer as a function of what can be seen before; whatever it returns, no space sees a change; a served fault leaves a TLB entry |
| `Vm.Machine.Access` | kern/vm/vm.c:224-354 | translation by TLB, taking a fault on a miss, gives the frame of the page table |
| `Vm.Machine.Load` | kern/vm/vm.c:224-354 | a load gets the word of flat memory, and fails exactly when the fault is not served |
| `Vm.Machine.Store` | kern/vm/vm.c:224-354 | a store changes one word of one space and nothing any other space sees |
| `Vm.Machine.AsCreate` | kern/vm/vm.c:356-383 | a new space, in the lowest free frame, sees zeros; fails iff no frame is free, and then leaves interrupts off |
| `Vm.Machine.Switch` | kern/vm/vm.c:392-406 | the next space becomes current with an empty TLB |
| `Vm.Machine.CopyPage` | kern/vm/vm.c:545-565 | the page gets its own frame with the same contents |
| `Vm.Machine.CopyTable` | kern/vm/vm.c:537-572 | one table and all its pages, failing exactly when one of the runs it asks for is not to be had |
| `Vm.Machine.AsCopy` | kern/vm/vm.c:501-577 | the copy sees exactly what the original sees, on distinct frames, and nothing else changes; it succeeds iff the runs it asks for can be taken lowest first from the frames free before |
| `Vm.WindowCopies` | kern/vm/vm.c:501-577 | one free window as large as all that the copy asks for is enough |
| `Vm.Boot` | kern/vm/vm.c:27-68 | on at most 204 pages of RAM the machine starts with every frame of its coremap in RAM |
| `Frames.LowestWindowIs` | kern/vm/vm.c:70-146 | where getppages takes its frames is a function of the live runs |
| `Frames.WindowSuffices` | kern/vm/vm.c:70-146 | a free window of the total size suffices for any sequence of demands |
| `Frames.GrabBelow` | kern/vm/vm.c:70-146 | the highest frame in use rises by no more than what is demanded |
| `Frames.CopyIsGrab` | kern/vm/vm.c:501-577 | a copy takes, and succeeds with, what its demands grab one after the other |
| `Vm.Machine.FreeRun` | kern/vm/vm.c:165-194 | one run given back |
| `Vm.Machine.FreeTable` | kern/vm/vm.c:196-221 | the frames of the pages of one table and the table |
| `Vm.Machine.AsDestroy` | kern/vm/vm.c:385-390 | gives back exactly the frames that the space, its tables and its valid pages held; all other spaces see what they saw |
| `Vm.HeldIsClaimed` | kern/vm/vm.c:196-221 | what freepagetable walks is what the space owns |
| `Vm.DropSpace` | kern/vm/vm.c:385-390 | the other spaces keep their frames and contents |
| `Vm.CachesFill` | kern/vm/vm.c:338-349 | writing a missing entry keeps the TLB a cache of the page table without duplicates |
| `PageTables.ZeroMapKeepsViews` | kern/vm/vm.c:318-331 | mapping a zeroed frame leaves every view as it was |
| `PageTables.WriteChangesOne` | kern/vm/vm.c:224-354 | a write to a mapped frame changes one page of one space, because no frame has two owners |
| `PageTables.SetEntryFacts` | kern/vm/vm.c:318-331 | mapping a page adds one claim and keeps all other mappings |
| `VmRuns.Exec` | kern/vm/vm.c:224-577 | every operation does to the machine what flat memory does, or fails, exactly as the tables, the live runs and the TLB before it decide |
| `VmRuns.Run` | kern/vm/vm.c:224-577 | any program of loads, stores, switches, creations, forks and destructions reads the words of flat zero-initialised memories; it stops exactly at the first operation that fails, and tables, frames and TLB are then fixed by the start and the program |
| `VmRuns.EndNeedsPrefix` | kern/vm/vm.c:224-577 | a program that can get to its end fails nowhere on the way |
| `VmProgress.EnoughCompletes` | kern/vm/vm.c:70-577 | if the frames a program asks for, read off its operations alone, fit above the highest frame in use, and at most 64 pages are touched between switches, it runs to its end |
| `VmProgress.BootCompletes` | kern/vm/vm.c:70-577 | from boot they need only be as many as there are |
| `VmProgress.RunWithin` | kern/vm/vm.c:70-577 | such a program reads, to its end, what flat memory gives |
| `VmProgress.StepWorks` | kern/vm/vm.c:70-577 | every operation with enough to hand succeeds and takes what it costs |
| `VmProgress.TouchWorks` | kern/vm/vm.c:307-331 | a first touch costs a frame, and four more for its table |
| `VmProgress.CopyWorks` | kern/vm/vm.c:501-577 | a copy costs as many frames as the original has, and has the same pages |
| `Queue.Ring.constructor` | kern/lib/queue.c:54-69 | an empty ring of the size given |
| `Queue.Ring.Empty` | kern/lib/queue.c:84-89 | true exactly when nothing is held |
| `Queue.Ring.Grow` | kern/lib/queue.c:18-52 | contents and order survive growth across wraparound; failure changes nothing; copying never grows again |
| `Queue.Ring.AddTail` | kern/lib/queue.c:91-109 | appends; grows exactly when size - 1 items are held; failure changes nothing |
| `Queue.Ring.RemHead` | kern/lib/queue.c:111-122 | takes the oldest item |
| `Queue.Ring.Preallocate` | kern/lib/queue.c:71-82 | contents unchanged, size doubled until at least the target |
| `Queue.ItemsAdd` | kern/lib/queue.c:91-109 | writing at the write index appends to the sequence the ring stands for |
| `Queue.ItemsRemove` | kern/lib/queue.c:111-122 | advancing the read index drops its head |
| `Queue.PreallocatedRoomIff` | kern/lib/queue.c:71-82 | after preallocating n, n items fit without growth iff n is not the old size times a power of two |
| `PtrArray.Arr.Preallocate` | kern/lib/array.c:42-65 | contents kept, room for the number given unless memory runs out |
| `PtrArray.Arr.SetSize` | kern/lib/array.c:67-89 | the new length, earlier items kept |
| `PtrArray.Arr.Add` | kern/lib/array.c:99-114 | appends, or fails without change |
| `PtrArray.Arr.Remove` | kern/lib/array.c:116-127 | removes one item, order of the rest kept |
| `SleepLists.ThreadLists.MakeRunnable` | kern/thread/scheduler.c:111-118 | appends to the run queue |
| `SleepLists.ThreadLists.Wakeup` | kern/thread/thread.c:602-631 | moves exactly the sleepers on the address to the run queue, in order, although it removes while scanning |
| `SleepLists.ThreadLists.WakeOne` | kern/thread/thread.c:633-662 | moves the first sleeper on the address, if any, and no other |
| `SleepLists.FirstIsHead` | kern/thread/thread.c:633-662 | the one woken is the longest asleep on the address |
| `SleepLists.WokenOfKept` | kern/thread/thread.c:602-631 | a wakeup leaves none on its address and all on the others |
| `Kernel.AtIsCode` | kern/thread/synch.c:62-288 | the numbered statements are those of the primitives, cv_wait containing lock_release and lock_acquire |
| `KernelPlaces.EveryRunPlaces` | kern/thread/thread.c:304-662 | in every run each live thread is in exactly one of running, run queue and sleepers, numthreads counts them, and no zombie is live |
| `KernelPlaces.StepPlaces` | kern/thread/thread.c:304-662 | every step keeps that |
| `KernelPlaces.SleepsAfterFork` | kern/thread/thread.c:304-416 | after the first fork no later sleep needs memory, whatever happens in between |
| `KernelPlaces.SleepRoomKept` | kern/thread/thread.c:345-376 | a fork makes room in the sleepers array for every thread, and nothing takes it away |
| `KernelPlaces.SleepNeedsNoMemory` | kern/thread/thread.c:461-470 | putting the current thread to sleep does not grow the array |
| `KernelMemory.EveryRunRing` | kern/thread/scheduler.c:41-46 | in every run the run queue has room for all threads but perhaps one |
| `KernelMemory.RingKept` | kern/thread/scheduler.c:41-46 | every event keeps that |
| `KernelMemory.GrowsIff` | kern/thread/thread.c:602-631 | apart from a fork, exactly these events grow the run queue: with as many threads as slots, a yield or tick with nobody left asleep, and an interrupt V or tick, while no thread runs, that wakes all sleepers |
| `KernelMemory.EveryRunGrowsIff` | kern/thread/scheduler.c:41-46 | the same at every point of every run from boot |
| `KernelMemory.NeedsMemoryIff` | kern/thread/thread.c:456-475 | the comment promises that stashing a thread cannot fail; apart from a fork, exactly these events allocate: one that grows the run queue, a sleep with the sleepers array full, an exit with the zombies array full |
| `KernelMemory.EveryRunNeedsMemoryIff` | kern/thread/thread.c:456-475 | the same at every point of every run from boot |
| `KernelMemory.BuffersKept` | kern/lib/array.c:42-89 | no event leaves more sleepers or zombies than their buffers have slots |
| `KernelMemory.Buffers` | kern/thread/thread.c:345-356 | what each event does to the two buffers: a fork reserves, a sleep and an exit grow a full one, exorcise drops one of more than 16 |
| `KernelMemory.ExitNeedsMemory` | kern/thread/thread.c:165-179 | a run from boot, 14 forks and one turn of every thread: exorcise has dropped the reserved buffer, and the exit allocates |
| `KernelMemory.ZombiesNeedMemory` | kern/thread/thread.c:345-356 | a run from boot of seven events: new threads skip exorcise, so the reservation for the live threads is used up by zombies, and the exit allocates |
| `KernelMemory.YieldNeedsMemory` | kern/thread/scheduler.c:111-118 | a run from boot, 31 forks and a yield, that gets there |
| `KernelMemory.WakeupNeedsMemory` | kern/thread/thread.c:602-631 | a run from boot, 32 threads asleep on one semaphore and an interrupt V, that gets there |
| `KernelPlaces.QueueStep` | kern/thread/scheduler.c:87-118 | only a dispatch takes from the run queue, and it takes the head |
| `KernelPlaces.Bypass` | kern/thread/scheduler.c:87-118 | a thread at position p is at position p - d after d dispatches |
| `KernelPlaces.DispatchedInTurn` | kern/thread/scheduler.c:87-118 | it is the one that dispatch p + 1 runs, whatever forks, wakeups, yields and growth happen in between |
| `KernelRuns.EveryRunSynchronised` | kern/thread/synch.c:62-288 | every run from boot, over all interleavings, keeps places, interrupt levels, no lost wakeup, lock ownership and waiting order |
| `KernelRuns.StepSynchronised` | kern/thread/synch.c:62-288 | every step keeps them |
| `KernelSync.StepLevels` | kern/thread/synch.c:62-288 | interrupts are off exactly while the current thread has a splhigh open or the scheduler idles; sleepers sleep on what their primitive waits for |
| `KernelSync.NestedSpl` | kern/thread/synch.c:224-251 | splhigh and splx nest, also across lock_release and lock_acquire inside cv_wait |
| `KernelSync.StepNoLost` | kern/thread/synch.c:62-171 | a thread asleep on a semaphore finds it zero and one asleep on a lock finds it owned, but for the instant before the wakeup; a decrement finds the count positive |
| `KernelRuns.SleeperCannotProceed` | kern/thread/synch.c:62-95 | whenever interrupts are on, a sleeper on a semaphore faces count 0 |
| `KernelRuns.EveryRunCounts` | kern/thread/synch.c:62-95 | at every point of every run, count = initial + the increments executed so far - the decrements executed so far |
| `KernelCalls.EveryRunConserves` | kern/thread/synch.c:62-95 | in every run, whenever interrupts are on, count + the calls of P that have returned = initial + the calls of V that have returned + the V of interrupt handlers |
| `KernelCalls.CallsCounted` | kern/thread/synch.c:62-95 | the same at every point, up to what the running thread has done in the call it is in |
| `KernelCalls.CallersReady` | kern/thread/synch.c:62-288 | a thread that runs outside every primitive may call one: interrupts are on and no level is saved; what the calls below do is stated from there |
| `KernelCalls.VCall` | kern/thread/synch.c:85-95 | V from call to return: one unit more, all sleepers on the semaphore runnable in order, nothing else |
| `KernelCalls.PCall` | kern/thread/synch.c:62-83 | P with a unit to take, from call to return: one unit less, nothing else |
| `KernelCalls.PSleeps` | kern/thread/synch.c:62-83 | P without one puts the caller to sleep on the semaphore and changes nothing else |
| `KernelRuns.CountStep` | kern/thread/synch.c:62-95 | nothing but a V raises a count, nothing but a P that finds it positive lowers it |
| `KernelRuns.NoUnitWaits` | kern/thread/synch.c:62-95 | while a thread sleeps on a semaphore and interrupts are on, every unit ever given has been taken |
| `KernelLocks.StepLocks` | kern/thread/synch.c:134-185 | whoever is between acquire and release, or has just taken the lock, owns it; the converse is EveryRunOwnedInside |
| `KernelCalls.EveryRunOwnedInside` | kern/thread/synch.c:134-171 | in every run, whenever interrupts are on, the owner of a lock is between acquire and release of it, or in lock_release or cv_wait |
| `KernelCalls.EveryReleaseFrees` | kern/thread/synch.c:155-171 | in every run the lock is free when lock_release returns |
| `KernelCalls.AcquireCall` | kern/thread/synch.c:134-153 | lock_acquire of a free lock returns without sleeping, and the caller owns it |
| `KernelCalls.AcquireSleeps` | kern/thread/synch.c:134-153 | lock_acquire of an owned lock puts the caller to sleep on it and changes nothing else |
| `KernelCalls.ReleaseCall` | kern/thread/synch.c:155-171 | lock_release from call to return: no owner, all sleepers on the lock runnable in order, nothing else |
| `KernelCalls.ReleaseThenAcquire` | kern/thread/synch.c:134-171 | after lock_release the same thread takes the lock again without sleeping |
| `KernelLocks.MutualExclusion` | kern/thread/synch.c:134-171 | at most one thread is between acquire and release |
| `KernelLocks.HoldAsserted` | kern/thread/synch.c:155-185 | the assertion in lock_release never fails |
| `KernelRuns.StepCv` | kern/thread/synch.c:224-288 | the threads that have released the lock in cv_wait are, in order, the sleepers on it, and at most the current thread besides |
| `KernelLocks.WaitersAsleep` | kern/thread/synch.c:224-251 | release and sleep are atomic: whenever another thread runs, each waiter is on the sleepers list, so a signal finds it |
| `KernelRuns.SignalWakesLongest` | kern/thread/synch.c:253-269 | cv_signal wakes the longest waiting thread only |
| `KernelRuns.BroadcastWakesAll` | kern/thread/synch.c:271-288 | cv_broadcast wakes all, in order, and nobody else |
| `KernelRuns.WaitReturnsHolding` | kern/thread/synch.c:224-251 | cv_wait returns inside the lock, alone |
| `KernelCalls.WaitCall` | kern/thread/synch.c:224-251 | cv_wait up to its sleep: the lock free, its sleepers runnable, the caller asleep on the variable, nothing else |
| `KernelCalls.WaitResumes` | kern/thread/synch.c:224-251 | cv_wait after its sleep, with the lock free: the caller owns the lock and returns |
| `KernelCalls.SignalCall` | kern/thread/synch.c:253-269 | cv_signal from call to return: the longest asleep on the variable runnable, nothing else |
| `KernelCalls.BroadcastCall` | kern/thread/synch.c:271-288 | cv_broadcast from call to return: all of them runnable in order, nothing else |
| `KernelCalls.YieldCall` | kern/thread/thread.c:564-574 | thread_yield puts the caller at the end of the run queue, with splx left to do |
| `KernelRuns.LevelRestored` | kern/thread/synch.c:62-288 | outside every primitive interrupts are on again |
| `KernelRuns.PrimitivesAtomic` | kern/thread/synch.c:62-288 | while interrupts are off nothing but the running thread acts |
| `KernelClock.ClockSleepLasts` | kern/thread/hardclock.c:38-49 | in every run, between the call of clocksleep(n) and its return the clock counts at least n seconds |
| `KernelClock.ClockSleepSleeps` | kern/thread/hardclock.c:38-49 | in every run a thread falls asleep exactly n times between its call of clocksleep(n) and its return |
| `KernelClock.OnlySecondsWake` | kern/thread/hardclock.c:19-33 | a thread asleep on lbolt is woken by the tick that completes a second and by nothing else |
| `KernelClock.WakingStep` | kern/thread/hardclock.c:38-49 | no event but such a tick brings a clocksleep forward by one of its sleeps |
| `Stoplight.EveryRunExclusive` | kern/asst1/stoplight.c:136-449 | in every run, with any number of cars, each region semaphore plus the cars in the region is one |
| `Stoplight.StepExclusive` | kern/asst1/stoplight.c:136-449 | every step keeps that |
| `Stoplight.HeldIsIn` | kern/asst1/stoplight.c:136-449 | the regions a car is in are those its P and V so far say |
| `Stoplight.RouteLeads` | kern/asst1/stoplight.c:496-510 | a car enters by its own quarter and leaves by that of its destination |
| `Stoplight.RouteCrosses` | kern/asst1/stoplight.c:97-440 | the regions a car crosses, in order, for each turn; on the way it is always in one of them or in two |
| `Stoplight.StuckHasCircle` | kern/asst1/stoplight.c:136-346 | if no car can go on, four cars, one in each region, each wait for the next region |
| `Stoplight.CircleIsStuck` | kern/asst1/stoplight.c:136-346 | and conversely: the exact condition for deadlock |
| `Stoplight.ThreeNeverStuck` | kern/asst1/stoplight.c:136-346 | with at most three straight or left-turning cars some car can always go on |
| `Stoplight.EveryRunDrains` | kern/asst1/stoplight.c:136-449 | with at most three, every run of the cars present ends with all of them through, in a number of steps fixed at the start |
| `Stoplight.FourCanStick` | kern/asst1/stoplight.c:136-199 | a run from the start in which four straight cars stop each other for good: three is the most |
| `Random.Rng.constructor` | lib/libc/random.c:170-216 | the default table and pointers |
| `Random.Rng.Next` | lib/libc/random.c:413-442 | one call is one term of the recurrence; both pointers stay in range and sep apart although the rear is not tested when the front wraps |
| `Random.ShiftTable` | lib/libc/random.c:427-439 | one step through the table is one shift of the terms, wherever the pointers are |
| `Random.AdvanceIsTerms` | lib/libc/random.c:413-442 | after n calls the table holds terms n to n + deg - 1 of x[t] = x[t-deg] + x[t-sep] mod 2^32 |
| `Random.Rng.Outputs` | lib/libc/random.c:413-442 | any n calls return the terms from deg on, halved |
| `Random.Rng.Draw` | lib/libc/random.c:413-442 | any n calls, of either kind of generator, return its next n outputs and leave it n terms further |
| `Random.OutsAreTerms` | lib/libc/random.c:413-442 | the outputs are the terms of the recurrence from deg on, halved |
| `Random.TermsEqualIff` | lib/libc/random.c:353-394 | two positions in a table give the same terms, and so the same state, iff the table repeats with their distance |
| `Random.PrimeRepeats` | lib/libc/random.c:127-140 | with degree 7 or 31 only a constant table repeats with a distance other than 0 |
| `Random.Rng.Seed` | lib/libc/random.c:230-247 | the pointers return to 0 and sep; the generator is the seeded table after 10 * deg calls |
| `RandomSeeds.SeedThenDraw` | lib/libc/random.c:230-247 | srandom(x) and n calls, in closed form: the terms from 11 * deg on, halved, of the recurrence over the words x * 1103515245^i + 12345 * (1 + ... + 1103515245^(i-1)) mod 2^32; for type 0 those values themselves mod 2^31 |
| `RandomSeeds.SeededOuts` | lib/libc/random.c:230-247 | output k after a seed is term 11 * deg + k of the recurrence over the filling, halved |
| `RandomSeeds.FilledIs` | lib/libc/random.c:239-241 | word i of the filling in closed form |
| `RandomSeeds.LcgOuts` | lib/libc/random.c:420-423 | output k of type 0 in closed form |
| `Random.Rng.Fill` | lib/libc/random.c:239-241 | the table is filled by the congruential generator |
| `Random.Rng.PutAway` | lib/libc/random.c:368-371 | word zero remembers type and position: the table alone describes the generator |
| `Random.Rng.SetState` | lib/libc/random.c:353-394 | the generator continues from what the table describes, and the old table describes the old generator; NULL and no change for an unknown type |
| `Random.Rng.InitState` | lib/libc/random.c:281-332 | the largest type that fits, seeded; NULL below eight bytes; what it then returns is InitThenDraw |
| `RandomSeeds.InitThenDraw` | lib/libc/random.c:281-332 | initstate and n calls: degree and distance by the number of bytes, and the outputs in closed form |
| `Random.TypeFor` | lib/libc/random.c:299-322 | the largest type whose table fits the bytes |
| `Random.Rng.AwayAndBack` | lib/libc/random.c:353-394 | the calls on another table are those of the generator it describes, which it then describes that much further, and the calls after going back go on with the generator that was left |
| `Random.Rng.SetSame` | lib/libc/random.c:344-371 | with the table in use the generator is in the state it was in iff the table repeats with the distance of the saved from the present position, for degrees 7 and 31 iff the positions agree or all words are equal; the comment says it always is |
| `Random.StalePosition` | lib/libc/random.c:344-371 | concretely: one call, setstate with the same table, one call; the second value is not the one that was next |
| `Numerals.DigitsValue` | lib/libc/__printf.c:404-424 | the numeral printed has the value printed |
| `Numerals.BufferExactlyFits` | lib/libc/__printf.c:54-54 | eleven digits and a NUL fit every 32-bit value in bases 8, 10 and 16, and one value needs all of them |
| `Formats.RunIsRender` | lib/libc/__printf.c:463-553 | the character machine prints what the format means, read field by field |
| `Formats.MeaningNext` | lib/libc/__printf.c:149-206 | one modifier more changes the state to the meaning of the longer modifier string |
| `Printf.Snp.Send` | lib/libc/snprintf.c:44-64 | the buffer holds the text sent, cut off at its length, and beyond it what it held before |
| `Printf.Snp.constructor` | lib/libc/snprintf.c:82-89 | nothing sent, buffer untouched |
| `Printf.PF.constructor` | lib/libc/__printf.c:539-546 | reset state, nothing printed |
| `Printf.PF.Print` | lib/libc/__printf.c:113-119 | text passed on and counted |
| `Printf.PF.EndField` | lib/libc/__printf.c:124-138 | the reset state |
| `Printf.PF.Modifier` | lib/libc/__printf.c:149-206 | the state after one modifier |
| `Printf.PF.GetNum` | lib/libc/__printf.c:213-276 | sign and magnitude of the next argument, also for the most negative int |
| `Printf.PF.SetBase` | lib/libc/__printf.c:288-308 | base and prefix of the conversion |
| `Printf.PF.Fill` | lib/libc/__printf.c:313-322 | that many fill characters |
| `Printf.PF.PrintStuff` | lib/libc/__printf.c:330-369 | the field as laid out: blanks before the prefix, zeros after it, either at the end if left-aligned |
| `Printf.Convert` | lib/libc/__printf.c:385-432 | the digit loop yields the numeral and never leaves its 12-byte buffer |
| `Printf.PF.PrintNum` | lib/libc/__printf.c:378-456 | sign, prefix and numeral as one field |
| `Printf.PF.Field` | lib/libc/__printf.c:489-527 | the text of one conversion, and the reset state |
| `Printf.PF.SendChar` | lib/libc/__printf.c:461-528 | what is printed and what will be printed add up to the same text |
| `Printf.Vprintf` | lib/libc/__printf.c:535-553 | sends the whole text of the format and returns its length |
| `Printf.Vsnprintf` | lib/libc/snprintf.c:69-112 | stores the first min(total, len - 1) characters and a NUL, nothing beyond (nothing at all for len 0), and returns the total |
| `Fields.IntegerConversions` | lib/libc/__printf.c:288-456 | for every modifier string and every 32-bit value: the base, prefix, sign and padding of %d, %u, %x, %o and %p |
| `Fields.TextConversions` | lib/libc/__printf.c:463-528 | the same for %s, %c and every other character, which stands for itself |
| `Fields.PartByPart` | lib/libc/__printf.c:463-553 | a format is printed part by part: text as it is, each conversion with the next argument if it takes one |
| `Fields.NumeralUnique` | lib/libc/__printf.c:379-456 | base and value determine the numeral |
| `Fields.ReadBack` | lib/libc/__printf.c:288-456 | what %u, %x, %o, %p, %#x and %#o print has the value printed, in base 10, 16, 8, 16, 16 and 8 |
| `Fields.ReadBackIff` | lib/libc/__printf.c:332-369 | for every modifier string the text of %u, %x, %o and %p is read back as the value iff no zeros were put behind it or the value is zero |
| `Atoi.Atoi` | lib/libc/atoi.c:20-72 | the number after blanks and a sign, cut to 32 bits |
| `Atoi.Digitwise` | lib/libc/atoi.c:42-63 | the wrapping accumulation is the numeral mod 2^32 |
| `Atoi.ReadsAny` | lib/libc/atoi.c:20-72 | any string, taken as blanks and tabs, a sign or none, digits and the rest, is read as the number the digits spell, with that sign, as an int |
| `Atoi.ReadsField` | lib/libc/atoi.c:20-72 | what atoi makes of a %d field, by padding |
| `Atoi.AtoiInvertsIff` | lib/libc/atoi.c:20-72 | for every modifier string and every 32-bit value, atoi inverts %d iff the field is not both left-aligned and zero-padded, or has no padding, or the value is zero |
| `Atoi.ZerosBehind` | lib/libc/__printf.c:332-369 | concretely: 5 with %-03d is printed as 500, and atoi reads five hundred |
| `Numerals.ShiftedIsSame` | lib/libc/__printf.c:366-368 | zeros on the right change every value but zero, mod 2^32 |
| `MemCopy.Memmove` | lib/libc/memmove.c:48-84 | dst holds the old source bytes and all other memory is unchanged, for every overlap and alignment |
| `MemCopy.Memcpy` | lib/libc/memcpy.c:35-53 | by words or by bytes, the memory is as if copied forwards byte by byte |
| `MemCopy.CopyWord` | lib/libc/memcpy.c:42-44 | four bytes read, then four written |
| `MemCopy.ForwardMoves` | lib/libc/memcpy.c:35-53 | a forward copy is right for disjoint buffers and for a destination below the source |
| `MemCopy.OverlapMovesIff` | lib/libc/memcpy.c:35-53 | with the destination inside the source it is right iff the source repeats with the distance of the two |
| `MemCopy.BackwardMoves` | lib/libc/memmove.c:56-84 | a backward copy is right for a destination above the source |
| `MemCopy.WordForward` | lib/libc/memcpy.c:39-44 | a word copied is its four bytes copied forwards |
| `MemCopy.WordBackward` | lib/libc/memmove.c:65-75 | a word copied is its four bytes copied backwards |

## Left out

- Pointers that are not multiples of 8 given to free, and programs that write outside their payloads; programs read and write whole 8-byte cells.
- The order of the bit fields within a header word is the compiler's; one order is fixed here.
- sbrk: a contract only (it grants what fits below a limit and refuses a change of 2^31 or more).
- Malloc.Allocator.Free: the caller must not have forged a header in front of the pointer it passes.
- A machine state after a crash in vm_fault or as_copy is not constrained, and no further operation is run on it.
- as_define_region, as_prepare_load, as_complete_load and as_define_stack: bookkeeping that the faults do not consult.
- alloc_kpages before vm_bootstrap (ram_stealmem), and free_kpages of such pages, which the coremap does not know.
- Allocations of the kernel itself between two user operations; the live runs at the start of a program may hold any.
- The TLB's replacement: the code has none, and answers a fault on a full TLB with EFAULT.
- pid assignment and the child arrays of thread.c, thread_panic, thread_shutdown and the killall functions.
- What follows a failed allocation in mi_switch or thread_wakeup: the assertion there is the end of the run.
- clocksleep of a negative number of seconds, which is that of zero, and the tick counter: which ticks complete a second is free.
- Thread stacks, md_switch and the copying of directories and address spaces in thread_fork; a failed fork, which may have enlarged a buffer already, is not an event.
- A thread starts lock_release or cv_wait only on a lock it is inside of; the assertion that guards this is otherwise the end of the run.
- V in an interrupt handler is one event: handlers are not interrupted themselves.
- The admission gate of the stoplight (totalcars, indicator, global): unsynchronised, so the car limit is a hypothesis.
- catlock.c and catsem.c: the first uses lock fields that do not exist, the second is empty.
- int overflow of the ring size in q_grow, of the field width and of the character count in printf.
- The size modifiers l and q of printf: int and long are both 32 bits, so they select the same argument.
- Random.Rng.constructor: that the default table equals the one initstate(1, randtbl, 128) would make is not shown.
- Locking in random.c, and state arrays that are not word-aligned.
- bitmap.c, the other string functions, kgets, loadelf, runprogram, uio, the menu, the test programs and all user-level commands: easier, or not core.
