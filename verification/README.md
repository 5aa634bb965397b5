# MagnOS kernel: a verified model

This project models the stateful core of the MagnOS kernel in Dafny and proves
what that core keeps over every run.

- **Page allocator and kernel heap.** A bitmap hands out 4 KB pages; over it sits
  an address-sorted free list kept in raw memory, with first-fit search, front
  splitting, page growth and a one-pass pairwise coalesce.
- **Two-level paging.** Page directory and page tables in memory, refining a flat
  map from virtual pages to frames and flags.
- **Scheduler.** The process table, the timer branch, `schedule` and the context
  switch as pushes and pops on stack memory.
- **Page ownership.** The heap, the page tables and the process stacks side by
  side on one page pool.
- **Keyboard.** Scancode translation and the ring buffer between the interrupt
  handler and its reader.
- **FAT32 reader.** Cluster chains, reads at any offset, directory scans and 8.3
  names, on a disk whose reads may fail.
- **Programs.** Command-line parsing, ELF segment loading and nested exec.

## How the files fit together

Each component has a specification module (values, functions and the theorems
about them) and, where the source updates state in place, a class module whose
methods are proved to compute those functions on arrays and fields. Where a function
is shared by both, theorems tie it to something neither uses: the bytes of the disk
(`fat32_bytes.dfy`) and of the image (`exec_memory.dfy`), the words the processor walks
(`paging_walk.dfy`), the rows of the keyboard (`keyboard_layout.dfy`) and the addresses
on the free list (`heap_bounds.dfy`).

| specification and theorems | in-place model |
|---|---|
| `machine.dfy` (words, pages, memory) | |
| `pmm.dfy` (`PageAllocator`), `page_runs.dfy`, `page_races.dfy` | `pmm.dfy` (`Pmm`), `page_runs.dfy` (`Serve`) |
| `heap_blocks.dfy`, `heap_spec.dfy`, `heap_theorems.dfy`, `heap_bounds.dfy`, `heap_growth.dfy`, `heap_gaps.dfy`, `heap_witness.dfy`, `heap_memory.dfy` | `heap.dfy` (`Kheap`) |
| `paging_spec.dfy`, `paging_walk.dfy` | `paging.dfy` (`Pager`) |
| `process_spec.dfy`, `process_theorems.dfy`, `process_steps.dfy`, `process_races.dfy` | `process.dfy` (`Scheduler`) |
| `kernel_pages.dfy` | `kernel_memory.dfy` (heap and pager on one memory) |
| `keyboard_spec.dfy`, `keyboard_layout.dfy` | `keyboard.dfy` (`Keyboard`) |
| `fat_names.dfy`, `fat32_spec.dfy`, `fat32_bytes.dfy` | `fat_names.dfy`, `fat32.dfy` (`Fat32`, `File`) |
| `args.dfy` | `args.dfy` |
| `exec_spec.dfy`, `exec_memory.dfy`, `exec_theorems.dfy` | `exec.dfy` (`Programs`) |

`dafny verify dfyconfig.toml` checks the whole project.

## What the code does not do

Nine things one would expect are false of the code. Each has a lemma with an input
that shows it and a lemma with the exact condition.

- `process_create` does not survive every tick. Interrupts stay on during the call,
  and READY is stored before the stack pointer is. A tick that schedules in between
  starts the new process from address 0 (`EarlyTickStartsAtZero`). The process starts
  as promised if and only if its stack pointer is stored before the first such tick
  (`FirstStartIff`, and `ReadyInvIff` for the scheduler's invariant). Before READY,
  ticks do no harm by themselves, but a process switched to may create one in the
  same slot (`RivalInTheWindow`): pid equals slot if and only if none does
  (`PublishedIff`).
- `pmm_alloc` does not always hand out a page of its own: a tick between its test and
  its set lets another process take the same one (`TwoCallsOnePage`). Over any run of
  overlapping calls the pages are distinct if and only if no process sets its bit after
  another's set fell between its test and its set (`DistinctIff`).
- `kfree` does not always coalesce fully (`FreeMayLeaveOnePair`, reached from
  `heap_init`). It does exactly when inserting the block makes no three blocks in a
  row touch (`FreeCoalescesFullyIff`). What is true in every reachable state is that
  at most one touching pair is left (`ReachableHeap`).
- `kmalloc` can refuse a request of several pages although the pages are there
  (`LargeMallocMayFail`): the pass stays one merge behind when such a pair ends where
  the new pages begin. `LargeMallocSucceedsIff` gives the exact condition for
  consecutive pages and `GrownMallocIff` for every pool, gaps included.
- `kmalloc`'s rounding wraps for the last fifteen sizes (`RoundedWraps`); the block
  holds the request exactly for the others (`MallocHoldsIff`).
- `fat32_open` does not find every listed file. A volume label of the same name is
  opened instead (`LabelShadowsFile`), and a stored name with a space inside is
  listed under a name nothing is found by (`SpacedNameIsLost`). Opening what is shown
  finds the entry if and only if its stored name round-trips, has no NUL, and is first
  under that name (`OpenListedIff`, `NameRoundTripIff`).
- SYSCALL_EXEC does not always give the caller its memory back
  (`CallerLosesMemory`): there is one saved copy, and an exec call made by the
  program that exec started overwrites it once it gets past the check of the ELF magic
  bytes, even if it then fails. Without such a call the caller gets its region back
  (`CallerMemoryRestored`); with one it does if and only if the last save took the same
  bytes (`NestedExecRestoresLastCopy`).
- A refused SYSCALL_EXEC does not always leave memory as it was. Segments are loaded
  before the depth is checked, and only the region is put back
  (`HighProgramEscapes`). Memory is the same in every state if and only if the header
  is bad or all segments lie in the region (`RefusedUnchangedIff`).
- The user stack page at 0x300000 is not kept from the page allocator. It is handed out
  when, and only when, it is free and no lower page is (`StackPageReturnedIff`).

## What is taken as uninterrupted

Ticks fall between any two events of a run. Inside a call they are modelled for one
`process_create` at a time, store by store, among other creations that are each one
event (`process_steps.dfy`, `process_races.dfy`), for any number of overlapping
`pmm_alloc` calls, between test and set (`page_races.dfy`), and for the keyboard
reader, access by access. Everywhere else a call is one event: `pmm_alloc` and
`pmm_free`, `kmalloc` and `kfree`, `paging_map` and `paging_unmap`, `schedule` with its
context switch, and the creations in `process_theorems.dfy` and `kernel_pages.dfy`. The
source does not disable interrupts in those calls, so results about runs of them hold
as long as no tick switches processes inside one.

## Model

| member | source | states |
|---|---|---|
| PageAllocator.Pmm.constructor | kernel/pmm.c:10-34 | after initialisation the free pages are exactly those from the end of the kernel to 0x1EFFFF outside the ROM hole, and those from 3 MB to 16 MB |
| PageAllocator.Pmm.Alloc | kernel/pmm.c:36-48 | removes and returns the least free page; the result is 0 exactly when no page was free, and then nothing changes |
| PageAllocator.Pmm.Release | kernel/pmm.c:50-55 | adds the address's page to the free set, except page 0 and pages beyond memory, which change nothing |
| PageAllocator.Pmm.FreeCount | kernel/pmm.c:57-68 | the count is the cardinality of the free set |
| PageAllocator.TakeLeast | kernel/pmm.c:36-48 | the first clear bit found byte by byte is the minimum of the free set, and setting it removes that page only |
| PageAllocator.FreeAfterClear | kernel/pmm.c:50-55 | clearing a bit adds exactly its page to the free set |
| PageRuns.Serve | kernel/pmm.c:36-55 | on any sequence of calls the bitmap returns and keeps what the pool of free pages says |
| PageRuns.FreeAtBootIff | kernel/pmm.c:10-34 | a page is free after pmm_init if and only if none of its addresses is below the kernel's end, in 0xA0000-0xFFFFF or in 0x1F0000-0x2FFFFF; from 3 MB up all are free |
| PageRuns.ReservedNeverReturned | kernel/pmm.c:10-55 | after any run of calls from boot, no such address below 3 MB is in a page that pmm_alloc returns unless its page has been released |
| PageRuns.NeverTwice | kernel/pmm.c:36-55 | no page is returned twice without having been released in between |
| PageRuns.StackPageReturnedIff | kernel/pmm.c:30-33 | the user stack page 0x300000 is free after pmm_init, and is returned if and only if it is free and no lower page is |
| PageRaces.DistinctIff | kernel/pmm.c:36-48 | over any run of overlapping calls by any number of processes the pages handed out are distinct if and only if no process sets its bit after having been overtaken |
| PageRaces.TwoCallsOnePage | kernel/pmm.c:41-42 | two calls that both test before either sets return the same page, on every non-empty pool |
| PageRaces.UninterruptedAlloc | kernel/pmm.c:36-48 | test and set in a row take the least free page, and it alone |
| HeapBlocks.InsertSorted | kernel/heap.c:21-36 | inserting a block apart from all others keeps the list address-sorted without overlap |
| HeapBlocks.InsertConserves | kernel/heap.c:21-36 | insertion adds exactly the block's bytes and addresses and at most two touching pairs |
| HeapBlocks.CoalesceConserves | kernel/heap.c:39-48 | the coalescing pass keeps the total byte count and the exact set of free addresses |
| HeapBlocks.CoalesceSorted | kernel/heap.c:39-48 | the pass keeps the list sorted, aligned and without overlap |
| HeapBlocks.CoalesceRun | kernel/heap.c:39-48 | a maximal run of k touching blocks becomes ceil(k/2) touching blocks |
| HeapBlocks.CoalesceAcrossGap | kernel/heap.c:39-48 | runs separated by a gap are coalesced independently, so the previous row applies to each run |
| HeapBlocks.CoalesceHalvesPairs | kernel/heap.c:39-48 | the pass at least halves the number of touching pairs |
| HeapBlocks.CoalesceCompleteIff | kernel/heap.c:39-48 | no touching pair is left if and only if the list had no three consecutive touching blocks |
| HeapBlocks.CoalesceKeepsRoom | kernel/heap.c:39-48 | for every block before the pass there is one at least as large after it |
| HeapSpec.AddPageKeepsInv | kernel/heap.c:51-72 | adding a page keeps list shape, exact byte tiling, and at most one touching pair |
| HeapSpec.GrowAccounts | kernel/heap.c:119-124 | growth moves pages from the pool to the heap, loses none and touches no live block; it falls short only when the pool is empty |
| HeapSpec.TakeConserves | kernel/heap.c:96-111 | splitting off the front of a block splits its bytes and addresses exactly |
| HeapSpec.TakePairs | kernel/heap.c:93-117 | taking a block, whole or split, never adds a touching pair |
| HeapSpec.AllocateKeepsInv | kernel/heap.c:93-117 | taking a fitting block keeps the whole heap invariant |
| HeapSpec.FreeKeepsInv | kernel/heap.c:156-171 | freeing any live block keeps the whole heap invariant |
| HeapTheorems.MallocKeepsInv | kernel/heap.c:80-154 | every kmalloc, also one that fails after growing, keeps the heap invariant |
| HeapTheorems.MallocResult | kernel/heap.c:80-154 | a non-null result is 16-aligned, is the payload of a new live block of at least the rounded size that is apart from all live blocks; a null result leaves the live blocks unchanged |
| HeapBounds.MallocCuts | kernel/heap.c:89-117 | a request that succeeds takes the first large enough block of the list, or of the grown list; it gets exactly the rounded size when 32 bytes or more are left over, else the whole block, so always fewer than 32 bytes more; every other block and the rest of this one stay on the list, and exactly the addresses handed out leave it |
| HeapBounds.ReleaseGives | kernel/heap.c:156-171 | kfree takes that block and no other from the live ones and gives the list exactly its addresses |
| HeapBounds.RoundedIs | kernel/heap.c:84-87 | the size looked for is the request rounded up to a multiple of 16, and 16 for the last fifteen sizes |
| HeapBounds.PagesNeededIs | kernel/heap.c:119-120 | the pages asked for are as few as hold the size and a header, and none when that sum wraps |
| HeapTheorems.MallocHoldsIff | kernel/heap.c:80-154 | the block handed out holds the bytes asked for if and only if the request is at most 0xFFFFFFF0 |
| HeapTheorems.RoundedSufficesIff | kernel/heap.c:85-87 | the rounded size covers the request if and only if the request is at most 0xFFFFFFF0, and then wastes less than 16 bytes above the minimum |
| HeapTheorems.RoundedWraps | kernel/heap.c:85-87 | a request of 0xFFFFFFF1 bytes is rounded to 16 |
| HeapTheorems.MallocTakesLowestFit | kernel/heap.c:89-117 | when some free block fits, the result is in a fitting free block no higher than any other fitting one, and no page is taken |
| HeapTheorems.AddPageMakesRoom | kernel/heap.c:51-72 | after a page is added a block fits any request of up to 4080 bytes, although the page may have been merged into a neighbour |
| HeapTheorems.SmallMallocFailsIff | kernel/heap.c:80-154 | a request that rounds to at most 4080 bytes fails if and only if no free block fits and no page is free |
| HeapTheorems.MallocThenFree | kernel/heap.c:80-171 | kmalloc without growth followed by kfree restores exactly the set of free bytes, the live blocks and the pages |
| HeapTheorems.ReleaseKeepsInv | kernel/heap.c:156-171 | kfree of null or a live pointer keeps the heap invariant |
| HeapTheorems.FreeCoalescesFullyIff | kernel/heap.c:162-170 | kfree leaves no touching pair if and only if the block does not complete three touching blocks in a row |
| HeapWitness.InitialPool | kernel/pmm.c:10-34 | when the kernel ends at least eighteen pages below the ROM hole, or above it and as far below page 0x1F0, the eighteen lowest pages pmm_init frees are consecutive |
| HeapWitness.RequestsReach | kernel/heap.c:74-171 | on every pool whose eighteen lowest pages are consecutive, heap_init and six requests reach a given heap with two free blocks apart from each other |
| HeapWitness.FreeMayLeaveOnePair | kernel/heap.c:162-170 | in that reachable heap no free blocks touch, and freeing one more live block leaves two that do |
| HeapWitness.LargeMallocMayFail | kernel/heap.c:119-153 | from there a two-page request returns null although both pages were free and consecutive |
| HeapWitness.LargeMallocFailsAfterBoot | kernel/heap.c:119-153 | the same on the pool pmm_init leaves, for every such end of the kernel |
| HeapGrowth.GrowMerges | kernel/heap.c:119-124 | consecutive pages above a block that nothing touches from below all join it |
| HeapGrowth.GrowLags | kernel/heap.c:119-124 | above a touching pair all but the last page join it |
| HeapGrowth.LargeMallocSucceedsIff | kernel/heap.c:80-154 | with nothing fitting and the needed pages consecutive, a request of several pages succeeds if and only if no touching pair ends where they begin or what does get merged suffices |
| HeapGrowth.HugeMallocFails | kernel/heap.c:80-154 | a request as large as memory returns null, however the page count wraps |
| HeapGaps.RoomIffUnbroken | kernel/heap.c:89-95 | a sorted list has room for n bytes if and only if its bytes contain n + 16 contiguous ones that cross no unmerged boundary |
| HeapGaps.CanGrowIff | kernel/heap.c:119-124 | growing by k pages succeeds if and only if the pool has k |
| HeapGaps.GrownMallocIff | kernel/heap.c:80-154 | on every pool, a request nothing fits succeeds if and only if the pool has the pages asked for and, with the lowest of them added, the bytes outside live blocks contain such a stretch; at most one boundary is unmerged |
| HeapGaps.GrowLowest | kernel/heap.c:119-124 | growth takes exactly the lowest pages of the pool |
| HeapGaps.HoleSplits | kernel/heap.c:119-124 | a page the heap does not have, such as one of the ROM hole, splits every stretch |
| HeapGaps.EmptyListIff | kernel/heap.c:80-154 | with an empty list and enough free pages, a request too large for one page and no larger than memory succeeds if and only if the lowest free pages are consecutive |
| HeapTheorems.StatsAccount | kernel/heap.c:173-188 | pages times 4096 less the free payload equals the live blocks with headers plus 16 per free block |
| HeapTheorems.RunKeepsInv | kernel/heap.c:80-171 | every run of kmalloc and legal kfree keeps the heap invariant |
| HeapTheorems.RunKeepsLive | kernel/heap.c:80-171 | over any run a live block stays live, at the same place and size, until it is freed itself |
| HeapTheorems.RunKeepsPages | kernel/heap.c:51-171 | over any run the heap's pages and the free pages together stay the same set |
| HeapTheorems.ReachableHeap | kernel/heap.c:21-171 | in every state reachable from heap_init: the list is sorted, free and live blocks are disjoint and tile the heap's pages exactly, at most one free pair touches, and no page is lost |
| KernelHeap.Kheap.Init | kernel/heap.c:74-78 | the in-place initialisation leaves memory representing a heap grown by the initial pages |
| KernelHeap.Kheap.FindPlace | kernel/heap.c:30-33 | the walk over next pointers stops at the last block below the new one |
| KernelHeap.Kheap.ListInsert | kernel/heap.c:21-36 | rewriting next pointers leaves the linked list that ordered insertion prescribes, and writes only on free blocks and the inserted one |
| KernelHeap.Kheap.CoalesceForward | kernel/heap.c:39-48 | merges the block with its successor exactly when they touch, writing only its own header |
| KernelHeap.Kheap.CoalesceAll | kernel/heap.c:64-69 | the walk over the list leaves the list that the pairwise coalescing pass prescribes |
| KernelHeap.Kheap.AddPage | kernel/heap.c:51-72 | the in-place page addition is the specified one; it returns null exactly when no page is free and changes no byte of a live block |
| KernelHeap.Kheap.Search | kernel/heap.c:89-116 | the list walk finds the first block large enough, with its predecessor, or the end |
| KernelHeap.Kheap.SplitFront | kernel/heap.c:96-103 | writing the remainder's header splits the block in the list; how large the parts are is HeapBounds.MallocCuts |
| KernelHeap.Kheap.Unlink | kernel/heap.c:105-111 | relinking removes exactly the taken block, which is marked used |
| KernelHeap.Kheap.GrowBy | kernel/heap.c:119-124 | the growth loop adds the requested pages and stops at the first failure |
| KernelHeap.Kheap.Kmalloc | kernel/heap.c:80-154 | for every size, the pointer returned and the list in memory are those of the specified allocation, and no byte of a live block changes |
| KernelHeap.Kheap.Kfree | kernel/heap.c:156-171 | for null or a live pointer, the list in memory becomes the specified one and no byte of a remaining live block changes |
| KernelHeap.Kheap.GetStats | kernel/heap.c:173-188 | reports the pages, the free payload and block count of the list, and used bytes equal to live blocks with headers plus 16 per free block |
| PagingSpec.RunKeepsInv | kernel/paging.c:46-81 | over any run every mapped page has a table, is present, and is user-visible in the directory when its entry is |
| PagingSpec.MapTranslates | kernel/paging.c:46-68 | a map that gets a table makes every address of the page translate to the frame with its own offset; one that does not changes nothing |
| PagingSpec.StepIsLocal | kernel/paging.c:46-81 | map and unmap leave translation and user access of all other pages alone |
| PagingSpec.UnmapUntranslates | kernel/paging.c:70-81 | an unmapped page translates to 0 and is not user-accessible |
| PagingSpec.RunFollowsHistory | kernel/paging.c:46-81 | after any run a page's mapping is what the last effective request for it says, or the initial one |
| PagingSpec.UserIffLastMapUser | kernel/paging.c:58-64 | after any run a page is user-accessible at both levels if and only if its last effective mapping carried the user flag |
| PagingSpec.FlagBits | kernel/paging.c:64 | a mapping has bit 0 and, of bits 1 to 11, exactly those of the request |
| PagingSpec.FlagIffLastMapFlag | kernel/paging.c:46-81 | after any run each flag bit from 1 to 11 of a page is that of its last effective mapping |
| PagingSpec.WritableIffLastMapWritable | kernel/paging.c:46-81 | after any run a page is writable if and only if its last effective mapping carried PAGE_WRITABLE |
| PagingSpec.ExecOpensExactly | kernel/elf.c:113-118 | after any number of exec mapping loops on the identity map exactly 0x200000-0x300FFF is user-accessible, exactly the first 16 MB are writable, every identity translation is intact and no page was taken |
| PagingSpec.ReachesIff | kernel/paging.c:46-95 | the kernel reaches every byte of a physical page other than page 0 at its own address if and only if the page is mapped to itself |
| PagingSpec.TablesReachableIff | kernel/paging.c:46-81 | after any run from the identity map the pages holding the tables can still be reached if and only if the last effective request for each, if any, mapped it to itself |
| PagingSpec.StepReachableIff | kernel/paging.c:46-81 | one request loses such a page if and only if it takes effect on that page and does not map it to itself |
| Paging.Pager.Init | kernel/paging.c:17-44 | the fill loops leave tables representing the identity map of 16 MB, on five distinct pages taken from the free set, and write nowhere else |
| Paging.Pager.Map | kernel/paging.c:46-68 | the words written make the tables represent the flat map after the request, the directory and all tables stay distinct non-free pages, and only those pages change; what the entry then is bit by bit is PagingWalk.MappedEntry |
| Paging.Pager.EnsureTable | kernel/paging.c:50-56 | a table exists afterwards unless none did and no page is free; a new one is a zeroed page that was the least free one |
| Paging.Pager.Unmap | kernel/paging.c:70-81 | the tables represent the flat map without the page; only table pages change |
| Paging.Pager.GetPhys | kernel/paging.c:83-95 | the two-level walk returns the flat map's translation, or 0 where there is none |
| Paging.Pager.ZeroPage | kernel/paging.c:10-15 | every entry of the page is zero and no other page changes |
| Paging.Pager.MapUserPages | kernel/elf.c:113-118 | the exec mapping loop computes the specified opening of the program region and stack page |
| PagingWalk.WalkAgrees | kernel/paging.c:17-95 | walking the directory and table words in memory as the processor does gives the flat map's translation and flag bits, and allows writing and user access at both levels exactly where the flat map does |
| PagingWalk.MappedEntry | kernel/paging.c:58-64 | once a map has taken effect the word in memory for the page has the frame asked for, bit 0, and exactly the flag bits 1 to 11 of the request |
| PagingWalk.ExecWalk | kernel/elf.c:113-118 | after any number of programs the processor finds the first 16 MB mapped to itself and writable, nothing else mapped, and exactly 0x200000-0x300FFF open to user mode |
| ProcessSpec.PopAfterPush | kernel/switch.asm:6-17 | popping a pushed frame gives back the registers, stack position and return address |
| ProcessSpec.SearchFinds | kernel/process.c:109-116 | the round-robin search finds the nearest ready slot in cyclic order |
| ProcessSpec.ScheduleKeepsInv | kernel/process.c:96-131 | schedule keeps one running slot, the slot prefix, disjoint stacks and all suspended contexts, and loads the next process's saved context |
| ProcessSpec.CreateKeepsInv | kernel/process.c:32-90 | an uninterrupted creation keeps the same invariant, with a new stack page apart from all others |
| ProcessSpec.FreeSlotIsNext | kernel/process.c:33-42 | the first unused slot is always the next pid |
| ProcessSpec.StepKeepsInv | kernel/process.c:32-131 | computing, ticking and uninterrupted creations all keep the invariant |
| ProcessTheorems.BootInv | kernel/process.c:8-30 | the state process_init leaves satisfies the invariant |
| ProcessTheorems.RunKeepsSaved | kernel/process.c:96-131 | over any run in which a process does not run, the context it will get back does not change |
| ProcessTheorems.SuspendRecords | kernel/process.c:121-130 | the context recorded for a process switched out is what the processor held |
| ProcessTheorems.ResumeLoadsSaved | kernel/process.c:121-130 | a process switched in gets exactly its recorded context |
| ProcessTheorems.ResumedExactly | kernel/switch.asm:6-17 | a process switched out and later resumed, after any run in between, has the same registers, stack position and return address |
| ProcessTheorems.FirstStart | kernel/process.c:44-81 | a process created by an uninterrupted call, after any run, first starts at its entry point with zero registers and its stack pointer at the top of its own page |
| ProcessTheorems.ScheduleApproaches | kernel/process.c:109-131 | each schedule call runs a waiting process or strictly shortens its cyclic distance |
| ProcessTheorems.RoundRobin | kernel/process.c:96-131 | the running process changes exactly on ticks whose 32-bit number is a multiple of ten when there is more than one process, and then to the next slot in use or back to the first |
| ProcessTheorems.Countdown | kernel/idt.c:160-170 | a schedule call comes exactly when the countdown of at most ten ticks ends, also across the 32-bit wrap of the tick counter |
| ProcessTheorems.DistancePositive | kernel/process.c:109-116 | a waiting process is at most 15 schedule calls and 150 ticks away |
| ProcessTheorems.RunsInTime | kernel/process.c:96-131 | a waiting process runs before its computed number of ticks has passed, whatever is created meanwhile |
| ProcessTheorems.BoundedWaiting | kernel/process.c:96-131 | in every run with at least 150 ticks every ready process gets to run |
| ProcessSteps.SafeKeepsGood | kernel/process.c:32-90 | between any two stores of the call, computing, harmless ticks and failed creations leave it in good order, and with no call under way the whole invariant holds |
| ProcessSteps.CompletedIsCreate | kernel/process.c:81 | with its last store an undisturbed call has done exactly what an uninterrupted one does |
| ProcessRaces.SafeRunKeepsGood | kernel/process.c:32-90 | over a whole run of such moves the call stays in good order and every completed one leaves the invariant |
| ProcessRaces.UninterruptedIsCreate | kernel/process.c:32-81 | the call's six stores in a row are one creation |
| ProcessRaces.FirstStartIff | kernel/process.c:50-81 | for every run of ticks, work and other creations the new process starts from its entry point, zero registers and page top if and only if its stack pointer was stored before the first scheduling tick after READY |
| ProcessRaces.ReadyInvIff | kernel/process.c:50-81 | once READY is out the scheduler's invariant holds with the promised context if and only if the call was undisturbed |
| ProcessRaces.PublishedIff | kernel/process.c:33-51 | when READY is stored used slots are a prefix with pid equal to slot if and only if no other creation succeeded since the slot was found, whatever switches came between |
| ProcessRaces.BrokenStart | kernel/process.c:96-131 | after a scheduling tick too early the new slot is reached before its creator and starts from address 0, whoever runs in between |
| ProcessRaces.EarlyTickStartsAtZero | kernel/process.c:51-81 | from every booted state at tick 9 the tick after the READY store runs slot 1 from address 0 |
| ProcessRaces.RivalInTheWindow | kernel/process.c:33-51 | from every two-process state a tick after the slot is found lets the other process create one in that slot |
| Process.Scheduler.Init | kernel/process.c:8-30 | leaves only the kernel process, running, in slot 0 |
| Process.Scheduler.Get | kernel/process.c:133-139 | finds exactly the pids given out, each in the slot of the same number |
| Process.Scheduler.ContextSwitch | kernel/switch.asm:6-17 | pusha, the esp store, the esp load, popa and ret save the old context as one frame and load the one at the new stack pointer |
| Process.Scheduler.FindReady | kernel/process.c:109-116 | the scan loop computes the round-robin search |
| Process.Scheduler.Schedule | kernel/process.c:96-131 | the in-place table, stack and register updates are the specified schedule step, for every valid state |
| Process.Scheduler.TimerTick | kernel/idt.c:160-170 | increments the tick counter with wrap-around and schedules on multiples of ten |
| Process.Scheduler.BuildFrame | kernel/process.c:71-81 | the words stored on the new stack are a frame with zero registers returning to the entry point |
| Process.Scheduler.CreateProcess | kernel/process.c:32-90 | the stores, in the source's order and uninterrupted, give the next pid with its slot ready, or -1 with nothing changed exactly when the table is full or no page is free |
| KernelPages.HeapStepPages | kernel/heap.c:51-60 | a heap call takes pages from the pool only, and the heap grows by exactly those |
| KernelPages.PagingStepPages | kernel/paging.c:50-56 | a paging call takes one page if and only if it opens a directory slot |
| KernelPages.ProcStepPages | kernel/process.c:44-52 | creation turns one free page into a stack; no other process event moves pages |
| KernelPages.HeapContractConfines | kernel/heap.c:80-171 | the memory promise of the in-place kmalloc and kfree is enough for a call of this combined model |
| KernelPages.PagingContractConfines | kernel/paging.c:46-81 | the memory promise of the in-place map and unmap is enough too |
| KernelPages.StepKeepsInv | kernel/process.c:8-54 | every heap call, paging call and process event keeps all three components' invariants and their pages apart, and conserves the set of pages |
| KernelMemory.Kmalloc | kernel/heap.c:80-154 | on one memory and page allocator, the in-place kmalloc keeps the in-place page tables valid and unchanged and its pages apart from them |
| KernelMemory.Kfree | kernel/heap.c:156-171 | so does kfree |
| KernelMemory.Map | kernel/paging.c:46-68 | the in-place map keeps the in-place heap valid and unchanged, and its new table apart from it |
| KernelMemory.Unmap | kernel/paging.c:70-81 | so does unmap |
| KernelPages.BootInv | kernel/kernel.c:151-173 | the state the initialisers leave, in boot order, satisfies the combined invariant |
| KernelPages.ReachableOwnership | kernel/process.c:8-54 | in every reachable state heap pages, table pages, process stacks and free pages are pairwise disjoint and together are the initial pool, with one page per created process and per directory slot plus the directory |
| KernelPages.CallsSpareEachOther | kernel/heap.c:51-60 | a heap call changes no word of a page table and a paging call no word of the heap |
| KernelPages.ProcEventsSpareComponents | kernel/process.c:96-131 | timer ticks and creations change no word of the heap or the page tables |
| KernelPages.StepKeepsContext | kernel/process.c:121-130 | no step of any component changes what a suspended process will get back |
| KeyboardSpec.FullIff | kernel/keyboard.c:170-194 | head one before tail means exactly 255 characters wait, head equal to tail exactly none |
| KeyboardSpec.IrqKeepsInv | kernel/keyboard.c:170-183 | an interrupt at any point of the reader keeps the ring's invariant |
| KeyboardSpec.ReadKeepsInv | kernel/keyboard.c:186-194 | every single memory access of the reader keeps it too |
| KeyboardSpec.ReturnedIsPrefix | kernel/keyboard.c:170-194 | for every interleaving the characters returned are a prefix, in order, of those accepted |
| KeyboardSpec.DropsIffFull | kernel/keyboard.c:170-183 | a character is dropped exactly when 255 wait, otherwise it joins the end; those waiting are untouched |
| KeyboardSpec.NothingLost | kernel/keyboard.c:170-194 | with no key arriving at a full ring, what is accepted is exactly what was typed |
| KeyboardSpec.ModsFollowHistory | kernel/keyboard.c:48-109 | for every history shift, control and alt are on exactly when the last press or release of one of their keys was a press, and caps lock by the parity of its presses |
| KeyboardSpec.LetterCase | kernel/keyboard.c:48-109 | a letter key gives the capital exactly when one of shift and caps lock is on |
| KeyboardSpec.CapsOnlyLetters | kernel/keyboard.c:48-109 | caps lock changes the character if and only if the key is a letter |
| KeyboardLayout.PressTypes | kernel/keyboard.c:16-109 | every scancode types what the rows of a US keyboard say: letters their capital when exactly one of shift and caps lock is on, all other keys their second character when shift is on, backspace 8, escape 27, releases and modifiers nothing |
| KeyboardLayout.TypesAfterHistory | kernel/keyboard.c:46-109 | the same after any history of scancodes, by its last shift event and its number of caps-lock presses |
| KeyboardLayout.TypedIsText | kernel/keyboard.c:46-183 | what a run of interrupts types is the text the layout gives its scancodes |
| KeyboardLayout.ReaderGetsText | kernel/keyboard.c:170-194 | for every interleaving with the reader in which no key comes at a full ring, exactly that text enters the ring and what was read is a prefix of it |
| KeyboardDriver.Keyboard.TranslateScancode | kernel/keyboard.c:48-109 | the branches on flags and tables compute the specified translation, which KeyboardLayout.PressTypes ties to the keyboard |
| KeyboardDriver.Keyboard.IrqHandler | kernel/keyboard.c:170-183 | the in-place handler is the specified interrupt step |
| KeyboardDriver.Keyboard.Getchar | kernel/keyboard.c:186-194 | an undisturbed call returns and removes the oldest waiting character, or returns 0 and changes nothing |
| KeyboardDriver.UndisturbedCall | kernel/keyboard.c:186-194 | running the reader's accesses one after another has that effect and ends idle |
| FatNames.NameRoundTrip | kernel/fat32.c:102-143 | converting a name with only trailing padding and no dot or NUL to a string and back gives the name |
| FatNames.NameRoundTripIff | kernel/fat32.c:102-143 | a stored name comes back from its string form if and only if both fields are padded at the end only and the base has no dot |
| FatNames.ReopenIff | kernel/fat32.c:102-143 | what a C string shows of it converts back to the name if and only if, besides, it has no NUL |
| FatNames.StringRoundTrip | kernel/fat32.c:102-143 | converting a canonical string to a name and back gives the string |
| FatNames.StringFits | kernel/fat32.c:102-119 | a converted name with its terminator fits 13 bytes |
| FatNames.ShownIs | kernel/fat32.c:102-119 | the string shown is the base up to its first space and, when there is an extension, a dot and the extension up to its first space |
| FatNames.ConvertedIs | kernel/fat32.c:122-143 | each of the eleven bytes stored: the first eight before the first dot, the first three after it, and spaces |
| FatNames.MatchIffEqual | kernel/fat32.c:25-33 | comparing 11 bytes with a converted name gives zero if and only if the names are equal |
| FatNames.NameToString | kernel/fat32.c:102-119 | the copy loops write the specified string, its terminator and nothing after it |
| FatNames.StringToName | kernel/fat32.c:122-143 | the loops build the specified padded name from any C string |
| FatNames.CompareNames | kernel/fat32.c:25-33 | the loop computes the first difference before a NUL |
| Fat32Spec.ChainSector | kernel/fat32.c:391-403 | sector i of the k-th cluster is found at offset k times cluster size plus 512 i of the chain's contents; where on the disk that sector lies is Fat32Bytes.FileByte |
| Fat32Bytes.FileByte | kernel/fat32.c:62-67 | byte p of a chain is byte p mod 512 of sector data start + (c - 2) * sectors per cluster + (p mod cluster size) / 512, with c the chain's cluster number p / cluster size; clusters below 2 start at sector 0 |
| Fat32Bytes.NextIsSuccessor | kernel/fat32.c:36-59 | the cluster after c is the low 28 bits of bytes 4c to 4c + 3 of the FAT, and 0x0FFFFFF8 for all end marks and for c below 2 or from 0x0FFFFFF0 |
| Fat32Bytes.ChainIff | kernel/fat32.c:36-59 | a chain is exactly what following those bytes from the first cluster visits |
| Fat32Bytes.EntryStored | kernel/fat32.c:277-366 | entry j of a directory is read off bytes 32j to 32j + 31 of its chain: name, attributes, size, and the first cluster from its two halves |
| Fat32Bytes.ListingOnDisk | kernel/fat32.c:260-317 | a listing describes, in order and each once, exactly the entries before the first zero byte that are not deleted, not part of a long name and no volume label, with name, size and directory bit from their bytes |
| Fat32Bytes.LookupOnDisk | kernel/fat32.c:320-375 | a lookup finds the first entry in use whose eleven bytes are the converted name, with the fields its bytes give, and nothing exactly when there is none |
| Fat32Driver.Fat32.Init | kernel/fat32.c:70-99 | mounts exactly a volume whose boot sector can be read and has 512-byte sectors and no 16-bit FAT size; the geometry is that of its bytes, with the data start wrapping at 32 bits |
| Fat32Spec.OpenShownIff | kernel/fat32.c:320-375 | opening what is shown for an eligible entry finds it if and only if its name round-trips without NUL and the first eligible entry of that name is the same; with such a name that first entry is what is found |
| Fat32Spec.ListedIsEntry | kernel/fat32.c:260-317 | every listed item is a visible entry before the end marker |
| Fat32Spec.OpenListedIff | kernel/fat32.c:260-375 | the same for every item of every listing: opening its string finds the entry it was made from exactly under those conditions |
| Fat32Spec.OpenListed | kernel/fat32.c:260-375 | when eligible names are distinct and round-trip, every listed name opens its own entry |
| Fat32Spec.SpacedNameIsLost | kernel/fat32.c:102-143 | a name stored with a space inside is listed in shortened form and cannot be opened by it |
| Fat32Spec.LabelShadowsFile | kernel/fat32.c:345-366 | a volume label with a file's name is not listed but is what open finds |
| Fat32Driver.Fat32.GetNextCluster | kernel/fat32.c:36-59 | returns the successor that bytes 4c to 4c + 3 of the FAT give; every end-of-chain value, every cluster number outside the data range and every failed read give the one end-of-chain value |
| Fat32Driver.Fat32.ReadPiece | kernel/fat32.c:392-426 | one round delivers the disk's bytes of the chain at the current position and keeps the remembered cluster in step with the position |
| Fat32Driver.Fat32.Read | kernel/fat32.c:378-429 | whichever reads fail, byte i delivered is the disk's byte for position + i of the chain, at the sector and offset of Fat32Bytes.FileByte; when none fails it is everything requested up to the file size, and an invalid handle gives -1 |
| Fat32Driver.Fat32.ReadMany | kernel/fat32.c:378-429 | for any sequence of read sizes and whichever reads fail the bytes delivered concatenate to the disk's bytes of the chain from the first position on, cut at the file size, the handle stays in step, and all requested bytes come when no read fails |
| Fat32Driver.Fat32.ListDir | kernel/fat32.c:260-317 | without read errors the result describes the first min(max, n) entries that the directory's bytes make visible, in order; with errors it is -1 or a prefix |
| Fat32Driver.Fat32.Open | kernel/fat32.c:320-375 | the handle gets size, attributes and first cluster from the bytes of the first entry in use under the converted name and is ready to read its chain; not found means no such entry or a failed read, and leaves the handle as it was |
| Args.ParseConserves | kernel/args.c:7-44 | program and arguments concatenate to a prefix of the line's non-space characters, all of them with fewer than 16 arguments; pieces are space-free and at most 63 characters |
| Args.ParsesBack | kernel/args.c:7-44 | a program and up to 16 arguments of at most 63 characters, joined by any runs of spaces, parse back exactly |
| Args.LongWordIsCut | kernel/args.c:20-42 | a 64-character word becomes a program and an argument, so the length bound is needed |
| Args.ParseCommandLine | kernel/args.c:7-44 | the index-driven loops compute the specified parse of every C string |
| ExecSpec.LoadedSegment | kernel/elf.c:80-98 | a segment that no later one overlaps holds its file bytes and then zeros up to its memory size |
| ExecSpec.LoadTouchesOnlySegments | kernel/elf.c:80-98 | an address in no loadable segment keeps its byte |
| ExecMemory.LoadedByte | kernel/elf.c:82-98 | every address ends with the byte of the last segment it belongs to, a byte of the file or zero, and keeps its own if it belongs to none |
| ExecMemory.StartedMemory | kernel/syscall.c:232-260 | once a program is started that is what all of memory holds |
| ExecMemory.StartedSegment | kernel/elf.c:82-98 | so a segment that no later one overlaps is in memory: image[offset + k] at vaddr + k up to the file size, then zeros up to the memory size |
| ExecMemory.FailedStartMemory | kernel/syscall.c:246-253 | after a refused start every address holds what it held, unless the image was good, eight programs wait, and the address is in a segment, outside the region when the start was an exec call; there it holds what loading leaves |
| ExecMemory.RefusedUnchangedIff | kernel/elf.c:82-111 | a refused exec leaves memory unchanged in every state if and only if the header is bad or all segments lie in the region |
| ExecMemory.HighProgramEscapes | kernel/elf.c:82-111 | an image with a segment at 0x400000 is one for which it does not |
| ExecMemory.SavedByte | kernel/syscall.c:237-244 | exec saves bytes 0x200000-0x300FFF of the caller, and a kernel start saves nothing |
| ExecMemory.ExitMemory | kernel/syscall.c:255-258 | an exit to exec puts the saved bytes back in the region and leaves the rest of memory; any other exit writes no memory |
| ExecMemory.AcceptedIff | kernel/elf.c:36-66 | the accepted images by their bytes: magic, class 1, data 1, type 2 or 3, machine 3 |
| ExecMemory.SegmentsReadBack | kernel/elf.c:79-97 | from an image with given header fields, at any table offset, the loader reads exactly the given segments and entry point |
| ExecMemory.BuiltImage | kernel/elf.c:36-97 | an image built from a type, an entry point and segments reads back as those, is accepted if and only if the type is 2 or 3, and can be loaded if and only if the segments fit |
| ExecSpec.StartKeepsInv | kernel/elf.c:107-130 | starting a program, or failing to, keeps the saved contexts equal to the waiting callers in order and the depth at most 8 |
| ExecSpec.ExitKeepsInv | kernel/elf.c:162-166 | an exit keeps it as well |
| ExecTheorems.ExitResumesCaller | kernel/elf.c:120-166 | however a program's children start and exit, its own exit resumes exactly the caller that started it and leaves the other callers waiting in order |
| ExecTheorems.LastSaveWins | kernel/syscall.c:225-244 | after any run the saved copy is the region as it was at the last exec system call whose image had the magic bytes |
| ExecTheorems.CallerMemoryRestored | kernel/syscall.c:225-260 | a caller whose program makes no exec call that reaches the save, whatever else it does, gets its region back byte for byte |
| ExecTheorems.NestedExecRestoresLastCopy | kernel/syscall.c:225-260 | otherwise the caller gets what the last such call saved, so it is restored if and only if those bytes are the same |
| ExecTheorems.CallerLosesMemory | kernel/syscall.c:225-253 | in every state in which a program can be started there is one that changes a byte of the region, fails to exec a 64-bit ELF image, and so costs its caller that byte |
| ExecTheorems.FailedExecRestores | kernel/syscall.c:225-253 | an exec that fails, for a bad header or for depth, restores the caller's region; with a bad header all memory is unchanged, and without the magic bytes everything is, the saved copy included |
| ExecKernel.Programs.ValidateHeader | kernel/elf.c:36-66 | accepts exactly 32-bit little-endian x86 images that are executable or shared |
| ExecKernel.Programs.LoadSegment | kernel/elf.c:84-97 | the copy and clear loops write the segment's contents and nothing else |
| ExecKernel.Programs.LoadSegments | kernel/elf.c:80-98 | the loop over the program headers loads all segments in table order |
| ExecKernel.Programs.LoadAndExec | kernel/elf.c:69-130 | segments are loaded before the depth is checked; the caller's context is pushed exactly when the header is valid and the depth is below 8, and the program begins at the image's entry point |
| ExecKernel.Programs.CheckMagic | kernel/syscall.c:225-230 | accepts exactly images that begin with the four ELF magic bytes |
| ExecKernel.Programs.SysExec | kernel/syscall.c:225-260 | the magic check, then the save, load and restore loops perform the specified start step, whose memory is ExecMemory.StartedMemory and FailedStartMemory; the code is -4 without the magic, -5 when the program does not start, else 0 with the image's entry point |
| ExecKernel.Programs.KernelRun | kernel/kernel.c:56-67 | a program the kernel starts itself gets the same start step and entry point, with nothing saved or restored |
| ExecKernel.Programs.SysExit | kernel/elf.c:162-166 | resumes the latest waiting caller, drops the depth and restores its memory if it had called exec; with no caller nothing changes |

## Left out

- Port I/O, ATA programming, serial line, PIC, PIT and keyboard controller setup; the disk is a function from sector numbers to 512 bytes with an oracle saying which reads fail.
- VGA output, the kernel shell, user programs and number printing: user interface.
- GDT and TSS encoding, boot code, interrupt stubs, iret, CR0, CR3 and invlpg: tables and memory are plain state.
- TSS esp0 values: the code does not restore the value from before exec, so nothing is claimed about it.
- BLOCKED and TERMINATED process states: never entered by the code.
- Process names, and the passing of `context_switch`'s two arguments on the stack: they are parameters in the model.
- fat32_close, fat32_list_root and fat32_get_info: a flag, a printing duplicate and a stub.
- SYSCALL_EXEC before the magic check (argument check, upper-casing, file size and read errors, which return -1, -2 and -3 without touching memory) and the other system calls: easy members.
- Byte and half-word accesses in heap, paging and scheduler: all their accesses are aligned words, so memory is modelled as words at byte addresses there.
- KernelHeap.Kheap.Kfree: says nothing about pointers that are neither null nor live, for which the source gives no promise.
- Paging.Pager.Init: needs five free pages, because the source does not check its allocations.
- ProcessSpec.CreateKeepsInv: takes the call as uninterrupted and assumes that pages handed out are not part of the boot stack below 0x1F0000, which the source does not ensure.
- ProcessSpec.StepKeepsInv: a creation is one event; ticks inside it are the subject of ProcessRaces.
- ProcessTheorems.FirstStart: the same, for the creation it starts from and those in its run.
- Process.Scheduler.CreateProcess: the method runs without interruption; the same stores with ticks between them are ProcessSteps.
- ProcessRaces.FirstStartIff: the other creations of the run are uninterrupted, and none takes the slot before READY, which is the subject of ProcessRaces.PublishedIff.
- KernelPages.StepKeepsInv: makes the same assumption about the boot stack for heap and table pages, takes every call as uninterrupted, and takes each call's memory effect from the contract of its in-place model; only the heap and the pager are put on one array, in KernelMemory.
- KernelPages.ReachableOwnership: says nothing about a process switch inside pmm_alloc or process_create; what such a switch does to the pages handed out is PageRaces.DistinctIff.
- HeapGrowth.LargeMallocSucceedsIff: only for consecutive lowest pages, where the condition speaks of the list before the call; HeapGaps.GrownMallocIff covers every pool and speaks of the grown list.
- Paging.Pager.Map: reads and writes the tables as physical memory; that their pages stay reachable once paging is on is PagingSpec.TablesReachableIff.
- PageRuns.ReservedNeverReturned: a kernel that ends above 3 MB is not protected from there on, since pmm_init frees all pages from 3 MB up.
- PageRaces.DistinctIff: the set of a bit is one step, and pages are not released while calls overlap.
- Fat32Driver.Fat32.Read: assumes an acyclic chain, sectors per cluster above zero, sector numbers that do not wrap and position plus size below 2^32, and one handle with no other open in between.
- ExecKernel.Programs.LoadSegments: assumes that the header table and segment file ranges lie in the 64 KB buffer and the segments in physical memory outside the kernel's own data, which the source does not check.
- ExecKernel.Programs.LoadAndExec: the user page mapping it makes is modelled separately by Paging.Pager.MapUserPages.
- ExecKernel.Programs.SysExec: returns when the new program starts, since setjmp and longjmp are modelled as a pushed context and a later exit.
