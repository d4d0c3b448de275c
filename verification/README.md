# AlaphiOS kernel: a verified model

This project models the stateful core of the AlaphiOS kernel in Dafny and proves what every run of it keeps. Most
parts come in two layers. A layer of values (datatypes, functions, lemmas) says what each operation does to the state
as a whole; the theorems over whole runs are about it. A layer of classes and methods follows the kernel's own code,
with its fields, loops and early returns, and every method is proved to do to its fields what the value layer says.

| files | part of the kernel |
|---|---|
| `BuddyTree`, `BuddySpec`, `BuddyAllocator` | the buddy heap: greedy tiling, splitting, XOR-buddy merging over lists threaded through free blocks |
| `Paging`, `PagingRuns`, `PagingTheorems`, `FrameAccounts`, `Accesses`, `SwapPartition`, `VmKernel` | demand zero-fill, copy-on-write fork, eviction to swap, fault-in, frame and slot ownership |
| `StableSort`, `Victims`, `Reaper` | proportional victim order and the enhanced second-chance reaper |
| `Mlfq`, `MlfqScheduler` | the multilevel feedback queue as a step machine and as an object |
| `Crc`, `Disk`, `DiskRuns`, `DiskQueue` | CRC-32, the checksummed RAM disk, the byte cursor over it, the two request queues |
| `Signals` | pending signals, delivery on the user stack, sigreturn, nesting |
| `Pipe` | the blocking byte pipe and all its interleavings |
| `Records`, `Unicode`, `Recovery`, `Appends`, `Repairs` | the record files `auth.db` and `perms.db`: codecs, load and repair at boot, appends and repairs cut short |
| `BootFrames` | the boot frame allocator, the frame free list and the hand-off between them |
| `AccessMatrix` | access lists, roles, grant and revoke |
| `Bits`, `LittleEndian`, `Common` | words as numbers: and, or, xor, shifts, single bits, byte order; small shared definitions |

Machine words that need bit operations are natural numbers with recursive bit functions (`Bits`). Widths are written
out where they matter: the 32-bit tick counter of the scheduler wraps, the CRC is a 32-bit register, seek arithmetic
is modulo 2^64, rights are 32-bit masks. The CRC polynomial is the one of the frame check sequence in clause 3.2.9 of
IEEE Std 802.3, in the table form of section 8 of RFC 1952.

`dafny verify dfyconfig.toml` checks the whole project.

## Reading guide: the main results

- **Buddy heap.** Free and live blocks tile the arena and no two free siblings stay apart. Hence allocation fails only
  if no wholly free block that fits exists anywhere, and takes the least order that fits (`AllocInner`), the free set
  is a function of the live set (`FreeSetDetermined`), and runs with the same live blocks end with the same free lists
  (`HistoryIndependence`).
- **Paging.** Over every run of forks, faults at any address, loads, stores, evictions and page-table growth, no process
  changes what another sees (`RunsIsolated`), and each sees a private memory without any paging on every page that was
  not copied from the middle or swapped out at a fork (`RunRefines`, `PagingRefinesPrivateMemory`). What the code needs
  for more is shown exactly: `CopyKeepsPageIffAligned`, `ForkAgreesIff`, `EvictSafeIffUnshared` with `ForkedPageUnsafe`,
  and `FaultKeepsInvIff`: a swap-in without a free frame loses its slot for good (`LeakedForever`). Frames are lost in
  one way only, and always in that way: when a fault copies a page away from its frame's last mapping
  (`AccountedIff`). It is exact which faults are handled, and which loads and stores go
  through afterwards (`FaultHandledIff`, `AccessGoesThrough`).
- **Reaper.** Terminates, reports exactly the frames gained, is invisible to processes, never takes a referenced page
  before an unreferenced one nor a dirty before a clean one within a round, gives every page it passes its
  second chance and changes nothing else of it, and stops only for a stated reason.
- **Scheduler.** A task at level `i` reaches the top queue or the processor within `100 * i` ticks, and one at position
  `k` of the top queue runs within `max(r, 1) + k` preemptible ticks, against arbitrary spawns, exits and waits. An exit
  is seen as one if and only if nothing preempts it half-way (`ExitSeenIff`), and a task that waits
  leaves the processor at its next preemptible call or tick (`WaitSwitches`).
- **Disk.** The table-driven CRC is the bit-serial one, detects every burst inside four bytes (any five can be
  changed unseen), checksums stay in step, and any sequence of seeks, reads and writes behaves as on a flat byte array.
- **Signals, pipe, files, frames, rights.** Sigreturn restores the interrupted frame under any nesting, and signals
  are delivered once per raise, lowest first, and never lost; received bytes
  and buffer are the pushed bytes in order under every interleaving; recovery is a fixed point, appends are all or
  nothing, and a stopped repair can lose an entry exactly when its clean records all stand before its new place and
  the table before loading does not hold it (`StoppedAuthIff`); boot and free-list frames split the usable frames
  exactly; rights stay confined if and only if nobody owns or controls the object (or there is nothing left to gain).

## Where a reader might expect something else

The model follows the code.

- The boost moves every queued task up by one level (`kernel/src/scheduler/mlfq.rs:176-195`); the comment at
  `kernel/src/scheduler/mlfq.rs:9` could be read as a move to the top queue.
- A switch puts the outgoing task back as ready whatever its state was (`kernel/src/scheduler/mlfq.rs:136-146`), so a
  waiting task stays in the queues and `unblock_tid` finds it blocked only until it is switched away from
  (`Mlfq.RunInv`, `Mlfq.WaitSwitches`).
- The copy-on-write handler copies 4096 bytes from the faulting address, not from the start of its page
  (`kernel/src/memory/vmm.rs:62-76`); `Paging.Window` is that copy.
- A fork leaves swap records with the parent only (`kernel/src/memory/vmm.rs:187-209`).

## Model

| member | source | states |
|---|---|---|
| `BuddyTree.CellsOf` | kernel/src/memory/buddy_allocator.rs:85-117 | a block of the tree holds exactly the cells of its aligned power-of-two interval |
| `BuddyTree.BytesOf` | kernel/src/memory/buddy_allocator.rs:85-117 | the same in bytes: a byte belongs to a block exactly when it lies in its address range |
| `BuddyTree.LoAligned` | kernel/src/memory/buddy_allocator.rs:42-48 | every block starts at a multiple of its own size |
| `BuddySpec.SplitKeepsInv` | kernel/src/memory/buddy_allocator.rs:75-79 | halving a block down to the wanted order keeps the tiling and leaves no two free siblings |
| `BuddySpec.AllocKeepsInv` | kernel/src/memory/buddy_allocator.rs:59-82 | allocation yields a block of the order, not live before, and keeps the tiling invariant |
| `BuddySpec.MergeKeepsInv` | kernel/src/memory/buddy_allocator.rs:93-116 | freeing with merging keeps the tiling invariant, in particular that no free siblings remain |
| `BuddySpec.AllocationComplete` | kernel/src/memory/buddy_allocator.rs:59-82 | a large enough free block exists if and only if a wholly free size-aligned block of the order exists anywhere in the arena |
| `BuddySpec.FreeIsMaximal` | kernel/src/memory/buddy_allocator.rs:85-117 | the free blocks are exactly the maximal wholly free blocks |
| `BuddySpec.FreeSetDetermined` | kernel/src/memory/buddy_allocator.rs:85-117 | the free set is determined by the arena and the live blocks |
| `BuddySpec.TileOne` | kernel/src/memory/buddy_allocator.rs:39-55 | one turn of the greedy tiling extends a tiling whose left halves could not be larger |
| `BuddySpec.TilingInv` | kernel/src/memory/buddy_allocator.rs:35-56 | the finished greedy tiling satisfies the invariant |
| `BuddySpec.RunKeepsInv` | kernel/src/memory/buddy_allocator.rs:59-117 | every run of allocations and frees of live blocks keeps the invariant |
| `BuddySpec.HistoryIndependence` | kernel/src/memory/buddy_allocator.rs:35-117 | two runs over one arena that end with the same live blocks end with the same free blocks; with nothing live the initial tiling is back |
| `BuddyAllocator.OrderFits` | kernel/src/memory/buddy_allocator.rs:60-65 | the order found for a request is the smallest that fits, or the largest order |
| `BuddyAllocator.OrderLeast` | kernel/src/memory/buddy_allocator.rs:60-65 | the order found for a layout is the least that holds its size and its alignment, and the request is refused exactly when none does |
| `BuddyAllocator.RoomForLeast` | kernel/src/memory/buddy_allocator.rs:60-70 | room at any order that fits is room at the least |
| `BuddyAllocator.BuddyByXor` | kernel/src/memory/buddy_allocator.rs:94-109 | address XOR size is the address of the sibling, and the smaller of the two is the address of the parent |
| `BuddyAllocator.MaskTest` | kernel/src/memory/buddy_allocator.rs:45-46 | the mask test on an address decides alignment to the block size |
| `BuddyAllocator.BlockAligned` | kernel/src/memory/buddy_allocator.rs:59-82 | a block is aligned to every power of two up to its size |
| `BuddyAllocator.ListPush` | kernel/src/memory/buddy_allocator.rs:120-123 | pushing a fresh non-null node keeps the intrusive list a finite chain of distinct nodes |
| `BuddyAllocator.ListPop` | kernel/src/memory/buddy_allocator.rs:72-73 | following the head's stored pointer yields the rest of the chain |
| `BuddyAllocator.ListUnlink` | kernel/src/memory/buddy_allocator.rs:98-106 | redirecting the predecessor's pointer removes exactly one node from the chain |
| `BuddyAllocator.BuddyAllocator.ListsCanonical` | kernel/src/memory/buddy_allocator.rs:35-117 | two allocators of one arena with the same live blocks hold the same addresses in every list |
| `BuddyAllocator.BuddyAllocator.OwnerStores` | kernel/src/memory/buddy_allocator.rs:59-123 | writes of an owner inside its live block leave lists and blocks as they are |
| `BuddyAllocator.BuddyAllocator.AddToFreeList` | kernel/src/memory/buddy_allocator.rs:120-123 | the block joins the free set, the one write is its link word, the lists stay well formed |
| `BuddyAllocator.BuddyAllocator.PickOrder` | kernel/src/memory/buddy_allocator.rs:42-48 | picks the largest order that is aligned at the cursor and fits before the end |
| `BuddyAllocator.BuddyAllocator.TileArena` | kernel/src/memory/buddy_allocator.rs:39-55 | tiles the arena from start to end |
| `BuddyAllocator.BuddyAllocator.Init` | kernel/src/memory/buddy_allocator.rs:35-56 | establishes the invariant with nothing live and the greedy tiling free |
| `BuddyAllocator.BuddyAllocator.ArenaIs` | kernel/src/memory/buddy_allocator.rs:36-56 | the arena is every 32-byte cell that lies wholly inside the heap |
| `BuddyAllocator.BuddyAllocator.OrderFor` | kernel/src/memory/buddy_allocator.rs:60-63 | the least order whose blocks hold the size and the alignment of the layout, or the largest order |
| `BuddyAllocator.BuddyAllocator.FirstNonEmpty` | kernel/src/memory/buddy_allocator.rs:67-70 | finds the smallest order from the wanted one on that has a free block |
| `BuddyAllocator.BuddyAllocator.PopFront` | kernel/src/memory/buddy_allocator.rs:72-73 | takes the head block of an order out of the free set |
| `BuddyAllocator.BuddyAllocator.SplitDown` | kernel/src/memory/buddy_allocator.rs:75-79 | returns the low block of the wanted order and frees exactly the right halves above it |
| `BuddyAllocator.BuddyAllocator.AllocInner` | kernel/src/memory/buddy_allocator.rs:59-82 | not null if and only if a block of some order that holds size and alignment is wholly free; then an aligned block of the least such order, and no live block is touched |
| `BuddyAllocator.BuddyAllocator.Walk` | kernel/src/memory/buddy_allocator.rs:96-106 | finds the buddy and its predecessor in the list, or that it is not there |
| `BuddyAllocator.BuddyAllocator.UnlinkIfFree` | kernel/src/memory/buddy_allocator.rs:95-106 | removes the buddy from the free set exactly when it is free, touching no live block |
| `BuddyAllocator.BuddyAllocator.MergeOne` | kernel/src/memory/buddy_allocator.rs:93-114 | one turn of the merge loop: swallow the free buddy and move to the parent, or change nothing |
| `BuddyAllocator.BuddyAllocator.DeallocInner` | kernel/src/memory/buddy_allocator.rs:85-117 | the new state is the old one with the block merged as far as siblings are free; live memory untouched |
| `Paging.FoundIsFree` | kernel/src/memory/swap.rs:44-55 | a slot found by the cyclic search is free and in range |
| `Paging.FoundIsNearest` | kernel/src/memory/swap.rs:44-55 | and it is the nearest free one from the cursor on |
| `Paging.SwapFullIff` | kernel/src/memory/swap.rs:44-55 | the search fails if and only if every slot is taken, wherever the cursor stands |
| `Paging.SwapOutEffect` | kernel/src/memory/swap.rs:44-68 | a swap-out fills one free slot and leaves the others; the search goes on behind it |
| `Paging.FreedFrame` | kernel/src/memory/free_list.rs:72-80 | a freed frame heads the list, starts with the address of the frame behind it, and keeps its other bytes |
| `PagingRuns.SwapInGood` | kernel/src/memory/vmm.rs:53-58 | a swap-in fault keeps ownership of frames and slots and every view |
| `PagingRuns.AreaFaultIsolated` | kernel/src/memory/vmm.rs:60-87 | a copy-on-write or zero-fill fault changes no other page of any process; the page itself becomes the copied window or zeros |
| `PagingRuns.FaultGood` | kernel/src/memory/vmm.rs:48-90 | every fault, handled or refused and at any address, keeps the invariant and all views; only a page copied from the middle may differ itself |
| `PagingRuns.StoreGood` | kernel/src/memory/vmm.rs:48-90 | a store through a writable mapping changes one byte of one view and no other process's |
| `PagingRuns.EvictGood` | kernel/src/memory/swap.rs:102-125 | eviction of an unshared frame, or any eviction while swap is full, keeps the invariant and every view |
| `PagingRuns.ForkGood` | kernel/src/memory/vmm.rs:187-209 | fork gives the child the parent's area pages that are not swapped out and nothing else, changes no other view, and keeps the invariant |
| `PagingRuns.EveryStepGood` | kernel/src/memory/vmm.rs:48-209 | every enabled step keeps the invariant and has its specified effect on every view but those of spoilt pages |
| `PagingTheorems.RunRefines` | kernel/src/memory/vmm.rs:48-209 | over every run each process sees a private memory that only its own stores and its fork set, on all pages but those copied from the middle or swapped out at a fork, and what children inherit of them |
| `PagingTheorems.PagingRefinesPrivateMemory` | kernel/src/memory/vmm.rs:48-209 | over every run that spoils no page the private memory is seen in full; a writable frame has one mapping; slots and records match one to one |
| `PagingTheorems.RunsIsolated` | kernel/src/memory/vmm.rs:48-209 | over every run of forks, faults at any address, stores and evictions, nothing other processes do changes any page of a process that makes no store and no copying fault inside a page |
| `PagingTheorems.FramesConserved` | kernel/src/memory/swap.rs:102-125 | over every run without fork, refused faults included, each frame stays free, a page table, or mapped exactly once; none is lost |
| `FrameAccounts.StepAccounts` | kernel/src/memory/vmm.rs:48-209 | a frame is free, a table or mapped after a step if and only if it was before and the step does not copy away from its last mapping |
| `FrameAccounts.AccountedIff` | kernel/src/memory/vmm.rs:48-209 | over every run, forks included, a frame is free, a page table or mapped at the end if and only if it was at the start and no copying fault of the run left its last mapping; a lost frame stays lost |
| `FrameAccounts.ForkAndWriteLosesFrame` | kernel/src/memory/vmm.rs:78-79 | in every machine with two free frames, a fork after which both sides write a page of a writable area that only the parent mapped loses the frame they shared |
| `FrameAccounts.FrameOneLost` | kernel/src/memory/vmm.rs:78-79 | a concrete machine that forks, writes on both sides and loses its frame |
| `Accesses.FindAreaIs` | kernel/src/memory/vmm.rs:60 | the area of an address is the first that holds it, and there is none if and only if none holds it |
| `Accesses.FaultHandledIff` | kernel/src/memory/vmm.rs:48-92 | a fault is handled if and only if a frame is free and the page is swapped out, or lies in an area and is absent, or is written in a writable area |
| `Accesses.FaultMaps` | kernel/src/memory/vmm.rs:48-92 | handled, the page moves to the first free frame with the recorded flags or those of its area and nothing else changes; refused, at most a swap record goes |
| `Accesses.AccessGoesThrough` | kernel/src/memory/vmm.rs:48-92 | after a handled fault the load goes through, and the store if and only if the page was swapped out writable or its area is writable |
| `Accesses.CopyGoesThrough` | kernel/src/memory/vmm.rs:62-79 | after a handled write fault on a mapped page the store goes through |
| `Accesses.ZeroFilled` | kernel/src/memory/vmm.rs:80-87 | an absent area page is mapped by a fault while a frame is free, and reads as zeros |
| `Accesses.CopiedBytes` | kernel/src/memory/vmm.rs:70-76 | byte by byte what a copying fault copies: from the faulting address on, then on into the next physical frame |
| `Accesses.EvictThenFault` | kernel/src/memory/swap.rs:102-125 | an evicted page that is accessed again is back in the same frame with the same contents and write permission, reference and dirty bits clear |
| `PagingTheorems.UnalignedCopyLosesPage` | kernel/src/memory/vmm.rs:62-79 | a concrete machine in which a write fault inside a read-only mapped page of a writable area loses the page |
| `PagingTheorems.CopyKeepsPageIffAligned` | kernel/src/memory/vmm.rs:62-79 | copying faults at an offset keep the faulting page in all machines if and only if the offset is zero |
| `PagingTheorems.ForkAgreesIff` | kernel/src/memory/vmm.rs:187-209 | in any machine, child and parent agree on an area page after the fork if and only if it was not swapped, or swapped with all zeros |
| `PagingTheorems.EvictSafeIffUnshared` | kernel/src/memory/swap.rs:121-123 | freeing the evicted frame keeps frame ownership if and only if nothing else maps it |
| `PagingTheorems.ForkedPageUnsafe` | kernel/src/memory/swap.rs:102-125 | after any fork every mapped area page is shared on both sides, and evicting it from either leaves a mapped frame on the free list |
| `PagingTheorems.FaultKeepsInvIff` | kernel/src/memory/vmm.rs:48-90 | a fault keeps frame and slot ownership if and only if it is not a swap-in that finds no free frame |
| `PagingTheorems.SlotLost` | kernel/src/memory/vmm.rs:53-54 | that fault fails and leaves its slot taken with no record naming it |
| `PagingTheorems.LeakedForever` | kernel/src/memory/vmm.rs:53-58 | over every later run that slot is never freed and never used |
| `PagingTheorems.FailedSwapInKeepsPageIff` | kernel/src/memory/vmm.rs:53-54 | the contents of its page survive if and only if they were zeros |
| `SwapPartition.SwapPartition.constructor` | kernel/src/memory/swap.rs:39-42 | a new partition has every slot free and a disk in step |
| `SwapPartition.SwapPartition.AllocSlot` | kernel/src/memory/swap.rs:44-55 | takes the first free slot in cyclic order and moves the cursor past it, or changes nothing |
| `SwapPartition.SwapPartition.SwapOut` | kernel/src/memory/swap.rs:59-68 | the page's eight sectors land in the slot; no other slot changes |
| `SwapPartition.SwapPartition.SwapIn` | kernel/src/memory/swap.rs:70-78 | returns the bytes of the slot and frees it; checksums in step never fail |
| `SwapPartition.SwapPartition.FreeSlot` | kernel/src/memory/swap.rs:80-84 | frees the slot if it is in range |
| `VmKernel.Vmm.FindArea` | kernel/src/memory/vmm.rs:60-60 | the first area that holds the address |
| `VmKernel.Vmm.FaultFromSwap` | kernel/src/memory/vmm.rs:53-58 | the swap branch on mapper, pool and partition does what the value machine says, including the lost record when no frame is left |
| `VmKernel.Vmm.HandleFault` | kernel/src/memory/vmm.rs:48-90 | all branches on the real objects do what the value machine says |
| `VmKernel.Vmm.ForkArea` | kernel/src/memory/vmm.rs:190-206 | one area's page loop shares exactly the mapped pages of that area |
| `VmKernel.Vmm.ForkCow` | kernel/src/memory/vmm.rs:187-209 | parent and child tables after the loops are those of the value machine |
| `VmKernel.EvictAddr` | kernel/src/memory/swap.rs:102-125 | unmap, swap out, record and free on the real objects do what the value machine says |
| `StableSort.SortFacts` | kernel/src/memory/swap.rs:182-183 | the sort used is an ascending permutation |
| `StableSort.SortStable` | kernel/src/memory/swap.rs:182-183 | and keeps the order of equal keys |
| `StableSort.StableOrderUnique` | kernel/src/memory/swap.rs:182-183 | which leaves one possible result |
| `Victims.ResidentIs` | kernel/src/memory/swap.rs:151-162 | the collected pages are exactly the mapped pages of the areas, none twice |
| `Victims.VirtualSizeSplit` | kernel/src/memory/swap.rs:151-154 | the sizes of a task's areas add up |
| `Victims.ResidentPages` | kernel/src/memory/swap.rs:151-162 | the nested page loops collect that list and the virtual size |
| `Victims.SharesWithinResident` | kernel/src/memory/swap.rs:168-176 | the floored shares of all tasks sum to at most the resident pages |
| `Victims.SomeTaskAtShare` | kernel/src/memory/swap.rs:168-176 | some task with resident pages holds at least its share |
| `Victims.FirstVictimAtShare` | kernel/src/memory/swap.rs:168-183 | excess never rises along the victim list, the first victim's task holds at least its share, and the list has exactly all entries |
| `Victims.VictimExcess` | kernel/src/memory/swap.rs:168-179 | the excess of every victim is its task's resident pages less the whole number of pages in proportion to its size |
| `Victims.TotalsSplit` | kernel/src/memory/swap.rs:163-168 | sizes and resident pages add up over the tasks |
| `Victims.GatherCandidates` | kernel/src/memory/swap.rs:135-184 | computes that victim list |
| `Victims.CandidatesAre` | kernel/src/memory/swap.rs:135-184 | a page is a candidate if and only if it is a mapped area page of a listed task |
| `Victims.VictimKeysDistinct` | kernel/src/memory/swap.rs:135-184 | no page is listed twice |
| `Reaper.EvictEffect` | kernel/src/memory/swap.rs:102-125 | eviction succeeds if and only if the page is resident and swap has room, gains one frame, takes one slot and touches no other page |
| `Reaper.EvictSafe` | kernel/src/memory/swap.rs:102-125 | eviction during reaping keeps invariant, views and sole ownership |
| `Reaper.TurnEvicted` | kernel/src/memory/swap.rs:217-233 | one evicting turn of a sweep keeps the round's order: nothing of a lower class was passed over |
| `Reaper.TurnKept` | kernel/src/memory/swap.rs:217-237 | the same for a turn that passes over the page: sweep 1 clears a set reference bit, no other sweep changes anything |
| `Reaper.TakenAll` | kernel/src/memory/swap.rs:216-238 | taking candidates class by class in list order is the stable sort of the list by class |
| `Reaper.Consider` | kernel/src/memory/swap.rs:218-236 | one candidate's turn, evicting, sparing or passing over, keeps the order of the round and the exact page-table entry of every page left |
| `Reaper.Sweep` | kernel/src/memory/swap.rs:217-237 | leaves no page of its class resident unless swap is full or the target is met, and evicts in list order; sweep 0 changes no entry of a page it leaves, sweep 1 clears the reference bits of those it has passed and nothing else, sweep 2 finds them clear |
| `Reaper.Round` | kernel/src/memory/swap.rs:215-238 | what a round evicts is the front of the victim list sorted stably by class (clean unreferenced, dirty unreferenced, referenced); all of it unless swap is full or the target is met; every entry left is known: as it was, or with its reference bit cleared if its sweep had come past it |
| `Reaper.RoundEnds` | kernel/src/memory/swap.rs:215-238 | a round that goes through, or takes a referenced page, leaves no candidate referenced |
| `Reaper.ReapTo` | kernel/src/memory/swap.rs:202-246 | terminates, returns exactly the frames gained, changes no view, stops only with the target met, swap full or no candidate, and leaves everything the next call needs; of the entries left only reference bits of candidates change, and all of those are clear if the target was missed or a page in use was taken |
| `Mlfq.BootedInv` | kernel/src/scheduler/mod.rs:18-31 | the scheduler after start-up: the boot task runs at level 0 with one tick, the idle task waits at level 7; it satisfies the invariant |
| `Mlfq.StepInv` | kernel/src/scheduler/mlfq.rs:73-195 | every step keeps it, also with ticks between the parts of an exit or a wait: queue index equals priority, each task in one place, current not queued, idle never lost |
| `Mlfq.RunInv` | kernel/src/scheduler/mod.rs:34-99 | over every run; unblocking changes something if and only if it is aimed at the current task while that is marked blocked |
| `Mlfq.UnblockKeepsIff` | kernel/src/scheduler/mod.rs:87-99 | unblocking keeps the invariant if and only if it is not aimed at the current task while that is marked blocked |
| `Mlfq.BoostMoves` | kernel/src/scheduler/mlfq.rs:176-195 | where every queued task stands after a boost |
| `Mlfq.SwitchPlaces` | kernel/src/scheduler/mlfq.rs:123-164 | a switch runs the head of the first non-empty queue `i` with a slice of `(i + 1)^2` ticks and moves nobody else back |
| `Mlfq.BoostClock` | kernel/src/scheduler/mlfq.rs:86-91 | a boost comes at least every 100 ticks, also across the wrap of the 32-bit counter |
| `Mlfq.StepRank` | kernel/src/scheduler/mlfq.rs:86-195 | no step raises a queued task's remaining bound and every preemptible tick lowers it |
| `Mlfq.BoundedResponse` | kernel/src/arch/idt.rs:80-85 | dispatch within `max(r, 1) + k` preemptible ticks from queue 0, and within `100 * i + 64 + n` from level `i` with at most `n` tasks queued |
| `Mlfq.RisesWithin` | kernel/src/scheduler/mlfq.rs:86-195 | dispatched or in queue 0 within `100 * i` ticks |
| `Mlfq.SwitchDemotes` | kernel/src/scheduler/mlfq.rs:136-146 | the outgoing task is ready at the back of the next level down, or of the last |
| `Mlfq.WaitSwitches` | kernel/src/scheduler/mlfq.rs:114-164 | a current task that is blocked or a zombie leaves the processor to another at its call of the scheduler and at any preemptible tick, and is ready at the back of the next level down |
| `Mlfq.IdleGoesOn` | kernel/src/scheduler/mlfq.rs:123-134 | with nothing queued the idle task goes on and the request for a switch is dropped |
| `Mlfq.FullSlice` | kernel/src/scheduler/mlfq.rs:86-164 | a task that neither ends nor waits keeps the processor for its whole slice over every run of ticks, spawns and yields |
| `Mlfq.ExitSeenIff` | kernel/src/process/lifecycle.rs:7-29 | a task that marks itself a zombie and is removed is left a zombie if and only if no preemptible tick or call of the scheduler came in between; otherwise it is left as running |
| `Mlfq.GoneForever` | kernel/src/process/lifecycle.rs:7-29 | and stays in that state, out of the scheduler, over every later run |
| `Mlfq.PushInStepIff` | kernel/src/scheduler/mlfq.rs:73-84 | a pushed task sits in the queue of its priority if and only if the priority is below 8 |
| `MlfqScheduler.MlfqScheduler.constructor` | kernel/src/scheduler/mlfq.rs:31-39 | eight empty queues and no current task |
| `MlfqScheduler.MlfqScheduler.SetCurrent` | kernel/src/scheduler/mlfq.rs:54-63 | the task runs with the slice of its level |
| `MlfqScheduler.MlfqScheduler.RemoveCurrent` | kernel/src/scheduler/mlfq.rs:65-71 | takes the current task out and asks for a switch |
| `MlfqScheduler.MlfqScheduler.Push` | kernel/src/scheduler/mlfq.rs:73-84 | appends to the queue of the clamped priority |
| `MlfqScheduler.MlfqScheduler.Tick` | kernel/src/scheduler/mlfq.rs:86-102 | counts, boosts on every hundredth tick and uses up the slice as the step machine says |
| `MlfqScheduler.MlfqScheduler.ShouldReschedule` | kernel/src/scheduler/mlfq.rs:114-121 | a blocked or ended current task asks for a switch |
| `MlfqScheduler.MlfqScheduler.PickNext` | kernel/src/scheduler/mlfq.rs:166-174 | pops the head of the first non-empty queue |
| `MlfqScheduler.MlfqScheduler.PrepareSwitch` | kernel/src/scheduler/mlfq.rs:123-164 | requeues one level down and dispatches, as the step machine says, and reports whether it switched |
| `MlfqScheduler.MlfqScheduler.BoostPriorities` | kernel/src/scheduler/mlfq.rs:176-195 | the drain, promote and append loops move every queue up by one with its tasks' priorities |
| `Crc.BuildTable` | kernel/src/io/crc.rs:4-22 | entry `i` is `i` shifted through eight steps of the register |
| `Crc.ComputeCrc` | kernel/src/io/crc.rs:26-32 | the byte loop computes the bit-serial reflected CRC |
| `Crc.TableIsSerial` | kernel/src/io/crc.rs:4-32 | the table form equals the bit-serial form for every input and fits 32 bits |
| `Crc.SerialLinear` | kernel/src/io/crc.rs:26-32 | the register is linear in state and message |
| `Crc.SerialInjective` | kernel/src/io/crc.rs:26-32 | no two states lead to the same state over the same message |
| `Crc.BurstDetected` | kernel/src/io/crc.rs:26-32 | two messages that differ only inside 32 consecutive bits have different registers |
| `Crc.CrcDetectsBurst` | kernel/src/io/crc.rs:26-32 | two equal-length buffers that differ only inside four consecutive bytes have different CRCs |
| `Crc.GeneratorUndetected` | kernel/src/io/crc.rs:26-32 | the bound of 32 bits is exact: one particular change of 33 bits is never seen |
| `Crc.StartAndEnd` | kernel/src/io/crc.rs:26-32 | no bytes have CRC zero and four bytes of ones have the CRC of all ones, which fixes start and final value |
| `Crc.FiveBytesUndetected` | kernel/src/io/crc.rs:26-32 | any five bytes of any buffer can be replaced by five others with the same CRC of the whole |
| `Disk.WriteKeepsInStep` | kernel/src/io/disk.rs:115-129 | writing a sector with its CRC keeps every sector's CRC in step |
| `Disk.RamDisk.constructor` | kernel/src/io/disk.rs:52-81 | a new disk is zero and in step |
| `Disk.RamDisk.ReadSector` | kernel/src/io/disk.rs:97-113 | out of bounds, mismatch or success as stored; the buffer holds the sector whenever it exists |
| `Disk.RamDisk.WriteSector` | kernel/src/io/disk.rs:115-129 | splices the flat contents and keeps all checksums in step; out of bounds changes nothing |
| `Disk.RamDisk.CorruptionReported` | kernel/src/io/disk.rs:97-113 | any change of a stored sector inside four consecutive bytes makes the next read report a mismatch |
| `Disk.DiskIo.constructor` | kernel/src/fs/fat.rs:15-24 | cursor at zero over a valid disk |
| `Disk.DiskIo.Read` | kernel/src/fs/fat.rs:44-63 | fills the buffer with the flat contents at the cursor, as far as they reach |
| `Disk.DiskIo.Write` | kernel/src/fs/fat.rs:68-95 | splices the flat contents at the cursor, as far as they reach |
| `Disk.DiskIo.WriteChunk` | kernel/src/fs/fat.rs:76-88 | whole-sector path and read-modify-write path have the same effect |
| `Disk.DiskIo.Seek` | kernel/src/fs/fat.rs:105-113 | start, end and relative positions, modulo 2^64 |
| `DiskRuns.Replay` | kernel/src/fs/fat.rs:43-114 | any sequence of seeks, reads and writes gives the replies and final contents of a flat byte array |
| `DiskRuns.FailsIffOutOfBounds` | kernel/src/fs/fat.rs:43-114 | along any run a request fails if and only if it leaves the device; no run causes a checksum error |
| `DiskRuns.ReadBack` | kernel/src/fs/fat.rs:43-114 | bytes written are read back after any run whose writes avoid them |
| `DiskQueue.CscanIsCircularSort` | kernel/src/io/scheduler.rs:34-49 | sort, split and swap equal one stable sort by distance round from the head |
| `DiskQueue.CscanSweeps` | kernel/src/io/scheduler.rs:34-49 | a stable permutation: one ascending sweep from the head, then one below it |
| `DiskQueue.CscanScheduler.Position` | kernel/src/io/scheduler.rs:41-41 | the first index at or above the head |
| `DiskQueue.CscanScheduler.Drain` | kernel/src/io/scheduler.rs:34-49 | serves everything in circular order and leaves the head behind the last request |
| `DiskQueue.MergingKeepsSectors` | kernel/src/io/scheduler.rs:69-86 | merging leaves the sequence of single-sector operations identical |
| `DiskQueue.SectorsAre` | kernel/src/io/scheduler.rs:69-86 | the operations of a request are its sectors in ascending order, each once |
| `DiskQueue.ExpandAppend` | kernel/src/io/scheduler.rs:69-86 | those of a queue are those of its requests one after the other |
| `DiskQueue.MergedSettles` | kernel/src/io/scheduler.rs:69-86 | no two neighbours of the result could be merged |
| `DiskQueue.MergedFixedIff` | kernel/src/io/scheduler.rs:69-86 | merging leaves a queue alone if and only if no two neighbours could be merged |
| `DiskQueue.MergingIdempotent` | kernel/src/io/scheduler.rs:69-86 | a second pass changes nothing |
| `DiskQueue.FcfsScheduler.Accept` | kernel/src/io/scheduler.rs:73-82 | one turn of the merge loop |
| `DiskQueue.FcfsScheduler.Drain` | kernel/src/io/scheduler.rs:69-86 | empties the queue with the same sectors in the same order and nothing left to merge |
| `Signals.TakenOnceAscending` | kernel/src/process/signal.rs:36-52 | the order of taking the lowest pending signal until none is left has each pending one once, ascending |
| `Signals.DeliveredOnceAscending` | kernel/src/process/signal.rs:57-107 | over every run without new signals, the deliveries followed by what is still pending are what was pending at first, each once, lowest first |
| `Signals.RaisedBefore` | kernel/src/process/signal.rs:30-52 | over every run a signal not pending is delivered only after it is raised |
| `Signals.RaisedBetween` | kernel/src/process/signal.rs:30-107 | over every run a signal is raised between any two deliveries of it |
| `Signals.PendingNotLost` | kernel/src/process/signal.rs:30-107 | over every run a pending signal is delivered or still pending at the end |
| `Signals.FrameRoundTrip` | kernel/src/arch/syscall.rs:26-45 | a trap frame survives its bytes in memory |
| `Signals.FrameLayout` | kernel/src/arch/syscall.rs:26-45 | where the registers lie that delivery and return use |
| `Signals.FrameBytesRoundTrip` | kernel/src/arch/syscall.rs:26-45 | and any 128 bytes survive being read as a trap frame |
| `Signals.RspBounds` | kernel/src/process/signal.rs:80-82 | the handler's stack pointer is 16-byte aligned and the whole signal frame lies below the old one |
| `Signals.DeliverWrites` | kernel/src/process/signal.rs:84-102 | return address, trampoline, its filler and the saved frame lie below the old stack pointer where sigreturn finds them; nothing outside them changes |
| `Signals.DeliverTakesLowest` | kernel/src/process/signal.rs:66-106 | delivery takes the lowest pending signal, enters its own handler with its number, and leaves every other one pending |
| `Signals.DeliverEnters` | kernel/src/process/signal.rs:81-107 | the handler starts on an aligned stack whose first word is the address of the trampoline right above it, with no register changed but `rcx`, `rdi` and the stack pointer; popping that word and returning gives the interrupted frame back |
| `Signals.CanDeliverIff` | kernel/src/process/signal.rs:60-81 | a signal can be delivered if and only if the lowest pending one has a handler and the stack has room |
| `Signals.HandlerIsLast` | kernel/src/process/signal.rs:42-46 | over every run the handler of a signal is the one installed last |
| `Signals.EntersLastInstalled` | kernel/src/process/signal.rs:42-107 | over every run a delivery enters the handler installed last for its signal |
| `Signals.DeliverKeeps` | kernel/src/process/signal.rs:57-107 | delivery on top of running handlers keeps every outer saved frame |
| `Signals.StepKeeps` | kernel/src/syscall/dispatch.rs:662-667 | every step keeps the nesting invariant, and a return restores the innermost saved frame |
| `Signals.RunKeeps` | kernel/src/process/signal.rs:57-107 | over every run the handlers below a depth that is kept stay as they were |
| `Signals.SigReturnRestores` | kernel/src/syscall/dispatch.rs:662-667 | after any properly nested run the matching sigreturn restores the exact interrupted frame |
| `Signals.UserContext.SigReturn` | kernel/src/syscall/dispatch.rs:662-667 | the new frame is exactly the 128 bytes 16 above the stack pointer, the frame saved above the popped return address, and its rax is returned |
| `Signals.SignalTable.SetPending` | kernel/src/process/signal.rs:30-34 | sets exactly that bit, if in range |
| `Signals.SignalTable.SetHandler` | kernel/src/process/signal.rs:42-46 | sets exactly that handler, if in range |
| `Signals.SignalTable.ClearPending` | kernel/src/process/signal.rs:36-40 | clears exactly that bit |
| `Signals.SignalTable.NextPending` | kernel/src/process/signal.rs:48-52 | the lowest pending signal and its handler, or none |
| `Signals.SignalTable.DeliverPending` | kernel/src/process/signal.rs:57-107 | nothing pending: no change; no handler: the process ends with that signal taken; otherwise the three writes and register changes of delivery; which of the three is decided by the handler of the lowest pending signal |
| `Pipe.Pipe.constructor` | kernel/src/ipc/pipe.rs:19-26 | empty and open |
| `Pipe.Pipe.SendUntilWait` | kernel/src/ipc/pipe.rs:31-57 | appends a run of the sender's bytes, never beyond 4096; ends sent if and only if all are written, refused if and only if closed with bytes left, and waits only on a full open pipe |
| `Pipe.Pipe.RecvUntilWait` | kernel/src/ipc/pipe.rs:59-83 | takes bytes from the front; for a read of at least one byte a count of zero is the end of the stream, when closed and empty |
| `Pipe.StepKeeps` | kernel/src/ipc/pipe.rs:31-90 | every turn keeps the stream invariant; a closed pipe stays closed and takes no more bytes |
| `Pipe.SenderTurn` | kernel/src/ipc/pipe.rs:31-57 | a sender's turn pushes as many of its next bytes as there is room for, none once closed, and waits if and only if bytes are left and the pipe is open |
| `Pipe.ReceiverTurn` | kernel/src/ipc/pipe.rs:59-83 | a receiver's turn takes as many bytes as it asked for and are there, and waits if and only if the pipe is empty and open |
| `Pipe.CallsStart` | kernel/src/ipc/pipe.rs:31-91 | calls and close start without moving a byte |
| `Pipe.PipeIsAStream` | kernel/src/ipc/pipe.rs:31-90 | over every interleaving, received bytes followed by the buffer are the pushed bytes in order, each sender's bytes are its data in order, and the buffer stays within 4096 |
| `Pipe.EofMeansDrained` | kernel/src/ipc/pipe.rs:59-90 | a receiver that sees end of file has missed nothing, and nothing comes later |
| `Pipe.ZeroMeansDrainedIff` | kernel/src/ipc/pipe.rs:70-82 | a returned count of zero means closed and drained, in every state, if and only if at least one byte was asked for |
| `Pipe.EmptyReadReturnsZero` | kernel/src/ipc/pipe.rs:70-82 | a concrete open, non-empty pipe where a read of no bytes returns zero |
| `Pipe.ClosedNeverWaits` | kernel/src/ipc/pipe.rs:31-90 | after close every turn ends its call |
| `Records.AuthRoundTrip` | kernel/src/fs/system_domain.rs:21-37 | decoding an encoded entry gives status and entry back |
| `Records.AuthLayout` | kernel/src/fs/system_domain.rs:15-26 | where the fields lie in the 53 bytes |
| `Records.PathRoundTrip` | kernel/src/fs/system_domain.rs:40-78 | a path of at most 64 bytes without NUL survives its field |
| `Records.PathSurvivesIff` | kernel/src/fs/system_domain.rs:40-78 | and a UTF-8 path survives only then |
| `Records.PermsRoundTrip` | kernel/src/fs/system_domain.rs:40-78 | decoding an encoded permission record gives everything back |
| `Records.PermsLayout` | kernel/src/fs/system_domain.rs:16-57 | where the fields lie in the 76 bytes, the path padded with zeros |
| `Unicode.Utf8Iff` | kernel/src/fs/system_domain.rs:59-78 | the test on path bytes accepts exactly the UTF-8 encodings of sequences of Unicode scalar values |
| `Recovery.ReadExactOrEof` | kernel/src/fs/system_domain.rs:210-224 | a whole record, a clean end, a torn tail or a failing read, however the file hands out its bytes |
| `Recovery.FoldLast` | kernel/src/fs/system_domain.rs:109-128 | a load keeps for each key the value of its last clean record |
| `Recovery.FoldAbsent` | kernel/src/fs/system_domain.rs:109-128 | and leaves a key without clean record as it was |
| `Recovery.FoldReports` | kernel/src/fs/system_domain.rs:109-128 | dirt is reported if and only if some record is dirty |
| `Recovery.TornIff` | kernel/src/fs/system_domain.rs:210-224 | a tail is torn if and only if the length is no multiple of the record size |
| `Recovery.RecordAt` | kernel/src/fs/system_domain.rs:210-224 | record `i` is what bytes `i * size` to `i * size + size` say, and there are as many as fit |
| `Recovery.AuthReports` | kernel/src/fs/system_domain.rs:96-131 | dirt in terms of bytes: a length that is no multiple of 53, or a record that starts with 1 |
| `Recovery.PermsReports` | kernel/src/fs/system_domain.rs:134-169 | the same for `perms.db` with 76 |
| `Recovery.LoadAuthDb` | kernel/src/fs/system_domain.rs:96-131 | clean records overwrite in file order, dirt and torn tails are reported; a failing read stops the load after the records read so far and reports dirt |
| `Recovery.OverwriteAuth` | kernel/src/fs/system_domain.rs:179-185 | after any number of rewritten records they lie over the old ones and the rest of the file is as it was |
| `Recovery.RepairAuthDb` | kernel/src/fs/system_domain.rs:172-188 | the file becomes the clean records of the table and nothing else |
| `Recovery.AuthRepairLoads` | kernel/src/fs/system_domain.rs:172-188 | a repaired file loads back to the table it was written from, also when the load was cut short |
| `Recovery.AuthRecoveryFixedPoint` | kernel/src/fs/system_domain.rs:80-131 | for any bytes, loading after load and repair gives the same table and no dirt |
| `Recovery.LoadPermsDb` | kernel/src/fs/system_domain.rs:134-169 | the same for permission records |
| `Recovery.OverwritePerms` | kernel/src/fs/system_domain.rs:198-204 | the same for permissions |
| `Recovery.RepairPermsDb` | kernel/src/fs/system_domain.rs:191-207 | the file becomes the clean records of the table and nothing else |
| `Recovery.PermsRecoveryFixedPoint` | kernel/src/fs/system_domain.rs:80-169 | for any bytes, also paths that are not UTF-8, loading after load and repair gives the same table and no dirt |
| `Recovery.LoadAtBoot` | kernel/src/fs/system_domain.rs:80-93 | both files are left so that the next boot loads the same tables cleanly; the tables are those of the old files, or of their first records if a read failed; a missing file changes nothing; a file without dirt is left as it is |
| `Repairs.SafeKeeps` | kernel/src/fs/system_domain.rs:172-207 | a repair stopped between any two records loads the whole table if every entry has a clean record at or behind the place it is rewritten to, or is in the table before loading with its final value |
| `Repairs.UnsafeLoses` | kernel/src/fs/system_domain.rs:172-207 | an entry for which neither holds is missing or out of date after a stop just before its turn |
| `Repairs.StoppedAuthIff` | kernel/src/fs/system_domain.rs:172-188 | for any bytes of `auth.db`, every stop of the repair between records loads the whole table if and only if every entry meets that condition, whatever the order of rewriting |
| `Repairs.StoppedPermsIff` | kernel/src/fs/system_domain.rs:191-207 | the same for `perms.db` |
| `Repairs.SecondUserLost` | kernel/src/fs/system_domain.rs:179-187 | two users in descending order and a dirty record: a stop after one record loses the user with the higher number |
| `Appends.TornStays` | kernel/src/fs/system_domain.rs:266-273 | appending behind a torn tail leaves it torn |
| `Appends.AuthAppendLoads` | kernel/src/fs/system_domain.rs:266-273 | what a load makes of any prefix of an appended record |
| `Appends.AuthAppendAtomic` | kernel/src/fs/system_domain.rs:266-273 | after any boot an append cut anywhere leaves the old table, a whole one adds exactly its entry, and only a cut is reported |
| `Appends.PermsAppendAtomic` | kernel/src/fs/system_domain.rs:277-285 | the same for permissions and every path a record can hold |
| `Appends.AppendAuthEntry` | kernel/src/fs/system_domain.rs:266-273 | the clean record goes to the end of the file |
| `Appends.AppendPermsEntry` | kernel/src/fs/system_domain.rs:277-285 | the clean record goes to the end of the file |
| `BootFrames.RegionAgreesIff` | kernel/src/memory/frame_allocator.rs:38-57 | the two allocators see the same frames of a non-empty region if and only if both its ends are page-aligned |
| `BootFrames.ListFramesHas` | kernel/src/memory/free_list.rs:26-44 | the frames visited are exactly the page-aligned frames inside usable regions |
| `BootFrames.ListFramesDistinct` | kernel/src/memory/free_list.rs:26-44 | none is visited twice when regions are disjoint |
| `BootFrames.PushLinkedIff` | kernel/src/memory/free_list.rs:72-80 | freeing a frame extends the chain by it if and only if the old head is not frame zero |
| `BootFrames.BuildLinkedIff` | kernel/src/memory/free_list.rs:24-45 | building the list chains all frames if and only if frame zero is nowhere but last |
| `BootFrames.FrameZeroLost` | kernel/src/memory/free_list.rs:62-65 | a map whose first two frames start at 0 and 4096 leaves a count of two and a chain of one |
| `BootFrames.LinkedUnique` | kernel/src/memory/free_list.rs:58-70 | the links describe one chain only |
| `BootFrames.HandOff` | kernel/src/memory/mod.rs:21-36 | boot frames and list frames are disjoint and together exactly the usable frames |
| `BootFrames.RunConserves` | kernel/src/memory/free_list.rs:58-80 | through any run the count is the chain length, chain and owned frames split the frames, and allocation fails only when all are owned |
| `BootFrames.BootConserves` | kernel/src/memory/mod.rs:21-36 | from boot on, every run conserves the frames the boot allocator left |
| `BootFrames.BootFrameAllocator.constructor` | kernel/src/memory/frame_allocator.rs:27-36 | positioned at the first usable frame |
| `BootFrames.BootFrameAllocator.SeekToFirstUsableFrame` | kernel/src/memory/frame_allocator.rs:38-57 | settles on a usable frame or the end without skipping any frame |
| `BootFrames.BootFrameAllocator.Allocate` | kernel/src/memory/frame_allocator.rs:66-74 | hands out the frames of the map in order and fails only when none is left |
| `BootFrames.FreeListAllocator.Init` | kernel/src/memory/free_list.rs:24-45 | frees every frame of the map in order but the first `skip` |
| `BootFrames.FreeListAllocator.Allocate` | kernel/src/memory/free_list.rs:58-70 | pops the head and follows its stored link |
| `BootFrames.FreeListAllocator.Deallocate` | kernel/src/memory/free_list.rs:72-80 | stores the old head in the frame and makes it the head |
| `BootFrames.InitMemory` | kernel/src/memory/mod.rs:21-36 | what the heap took is a prefix of the map's frames and the list is built from the rest |
| `AccessMatrix.MatrixLaw` | kernel/src/security/mod.rs:50-66 | the entry lists are a matrix: writing a cell changes that cell and no other |
| `AccessMatrix.SetCompact` | kernel/src/security/mod.rs:57-66 | at most one entry per domain, none of them empty |
| `AccessMatrix.HoldsIff` | kernel/src/security/mod.rs:97-110 | a right is held if and only if the entry list gives it, or the domain has a role and the role includes it |
| `AccessMatrix.ContainsIff` | kernel/src/security/mod.rs:23-25 | the mask test decides a single right |
| `AccessMatrix.GrantEffect` | kernel/src/security/mod.rs:112-131 | grant succeeds if and only if the grantor owns or controls, or may copy and holds every right given; it adds exactly those rights to one cell |
| `AccessMatrix.RevokeEffect` | kernel/src/security/mod.rs:133-143 | revoke succeeds if and only if the revoker owns or controls; it removes exactly those list rights, never role rights |
| `AccessMatrix.RevokeUndoesGrantIff` | kernel/src/security/mod.rs:112-143 | revoking what was granted restores the matrix if and only if the target's entry held none of it before |
| `AccessMatrix.RunConfined` | kernel/src/security/mod.rs:106-143 | without owner or controller a right nobody holds is never held, over every run of grants and revocations |
| `AccessMatrix.ConfinementIff` | kernel/src/security/mod.rs:106-143 | rights stay within the initial union over every run if and only if nobody owns or controls the object, or every right is held already |
| `AccessMatrix.RbacAccessControl.constructor` | kernel/src/security/mod.rs:77-83 | nobody holds anything |
| `AccessMatrix.RbacAccessControl.SetRights` | kernel/src/security/mod.rs:57-66 | the retain, find and push branches write one cell and keep the lists compact |
| `AccessMatrix.RbacAccessControl.GrantRights` | kernel/src/security/mod.rs:112-131 | changes the lists as the matrix grant and reports its outcome |
| `AccessMatrix.RbacAccessControl.RevokeRights` | kernel/src/security/mod.rs:133-143 | changes the lists as the matrix revoke and reports its outcome |

## Left out

- `BuddyAllocator.BuddyAllocator.Init`: requires a heap start that is not null and a multiple of 32, as the kernel heap is laid out.
- Assembly, descriptor tables, context switch and interrupt entry: a switch is an atomic change of the current task.
- The `x86_64` page-table walker, `fatfs` and `sha2`: page tables are maps, a file is a byte sequence with a cursor.
- Page frames taken for intermediate page tables: a separate `Walker` step of the paging machine takes one, rather than the fault or fork that caused it; fork and fault are modelled as not failing for lack of a table frame.
- `mprotect`, `shrink_heap`, `set_heap_end` and `fork_eager`: outside the view invariant of the paging runs.
- `Paging.Window`: copies from the memory before the fault; when the frame after the copied one is first on the free list, source and destination of the kernel's `copy_nonoverlapping` overlap (`kernel/src/memory/vmm.rs:71-75`), which is undefined.
- Physical memory beyond the frames ever written: it reads as zeros in the model.
- `PagingRuns.EvictGood`: requires an unshared frame while swap has room; `EvictSafeIffUnshared` shows that the invariant fails otherwise.
- `PagingRuns.FaultGood`: leaves out the swap-in that finds no frame; `FaultKeepsInvIff` shows that the invariant fails exactly there.
- `PagingRuns.EveryStepGood`: the two cases above.
- `Accesses.EvictThenFault`: the unshared frame and room in swap that `EvictGood` asks for.
- `Paging.FreedFrame`: requires frame addresses below 2^64, as physical addresses are.
- `PagingTheorems.RunRefines`: runs without those two cases.
- `PagingTheorems.RunsIsolated`: the same.
- `FrameAccounts.AccountedIff`: the same.
- `PagingTheorems.PagingRefinesPrivateMemory`: for runs that spoil no page; `RunRefines` is the statement for all runs.
- `PagingTheorems.FramesConserved`: for runs without fork and with faults as hardware raises them, in which every frame is mapped at most once; `FrameAccounts.AccountedIff` is the statement with forks.
- `VmKernel.Vmm.ForkCow`: requires areas that are page-aligned and disjoint, as the loader lays them out.
- `VmKernel.Vmm.ForkArea`: the same.
- `Victims.ResidentIs`: the same areas, on which each page is visited once.
- `Victims.CandidatesAre`: the same.
- `Victims.VictimKeysDistinct`: the same.
- `Reaper.EvictSafe`: requires that no frame is shared, as eviction itself does.
- `Reaper.Round`: the same.
- `Reaper.ReapTo`: the same; works on the machine as a value with reference bits changed by the reaper only. `VmKernel.EvictAddr` is the same eviction on the objects. The wake-up conditions of the reaper task are not modelled.
- Overflow of 64-bit addresses and sector numbers (buddy addresses, `lba * size`, `lba + count`): unbounded in the model, only seek wraps.
- `Signals.SignalTable.DeliverPending`: requires a stack pointer of at least 152; below that the subtraction of the signal frame wraps.
- `Signals.PendingNotLost`: the end of a process by a signal without handler ends its run and is not a step.
- `Mlfq.StepInv`: spawned priorities are below 8 and the idle task neither ends nor waits; `PushInStepIff` shows the first is needed. A task that has marked itself blocked goes on to call the scheduler; it is neither removed nor unblocks itself, and `UnblockKeepsIff` shows that the latter is needed.
- `Mlfq.RunInv`: does not say that unblocking never has an effect, because the current task is blocked between its mark and its call of the scheduler.
- `Mlfq.FullSlice`: for a task that is running; one that has marked itself is switched away from by its next preemptible tick.
- `MlfqScheduler.MlfqScheduler.SetCurrent`: does not model the panic for a priority of 8 or more, whose slice is out of the table.
- The panic of a debug build on overflow of the tick counter: the wrap of a release build is modelled.
- Wake-up order and lost wake-ups of the condition variables: in the pipe a waiting call may be resumed at any time.
- `Recovery.RepairAuthDb`: writes do not fail; a stop inside one record of a repair is not modelled, a stop between records is `StoppedAuthIff`.
- `Recovery.RepairPermsDb`: the same.
- `Recovery.LoadAtBoot`: the same for the repairs it makes.
- `Appends.AppendAuthEntry`: creating, seeking and writing do not fail; an append cut short is `AuthAppendAtomic`.
- `Appends.AppendPermsEntry`: the same.
- `BootFrames.ListFramesHas`: for page-aligned usable regions; `RegionAgreesIff` shows that the two allocators disagree on any other.
- `BootFrames.ListFramesDistinct`: the same.
- `BootFrames.HandOff`: the same.
- `BootFrames.BootConserves`: the same.
- `BootFrames.FreeListAllocator.Allocate`: requires a readable head and a positive count when there is a head, which `RunConserves` keeps.
- The consistency self-test of the record files and the overlay tables above the two maps.
- `RamDisk` as a raw block device (`kernel/src/io/disk.rs:133-169`): it bypasses the checksums and no modelled path uses it.
- Domain, role and object numbers of the access matrix: unbounded in the model; only the rights are 32-bit words.
- Plain setters (roles, swap records, closing the pipe, queueing a request) and the dispatcher apart from sigreturn, handle tables, shared memory, monitors, device table, console, loader and image builder: they would add easy members only.
