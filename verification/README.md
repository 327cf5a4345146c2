# MinixRV64 kernel: a Dafny model of its memory, scheduling, process and file-system core

MinixRV64 is a small RISC-V kernel in C. This project models the parts of it in which pointer lists, bitmaps,
tags and counters have to agree with each other after any sequence of calls, and proves that they do:

- the buddy page allocator (`BuddyGeometry`, `BuddySpec`, `BuddyRuns`, `Buddy`),
- Sv39 page tables (`Sv39`, `PageTableSpec`, `PageTable`),
- the O(1) scheduler (`Bitmap`, `SchedSpec`, `RunQueue`) and the rings that its queues and the children lists are
  linked into (`ListHead`, `TaskRings`),
- the process life cycle: fork, exit, wait, kill (`ProcSpec`, `ProcRuns`, `PidMap`, `Process`),
- the slab allocator (`SlabSpec`, `Slab`),
- the vmalloc address-range allocator (`VmallocSpec`, `Vmalloc`),
- ramfs under VFS path resolution (`Paths`, `RamfsSpec`, `Ramfs`).

`Lists`, `Powers` and `Division` hold what several of them share.

Every component has two layers. A specification module defines the abstract state as values, says what each
operation does to it, states the invariant and proves what follows for whole runs. A class keeps the state the
way the kernel keeps it (arrays, bitmap words, counters, free lists linked through page structures or threaded
through the free objects, the list of vmalloc areas) and each of its methods, with the kernel's own loops and
branches, is proved to compute what the specification says. Properties of runs therefore hold of the code-shaped
layer as well. The scheduler and process classes keep their queues and children lists as sequences; `TaskRings`
does to rings of list nodes, pointer by pointer, what these classes do to the sequences.

The kernel runs on one processor and gives the processor away only in `schedule()`, so the code between two
such points is one atomic step. `sfence.vma`, CSR accesses, `swtch` and console output are left out of the steps.
What comes from outside (free pages for slabs and page tables, kernel stacks, whether an address space can be
set up or a handle allocated) is a parameter.

## Main results

**Buddy allocator.** After `page_init` and any run of allocations and frees, the blocks partition the managed
pages, every block is aligned to its size, no page is handed out twice and every page is counted once
(`BuddyRuns.RunTheorem`). The coalescing test on the buddy's tags succeeds exactly when the buddy heads a tagged
free block of that order, although interior pages keep stale tags (`Buddy.TagTestSound`). Full coalescing is not
a property of the code: `free_pages` clears the flags of a buddy that then becomes the merged head.
`BuddyRuns.FullCoalescingFails` gives a run from `page_init` that leaves two free buddies side by side,
`BuddyRuns.FreeCoalescesExactly` says exactly when a free keeps the heap coalesced, and
`BuddyRuns.FreeKeepsTagsExactly` which free strips a tag: one that merges into a lower buddy. A run without such
a free stays fully coalesced (`BuddyRuns.TidyTheorem`).

**Page tables.** The walk is proved against the translation process of section 4.3.2 and the Sv39 format of
section 4.4 of the RISC-V Privileged Architecture, version 20211203. Mapping one page changes exactly one page's
translation, a failed call changes none, unmapping undoes mapping. `map_region` and `map_region_large` give the
same translation of every address exactly when they map the same number of pages, which they do for every
page-aligned start; they differ for 0x1000 bytes at 0x800, where `map_region` maps two pages. `map_page_4k` over a
superpage leaf replaces the whole leaf; `PageTableSpec.OverwriteExactly` says exactly when that is harmless.
`map_page_2m` under a gigapage leaf stores into the memory the leaf maps; the region is mapped as asked exactly
when there is no such leaf or the entry that then stands above the region maps it so. That entry is the leaf as
before, unless the leaf names the root table itself and the store takes the leaf's place
(`PageTable.StrayMapsExactly`). `lookup_pa` is right exactly for 4 KB leaves and for the
first page of a superpage (`PageTable.LookupExact`). `pgtable_init` maps the kernel with a gigapage, so each of the
three is met: `PageTable.KernelOverwritten`, `PageTable.MegapageInKernel` and `PageTable.LookupInKernel` are
about the tables it leaves.

**Scheduler.** The bitmap, counters and `on_rq` flags describe the queues in every state, so that
`pick_next_task` is a linear scan for the most urgent task. With expiring ticks followed by `schedule()` and no
arrivals, every queued task becomes current within 200 ticks per queued task (`SchedSpec.BoundedWaiting`).
`dequeue_task` always charges the active array; `RunQueue.DequeueExact` shows that its indexes stay exact if and
only if the task is there, which it is not after a tick that ends its slice (`RunQueue.DequeueAfterLastTick`). On rings `list_del` finds the task's queue without knowing the array
(`TaskRings.RingRq.DequeueTask`). `task_timeslice` is monotone in the priority only up to 130 (`SchedSpec.TimesliceMonotone`).

**Processes.** Over all runs of fork, kernel threads, exit, wait, kill, sleep, wakeup, ticks and yields: no task
sleeps in `do_wait` while a child it waits for is a zombie; every task is once in its parent's list and parents
are never released before their children are handed over; pids, task slots and kernel stacks are in bijection
with the unreleased tasks; a zombie is never queued, woken or run again. A fork keeps this invariant exactly when
it fails or `task_table` has an empty slot (`ProcSpec.ForkKInv`): after 63 kernel threads from boot one more still
starts and runs without being listed (`ProcRuns.TableOverflows`). A fork that fails costs nothing, and releasing the
task a fork has made gives back exactly what the fork took (`ProcSpec.ForkThenRelease`). `init_task` in `do_wait`
would be woken by the exit of its own children only, not for zombies handed over to it
(`ProcSpec.OrphansUnannounced`).

**Slab allocator.** Over all runs live objects are disjoint, 8-byte aligned, inside their page and behind its
header, in whichever cache; the books of every cache balance. A word that a client writes inside its object shares
no byte with the link of any free object (`SlabAllocator.Allocator.Store`). `kmalloc_verify` stays silent over all runs of a
cache exactly when it has at least two objects to a slab (`SlabSpec.SilentExactly`): with one object a freed slab
goes to the partial list and is reported there. The 2048-byte cache is such a cache (`SlabAllocator.LargestReported`).
The 4096-byte cache cannot be created, so that `kmalloc` serves
1 to 2048 bytes.

**vmalloc.** Areas with their guard pages stay sorted, disjoint and in range through any mix of successful and
failed calls; the search returns the lowest address that fits, and 0 exactly when none does; every allocation is
undone by its own inverse.

**ramfs and VFS.** `vfs_lookup_path` is the walk along the components of the path with "." and ".." in a table
that is always a tree; a path that leads to a node goes on leading there. After a successful `vfs_mkdir` the path
leads to the new node exactly when its last component is plain (not empty, not "." or "..", at most 63
characters) and the part in front of it leads to the directory that received the entry (`RamfsSpec.MkdirResolves`).
The latter holds for every parent part of at most 255 characters; a longer one that resolves must lead where its
first 255 characters lead, because `vfs_mkdir` cuts it off (`RamfsSpec.ParentHoldsExactly`). Both sides fail on
inputs the code accepts: `mkdir "/"` makes an entry without a name (`RamfsSpec.RootMade`), and five directories
deep an entry for the fifth is made in the fourth (`RamfsSpec.DeepPathLost`). A new entry keeps
names unique exactly when its name is not cut off to one that exists (`RamfsSpec.MakeUniqueExactly`), and a run of
such entries keeps them unique throughout (`RamfsSpec.RunUnique`). Reads and writes are slices and overwrites of a
byte sequence per file exactly when their sums do not wrap. A read returns what is left of the file exactly when it
starts at the end or position plus count is below 2^64 (`RamfsSpec.ReadCountExactly`); the size test of a write is
right exactly when position plus count is below 2^32 or still exceeds 4096 modulo 2^32
(`RamfsSpec.WriteTestExactly`). A run that ends in front of a read that fails is in `RamfsSpec.WrapReached`. O_TRUNC
clears the size in the inode only: no contents change (`RamfsSpec.TruncExactly`), and O_APPEND, which goes by the
inode, adds to the end exactly when the two sizes agree (`RamfsSpec.OpenThenAppend`). They agree over every run
without O_TRUNC (`RamfsSpec.RunSized`).

## Model

| member | source | states |
|---|---|---|
| `BuddyGeometry.BuddyPair` | arch/riscv64/mm/page_alloc.c:124-133 | a block and the block at pfn XOR 2^k are the two aligned halves of one block of order k + 1 |
| `BuddyGeometry.NestedOrDisjoint` | arch/riscv64/mm/page_alloc.c:124-133 | two aligned blocks that meet are nested |
| `BuddySpec.SplitPartition` | arch/riscv64/mm/page_alloc.c:150-166 | halving a block keeps the blocks aligned, disjoint and covering the managed range |
| `BuddySpec.MergePartition` | arch/riscv64/mm/page_alloc.c:210-228 | joining two halves keeps the blocks aligned, disjoint and covering the managed range |
| `BuddySpec.BuddyIsNeverInterior` | arch/riscv64/mm/page_alloc.c:210-228 | no block other than one that starts at the buddy's own address contains the buddy of an existing block |
| `BuddySpec.SplitDownInv` | arch/riscv64/mm/page_alloc.c:150-166 | splitting down keeps the invariant, the other handed-out blocks and the page count |
| `BuddySpec.MergeUpInv` | arch/riscv64/mm/page_alloc.c:210-232 | merging up keeps the invariant, the other handed-out blocks and the page count |
| `BuddySpec.AllocTheorem` | arch/riscv64/mm/page_alloc.c:136-178 | fails exactly when no free block is large enough, changing nothing; otherwise the block is aligned, in range, shares no page with any handed-out block, and the free count drops by its size |
| `BuddySpec.FreeTheorem` | arch/riscv64/mm/page_alloc.c:181-233 | gives back exactly the named block; others stay, the free count rises by its size |
| `BuddyRuns.TileTheorem` | arch/riscv64/mm/page_alloc.c:341-378 | page_init tiles any range exactly with free blocks, counts each page once and leaves no mergeable pair |
| `BuddyRuns.AllocKeepsCoalesced` | arch/riscv64/mm/page_alloc.c:136-178 | allocation never creates a mergeable pair |
| `BuddyRuns.FreeCoalescesExactly` | arch/riscv64/mm/page_alloc.c:210-232 | a free keeps a coalesced heap coalesced exactly when merging does not stop beside a free buddy that lost its tag |
| `BuddyRuns.FreeKeepsTagsExactly` | arch/riscv64/mm/page_alloc.c:205-232 | if all free heads are tagged, they are after a free exactly when the merged block starts where the freed one did |
| `BuddyRuns.TaggedStopsClear` | arch/riscv64/mm/page_alloc.c:210-228 | with all free heads tagged, merging never stops beside a free buddy |
| `BuddyRuns.TidyTheorem` | arch/riscv64/mm/page_alloc.c:136-233 | from page_init on, a run in which no free merges into a lower buddy ends fully coalesced |
| `BuddyRuns.FullCoalescingFails` | arch/riscv64/mm/page_alloc.c:214-228 | from page_init on frames 3 to 7, of which it manages four, a run of six operations after which two order-1 buddies are both free |
| `BuddyRuns.StepInv` | arch/riscv64/mm/page_alloc.c:136-233 | every allocation and every free of a live block keeps the invariant |
| `BuddyRuns.RunTheorem` | arch/riscv64/mm/page_alloc.c:136-233 | over any run: exact partition, alignment, lists hold exactly the blocks not handed out, handed-out blocks share no page, each page counted once |
| `Buddy.TagTestSound` | arch/riscv64/mm/page_alloc.c:210-216 | the FREE and order test on the buddy succeeds exactly when it heads a tagged free block on that free list, whatever stale tags interior pages carry |
| `Buddy.LinkFrontIsList` | arch/riscv64/mm/page_alloc.c:96-105 | linking a page in front yields the list with that page in front, in both directions |
| `Buddy.UnlinkIsList` | arch/riscv64/mm/page_alloc.c:108-121 | unlinking a member yields the list without it, in both directions |
| `Buddy.PageAllocator.constructor` | arch/riscv64/mm/page_alloc.c:282-387 | page_init represents the tiling of the frames behind mem_map |
| `Buddy.PageAllocator.TileLoop` | arch/riscv64/mm/page_alloc.c:341-378 | the tiling loop builds exactly the greedy tiling; the scan for an order never runs out |
| `Buddy.PageAllocator.ListAdd` | arch/riscv64/mm/page_alloc.c:96-105 | the page is in front of the free list, counted, and all other lists are untouched |
| `Buddy.PageAllocator.ListDel` | arch/riscv64/mm/page_alloc.c:108-121 | a member leaves the free list, counted, and all other lists are untouched |
| `Buddy.PageAllocator.SplitLoop` | arch/riscv64/mm/page_alloc.c:150-166 | the loop splits the block as specified |
| `Buddy.PageAllocator.Carve` | arch/riscv64/mm/page_alloc.c:146-174 | taking, splitting and marking a block computes the specified allocation |
| `Buddy.PageAllocator.AllocPages` | arch/riscv64/mm/page_alloc.c:136-178 | returns the address of the specified block, or 0 exactly when there is none, and represents the new heap |
| `Buddy.PageAllocator.Coalesce` | arch/riscv64/mm/page_alloc.c:210-232 | the merging loop over tags merges exactly as specified |
| `Buddy.PageAllocator.TestBuddy` | arch/riscv64/mm/page_alloc.c:210-216 | the test on the stored flags and order decides whether the specified merge applies |
| `Buddy.PageAllocator.DropReference` | arch/riscv64/mm/page_alloc.c:196-208 | the reference is the last one exactly when the count was 1; otherwise only that count changes |
| `Buddy.PageAllocator.FreePages` | arch/riscv64/mm/page_alloc.c:181-233 | a rejected call leaves page structures, free lists and counts as they were; a reference that is not the last only lowers that page's count; the last one frees as specified |
| `Sv39.SameEntryIsSameRegion` | arch/riscv64/mm/pgtable.c:97-112 | canonical addresses use the same entry of a level exactly when they lie in the same region of that level's size |
| `PageTableSpec.PteRoundTrip` | arch/riscv64/mm/pgtable.c:127-136 | an entry made from an aligned address and flags gives both back |
| `PageTableSpec.HardwareAgrees` | arch/riscv64/mm/pgtable.c:160-209 | the entry the software walk stops at decodes to the hardware translation of every canonical address |
| `PageTableSpec.HangKeepsStops` | arch/riscv64/mm/pgtable.c:176-206 | hanging an empty table below an absent entry changes no translation |
| `PageTableSpec.ReplacedTranslates` | arch/riscv64/mm/pgtable.c:212-282 | storing an aligned leaf maps exactly its region linearly and keeps all other translations |
| `PageTableSpec.OverwriteExactly` | arch/riscv64/mm/pgtable.c:181-225 | mapping 4 KB over a superpage leaf maps exactly one page if and only if that leaf was already there |
| `PageTable.KernelOverwritten` | arch/riscv64/mm/pgtable.c:181-225 | on the tables of pgtable_init, mapping 4 KB at 0x84000000 to a page off a gigabyte boundary leaves nothing of the kernel's gigabyte translated |
| `PageTableSpec.RegionExtend` | arch/riscv64/mm/pgtable.c:298-354 | one more piece of any size extends a linearly mapped region |
| `PageTable.Tables.constructor` | arch/riscv64/mm/pgtable.c:402-437 | pgtable_init leaves well-formed tables in which every canonical address translates to itself in the two gigapages and faults elsewhere |
| `PageTable.LeafPte` | arch/riscv64/mm/pgtable.c:212-282 | the entry made for a page reads as a pointer to a table exactly when its flags hold none of R, W, X |
| `PageTable.Tables.WalkPgtable` | arch/riscv64/mm/pgtable.c:160-209 | finds the entry the walk stops at, creates missing tables if asked to, and changes no translation even when it fails |
| `PageTable.Tables.MapPage4k` | arch/riscv64/mm/pgtable.c:212-231 | without a superpage leaf on the path maps exactly one page; on failure no translation changes |
| `PageTable.Tables.MapPage2m` | arch/riscv64/mm/pgtable.c:234-263 | for flags that hold R, W or X: on success the 2 MB region is mapped as asked exactly when no gigapage leaf is above it or the entry that stands above it after the store maps it so; without a leaf exactly that region changes, with one the call stores into the page the leaf names and succeeds; on failure no translation changes |
| `PageTable.UnderLeafExactly` | arch/riscv64/mm/pgtable.c:245-262 | under a gigapage leaf a 2 MB region translates as asked exactly when its first page does |
| `PageTable.StrayMapsExactly` | arch/riscv64/mm/pgtable.c:245-262 | that entry is the old leaf, or the stored one when the leaf names the root table and the indexes agree; the latter maps as asked exactly when its page starts a gigabyte and the region is the first of its gigabyte |
| `PageTable.MegapageInKernel` | arch/riscv64/mm/pgtable.c:245-262 | at 0x84000000 of the kernel gigapage: mapped as asked with the leaf's own flags, not with others |
| `PageTable.Tables.MapPage1g` | arch/riscv64/mm/pgtable.c:266-282 | with flags that hold R, W or X maps exactly the 1 GB region around the address |
| `PageTable.Tables.UnmapPage` | arch/riscv64/mm/pgtable.c:285-295 | the page no longer translates; without a superpage leaf nothing else changes |
| `PageTable.Tables.MapRegion` | arch/riscv64/mm/pgtable.c:298-313 | for a range without superpage leaves: maps every page the range meets linearly, nothing else; on failure a prefix |
| `PageTable.Tables.MapRegionLarge` | arch/riscv64/mm/pgtable.c:316-354 | for a range without superpage leaves and flags that hold R, W or X: maps the range linearly with the largest aligned pages that fit, nothing else; on failure a prefix |
| `PageTable.Tables.LookupPa` | arch/riscv64/mm/pgtable.c:357-365 | returns what the found entry says |
| `PageTable.LookupExact` | arch/riscv64/mm/pgtable.c:357-365 | lookup_pa equals the hardware translation exactly for 4 KB leaves and first pages of superpages |
| `PageTable.LookupInKernel` | arch/riscv64/mm/pgtable.c:357-365 | on the tables of pgtable_init, lookup_pa of 0x80001000 gives 0x80000000 while the hardware gives page 0x80001000 |
| `PageTable.Tables.ProtectPage` | arch/riscv64/mm/pgtable.c:368-382 | a mapped page keeps its physical address and gets the new flags, with its whole leaf; all else keeps its translation |
| `PageTable.OnePage` | arch/riscv64/mm/pgtable.c:160-209 | all addresses of one page translate alike |
| `PageTable.MapThenUnmap` | arch/riscv64/mm/pgtable.c:212-295 | mapping an unmapped page and unmapping it restores every translation |
| `PageTable.MapBothWays` | arch/riscv64/mm/pgtable.c:298-354 | map_region and map_region_large from alike tables leave tables that translate every address alike |
| `PageTable.SamePageCount` | arch/riscv64/mm/pgtable.c:298-354 | exactly when the two forms map the same number of pages |
| `PageTable.FormsAgreeExactly` | arch/riscv64/mm/pgtable.c:298-354 | the two forms agree on every address exactly when they map the same number of pages |
| `Bitmap.FindFirstBit` | kernel/sched_new.c:32-48 | the lowest set bit below size, or size when there is none |
| `Bitmap.SetBitAt` | kernel/sched_new.c:50-53 | setting a bit sets that bit and no other |
| `Bitmap.ClearBitAt` | kernel/sched_new.c:55-58 | clearing a bit clears that bit and no other |
| `SchedSpec.TimesliceMonotone` | kernel/sched_new.c:207-224 | a more urgent priority gets at least as long a slice exactly when the less urgent one is at most 130 or the clamp hides it |
| `SchedSpec.PickTheorem` | kernel/sched_new.c:169-201 | the idle task only when nothing is queued; otherwise first in its queue, none more urgent active, expired ones only when no active is left |
| `SchedSpec.ScheduleInv` | kernel/sched_new.c:366-406 | schedule() restores the invariant: runnable tasks are exactly the queued ones and the current task is idle or active |
| `SchedSpec.TickStepInv` | kernel/sched_new.c:230-279 | a tick, followed by schedule() when it expires a slice, keeps the invariant |
| `SchedSpec.YieldInv` | kernel/sched_new.c:412-430 | yield keeps the invariant |
| `SchedSpec.WakeUpInv` | kernel/sched_new.c:436-462 | waking another task makes it runnable and queued; nobody else moves |
| `SchedSpec.WakeUpNewInv` | kernel/sched_new.c:464-478 | a new task becomes runnable and queued with a fresh slice |
| `SchedSpec.TickSpendsOne` | kernel/sched_new.c:230-279 | each tick uses up one unit of the slices left on the active array |
| `SchedSpec.BoundedWaiting` | kernel/sched_new.c:169-279 | with no arrivals every queued task becomes current within 200 ticks per queued task, whatever its priority |
| `RunQueue.DequeueExact` | kernel/sched_new.c:140-162 | after dequeue_task all indexes are exact if and only if the task was on the active array |
| `RunQueue.DequeueAfterLastTick` | kernel/sched_new.c:140-279 | after any tick that ends a slice, dequeue_task of the current task before schedule() leaves an index wrong |
| `RunQueue.FirstBitIsFirstFit` | kernel/sched_new.c:169-201 | the bitmap search finds the queue a linear scan finds |
| `RunQueue.RunningIsRunSet` | kernel/sched_new.c:124-162 | nr_running is the number of tasks with on_rq set |
| `RunQueue.Rq.constructor` | kernel/sched_new.c:69-108 | empty queues with exact indexes and the idle task current |
| `RunQueue.Rq.EnqueueTask` | kernel/sched_new.c:124-137 | appends to the queue of the clamped priority, keeps bitmap, nr_active and nr_running exact |
| `RunQueue.Rq.DequeueTask` | kernel/sched_new.c:140-162 | does nothing off the queue; from the active array removes the task with exact indexes; from the expired array leaves them wrong |
| `RunQueue.Rq.PickNextTask` | kernel/sched_new.c:169-201 | swaps empty arrays and returns the front of the first non-empty queue, or idle |
| `RunQueue.Rq.SchedulerTick` | kernel/sched_new.c:230-279 | spends a slice unit; the last one refills the slice and moves the task to the expired array; idle is not charged |
| `RunQueue.Rq.Schedule` | kernel/sched_new.c:366-406 | computes the specified switch and counts it exactly when the task changes |
| `RunQueue.Rq.YieldTask` | kernel/sched_new.c:412-430 | moves the current task to the end of its queue and schedules |
| `RunQueue.Rq.WakeUpProcess` | kernel/sched_new.c:436-462 | wakes exactly a task that is not running, says whether it did, and marks the current task for rescheduling exactly when a more urgent one was woken |
| `RunQueue.Rq.WakeUpNewTask` | kernel/sched_new.c:464-478 | queues a new task with a fresh slice |
| `ListHead.Link` | include/minix/sched.h:88-96 | the four pointer writes of __list_add, and nothing else |
| `ListHead.ListAddTail` | include/minix/sched.h:103-106 | the node becomes the last member of the ring |
| `ListHead.ListDel` | include/minix/sched.h:108-119 | the node leaves the ring, all others keep their order, its own links are cleared |
| `ListHead.ListEmpty` | include/minix/sched.h:121-124 | true exactly when the ring has no member |
| `TaskRings.Rings.constructor` | kernel/sched_new.c:69-108 | initialised heads are empty rings |
| `TaskRings.Rings.AddTail` | include/minix/sched.h:103-106 | among many rings over the same links, the task becomes last in one; all other rings stay |
| `TaskRings.Rings.Del` | include/minix/sched.h:108-119 | the task leaves the ring it is on, whichever that is; all other rings stay |
| `TaskRings.Rings.First` | include/minix/sched.h:129-130 | list_first_entry gives the first member |
| `TaskRings.Rings.MoveAll` | kernel/exit.c:119-137 | exit_notify's loop, which reads the next node before it moves the current one, moves all members in order to the end of the other ring |
| `TaskRings.RingRq.constructor` | kernel/sched_new.c:69-108 | two empty arrays with exact indexes |
| `TaskRings.RingRq.EnqueueTask` | kernel/sched_new.c:124-137 | on rings: does to the active array what RunQueue does to sequences |
| `TaskRings.RingRq.DequeueTask` | kernel/sched_new.c:140-162 | on rings: unlinks the task from either array, adjusts the active array's indexes as RunQueue does |
| `TaskRings.RingRq.PickNextTask` | kernel/sched_new.c:169-201 | on rings: swaps when the active array is empty and gives the front of the first non-empty queue, none exactly when all are empty |
| `ProcSpec.NextPidFailsExactly` | kernel/fork.c:87-118 | the pid search fails exactly when every pid is taken, and otherwise yields a free one in range |
| `ProcSpec.ForkKInv` | kernel/fork.c:522-681 | a fork keeps the invariant exactly when it fails or task_table has an empty slot |
| `ProcSpec.FailedForkCostsNothing` | kernel/fork.c:540-680 | a fork that fails keeps the invariant, moves at most last_pid, and leaves exactly the forks possible that were possible before |
| `ProcSpec.ForkThenRelease` | kernel/fork.c:540-666 | releasing the task a fork made restores slot cache, stacks, pids, task_table, children lists and the list of all tasks |
| `ProcSpec.ReleaseKInv` | kernel/exit.c:202-232 | releasing a zombie keeps the invariant: pid, slot, stack, table entry and both list entries are gone together |
| `ProcSpec.BuriedWaits` | kernel/exit.c:180-189 | once an exiting task is a zombie and its parent's channel has been woken, no task asleep in do_wait has a child to reap |
| `ProcSpec.OrphansUnannounced` | kernel/exit.c:119-186 | init_task asleep in do_wait is woken by an exit exactly when it is the exiting task's parent; a zombie child handed over to it does not wake it |
| `ProcSpec.ExitKInv` | kernel/exit.c:143-196 | do_exit keeps the invariant |
| `ProcSpec.WaitSleepKInv` | kernel/exit.c:305-309 | going to sleep after a scan that found nothing to reap keeps the invariant |
| `ProcSpec.WaitKInv` | kernel/exit.c:256-319 | every outcome of a do_wait pass keeps the invariant |
| `ProcSpec.WakeAllInv` | kernel/sched_new.c:496-510 | wakeup wakes exactly the listed tasks that sleep on the channel, and clears their channel |
| `ProcSpec.WakeupKInv` | kernel/sched_new.c:496-510 | wakeup keeps the invariant |
| `ProcSpec.KillKInv` | kernel/exit.c:363-383 | kill_process keeps the invariant |
| `ProcSpec.SleepKInv` | kernel/sched_new.c:484-494 | sleep keeps the invariant |
| `ProcRuns.BootKInv` | kernel/fork.c:246-278 | the state after fork_init and sched_init satisfies the invariant |
| `ProcRuns.StepKInv` | kernel/exit.c:143-383 | every step of every operation keeps the invariant |
| `ProcRuns.RunKInv` | kernel/exit.c:143-383 | the invariant holds in every reachable state |
| `ProcRuns.TableOverflows` | kernel/fork.c:655-661 | 63 kernel threads after boot fill task_table; the next one starts, is queued and is not listed |
| `ProcRuns.NoLostWakeup` | kernel/exit.c:256-319 | in no reachable state does a task sleep in do_wait with a matching zombie child |
| `ProcRuns.TreeIntegrity` | kernel/exit.c:119-137 | in every reachable state each task but init_task is exactly once in its parent's list, in no other, exactly once in the list of all tasks, its real parent is its parent, and that is not released |
| `ProcRuns.ZombieStep` | kernel/exit.c:180-189 | a zombie is not queued and not current, and stays a zombie with its pid and exit code until it is released |
| `ProcRuns.ForkTheorem` | kernel/fork.c:522-704 | a fork makes exactly one task: runnable, queued at the given priority, with a pid nobody had, last in its parent's list; no other task changes |
| `ProcRuns.ExitTheorem` | kernel/exit.c:119-196 | the task is a zombie with its code, off the queues and not current; its children are init_task's last, in order |
| `ProcRuns.KillTheorem` | kernel/exit.c:363-383 | exactly the task with that pid is marked, and made runnable if it sleeps; without one nothing changes |
| `ProcRuns.WaitReports` | kernel/exit.c:256-319 | do_wait returns pid and status of a matching zombie child and releases it; ECHILD exactly when no child matches |
| `ProcRuns.StockKept` | kernel/fork.c:147-180 | kernel stacks are neither lost nor invented by any step |
| `ProcRuns.PidCount` | kernel/fork.c:87-128 | as many pids are taken as there are unreleased tasks |
| `PidMap.FfsZero` | kernel/fork.c:78-84 | the lowest clear bit of a word, or -1 exactly for the full word |
| `PidMap.SetPid` | kernel/fork.c:106-127 | setting and clearing a bit adds and removes exactly that pid |
| `PidMap.Pids.constructor` | kernel/fork.c:255-259 | only pid 0 is taken |
| `PidMap.Pids.Search` | kernel/fork.c:94-117 | the word scan finds what the specified search finds; bit 0 being reserved, it never goes on from an overwritten base |
| `PidMap.Pids.AllocPid` | kernel/fork.c:87-118 | marks and returns the pid the search finds, or returns -1 and changes nothing |
| `PidMap.Pids.FreePid` | kernel/fork.c:121-128 | frees exactly that pid; out of range nothing happens |
| `Process.Procs.constructor` | kernel/fork.c:246-278 | the boot state |
| `Process.Procs.AllocTaskStruct` | kernel/fork.c:208-228 | takes the lowest free slot, or none when all are taken |
| `Process.Procs.FreeTaskStruct` | kernel/fork.c:231-240 | frees exactly that slot |
| `Process.Procs.Acquire` | kernel/fork.c:532-594 | slot, stack, pid and address space are all taken, or after the cleanup none is |
| `Process.Procs.Install` | kernel/fork.c:614-666 | children list, list of all tasks, table slot and run queue of the new task, as specified |
| `Process.Procs.CopyProcess` | kernel/fork.c:522-704 | computes the specified fork and returns the pid, or -1 exactly when something is missing |
| `Process.Procs.DoFork` | kernel/fork.c:684-704 | forks the current task |
| `Process.Procs.StartThread` | kernel/fork.c:783-904 | starts a child of init_task at the default priority |
| `Process.Procs.Wakeup` | kernel/sched_new.c:496-510 | the table loop wakes as specified |
| `Process.Procs.KillProcess` | kernel/exit.c:363-383 | the table loop kills as specified; 0 exactly when the pid is found |
| `Process.Procs.ExitNotify` | kernel/exit.c:119-137 | the loop moves all children, in order, to the end of init_task's list |
| `Process.Procs.DoExit` | kernel/exit.c:143-196 | computes the specified exit |
| `Process.Procs.ReleaseTask` | kernel/exit.c:202-232 | computes the specified release, from both lists, table, pids, stacks and slots |
| `Process.Procs.ScanChildren` | kernel/exit.c:271-299 | the first matching zombie in list order, or whether any child matches |
| `Process.Procs.WaitPass` | kernel/exit.c:267-309 | one pass of do_wait computes the specified state and outcome |
| `Process.Procs.WaitAgain` | kernel/exit.c:310-318 | EINTR when killed, otherwise a new scan |
| `Process.Procs.Sleep` | kernel/sched_new.c:484-494 | the current task waits on the channel and leaves the run queue |
| `SlabSpec.CreateGeometry` | arch/riscv64/mm/slab.c:166-190 | objects at least as large as asked for, multiples of 8, as many as fit; none exactly when the size exceeds 4056 |
| `SlabSpec.SlotInside` | arch/riscv64/mm/slab.c:79-89 | an object is behind the header, inside the page, 8-byte aligned, and masking it gives the page |
| `SlabSpec.LiveCount` | arch/riscv64/mm/slab.c:227-314 | the objects not on the free list are as many as inuse says |
| `SlabSpec.AllocInv` | arch/riscv64/mm/slab.c:227-269 | allocation keeps the invariant of all caches |
| `SlabSpec.FreeInv` | arch/riscv64/mm/slab.c:272-314 | freeing a live object keeps the invariant of all caches |
| `SlabSpec.CreateInv` | arch/riscv64/mm/slab.c:156-200 | creating a cache keeps the invariant of all caches |
| `SlabSpec.AllocTheorem` | arch/riscv64/mm/slab.c:227-269 | hands out an object of that cache that was not live and leaves all others; fails exactly when the cache has no free object and there is no page |
| `SlabSpec.FreeTheorem` | arch/riscv64/mm/slab.c:272-314 | exactly that object stops being live; through another cache nothing happens |
| `SlabSpec.FreeThenAlloc` | arch/riscv64/mm/slab.c:227-314 | an object freed from a full slab is the next one handed out |
| `SlabSpec.LivePlace` | arch/riscv64/mm/slab.c:72-94 | a live object is inside its page past the header and 8-byte aligned |
| `SlabSpec.LiveApart` | arch/riscv64/mm/slab.c:72-94 | two live objects never overlap, across slabs and caches |
| `SlabSpec.OneList` | arch/riscv64/mm/slab.c:257-311 | every slab is on exactly one list, of its own cache; on the full list exactly when all objects are in use |
| `SlabSpec.Books` | arch/riscv64/mm/slab.c:227-314 | total_allocs less total_frees is the sum of inuse, slab_count counts the slabs, at most one empty slab is kept |
| `SlabSpec.VerifyExact` | arch/riscv64/mm/slab.c:466-511 | the number of errors reported for a cache: none with two or more objects to a slab, else one for each partial slab |
| `SlabSpec.SingleObjectReported` | arch/riscv64/mm/slab.c:298-302 | allocating from a one-object cache and freeing leaves something to report |
| `SlabAllocator.LargestReported` | arch/riscv64/mm/slab.c:514-538 | the cache that kmalloc uses for 2048 bytes is such a cache in every state after kmem_init |
| `SlabSpec.SilentExactly` | arch/riscv64/mm/slab.c:466-511 | the checks are silent over all runs exactly when the cache has two or more objects to a slab |
| `SlabSpec.RunTheorem` | arch/riscv64/mm/slab.c:156-314 | over any run: invariant, disjoint live objects, exact error counts |
| `SlabAllocator.Allocator.KmemCacheCreate` | arch/riscv64/mm/slab.c:156-200 | computes the specified geometry or fails |
| `SlabAllocator.Allocator.SlabInitObjs` | arch/riscv64/mm/slab.c:72-94 | threads the free list through all objects in address order and writes no word outside the page |
| `SlabAllocator.Allocator.SlabAlloc` | arch/riscv64/mm/slab.c:97-120 | a new slab with all objects free; no other free list changes |
| `SlabAllocator.Allocator.KmemCacheAlloc` | arch/riscv64/mm/slab.c:227-269 | computes the specified allocation on threaded free lists |
| `SlabAllocator.Allocator.KmemCacheFree` | arch/riscv64/mm/slab.c:272-314 | computes the specified free on threaded free lists |
| `SlabAllocator.Allocator.Store` | arch/riscv64/mm/slab.c:253-255 | a client's eight-byte write anywhere inside a live object, aligned or not, shares no byte with the link of any free object and changes no free list |
| `SlabAllocator.Allocator.Kfree` | arch/riscv64/mm/slab.c:368-395 | frees through the cache that the masked header names; a page that is no slab goes back as a page and changes nothing here |
| `SlabAllocator.Allocator.KmallocVerify` | arch/riscv64/mm/slab.c:466-511 | zero exactly when no one-object cache has a partial slab |
| `SlabAllocator.Allocator.KmemInit` | arch/riscv64/mm/slab.c:514-538 | caches for 32 to 2048 bytes exist, the last with one object to a slab; the one for 4096 does not |
| `SlabAllocator.Allocator.Kmalloc` | arch/riscv64/mm/slab.c:331-365 | an object at least as large as asked for, from the smallest cache that fits; nothing for 0 or more than 2048 bytes |
| `SlabAllocator.KmallocIndex` | arch/riscv64/mm/slab.c:317-328 | the smallest size class that fits, -1 exactly above 4096 |
| `VmallocSpec.FindLowest` | arch/riscv64/mm/vmalloc.c:122-153 | the lowest address whose range fits, and 0 exactly when none fits |
| `VmallocSpec.InsertInv` | arch/riscv64/mm/vmalloc.c:156-166 | linking an area that fits keeps the list sorted, disjoint and in range |
| `VmallocSpec.RemoveInv` | arch/riscv64/mm/vmalloc.c:169-180 | unlinking an area keeps the list sorted, disjoint and in range and frees its structure |
| `VmallocSpec.ReserveTheorem` | arch/riscv64/mm/vmalloc.c:183-262 | fails exactly when structures, space or pages are missing, changing nothing; else takes the lowest range, which removal undoes |
| `VmallocSpec.RunInv` | arch/riscv64/mm/vmalloc.c:183-516 | areas stay sorted, disjoint and in range through any mix of calls |
| `VmallocSpec.VfreeRestores` | arch/riscv64/mm/vmalloc.c:293-328 | vfree undoes vmalloc |
| `VmallocSpec.VunmapRestores` | arch/riscv64/mm/vmalloc.c:388-420 | vunmap undoes vmap |
| `VmallocSpec.IounmapRestores` | arch/riscv64/mm/vmalloc.c:486-516 | iounmap of the offset address undoes ioremap |
| `VmallocPool.VmAreas.constructor` | arch/riscv64/mm/vmalloc.c:68-92 | an empty list and no structure in use |
| `VmallocPool.VmAreas.AllocVmStruct` | arch/riscv64/mm/vmalloc.c:95-107 | marks the first structure that is not on the list |
| `VmallocPool.VmAreas.FindVmallocArea` | arch/riscv64/mm/vmalloc.c:122-153 | the list loop computes the specified search |
| `VmallocPool.VmAreas.InsertVmStruct` | arch/riscv64/mm/vmalloc.c:156-166 | the pointer loop links the structure in address order |
| `VmallocPool.VmAreas.RemoveVmStruct` | arch/riscv64/mm/vmalloc.c:110-180 | the pointer loop unlinks exactly that structure and resets it |
| `VmallocPool.VmAreas.FindVmArea` | arch/riscv64/mm/vmalloc.c:279-290 | the structure of the area that begins at the address, if any |
| `VmallocPool.VmAreas.Vmalloc` | arch/riscv64/mm/vmalloc.c:183-268 | list effect of vmalloc; in_use flags match list membership |
| `VmallocPool.VmAreas.Vmap` | arch/riscv64/mm/vmalloc.c:331-385 | list effect of vmap |
| `VmallocPool.VmAreas.Ioremap` | arch/riscv64/mm/vmalloc.c:423-483 | list effect of ioremap and the offset in the result |
| `VmallocPool.VmAreas.Vfree` | arch/riscv64/mm/vmalloc.c:293-328 | removes the area that begins at the address; unknown addresses change nothing |
| `VmallocPool.VmAreas.Vunmap` | arch/riscv64/mm/vmalloc.c:388-420 | removes only areas made by vmap |
| `VmallocPool.VmAreas.Iounmap` | arch/riscv64/mm/vmalloc.c:486-516 | removes only ioremap areas, found from any address in the first page |
| `Paths.ComponentsRender` | fs/vfs.c:247-263 | parsing a path built from components with any number of slashes gives back the components |
| `Paths.ComponentsAppend` | fs/vfs.c:247-263 | the components on both sides of a slash, one after the other |
| `Paths.ComponentsTrailing` | fs/vfs.c:247-263 | a slash at the end makes no difference |
| `RamfsSpec.WalkExtends` | fs/vfs.c:305-337 | a walk that leads somewhere leads to the same node after nodes have been added |
| `RamfsSpec.MakeTree` | fs/ramfs.c:299-384 | a new node has a parent with a lower slot number |
| `RamfsSpec.MakeUniqueExactly` | fs/ramfs.c:322-341 | names stay unique exactly when the name is at most 63 characters or its first 63 are not taken |
| `RamfsSpec.LongNameTwice` | fs/ramfs.c:333-341 | a name of more than 63 characters created twice yields two entries of one name |
| `RamfsSpec.MkdirKeeps` | fs/vfs.c:516-601 | vfs_mkdir keeps the tree and every path that led somewhere |
| `RamfsSpec.MkdirResolves` | fs/vfs.c:516-601 | after success the path leads to the new node exactly when its last component is a plain name and its parent part leads to the directory that received the entry |
| `RamfsSpec.ParentHoldsExactly` | fs/vfs.c:537-577 | the parent part leads there if it has at most 255 characters; a longer one that resolves, exactly when it leads where its first 255 characters lead |
| `RamfsSpec.CutElsewhere` | fs/vfs.c:537-577 | whenever the cut parent path leads to another directory, the entry is made there, the call succeeds and the path does not lead to it |
| `RamfsSpec.DeepPathLost` | fs/vfs.c:537-577 | five directories made by vfs_mkdir, with names of 63, 63, 63, 62 and 1 characters: an entry for the fifth is made in the fourth |
| `RamfsSpec.RootMade` | fs/vfs.c:516-601 | mkdir "/" succeeds, makes an entry with an empty name, and "/" still leads to the root |
| `RamfsSpec.ReadTheorem` | fs/ramfs.c:213-243 | unless position plus count wraps in 64 bits: a read is the slice of the contents at the handle's position, and moves the handle past it |
| `RamfsSpec.ReadCountExactly` | fs/ramfs.c:227-236 | the number of bytes copied is what is left of the file, up to count, exactly when the read starts at the end or the 64-bit sum does not wrap; otherwise it is count, more than is left |
| `RamfsSpec.WrapReached` | fs/ramfs.c:227-238 | a run after which a handle is at position 1 of four bytes, where a read of 2^64 - 1 bytes copies that many |
| `RamfsSpec.WriteTestExactly` | fs/ramfs.c:260-264 | the test on the new size, taken in 64 and then in 32 bits, rejects exactly what exceeds 4096 bytes if and only if the sum is below 2^32 or its remainder exceeds 4096; otherwise a write that is too large is accepted |
| `RamfsSpec.WrapInputs` | fs/ramfs.c:232-264 | both tests fail at concrete sizes: read of 2^64 - 1 bytes at 1 of 4, write of 2^32 bytes at 0 |
| `RamfsSpec.WriteTheorem` | fs/ramfs.c:246-296 | for every size at which the test is right: fails exactly past 4096 bytes, changing nothing; else overwrites or extends its own file and no other |
| `RamfsSpec.WriteThenRead` | fs/ramfs.c:213-296 | what one handle writes another on the same file reads back |
| `RamfsSpec.OpenThenRead` | fs/vfs.c:346-435 | opening an existing file and reading gives its contents from the beginning; all of them for 4096 bytes or more |
| `RamfsSpec.OpenThenAppend` | fs/vfs.c:346-435 | opening with O_APPEND and writing, exactly when 4096 bytes hold it, writes where the inode says the file ends; this adds to the end exactly when inode and file sizes agree or there is no data; the path still leads to the file |
| `RamfsSpec.OpenCreates` | fs/vfs.c:348-435 | O_CREAT on a missing path whose entry can be made yields a handle on a new empty file that the path leads to exactly when vfs_mkdir's path would lead there; all other files stay |
| `RamfsSpec.StepInv` | fs/vfs.c:341-601 | every operation keeps the tree, handle positions within file sizes and inode sizes within file sizes |
| `RamfsSpec.RunTheorem` | fs/vfs.c:266-601 | over any interleaving the invariant holds and resolving paths keep their node |
| `RamfsSpec.StepUnique` | fs/ramfs.c:322-341 | an operation keeps names unique as long as no name is cut off to one its directory holds |
| `RamfsSpec.RunUnique` | fs/ramfs.c:322-341 | names are unique throughout a run of such operations |
| `RamfsSpec.TruncExactly` | fs/vfs.c:434-444 | O_TRUNC changes no contents: the file is empty afterwards exactly when it was before |
| `RamfsSpec.TruncThenAppend` | fs/vfs.c:429-444 | after O_TRUNC an append overwrites the file from its beginning |
| `RamfsSpec.StepSizedExactly` | fs/vfs.c:429-444 | a step leaves file and inode sizes alike exactly when it does not open a file that is not empty with O_TRUNC |
| `RamfsSpec.RunSized` | fs/ramfs.c:288-293 | over every run without O_TRUNC the two sizes agree |
| `RamfsSpec.MountedInv` | fs/ramfs.c:87-128 | the file system satisfies the invariant after mounting |
| `Ramfs.StrEq` | fs/ramfs.c:54-63 | the comparison loop decides equality |
| `Ramfs.FindMount` | fs/vfs.c:218-244 | the longest mount point that is a prefix of the path, -1 exactly when none is |
| `Ramfs.ParsePathComponent` | fs/vfs.c:247-263 | skips slashes and copies at most 255 characters, as specified |
| `Ramfs.RamFs.constructor` | fs/ramfs.c:87-128 | the mounted file system with its root |
| `Ramfs.RamFs.RamfsFindFile` | fs/ramfs.c:47-70 | the first slot with that parent and name |
| `Ramfs.RamFs.VfsLookupPath` | fs/vfs.c:266-338 | the lookup loop computes the tree walk along the components |
| `Ramfs.RamFs.RamfsMkdir` | fs/ramfs.c:299-384 | appends a node with the name cut to 63 characters, or fails and changes nothing |
| `Ramfs.RamFs.VfsMkdir` | fs/vfs.c:516-601 | splits the path, looks up the parent and creates as specified |
| `Ramfs.RamFs.RamfsRead` | fs/ramfs.c:213-243 | with the 64-bit sum of the code: reads as specified |
| `Ramfs.RamFs.RamfsWrite` | fs/ramfs.c:246-296 | with the 64-bit and 32-bit sums of the code: writes as specified; the buffer is attached on first use |
| `Ramfs.RamFs.VfsOpen` | fs/vfs.c:341-447 | opens or creates as specified, with or without O_TRUNC; the handle starts at 0 or, with O_APPEND, where the inode says the file ends |

## Left out

- UART, HTIF, early printing, boot and trap assembly, CSR and TLB instructions: hardware without modelled semantics.
- The block device cache, ext2/3/4, FAT and devfs: stubs, mount-time checks or simple tables.
- `kernel/exec.c`: the loader is not connected to the VFS and `execve` always fails.
- `kernel/proc.c` and `kernel/sched.c`: not part of the build.
- `mm_count`, `active_mm`, file-descriptor and signal reference counts, `tgid`, `ppid`, `group_leader`: unfinished in the code.
- CLONE_THREAD and CLONE_VFORK variants of fork: they change only fields that are not modelled.
- `init_task` as a task that exits or blocks in `do_wait`: exit_notify does not wake it for zombies it receives, as `ProcSpec.OrphansUnannounced` shows, so that no lost wakeup is not a property of that task.
- Ticks that expire a slice without a following `schedule()`: `dequeue_task` would then charge the wrong array, as `RunQueue.DequeueAfterLastTick` shows.
- The page-mapping side of vmalloc: its range lies under a 1 GB kernel leaf; whether pages could be mapped is a parameter.
- Sizes given to `page_init`, `kmem_cache_create`, vmalloc, vmap (where the number of pages times 4096 counts), `map_region` and ioremap whose sums or products reach 2^64: arithmetic is unbounded there, 64-bit wrap-around of sizes is not modelled. Statistics counters do not wrap, and `do_wait` with pid -2^31, whose negation overflows, is not modelled.
- File modes, owners, link counts, inode numbers and times: stored but never consulted by the modelled calls.
- `vfs_readdir`, `ramfs_unmount`, `vfs_create`, `kmem_cache_destroy`, `kmalloc` before initialisation, statistics and dump functions: they would add only easy members.
- The `next` and `prev` links of slab lists: they have the shape of the free lists of the page allocator, where insertion and removal through links is proved; here the three lists of a cache are sequences.
- The `sibling`, `tasks` and `run_list` links in `RunQueue` and `Process`: lists of task numbers stand for them there; `TaskRings` proves the same queue operations and exit_notify's loop on linked nodes.
- The need-resched flag as state: whether `wake_up_process` and `scheduler_tick` set it is a result of the method; nothing that is modelled reads it.
- RamfsSpec.ReadTheorem: reads whose sum does not wrap; for the others the code copies past the end of the buffer, as RamfsSpec.ReadCountExactly says, and what memory then holds is not modelled. The same condition stands in Ramfs.RamFs.RamfsRead and in the runs of RamfsSpec.RunTheorem.
- RamfsSpec.WriteTheorem: sizes at which the test on the new size is right; for the others the code copies past the end of the buffer, as RamfsSpec.WriteTestExactly says. The same condition stands in Ramfs.RamFs.RamfsWrite, RamfsSpec.OpenThenAppend, RamfsSpec.StepInv and RamfsSpec.RunTheorem.
- RamfsSpec.StepInv: as RamfsSpec.ReadTheorem and RamfsSpec.WriteTheorem.
- PageTable.Tables.MapPage2m: flags hold R, W or X. Without them the stored entry is a pointer, as PageTable.LeafPte says, and the hardware reads the page it names as a table.
- PageTable.Tables.MapPage1g: flags hold R, W or X, for the same reason.
- PageTable.Tables.MapRegion: the range holds no superpage leaves; PageTableSpec.OverwriteExactly says what a step does over one.
- PageTable.Tables.MapRegionLarge: flags hold R, W or X, and the range holds no superpage leaves; PageTableSpec.OverwriteExactly and PageTable.Tables.MapPage2m say what a step does over one.
- SlabAllocator.Allocator.Kfree: the third word of a page that is no slab, where a slab has its cache, is taken not to be the address of a cache; the code reads whatever its holder stored there.
- ProcRuns.StepKInv: forks happen while `task_table` has an empty slot; ProcSpec.ForkKInv says what happens otherwise.
