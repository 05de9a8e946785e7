# AtOSx32 kernel: heap, scheduler, files, page tables

AtOSx32 is a small 32-bit kernel. This project models four of its parts in Dafny, in the form the C code has
(objects linked by pointers, arrays written in place, loops), and proves what they promise.

- **Kernel heap** (`HeapSizes`, `HeapSpec`, `Heap`, `HeapTheorems`). Headers are objects in two intrusive doubly linked
  lists: the blocks of a region in address order, and the unused blocks of a size class. First fit, split, merging to
  both sides, caching and releasing of whole regions, `krealloc`. Every run of client operations, up to a panic or a
  bare header, is shown to be a run of an allocator of independent byte sequences (`HeapSpec`). A log of the whole free
  regions that `free` lists and `kmalloc` takes determines `complete_pages`, and so which regions `free` unmaps.
- **Scheduler** (`Sequences`, `SchedulerSpec`, `SchedulerTheorems`, `SchedulerCalls`, `SchedulerLaws`, `SchedulerOrder`,
  `TaskList`, `Scheduler`). Seven task lists share one link per task. Every run of calls of the code is shown to be a run
  of a machine over sequences, each call the step it stands for. Of every run of the machine are proved, and then put in
  terms of the calls: conservation of tasks, time slices and preemption, how early and how late a sleeper wakes, who
  stays blocked, the cycle of priorities, first come first served, and bounded waiting counted in timer interrupts.
- **Cluster chains and file data** (`FatSpec`, `FileCalls`, `Fat`), and **path splitting** (`Paths`). A table of clusters on
  a disk of 512-byte sectors, its cached buffer, allocation, deletion, multi-sector writing and reading. Every run of
  calls on handles is, call for call, a run of a store of files as byte sequences, up to a full table, a file that is too
  large, or data stored through a handle without a cluster; what that data overwrites is proved too.
- **Page frames and page tables** (`Frames`, `AddressSpace`), and what they do to the heap's regions (`PageCalls`,
  `RegionPages`, `HeapPages`). A heap run also delivers its calls of `page_map` and `page_unmap`. It describes the
  memory of the kernel only as long as all regions stay mapped, and that is so exactly as long as no release makes
  `page_unmap` drop a table in which another region has a page. In the layout after boot already the first
  release can do so (`HeapPages.ReleaseAfterBoot`): this is a third stop of the run theorem.

`Basics` holds what the parts share, `Bits` the binary digits of a number.

Each class has an invariant (`Valid`, `ListsOk` with `Good`, ...) that every method keeps, so it holds in every state
that any run of calls reaches. Where the code falls short of what it is for, the model keeps the code's behaviour and
the exact condition is proved: `HeapTheorems.KmallocEnds`, `KernelHeap.Heap.Kmalloc` (the bare header),
`FatFileSystem.FileSystem.InitFirstCluster` (a full table), `FatSpec.RoundTrip` (chains of the wrong length),
`FatFileSystem.FileSystem.Apply` with `FatSpec.EmptiedOverwrites` (a handle without a cluster),
`Paths.VisitedIffWellFormed`, `FrameAllocation.FrameAllocator.FoundIffWordNotFull`,
`AddressSpaces.AddressSpace.PageUnmap` (it looks at the wrong table), `RegionPages.UnmapBacked` and `HeapPages.Run` (what
that does to the heap).

Decisions that the code leaves to its surroundings:

- Code that runs with interrupts disabled is one step; `task_block` and the `schedule` it ends with are one step, and so
  is the assembly switch, which stores the new running task, clears `next_task` and opens the lock
  (`AtOSx32/Kernel/Process/task_switch.asm:11-49`).
- `panic` does not return. In the heap `page_map` may fail or return any pages that no region claims; that the page
  tables do return such pages is proved in `HeapPages`. What kmalloc'd memory holds at first is arbitrary.
- The clock is set by an operation of its own; milliseconds are converted to clock counts in real numbers.
- The documentation comment at `AtOSx32/Kernel/Memory/heap.c:14-15` is correct only below 128 pages; the comment at
  `AtOSx32/Kernel/fs/fs.c:423` promises a resize that the code does not do. The model follows the code.

## Model

| member | source | states |
|---|---|---|
| HeapSizes.PageCountIsCeiling | AtOSx32/Kernel/Memory/heap.h:32-34 | the page count is the least number of pages that holds the bytes |
| HeapSizes.LoopNeverStops | AtOSx32/Kernel/Memory/heap.c:24 | the guard of the size-class loop holds for every index exactly from 128 pages on, because of the 8-bit cast |
| HeapSizes.ClassIsUnique | AtOSx32/Kernel/Memory/heap.c:14-16 | the bracket 2^k <= pages < 2^(k+1) determines the class |
| HeapSizes.ClassBracket | AtOSx32/Kernel/Memory/heap.c:14-26 | class k of a payload is the one and only class that brackets its page count |
| HeapSizes.PagesOfRequest | AtOSx32/Kernel/Memory/heap.c:118-124 | a request within the limit gets between 1 and 127 pages, enough for it and the header |
| HeapSizes.GetIndex | AtOSx32/Kernel/Memory/heap.c:16-26 | the loop computes the bracketing class, and 255 for an empty or impossible payload |
| HeapTheorems.KmallocEnds | AtOSx32/Kernel/Memory/heap.c:24-158 | both class computations of a request end if and only if the request and its header fit 127 pages, which are the requests that `Kmalloc` accepts |
| HeapSpec.MovedByCopy | AtOSx32/Kernel/Memory/heap.c:196-200 | allocate, copy what fits and free the old payload is a move that keeps the common prefix |
| HeapSpec.ReallocKeeps | AtOSx32/Kernel/Memory/heap.c:186-201 | whatever a resize gives: as many bytes as asked for, the old bytes as far as both go, the same pointer for the same size, else a new one and the old one gone; other payloads unchanged |
| HeapSpec.RunKeeps | AtOSx32/Kernel/Memory/heap.c:135-201 | over any run a payload changes only through operations that name its pointer |
| HeapSpec.WriteReadsBack | AtOSx32/Kernel/Memory/heap.c:135-201 | a byte written is read back after any run that does not name its pointer |
| KernelHeap.Heap.constructor | AtOSx32/Kernel/Memory/heap.c:7-11 | the empty heap satisfies all invariants |
| KernelHeap.Heap.InsertUnused | AtOSx32/Kernel/Memory/heap.c:29-40 | the block becomes the newest of the list of its class, and all free lists stay well linked though its back link is not written |
| KernelHeap.Heap.RemoveHeader | AtOSx32/Kernel/Memory/heap.c:43-51 | exactly this block leaves its list, with both links null, and all lists stay well linked |
| KernelHeap.Heap.Split | AtOSx32/Kernel/Memory/heap.c:56-82 | the remainder becomes a listed right neighbour and no payload changes, or the remainder is a bare header, exactly when the size leaves 32 bytes |
| KernelHeap.Heap.MeltLeft | AtOSx32/Kernel/Memory/heap.c:85-101 | the freed block is merged into an unused left neighbour in at most one round; used blocks are untouched |
| KernelHeap.Heap.EatRight | AtOSx32/Kernel/Memory/heap.c:104-115 | an unused right neighbour is absorbed in at most one round; used blocks are untouched |
| KernelHeap.Heap.AllocateHeader | AtOSx32/Kernel/Memory/heap.c:118-132 | a new region of exactly the pages needed, one block over all of it, no payload changed |
| KernelHeap.Heap.FirstFit | AtOSx32/Kernel/Memory/heap.c:139-145 | the search finds the block inserted last among those of the class that fit, and nothing only if none fits |
| KernelHeap.Heap.Obtain | AtOSx32/Kernel/Memory/heap.c:139-154 | a listed block is reused exactly if one fits, else a fresh region is taken; complete_pages stays the balance of the regions counted in and out |
| KernelHeap.Heap.Kmalloc | AtOSx32/Kernel/Memory/heap.c:135-158 | returns a pointer not in use to `size` bytes, every other payload unchanged; writes free_blocks[255] exactly when the block that serves leaves a bare header; panics only if no listed block fits, and calls page_map only then; counts a region out of its class exactly if the block that serves is a whole region |
| KernelHeap.Heap.Coalesce | AtOSx32/Kernel/Memory/heap.c:171-173 | after both merges neither neighbour is unused |
| KernelHeap.Heap.FinishFree | AtOSx32/Kernel/Memory/heap.c:175-182 | a block that fills its region is unmapped whole exactly if the cache of its class is full; otherwise it is listed, and counted in for its class; no other block is counted |
| KernelHeap.Heap.Free | AtOSx32/Kernel/Memory/heap.c:161-183 | exactly this payload is gone, all others unchanged; page_unmap is called, for the block's own region, exactly if nothing else in it is used and the cache of the block's class before merging is full; if it is not full, the region is counted in for that class; unsigned pointers are ignored |
| KernelHeap.Heap.Memcpy | AtOSx32/Kernel/Memory/heap.c:197 | the copied bytes arrive and nothing else changes |
| KernelHeap.Heap.Krealloc | AtOSx32/Kernel/Memory/heap.c:186-201 | keeps the first min(old, new) bytes, the pointer exactly if the size is equal, and every other payload; `calls` are the page calls that were made |
| KernelHeap.Heap.Apply | AtOSx32/Kernel/Memory/heap.c:135-201 | one operation is one step of the store; it ends with a write of free_blocks[255] exactly if it asks for memory and the block that serves leaves a bare header, unless page_map panics |
| KernelHeap.Heap.Run | AtOSx32/Kernel/Memory/heap.c:135-201 | any run of client operations is a run of the store of independent payloads, up to a panic, for which no listed block fits, or a bare header, which is then in the heap; `calls` are the page calls that were made, all for unclaimed pages or whole regions; complete_pages[k] stays, modulo 256, the number of class-k regions counted in minus those counted out; whether the memory stays mapped is HeapPages.Run |
| HeapTheorems.WalkTiles | AtOSx32/Kernel/Memory/heap.c:56-115 | following page_flink meets exactly the blocks of the region from there on, adjacent in memory, sizes adding up |
| HeapTheorems.RegionIsTiled | AtOSx32/Kernel/Memory/heap.c:56-183 | in every reachable heap the blocks of a region, in link order, tile all its pages, and no two neighbours are unused |
| HeapTheorems.PayloadsDisjoint | AtOSx32/Kernel/Memory/heap.c:135-158 | a payload in use overlaps no other block |
| HeapTheorems.ChainIsComplete | AtOSx32/Kernel/Memory/heap.c:29-51 | following flink meets exactly the older blocks of the class, ends in null, and back links invert it |
| HeapTheorems.FreeListIsExact | AtOSx32/Kernel/Memory/heap.c:16-51 | free_blocks[k] holds exactly the unused blocks of class k, acyclic and doubly linked; used blocks have null links |
| HeapTheorems.FirstFitIs | AtOSx32/Kernel/Memory/heap.c:139-145 | the block that serves a request is the first in the list of its class that has room for it |
| HeapTheorems.Retake | AtOSx32/Kernel/Memory/heap.c:147-154 | a request served by a whole free region gets that region, maps nothing, and takes one off the count of its class, in 8 bits |
| HeapTheorems.FreeAll | AtOSx32/Kernel/Memory/heap.c:161-183 | any number of blocks of one class that fill their regions are freed, `c` regions of the class being kept before: the first 5 - c regions are kept and page_unmap is called for every other one, in order |
| HeapTheorems.WholeIsFreeRegion | AtOSx32/Kernel/Memory/heap.c:153 | an unused block without page neighbours is a whole region |
| HeapTheorems.CompletePagesExact | AtOSx32/Kernel/Memory/heap.c:147-182 | while all requests fit one page, complete_pages[0] is the number of free one-page regions, at most MAX_COMPLETE |
| HeapTheorems.BareHeaderWitness | AtOSx32/Kernel/Memory/heap.c:56-82 | with a free one-page region first in its list, a request of 4032 bytes is served by it and leaves a bare header |
| HeapTheorems.BareWithoutBlock | AtOSx32/Kernel/Memory/heap.c:56-132 | without a listed block that fits, a request leaves a bare header exactly if it is 64 bytes short of whole pages |
| HeapTheorems.BareHeaderOnNewHeap | AtOSx32/Kernel/Memory/heap.c:56-132 | on a new heap the same request does so too |
| SchedulerSpec.ExactlyOnePlace | AtOSx32/Kernel/Process/process.c:6-16 | in a good state every task but the idle one is in exactly one place |
| SchedulerSpec.BestIs | AtOSx32/Kernel/Process/process.c:413-425 | leftmost and maximal determine the selection |
| SchedulerSpec.WakeTimeIs | AtOSx32/Kernel/System/clock.h:8 | the conversion adds the whole clock counts in the milliseconds, 1024 in a second, modulo 2^32 |
| SchedulerSpec.StepKeeps | AtOSx32/Kernel/Process/process.c:139-443 | every step (create, block, sleep, unblock, tick, schedule, clock) keeps the invariant |
| SchedulerSpec.RunConserves | AtOSx32/Kernel/Process/process.c:139-443 | in every state of every run each task is in exactly the one place its state names |
| SchedulerTheorems.DebtBound | AtOSx32/Kernel/Process/process.c:388 | how often a task can still be preferred never exceeds its requested priority |
| SchedulerTheorems.SelectionLowersDebt | AtOSx32/Kernel/Process/process.c:376-425 | each selection of another task lowers that task's debt to the waiting one |
| SchedulerTheorems.StepDebt | AtOSx32/Kernel/Process/process.c:259-410 | no step but a creation raises any debt, through decay, reset, re-queueing and ticks |
| SchedulerTheorems.SelectedIsOther | AtOSx32/Kernel/Process/process.c:382-396 | while a policy-0 task waits, only other policy-0 tasks are selected |
| SchedulerTheorems.SelectionsBound | AtOSx32/Kernel/Process/process.c:348-425 | the number of selections while a task waits is at most the total debt |
| SchedulerTheorems.BoundedWaiting | AtOSx32/Kernel/Process/process.c:348-425 | while a policy-0 task waits and no task is created, at most the sum of the others' requested priorities of effective schedule() calls pick someone else |
| SchedulerTheorems.WokenSleeping | AtOSx32/Kernel/Process/process.c:314-326 | a tick takes exactly the first due task out of the sleeping list |
| SchedulerTheorems.TickRank | AtOSx32/Kernel/Process/process.c:314-326 | a tick moves a due task that stays asleep one place forward |
| SchedulerTheorems.OtherRank | AtOSx32/Kernel/Process/process.c:259-311 | no other step moves it back |
| SchedulerTheorems.WakeLatency | AtOSx32/Kernel/Process/process.c:314-410 | a due task at position k is awake within k + 1 ticks, whatever else happens |
| SchedulerCalls.StepTimes | AtOSx32/Kernel/Process/process.c:139-443 | a task that stays asleep keeps its wake-up time through every step, and only clock steps change the time |
| SchedulerCalls.AwakeInTime | AtOSx32/Kernel/Process/process.c:314-410 | in any run of calls a sleeper at position k of the sleeping list whose time has come is awake within k + 1 timer interrupts, unless the clock is set back |
| SchedulerCalls.LeavesSelect | AtOSx32/Kernel/Process/process.c:259-285 | while a task waits, every call by which a running task blocks or sleeps makes an effective schedule() call |
| SchedulerCalls.SelectedInTime | AtOSx32/Kernel/Process/process.c:259-425 | in any run of calls without creations a waiting policy-0 task is selected before the running tasks have blocked or slept more often than the sum of the other policy-0 tasks' requested priorities |
| SchedulerLaws.StepRunning | AtOSx32/Kernel/Process/process.c:259-410 | a running task runs on through every step but its own blocking or sleeping and the last tick of its slice; each other tick takes one off its slice, nothing else does |
| SchedulerLaws.KeepsProcessor | AtOSx32/Kernel/Process/process.c:329-334 | over any run: a task with slice n keeps the processor through the first n - 1 ticks unless it leaves itself |
| SchedulerLaws.Preempted | AtOSx32/Kernel/Process/process.c:329-334 | with tick number n it is in the sleeping list, due at the next clock count, with a full slice, and no longer runs |
| SchedulerLaws.FewTicks | AtOSx32/Kernel/Process/process.c:329-334 | so a task that runs throughout has seen fewer ticks than its slice had counts |
| SchedulerLaws.SlicesStayFull | AtOSx32/Kernel/Process/process.c:259-285 | each step keeps it true that all tasks but a running one have a full slice of 50 |
| SchedulerLaws.StartsWithFullSlice | AtOSx32/Kernel/Process/process.c:259-399 | so in every run from a state with full slices, such as the first one, a task that comes to run has 50 counts |
| SchedulerLaws.BusyBound | AtOSx32/Kernel/Process/process.c:329-399 | over any run the ticks that running tasks get are at most what is left of the first one's slice and 50 for each selection |
| SchedulerLaws.WaitInTicks | AtOSx32/Kernel/Process/process.c:329-425 | while a policy-0 task waits and no task is created, running tasks get at most 50 ticks for each unit of the others' requested priorities, and 50 more |
| SchedulerOrder.SleepsLongEnough | AtOSx32/Kernel/Process/process.c:314-443 | in any run of calls a task that called sleep is in the sleeping list, with the time it asked for, as long as no call unblocks it and every timer interrupt finds the clock below that time |
| SchedulerOrder.StaysBlocked | AtOSx32/Kernel/Process/process.c:259-311 | in any run of calls a task that blocked is in the blocked list, and one that ended in the terminated list, until a call unblocks it |
| SchedulerOrder.UnblockedIs | AtOSx32/Kernel/Process/process.c:288-311 | a parked task that is unblocked becomes the last available one of its policy and leaves its list; all other tasks stay where they are; one that is not parked only closes the lock |
| SchedulerOrder.WokenIs | AtOSx32/Kernel/Process/process.c:314-326 | a task that a tick wakes has its wake-up time cleared and is available, or runs already |
| SchedulerOrder.CreatedIs | AtOSx32/Kernel/Process/process.c:139-188 | a new task is last in the list of its policy, with priority 128 for policies 0 and 1 and 0 otherwise, and a slice of 50; every other task is unchanged |
| SchedulerOrder.LockIs | AtOSx32/Kernel/Process/process.c:139-443 | after which calls schedule() may switch: the calls that fail leave it locked, and then it does nothing |
| SchedulerOrder.SelectedIs | AtOSx32/Kernel/Process/process.c:376-434 | what is selected: a task of the lowest policy that has one; of highest priority and the first of equals for policies 0 and 1, the first in the list for policies 2 and 3 |
| SchedulerOrder.PriorityStep | AtOSx32/Kernel/Process/process.c:388 | being selected takes one off the priority of a task of policy 0 or 1, and at 1 sets it back to the requested one; no other step changes a priority |
| SchedulerOrder.PriorityCycle | AtOSx32/Kernel/Process/process.c:388 | over any run the priority of such a task has gone round from the requested one down to 1 and again, one place for each selection of the task |
| SchedulerOrder.QueueStep | AtOSx32/Kernel/Process/process.c:376-434 | a waiting task of policy 2 or 3 moves up one place exactly when one is taken from its list, and never back |
| SchedulerOrder.ServedInOrder | AtOSx32/Kernel/Process/process.c:376-434 | so over any run exactly the tasks in front of it are taken: its place falls by the number of selections from its list |
| SchedulerOrder.RunsOn | AtOSx32/Kernel/Process/process.c:329-334 | in any run of calls a task runs on until it blocks or sleeps, or as many timer interrupts came as its slice had counts |
| SchedulerOrder.PreemptedInTime | AtOSx32/Kernel/Process/process.c:329-334 | the timer interrupt that uses the slice up puts it to sleep until the next clock count |
| SchedulerOrder.SelectedInTicks | AtOSx32/Kernel/Process/process.c:329-425 | in any run of calls without creations a waiting policy-0 task is selected before running tasks have met more than 50 timer interrupts for each unit of the other policy-0 tasks' requested priorities, and 50 more |
| TaskLists.TaskList.InsertFront | AtOSx32/Kernel/Process/process.c:342-345 | prepends the task |
| TaskLists.TaskList.InsertBack | AtOSx32/Kernel/Process/process.c:348-351 | appends the task, which becomes the tail with a null link |
| TaskLists.TaskList.Remove | AtOSx32/Kernel/Process/process.c:354-367 | deletes exactly this task in order, looks the tail up again; an absent task changes nothing |
| TaskLists.TaskList.HighestPriority | AtOSx32/Kernel/Process/process.c:413-425 | finds the leftmost task of highest priority |
| Scheduling.Scheduler.NewLists | AtOSx32/Kernel/Process/process.c:26-35 | distinct empty lists |
| Scheduling.Scheduler.constructor | AtOSx32/Kernel/Process/process.c:38-56 | the start-up task is idle and running, all lists are empty |
| Scheduling.Scheduler.StartsGood | AtOSx32/Kernel/Process/process.c:25-56 | the first state satisfies the invariant of the machine, and has full slices |
| Scheduling.Scheduler.Append | AtOSx32/Kernel/Process/process.c:348-351 | appending to one list leaves the others, which share the link, well formed and disjoint |
| Scheduling.Scheduler.Take | AtOSx32/Kernel/Process/process.c:354-367 | removal from one list leaves the others well formed |
| Scheduling.Scheduler.TimeSliceTask | AtOSx32/Kernel/Process/process.c:428-434 | the head of list 2, else of list 3 |
| Scheduling.Scheduler.Choose | AtOSx32/Kernel/Process/process.c:381-389 | the choice is the machine's, and only its priority is changed |
| Scheduling.Scheduler.Schedule | AtOSx32/Kernel/Process/process.c:376-399 | the new state of all lists and tasks is the machine's schedule step |
| Scheduling.Scheduler.TaskBlock | AtOSx32/Kernel/Process/process.c:259-285 | the block step, including the states that only close the lock |
| Scheduling.Scheduler.TaskUnblock | AtOSx32/Kernel/Process/process.c:288-311 | the unblock step from each of the three lists |
| Scheduling.Scheduler.ManageSleeping | AtOSx32/Kernel/Process/process.c:314-326 | the walk ends after one wake, since the woken task has a null link |
| Scheduling.Scheduler.SleepFor | AtOSx32/Kernel/Process/process.c:437-443 | nothing for 0 milliseconds, else the sleep step until the converted time |
| Scheduling.Scheduler.ManageTimeSlice | AtOSx32/Kernel/Process/process.c:329-334 | a used-up slice puts the task to sleep, else it is counted down |
| Scheduling.Scheduler.SchedulerTick | AtOSx32/Kernel/Process/process.c:401-410 | the tick step |
| Scheduling.Scheduler.CreateTask | AtOSx32/Kernel/Process/process.c:139-188 | the new task is last in the list of its policy, with the policy's priority |
| Scheduling.Scheduler.Apply | AtOSx32/Kernel/Process/process.c:139-443 | every call moves the machine by the step that the call stands for, and keeps both invariants |
| Scheduling.Scheduler.CannotFollow | AtOSx32/Kernel/Process/process.c:139-443 | the calls at which a run stops are exactly: a policy or task that does not exist, the idle task blocking or sleeping, and schedule() by another task |
| Scheduling.Scheduler.Run | AtOSx32/Kernel/Process/process.c:139-443 | any run of calls, up to one that cannot happen, is a run of the machine whose steps answer the calls one for one; in the end every task is in exactly one place |
| FatSpec.StoredTable | AtOSx32/Kernel/fs/fs.c:25-35 | the table read from the disk is the one that was written, byte order included |
| FatSpec.StoredAgain | AtOSx32/Kernel/fs/fs.c:25-35 | writing back the table that is on the disk changes no sector |
| FatSpec.TableBytes | AtOSx32/Kernel/fs/fs.c:25-35 | byte p of the table's sectors is a byte of entry p / 2, the low one at even places |
| FatSpec.ChainIsAcyclic | AtOSx32/Kernel/fs/fs.c:629 | a chain that ends never meets a cluster twice, so the walks end |
| FatSpec.ChainIsUnique | AtOSx32/Kernel/fs/fs.c:685 | the first cluster determines the chain |
| FatSpec.BlankIsOwned | AtOSx32/Kernel/fs/fs.c:66-74 | a table without chains is one whose data entries are all free |
| FatSpec.InitKeeps | AtOSx32/Kernel/fs/fs.c:346-357 | taking a free cluster as a new chain keeps ownership exact |
| FatSpec.DeleteKeeps | AtOSx32/Kernel/fs/fs.c:618-633 | zeroing a chain keeps ownership of all others exact |
| FatSpec.ClearKeeps | AtOSx32/Kernel/fs/fs.c:636-650 | clearing leaves a chain of the first cluster alone |
| FatSpec.WrittenContent | AtOSx32/Kernel/fs/fs.c:545-581 | writing along a chain leaves the file as `Overwritten` by the data; what that is byte for byte is FatSpec.OverwrittenIs |
| FatSpec.OverwrittenIs | AtOSx32/Kernel/fs/fs.c:569-581 | a write gives the data, zeros up to the end of its last sector, and the old bytes behind that, cut to the chain |
| FatSpec.ExactlyFilled | AtOSx32/Kernel/fs/fs.c:545-581 | a file whose chain has ceil(size / 512) clusters holds exactly the data and zeros up to the sector |
| FatSpec.WrittenFrame | AtOSx32/Kernel/fs/fs.c:545-581 | a file on a disjoint chain is unchanged, even by the stray sector of a chain that is too short |
| FatSpec.SpilledIsWritten | AtOSx32/Kernel/fs/fs.c:545-581 | from the first cluster of a chain the walk along the entries writes along the chain |
| FatSpec.EmptiedFirst | AtOSx32/Kernel/fs/fs.c:553-581 | data of at most a sector stored through a handle without a cluster replaces sector 0 |
| FatSpec.EmptiedOverwrites | AtOSx32/Kernel/fs/fs.c:553-568 | longer data overwrites the file that entry 0 refers into, from that cluster on |
| FatSpec.RoundTrip | AtOSx32/Kernel/fs/fs.c:545-691 | write then read gives the data back exactly if the chain has ceil(size / 512) clusters |
| FatSpec.FileRunKeeps | AtOSx32/Kernel/fs/fs.c:346-691 | over any run a file changes only through operations on itself |
| FatSpec.WriteSurvives | AtOSx32/Kernel/fs/fs.c:545-691 | what was written to a chain of the right length is read back after any run on other files |
| FatSpec.FilesStayShort | AtOSx32/Kernel/fs/fs.c:346-357 | no operation gives a file a second cluster |
| FatSpec.OnlyShortFilesReadBack | AtOSx32/Kernel/fs/fs.c:424-475 | so on a disk that starts without long files, data is read back exactly if it fits one sector |
| FileCalls.StaySeparate | AtOSx32/Kernel/fs/fs.c:346-650 | over any run of calls no two handles name the same file |
| FileCalls.OthersLeaveAlone | AtOSx32/Kernel/fs/fs.c:346-650 | calls on other handles change neither a file nor its handle |
| FileCalls.CallIs | AtOSx32/Kernel/fs/fs.c:346-650 | in any run of calls: a new file has a cluster that no file had, and the handle names it; a removed one is gone and the handle is empty; a cut one keeps its first sector; an empty handle leaves all files alone |
| FileCalls.StoreSurvives | AtOSx32/Kernel/fs/fs.c:545-691 | in any run of calls, what a call stored is read back after any later calls on other handles exactly if the chain had ceil(size / 512) clusters, and then the file is still exactly the data and zeros up to the sector |
| FileCalls.OnlyShortStoresReadBack | AtOSx32/Kernel/fs/fs.c:424-475 | from a start without long files, what a call stored is read back exactly if it fits one sector |
| FatFileSystem.FileSystem.FatRead | AtOSx32/Kernel/fs/fs.c:32-35 | the buffer is the table on disk; memory behind it is not touched |
| FatFileSystem.FileSystem.FatWrite | AtOSx32/Kernel/fs/fs.c:25-29 | the table on disk is the buffer, every other sector is unchanged, and the cache is invalid |
| FatFileSystem.FileSystem.FindFreeCluster | AtOSx32/Kernel/fs/fs.c:412-421 | the least zero entry from 390 on, an error only without one; the search runs on behind the table |
| FatFileSystem.FileSystem.InitFirstCluster | AtOSx32/Kernel/fs/fs.c:346-357 | the least free cluster becomes a new chain on disk exactly if the table has a free entry; otherwise the table on disk is unchanged |
| FatFileSystem.FileSystem.FatDeleteFile | AtOSx32/Kernel/fs/fs.c:618-633 | exactly the file's chain is freed, data sectors untouched, the handle emptied |
| FatFileSystem.FileSystem.FatClearFile | AtOSx32/Kernel/fs/fs.c:636-650 | the chain is cut to its first cluster |
| FatFileSystem.FileSystem.FatResizeFile | AtOSx32/Kernel/fs/fs.c:424-475 | only the size field changes; the disk does not |
| FatFileSystem.FileSystem.WriteSectors | AtOSx32/Kernel/fs/fs.c:555-568 | whole sectors go to the first cluster and on along the entries until data or chain ends, wherever the cluster leads |
| FatFileSystem.FileSystem.WriteFileData | AtOSx32/Kernel/fs/fs.c:545-581 | from any first cluster the disk is the old one with the data spilled along the entries, zeros up to the end of its last sector (FatSpec.OverwrittenIs); for a file with a chain the data is written along the chain; panic exactly above 65535 sectors |
| FatFileSystem.FileSystem.ReadSectors | AtOSx32/Kernel/fs/fs.c:684-688 | the buffer is filled with the chain's sectors, or overrun exactly if the chain is longer |
| FatFileSystem.FileSystem.ReadFile | AtOSx32/Kernel/fs/fs.c:661-691 | the file's content followed by what the buffer held, nothing for an empty file |
| FatFileSystem.FileSystem.Apply | AtOSx32/Kernel/fs/fs.c:346-650 | each call is the one step of the store of files that it stands for; it stops exactly when the table is full, the file too large, or data is stored through a handle without a cluster, which spills it from sector 0 on |
| FatFileSystem.FileSystem.Run | AtOSx32/Kernel/fs/fs.c:346-650 | any run of calls keeps exact ownership and is a run of the store of files, call for call, with the clusters and sizes of all handles, up to one of these stops |
| FatFileSystem.FileSystem.StoreThenRead | AtOSx32/Kernel/fs/fs.c:545-691 | store, then any calls on other handles, then read: the data over the old bytes, so exactly the data and zeros up to the sector if the chain has ceil(size / 512) clusters |
| Paths.EatPath | AtOSx32/Kernel/fs/fs.c:179-202 | the scanning loop computes the rest of the path |
| Paths.GetFirst | AtOSx32/Kernel/fs/fs.c:205-222 | the scanning loop computes the first name |
| Paths.GetLast | AtOSx32/Kernel/fs/fs.c:225-243 | the backward scan computes the last name, and reads in front of the string exactly for a lone separator |
| Paths.EatPathReverse | AtOSx32/Kernel/fs/fs.c:246-269 | the backward scan computes the path in front of it, and reads in front of the string exactly for a lone separator |
| Paths.Visit | AtOSx32/Kernel/fs/fs.c:284-302 | the loop over a path ends and yields the names looked up, up to the first one with an extension |
| Paths.LookedUpIs | AtOSx32/Kernel/fs/fs.c:284-302 | the names looked up are those of the iteration in front of the first one with an extension |
| Paths.VisitedIffWellFormed | AtOSx32/Kernel/fs/fs.c:179-222 | for every string: iterating visits exactly the components if and only if none but the last is empty and none exceeds 12 characters |
| Paths.SplitIs | AtOSx32/Kernel/fs/fs.c:179-202 | the components are what stands between the slashes and backslashes: none contains one, together they are all other characters in order, and there is one more of them than of separators |
| Paths.RestIs | AtOSx32/Kernel/fs/fs.c:179-222 | for every path: the first name is the first component, if it has at most 12 characters; eat_path takes off the first component, and the second one too behind a leading separator, and gives NULL exactly if these take more than 12 characters or nothing is left |
| Paths.BackOfPath | AtOSx32/Kernel/fs/fs.c:225-269 | for every path: the last name is the last component, and the front has exactly the others, NULL only if there is nothing else |
| Paths.Reassembled | AtOSx32/Kernel/fs/fs.c:225-269 | front, a separator and last name are the path again |
| Paths.BackAgreesWithFront | AtOSx32/Kernel/fs/fs.c:179-269 | on well-formed paths splitting from the back agrees with iterating from the front |
| FrameAllocation.FrameAllocator.constructor | AtOSx32/Kernel/Memory/pmm.c:3 | nothing is marked at the start |
| FrameAllocation.FrameAllocator.MarkUsed | AtOSx32/Kernel/Memory/pmm.h:22-24 | exactly one frame's bit is set |
| FrameAllocation.FrameAllocator.FirstFound | AtOSx32/Kernel/Memory/pmm.c:28 | while the marked frames are one block, the full-word test skips no free frame |
| FrameAllocation.FrameAllocator.FoundIffWordNotFull | AtOSx32/Kernel/Memory/pmm.c:28 | in general a free frame i is skipped exactly if frames 32i to 32i+31 are all marked |
| FrameAllocation.FrameAllocator.Search | AtOSx32/Kernel/Memory/pmm.c:23-31 | on any bitmap, the least frame that passes the test |
| FrameAllocation.FrameAllocator.PallocSingle | AtOSx32/Kernel/Memory/pmm.c:21-36 | the least free frame is marked and returned; the marked frames stay one block |
| FrameAllocation.FrameAllocator.Pallocn | AtOSx32/Kernel/Memory/pmm.c:44-48 | the next frames in order, or the end of the bitmap's words |
| FrameAllocation.FrameAllocator.MarkKernel | AtOSx32/Kernel/Memory/pmm.c:6-17 | the marked frames cover the kernel image and one frame more |
| FrameAllocation.FrameAllocator.Palloc | AtOSx32/Kernel/Memory/pmm.c:55-71 | the batch cache issues the frame that unbatched allocation would |
| FrameAllocation.FrameAllocator.Run | AtOSx32/Kernel/Memory/pmm.c:44-71 | any number of palloc calls issues consecutive frames, none twice, and reaches the boot page directory exactly after the frames below it are used up |
| FrameAllocation.FrameAllocator.MarkedExactly | AtOSx32/Kernel/Memory/pmm.c:6-71 | when consecutive frames were issued from the end of the kernel's on, the marked frames are exactly the kernel's, those issued and those in the cache |
| FrameAllocation.FrameAllocator.MarkAndRun | AtOSx32/Kernel/Memory/pmm.c:6-71 | after marking a kernel of any size and n calls of palloc, exactly the image's frames and one more, the issued and the cached frames are marked |
| AddressSpaces.AddressRoundTrip | AtOSx32/Kernel/Memory/vmm.c:10-55 | the indices of a made address are the indices it was made of |
| AddressSpaces.FlagBits | AtOSx32/Kernel/Memory/vmm.c:168-169 | of the low 12 bits of an entry, bits 0 and 1 are set, and each other one exactly if it is set in the flags |
| AddressSpaces.AddressSpace.constructor | AtOSx32/Bootload/protected_mode_setup.asm:56-82 | the directory that boot leaves satisfies the invariant |
| AddressSpaces.AddressSpace.PageIsEmpty | AtOSx32/Kernel/Memory/vmm.c:224-233 | true exactly if no page of the table is mapped |
| AddressSpaces.AddressSpace.SearchTable | AtOSx32/Kernel/Memory/vmm.c:117-122 | the first hole of a table; jumping behind the page that is in the way loses none |
| AddressSpaces.AddressSpace.MemoryUnder4mb | AtOSx32/Kernel/Memory/vmm.c:104-127 | the lowest hole of the required size within one table, and an error exactly if there is none |
| AddressSpaces.AddressSpace.AssignTable | AtOSx32/Kernel/Memory/vmm.c:207-217 | a frame of its own becomes the table, no mapping changes; bit k < 12 of the entry is set exactly if k is 0 or 1 or it is set in the flags |
| AddressSpaces.AddressSpace.PageClean | AtOSx32/Kernel/Memory/vmm.c:235-241 | exactly this table is zeroed |
| AddressSpaces.AddressSpace.MapOne | AtOSx32/Kernel/Memory/vmm.c:168-169 | exactly one page is mapped, to a new frame; bit k < 12 of its entry is set exactly if k is 0 or 1 or it is set in the flags |
| AddressSpaces.AddressSpace.MapPages | AtOSx32/Kernel/Memory/vmm.c:164-172 | consecutive new frames up to the first page that is already mapped, nothing else changed |
| AddressSpaces.AddressSpace.MapAnywhere | AtOSx32/Kernel/Memory/vmm.c:151-175 | exactly n pages, the lowest hole, become mapped to new frames; an error exactly without a hole |
| AddressSpaces.AddressSpace.MapFixed | AtOSx32/Kernel/Memory/vmm.c:151-175 | maps at the address up to the first mapped page, where it fails with the earlier pages mapped |
| AddressSpaces.AddressSpace.PageMap | AtOSx32/Kernel/Memory/vmm.c:151-175 | maps the lowest hole, from the kernel's table on unless bit 2 of the flags is set, or at the address up to the first mapped page, where it fails; an error exactly without a hole; no mapping is lost or changed; bit k < 12 of each new entry, and of the entry of a new table, is set exactly if k is 0 or 1 or it is set in the flags |
| AddressSpaces.AddressSpace.FramesDistinct | AtOSx32/Kernel/Memory/vmm.c:168-209 | in every reachable state the frames that page_map mapped are pairwise different and different from all tables |
| AddressSpaces.AddressSpace.UnmapDropsKernelTable | AtOSx32/Kernel/Memory/vmm.c:197 | unmapping one page of the kernel's table drops the table, since it looks at the table with the number of a page |
| AddressSpaces.AddressSpace.PageUnmap | AtOSx32/Kernel/Memory/vmm.c:183-200 | which pages are unmapped; the other pages of the table stay mapped exactly if the table with the number of the next page is not empty, or there are none |
| RegionPages.HoleIsUnclaimed | AtOSx32/Kernel/Memory/heap.c:121 | while the regions are mapped, pages that are not mapped belong to no region |
| HeapPages.MapRun | AtOSx32/Kernel/Memory/vmm.c:151-175 | page_map maps exactly n unmapped pages of one table and no others |
| HeapPages.DropsPages | AtOSx32/Kernel/Memory/vmm.c:197 | the look at the table numbered like the next page, in terms of the mapped pages |
| HeapPages.MapRegion | AtOSx32/Kernel/Memory/heap.c:120-121 | page_map gives the heap pages that no region claims, changes the mapped pages as the call of the heap says, and all regions are mapped |
| HeapPages.BlockAt | AtOSx32/Kernel/Memory/heap.c:56-115 | every address of a region lies in one of its blocks |
| HeapPages.RegionsApart | AtOSx32/Kernel/Memory/heap.c:118-132 | different regions share no address |
| HeapPages.UnmapRegion | AtOSx32/Kernel/Memory/heap.c:178 | page_unmap of a region changes the mapped pages as the call of the heap says, and all other regions stay mapped exactly if no table is dropped or none of them has a page in it |
| RegionPages.UnmapBacked | AtOSx32/Kernel/Memory/vmm.c:183-200 | unmapping a region keeps all others mapped if and only if no table is dropped or no other region has a page in it |
| RegionPages.StaysBackedIffNoHarm | AtOSx32/Kernel/Memory/vmm.c:183-200 | over any run of page calls all regions are mapped after each call if and only if no release does harm |
| RegionPages.ReturnUnmapsOthers | AtOSx32/Kernel/Memory/vmm.c:197 | two regions in table 0x301, the table looked at absent: returning one unmaps pages of the other |
| HeapPages.BootLayout | AtOSx32/Bootload/protected_mode_setup.asm:56-92 | what boot leaves: the kernel's table is full, the next one is free |
| HeapPages.ReleaseAfterBoot | AtOSx32/Kernel/Memory/vmm.c:104-200 | in that layout two regions are mapped in table 0x301, and unmapping the first unmaps the second |
| HeapPages.HeapIsRegular | AtOSx32/Kernel/Memory/heap.c:118-132 | the regions of every reachable heap are whole pages and share none |
| HeapPages.PayloadsMapped | AtOSx32/Kernel/Memory/heap.c:135-158 | while the regions are mapped, every byte of every payload in use is |
| HeapPages.Run | AtOSx32/Kernel/Memory/heap.c:135-201 | over any run of the heap, all regions stay mapped if and only if none of the releases that free made does harm, and then all payloads in use lie in mapped pages |

## Left out

- KernelHeap.Heap.Kmalloc: requests with their header are at most 127 pages, because the loop at heap.c:24 does not end for more; the code after writing free_blocks[255] is not followed.
- KernelHeap.Heap.Free: pointers that are not in use but have the signature in front of them are excluded, because the code cannot tell them from live ones.
- KernelHeap.Heap.PageUnmap: unmaps just the region, as free expects; when page_unmap really does so is RegionPages.UnmapBacked.
- KernelHeap.Heap.WriteSignature: of a header's bytes only the signature is in memory, because the other fields are fields of the header object.
- KernelHeap.Heap.Run: stops at the first panic of page_map and at the first bare header, and does not describe memory after the first release that unmaps another region (HeapPages.Run says when).
- KernelHeap.Heap.PageMap: may fail at any time, because the state of frames and tables is not part of the heap.
- HeapPages.Run: not for runs that release a region ending with the last page of its table, because line 197 then reads behind the directory.
- HeapPages.UnmapRegion: not for such a region, for the same reason.
- HeapTheorems.CompletePagesExact: only while all requests fit one page, because free counts under the class before merging and kmalloc under the class after it; for all sizes the counts are balances (KernelHeap.Heap.Run), which can fall below 0 and then stand at 255.
- HeapTheorems.FreeAll: from a count of at most 5; above it, line 178 does not match, and regions are kept until the 8-bit count has gone round.
- `kcalloc`, `kmalloc_aligned`, `free_aligned` (its byte scan relies on no stray signature), and `AtOSx32/Kernel/Memory/heap3.c`, a copy of the heap.
- Scheduling.Scheduler.SleepFor: not called by the idle task; the conversion of milliseconds is in real numbers, without the rounding of a double.
- Scheduling.Scheduler.TaskBlock: not called by the idle task, which the design keeps out of all lists.
- Scheduling.Scheduler.Run: stops at a call of the idle task that blocks, at a call of schedule() by another task, and at a policy or task that does not exist.
- Scheduling.Scheduler.CreateTask: only the fields and the queueing, because stacks and registers are set up by hardware-specific code.
- The cleaner task, ELF loading, `irq_disable_counter` and `AtOSx32/Kernel/Process/mutex.c`, whose blocking state task_block ignores.
- FatFileSystem.FileSystem.Run: stops when a file would get a cluster beyond the table, since such a cluster is not recorded anywhere on disk, and at data stored through a handle without a cluster, which can overwrite any sector.
- FatFileSystem.FileSystem.StoreThenRead: does not read when the run stopped at such data.
- FatFileSystem.FileSystem.ReadFile: not for the root directory, and not beyond the end of the buffer when the chain is too long.
- `fat_setup_table`, `load_shell`, directory contents, the root directory and its size, reading of extensions, copying and moving of files.
- Paths.Visit: only the names; no directory is read, and every name is found.
- FrameAllocation.FrameAllocator.Search: ends at frame 0x8000, because beyond it line 28 reads behind the bitmap; a word of the bitmap is the sequence of its bits.
- FrameAllocation.FrameAllocator.MarkKernel: on zeroed storage, because the memset clears only a quarter of the bitmap.
- AddressSpaces.AddressSpace.MapFixed: not past the end of its table, because lines 166-168 then read and write behind it.
- AddressSpaces.AddressSpace.PageMap: for at most one table of pages, and while the frames below the boot page directory (frame 0x1000) last, because the bitmap does not know the boot tables; it stops where the lowest hole is in the directory itself.
- AddressSpaces.AddressSpace.MapAnywhere: while these frames last; so HeapPages.MapRun and HeapPages.MapRegion.
- AddressSpaces.AddressSpace.PageUnmap: not for a range that ends at the end of its table, because line 197 then reads behind the directory.
- `page_memory_above4mb`, other address spaces and `map_higher_half`, the TLB, the identity mapping of boot.
- Ports, screen, keyboard, clock hardware, descriptor tables and the boot loader apart from the page directory it leaves.
