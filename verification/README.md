# kiwiOS, modelled and proved in Dafny

kiwiOS is a small x86-64 kernel with its own file system, executable format and host tools. This project models the
parts of it that keep state and could lose it, and proves what they keep over every input and every run.

`dafny verify dfyconfig.toml` checks everything. Nothing in the kernel or the tools was executed.

| part of the system | files |
|---|---|
| processes, scheduling, waitpid, exec, the keyboard queue | `ProcessModel`, `ProcessInvariant`, `ProcessRuns`, `ProcessCalls`, `ProcessFamily`, `ProcessTurns`, `Kernel` |
| physical pages, page tables, a process's memory, brk, the kernel heap | `Bitmap`, `Pmm`, `FrameAllocator`, `PageTableModel`, `PageTableSteps`, `PageTableAccess`, `PageTableCost`, `Vmm`, `FrameOwnership`, `ProcessMemory`, `ProcessBrk`, `HeapModel`, `Heap` |
| block cache | `CacheModel`, `CacheInvariant`, `CacheRuns`, `CacheLaws`, `BufferCache` |
| descriptors, pipes, paths | `PipeRing`, `FdModel`, `FdRuns`, `FdLaws`, `PipeRuns`, `Descriptors`, `Paths`, `PathBuffers` |
| executables: ELF to KXE to memory, the first stack | `ByteFields`, `Kxe`, `KxeImage`, `Elf2Kxe`, `KxeLoad`, `InitialStack` |
| KiFS: directory blocks, copying files, making a file system | `DirRecords`, `DirBlock`, `KifsBitmap`, `KifsModel`, `KifsCopy`, `Mkfs`, `MkfsDirs`, `KifsSession`, `KifsFiles` |
| boot loader installation and its undo log | `UndoLog`, `InstallDevice` |
| CRC-32 | `Crc32` |

`Base` and `IndexLists` hold shared vocabulary. Code that updates state in place is a class over arrays whose methods
are proved equal to functions on values; what is promised is proved of those functions, over whole runs where the
promise is about runs. Calls into hardware, devices and other parts of the kernel are parameters or arbitrary values.

## Main results

- No run of the process system deadlocks: whenever nothing runs and nothing is ready but somebody is blocked, somebody
  waits for the keyboard and the next key makes a process ready (`ProcessRuns.NoDeadlock`).
- The run queue and the keyboard queue, threaded through one `next` field, never share or repeat a slot, and a process
  at position k has the processor after k + 1 dispatches (`ProcessRuns.QueuesExact`, `ProcessRuns.DispatchedWithin`).
- The answers of waitpid are true: over every run from boot, a pid and a code that it reports belong to a child of the
  caller that called exit with that code, and a process that has exited is reported with its code when its parent waits
  (`ProcessFamily.ReapedExited`, `ProcessFamily.ExitThenWait`). Every process was launched, spawned, or took the place of
  another (`ProcessFamily.EveryoneBorn`).
- Every key typed was read, was dropped by a full buffer, or is still there (`ProcessTurns.KeysConserved`).
- A 4-level page table is a map of pages, and a mapping succeeds exactly when the tables its path lacks can be had
  (`Vmm.AddressSpace.MapPage`); a page marked for a program is one it reaches
  through every table above it. A process that is created, maps and unmaps whatever it likes and is destroyed leaves
  every bit of the page allocator as it found it (`ProcessMemory.WholeLife`).
- From any state of a process, sys_brk moves the break exactly when the free frames pay for the pages and the tables
  they need, and every page and every frame afterwards is told; a new page is the program's to read and write, on a frame
  that was free and that no other page shows (`ProcessBrk.SysBrk`).
- The kernel heap's blocks tile its pages exactly, allocations never overlap, and adjacent free blocks are always
  merged (`Heap.Kheap.Kmalloc`, `Kfree`, `Krealloc`).
- The block cache shows a plain map of blocks through any evictions and device failures (`CacheRuns.CacheRefinesMap`).
  A get succeeds exactly when the block is cached or a buffer can be had and read into, and the buffer evicted is the
  one whose last get is longest ago (`CacheLaws.GetServes`, `CacheLaws.EvictsOldest`).
- Every descriptor call keeps pipe and vnode reference counts exact (`FdRuns.CountsAfterAnyRun`).
- Over any run of open, close, dup, dup2, pipe, read, write and exit by any processes, the bytes read from a pipe are a
  prefix of the bytes written to it and the rest waits in it (`PipeRuns.ReadsArePrefix`, `Descriptors.ServeAll`).
  What a program writes into the second end of a new pipe it reads from the first (`FdLaws.PipeCarries`).
- A relative path means the same from a directory and joined to it, and kernel and shell resolve every path alike
  (`Paths.WalkJoined`, `PathBuffers.BothResolve`). A name followed by ".." cancels wherever it stands in a path
  (`Paths.NormalCancels`).
- The loader accepts exactly the executables, said of the bytes of the first page and of addresses and pages
  (`KxeImage.AcceptsExecutables`).
- Converting an ELF image and loading the result succeeds exactly when its segments are loadable, and gives the ELF image
  in memory exactly when no segment's end wraps (`KxeLoad.ElfToMemory`).
- Copying a file into a KiFS image succeeds exactly when there is room, and then changes nothing else
  (`KifsCopy.CopyFile`). After mkfs, any number of copies keeps the file system consistent, and in the end every name
  shows the bytes of the last copy to it that succeeded and no other name leads to a file (`KifsFiles.MkfsThenCopies`).
- Uninstalling the boot loader restores the device byte for byte, whatever was cached and whatever overlapped
  (`InstallDevice.InstallThenUninstall`). On a device that does not fail, requests it has room for are installed, and
  the device then holds exactly what they ask for (`InstallDevice.HealthyInstall`).

## Where the code does not keep a promise

Each has an input or a run on which it fails, and the condition under which the promise does hold is proved as an
equivalence on what is known before the call.

- Once a process has blocked for a key, the timer does not preempt it again until it yields, because only saving its
  user context sets its resume kind back (`ProcessCalls.ReaderNeverPreempted`). The first program that reads a key and
  then computes keeps the processor for ever (`ProcessCalls.FirstReaderNeverPreempted`; `ProcessCalls.TimeSlice` gives
  the exact condition).
- waitpid(-1) can report that there is no child although one is alive: `ProcessCalls.AnyWaitCanMissLiveChild` is a run
  from boot. It does so exactly when the child it looks at first was replaced by exec and the chain of replacements ends
  at a process that is gone (`ProcessCalls.AnyWaitMisses`).
- pmm_alloc_pages misses a free run that straddles the search cursor, and only such a run (`Pmm.Allocator.AllocPages`).
  Five calls on six pages lead there (`Pmm.StraddlingRunMissed`). An allocation that lands on page 0 reads as NULL.
- kmalloc, kcalloc and krealloc serve a request correctly exactly up to 2^64 - 32 bytes
  (`Heap.Kheap.Kmalloc`, `Kcalloc`, `Krealloc`). A request for 2^64 - 1 bytes on a fresh heap is given its first block
  (`Heap.WrappedRequestServed`). The comment on heap_init says four pages; the code takes five.
- When the frames run out between two pages of a growth, brk leaves the pages it added mapped above a break that did not
  move, exactly when the free frames are the cost of some of the pages asked for (`ProcessBrk.BrkOnHeap`). A later
  growth maps over them and loses exactly their frames (`ProcessBrk.SysBrk`). `ProcessBrk.BrkLosesFrame` is such a life,
  from creation to destruction.
- elf2kxe tests the end of a segment in 64-bit arithmetic. A segment whose end wraps can pass, and bytes outside the
  file are emitted (`Elf2Kxe.BytesBeforeTheFile`); the output is right exactly when no segment wraps
  (`Elf2Kxe.RightIffNoWrap`).
- A directory block can be reported full although an earlier free record is long enough (`DirBlock.FreeRecordPassedOver`
  is a block of 4096 bytes), exactly when the last record considered is in use and has no slack
  (`DirBlock.RoomOverlooked`).
- An install that fails part way through a write across blocks reports that its work was undone although bytes were
  lost (`InstallDevice.TwoBlockWriteLoses`). A list of requests can lose a byte exactly when one of its servable writes
  reaches over a block with a byte nobody replaced before (`InstallDevice.Install`, `InstallDevice.UnsafeInstall`);
  writes inside one block never do (`InstallDevice.OneBlockIsSafe`).

## Model

| member | source | states |
|---|---|---|
| `ProcessInvariant.SwitchKeeps` | src/core/scheduler.c:165-204 | choosing the next process keeps the invariant: table, both queues, current process, waiters and exec links |
| `ProcessInvariant.KeyPressKeeps` | src/core/keyboard.c:186-205 | a key wakes the first keyboard waiter and keeps the invariant |
| `ProcessInvariant.ExitKeeps` | src/core/syscall.c:1211-1225 | exit turns the caller into a zombie, wakes exactly a parent that waits for it, and keeps the invariant: no other waiter loses its last live child |
| `ProcessInvariant.SpawnKeeps` | src/core/syscall.c:1380-1401 | spawn keeps the invariant whether the load fails early, after the pid is spent, or succeeds |
| `ProcessInvariant.LaunchKeeps` | src/core/scheduler.c:115-135 | starting a program from the boot shell keeps the invariant |
| `ProcessInvariant.ExecKeeps` | src/core/syscall.c:1321-1351 | exec keeps the invariant, in particular that a parent waiting for the replaced process has a live child to wait for |
| `ProcessInvariant.TickKeeps` | src/core/scheduler.c:137-163 | a timer tick keeps the invariant |
| `ProcessInvariant.YieldKeeps` | src/core/syscall.c:2031-2041 | yield keeps the invariant |
| `ProcessInvariant.ReadKeyKeeps` | src/core/syscall.c:855-863 | reading a key, or blocking for one, keeps the invariant |
| `ProcessInvariant.WaitLoopKeeps` | src/core/syscall.c:1460-1517 | the whole loop of waitpid, reaping and following exec replacements, keeps the invariant |
| `ProcessRuns.Step` | src/core/syscall.c:1211-1517 | every event the kernel can take keeps the invariant |
| `ProcessRuns.FromBoot` | src/core/scheduler.c:115-204 | the invariant holds after any sequence of events from boot |
| `ProcessRuns.WaitChainEnds` | src/core/process.c:193-216 | following waiters to the children they wait for ends, because a child has a larger pid, at a process blocked on the keyboard |
| `ProcessRuns.StalledWaitsForKey` | src/core/scheduler.c:165-189 | when nothing runs or is ready and somebody is blocked, the keyboard queue is not empty |
| `ProcessRuns.NoDeadlock` | src/core/scheduler.c:165-189 | in every reachable stalled state the next key makes a process ready |
| `ProcessRuns.WaiterHasLiveChild` | src/core/syscall.c:1460-1517 | in every reachable state a process blocked in waitpid has a live child that its wait names |
| `ProcessRuns.QueuesExact` | src/core/scheduler.c:21-58 | in every reachable state the run queue is exactly the READY processes, the keyboard queue exactly its waiters, without repetition and without a common slot |
| `ProcessRuns.StepPrefix` | src/core/scheduler.c:44-58 | only a dispatch takes from the run queue, from its head; every other event appends |
| `ProcessRuns.DispatchedWithin` | src/core/scheduler.c:21-58 | a process at position k is the current process after exactly k + 1 dispatches of any run |
| `ProcessCalls.WaitFollowsExec` | src/core/syscall.c:1471-1508 | waitpid returns what following exec replacements through the table before the call ends with: that child's pid and code, blocking, or no child |
| `ProcessCalls.AnyWaitCanMissLiveChild` | src/core/syscall.c:1493-1498 | a run from boot after which waitpid(-1) returns no child although a child is ready to run |
| `ProcessCalls.AnyWaitMisses` | src/core/syscall.c:1471-1508 | a process with a live child is told that it has none exactly when the child looked at first was replaced and the chain of replacements ends at nobody |
| `ProcessCalls.TimeSlice` | src/core/scheduler.c:137-163 | a process is preempted when its slice is used up if and only if it was last resumed in user mode |
| `ProcessCalls.SideKept` | src/core/scheduler.c:60-86 | nothing but its own yield, exit or exec sets the resume kind of a live process back |
| `ProcessCalls.KeyResumesInKernel` | src/core/scheduler.c:191-204 | whatever else is ready or waits, a process that blocked for a key is resumed in the kernel and stays so through any run in which it does not yield, exit or exec |
| `ProcessCalls.ReaderNeverPreempted` | src/core/scheduler.c:137-163 | whenever it computes in such a run, any number of ticks leaves it running |
| `ProcessCalls.FirstReaderNeverPreempted` | src/core/scheduler.c:137-163 | a run from boot that ends there |
| `ProcessCalls.FirstChildIs` | src/core/process.c:193-216 | the child found is the first zombie child, or, if no child is a zombie, the first child |
| `ProcessFamily.StepLawful` | src/core/syscall.c:1211-1517 | every event in every state changes who is whose child, who exited with which code and who was replaced by whom as that event should, and in no other way |
| `ProcessFamily.ExitLaw` | src/core/syscall.c:1211-1225 | the caller becomes a dead member with the code it gave; all others stay |
| `ProcessFamily.SpawnLaw` | src/core/syscall.c:1380-1401 | exactly when a slot is free and the program loads the caller has one child more, with the next pid, and nobody else changes; a pid is spent unless there is no program or no slot |
| `ProcessFamily.ExecLaw` | src/core/syscall.c:1321-1351 | exactly when a slot is free and the program loads, the new process is a child of the caller's parent and the caller is replaced by it; nobody else changes |
| `ProcessFamily.WaitLaw` | src/core/syscall.c:1460-1517 | only children of the caller that were replaced go, and the child that is reported, which had exited with the code reported |
| `ProcessFamily.ReapIs` | src/core/process.c:222-235 | exactly the zombies go that have no parent or whose parent has no slot when they are looked at |
| `ProcessFamily.ReapBuries` | src/core/process.c:222-235 | as members: only dead ones without a parent go, and a dead one that stays had a parent |
| `ProcessFamily.ExitedDidExit` | src/core/syscall.c:1211-1225 | in any run from boot a member that has exited with a code called exit with that code |
| `ProcessFamily.ReapedExited` | src/core/syscall.c:1460-1517 | when waitpid reports a pid and a code after any run from boot, that process called exit with that code and was a child of the caller |
| `ProcessFamily.DeadRun` | src/core/syscall.c:1211-1225 | through any run a dead member stays as it is, code included, or is gone for good |
| `ProcessFamily.ExitThenWait` | src/core/syscall.c:1460-1517 | a process exits with a code; after any run in which its slot is not emptied, its parent's wait for it answers its pid and that code |
| `ProcessFamily.EveryoneBorn` | src/core/process.c:68-118 | in any run from boot a process was launched by the shell, spawned by its parent, or took the place of a child of its parent |
| `ProcessTurns.SliceExact` | src/core/scheduler.c:191-204 | a process dispatched outside waitpid is still running after n ticks exactly when n is less than its time slice or it was resumed in the kernel |
| `ProcessTurns.GoesLast` | src/core/scheduler.c:44-58 | a process that yields or whose slice is over is last in the run queue |
| `ProcessTurns.ComesBack` | src/core/scheduler.c:21-58 | and is the current process again after the others have been dispatched once each |
| `ProcessTurns.WokenWithin` | src/core/keyboard.c:186-205 | a process at position k of the keyboard queue is ready after exactly k + 1 keys |
| `ProcessTurns.ExitWakes` | src/core/syscall.c:1211-1225 | exit makes a parent that waits for the caller ready, at the end of the run queue, and wakes nobody else |
| `ProcessTurns.KeysConserved` | src/core/keyboard.c:186-205 | in any run the keys typed are those read, those dropped by a full buffer and those still in it |
| `ProcessTurns.ShellReturns` | src/core/scheduler.c:165-189 | a switch hands the machine back to the boot shell exactly when no process is alive |
| `Kernel.Machine.SchedulerAdd` | src/core/scheduler.c:44-58 | appends to the run queue in place; the abstract queue grows by one slot at its end |
| `Kernel.Machine.SchedulerTakeNext` | src/core/scheduler.c:21-34 | takes the head of the run queue in place |
| `Kernel.Machine.KeyboardEnqueueWaiter` | src/core/keyboard.c:172-184 | appends to the keyboard queue through the same next field, leaving the run queue as it was |
| `Kernel.Machine.KeyboardWaitPop` | src/core/keyboard.c:87-100 | takes the head of the keyboard queue in place |
| `Kernel.Machine.ProcessByPid` | src/core/process.c:183-191 | the first slot with the pid, as the model looks it up |
| `Kernel.Machine.ProcessFirstChild` | src/core/process.c:193-216 | the first zombie child, else the first child |
| `Kernel.Machine.ProcessHasBlocked` | src/core/process.c:237-245 | true exactly when some process is blocked |
| `Kernel.Machine.ProcessReapZombies` | src/core/process.c:222-235 | the table is the model's, which ReapIs in ProcessFamily describes slot by slot |
| `Kernel.Machine.ProcessCreate` | src/core/process.c:68-118 | takes the first free slot and the next pid, or fails as the load says |
| `Kernel.Machine.SysYield` | src/core/syscall.c:2031-2041 | the state after the call is the model's |
| `Kernel.Machine.SchedulerTimerTick` | src/core/scheduler.c:137-163 | the state after a tick is the model's |
| `Kernel.Machine.SysReadKey` | src/core/syscall.c:855-863 | the state after the call is the model's |
| `Kernel.Machine.KeyboardInterrupt` | src/core/keyboard.c:186-205 | the state after a key is the model's |
| `Kernel.Machine.SysExit` | src/core/syscall.c:1211-1225 | the state after the call is the model's; the code it keeps and hands on is told by ExitLaw and ExitThenWait in ProcessFamily |
| `Kernel.Machine.SysSpawn` | src/core/syscall.c:1380-1401 | the state after the call is the model's |
| `Kernel.Machine.SysExec` | src/core/syscall.c:1321-1378 | the state after the call is the model's |
| `Kernel.Machine.Supersede` | src/core/syscall.c:1321-1351 | the old process names the new one and a parent waiting for it is redirected |
| `Kernel.Machine.FindWaitChild` | src/core/syscall.c:419-439 | the child a wait target names |
| `Kernel.Machine.SysWaitpid` | src/core/syscall.c:1460-1517 | the loop ends and gives the model's state and result |
| `Kernel.Machine.SchedulerSwitch` | src/core/scheduler.c:165-211 | the state after a switch is the model's |
| `Kernel.Machine.SchedulerRun` | src/core/scheduler.c:115-135 | the state after starting a program is the model's |
| `Kernel.Machine.Handle` | src/core/syscall.c:2043-2131 | any event in any state keeps the linked queues and the invariant and gives the model's next state |
| `Pmm.Allocator.BitmapSet` | src/memory/pmm.c:20-23 | sets exactly one bit |
| `Pmm.Allocator.BitmapClear` | src/memory/pmm.c:25-28 | clears exactly one bit |
| `Pmm.Allocator.BitmapTest` | src/memory/pmm.c:30-33 | reads one bit |
| `Pmm.Allocator.AllocateRunFrom` | src/memory/pmm.c:35-56 | the lowest free run in the window, marked, counted and the cursor moved behind it; none exactly when the window holds none, so the skip step misses nothing |
| `Pmm.Allocator.Alloc` | src/memory/pmm.c:126-142 | the first free page from the cursor on, going round; none exactly when every page is used |
| `Pmm.Allocator.constructor` | src/memory/pmm.c:58-124 | any bitmap, its set bits counted, the search at page 0 |
| `Pmm.Allocator.AllocBelow` | src/memory/pmm.c:144-168 | a free page below the limit, or none exactly when there is none; the cursor moves behind it |
| `Pmm.Allocator.Free` | src/memory/pmm.c:170-183 | clears the page if it was in use and moves the cursor down to it; everything else is ignored |
| `Pmm.Allocator.AllocPages` | src/memory/pmm.c:185-199 | the first free run from the cursor on, going round, that lies on one side of the cursor, marked; it fails exactly when there is none |
| `Pmm.Allocator.FreePages` | src/memory/pmm.c:201-218 | clears exactly the pages of the run that exist; the cursor ends at the lowest page freed below it |
| `Pmm.StraddlingRunMissed` | src/memory/pmm.c:191-194 | five calls on six pages after which two neighbouring pages are free and pmm_alloc_pages(2) fails |
| `Pmm.FreeSetMark` | src/memory/pmm.c:35-56 | marking a run takes exactly its pages from the free ones |
| `Pmm.FreeSetClear` | src/memory/pmm.c:201-218 | clearing a run adds exactly its pages |
| `FrameAllocator.PmmAlloc` | src/memory/pmm.c:126-142 | page 0 being in use, a free frame, or none exactly when none is free; it is no longer free |
| `FrameAllocator.PmmAllocPages` | src/memory/pmm.c:185-199 | a run of free frames that are then not free, or no change |
| `FrameAllocator.PmmFree` | src/memory/pmm.c:170-183 | exactly that frame is free again |
| `FrameAllocator.PmmFreePages` | src/memory/pmm.c:201-218 | exactly that run is free again |
| `Bitmap.UnpackSet` | src/memory/pmm.c:20-23 | setting a packed bit is setting that bit of the unpacked sequence and no other |
| `Bitmap.UnpackClear` | src/memory/pmm.c:25-28 | clearing a packed bit clears that bit and no other |
| `PageTableModel.IdxInjective` | src/memory/vmm.c:111-120 | a page is determined by its four table indices |
| `PageTableSteps.AddTablePath` | src/memory/vmm.c:83-109 | a new table appears on the walks of exactly the pages that pass its slot |
| `PageTableAccess.AddTableGrants` | src/memory/vmm.c:83-109 | a new table takes no page away from a program that reached it |
| `PageTableAccess.LeafGranted` | src/memory/vmm.c:136-142 | writing a leaf keeps every page marked for the program reachable, provided the path to the new one lets the program through |
| `PageTableCost.MeetIff` | src/memory/vmm.c:111-143 | two walks meet at a table exactly when they take the same slots above it |
| `PageTableCost.NextCost` | src/memory/vmm.c:111-143 | the tables that the next page of a growth lacks are what it adds to the cost of the growth |
| `PageTableModel.PathDetermined` | src/memory/vmm.c:83-109 | two pages share a table only if they agree on the indices above it |
| `Vmm.AddressSpace.constructor` | src/memory/vmm.c:48-81 | a new table maps no user page and shares the kernel half |
| `Vmm.AddressSpace.GetOrCreateTable` | src/memory/vmm.c:83-109 | the next table, created from a free frame if absent; no translation changes, and it fails exactly when the table is absent and no frame is free; for a user mapping the entry lets a program through, an existing entry being upgraded |
| `Vmm.AddressSpace.MapPage` | src/memory/vmm.c:111-143 | succeeds exactly when there are frames for the tables that the path lacks; then exactly one page changes its translation; a failure part way leaves every translation unchanged; a page marked for the program is reached through entries that are all present, writable and marked for it |
| `Vmm.AddressSpace.CreatePath` | src/memory/vmm.c:124-134 | the walk succeeds exactly when there are frames for the missing tables, takes exactly them, and creates no other table; for a user mapping every entry on it lets a program through |
| `Vmm.AddressSpace.UnmapPage` | src/memory/vmm.c:145-175 | exactly one page loses its translation |
| `Vmm.AddressSpace.GetPhysical` | src/memory/vmm.c:177-205 | the mapped frame's address, or 0 |
| `Vmm.AddressSpace.GetMapping` | src/memory/vmm.c:207-251 | the translation of the page |
| `ProcessMemory.Process.MapOwned` | src/memory/vmm.c:111-143 | mapping a frame held by nobody makes the process its owner; a frame that the page showed before is lost |
| `ProcessMemory.Process.MapRegion` | src/core/kxe.c:302-333 | a run of pages mapped to a run of frames, or every translation and every owner as before |
| `ProcessMemory.Process.Rollback` | src/core/kxe.c:321-332 | unmaps the pages mapped so far and gives the whole run back |
| `ProcessMemory.Process.DestroyLevel` | src/core/process.c:39-66 | gives back every frame below a table exactly once and no other |
| `ProcessMemory.Process.Destroy` | src/core/process.c:138-177 | gives back every user frame, every table, the top table and the kernel stack exactly once |
| `ProcessMemory.Process.ReleasePage` | src/core/syscall.c:1296-1305 | unmaps a page and frees its frame; all frames stay accounted for |
| `ProcessMemory.Create` | src/core/process.c:68-118 | a process owns one table frame and its kernel stack; a failed creation gives back what it took |
| `ProcessMemory.WholeLife` | src/core/process.c:138-177 | create, any maps and releases with any failures, creation included, destroy: every bit of the page allocator is as before |
| `FrameOwnership.UnderRoot` | src/core/process.c:39-66 | the frames below the top table are exactly all tables and all mapped user frames |
| `ProcessBrk.GrowPage` | src/core/syscall.c:1274-1294 | a frame and a mapping, or the frame back; mapped exactly when there are frames for the page and the tables it lacks; the page is then present, writable and the program's, on a frame that was free |
| `ProcessBrk.Grow` | src/core/syscall.c:1274-1295 | maps as many pages as the frames pay for; they stay when all are mapped or no frame is left, else they are taken back; pages mapped before lose exactly their frames; the pages that stay are present, writable and the program's, reached through every table above them, each on a frame of its own that was free |
| `ProcessBrk.OneFrameEach` | src/core/syscall.c:1274-1295 | in a process whose frames are accounted for, user pages are reached by the program and no two show one frame |
| `ProcessBrk.AffordIs` | src/core/syscall.c:1274-1295 | the number of pages that the frames pay for is determined by the cost of that many and of one more |
| `ProcessBrk.ReleaseRange` | src/core/syscall.c:1296-1305 | exactly the pages of the range lose their translations, and no frame is lost |
| `ProcessBrk.SysBrk` | src/core/syscall.c:1252-1310 | in any state: the break moves exactly when the address is in the heap and the frames suffice; the translations and the frames lost afterwards; new pages are present, writable, reachable and each on a frame of its own that was free |
| `ProcessBrk.BrkOnHeap` | src/core/syscall.c:1252-1310 | on a heap that ends at its break the program gets usable pages of its own, no frame is lost, and it still ends at its break if and only if the free frames are not the cost of a proper part of the pages asked for |
| `ProcessBrk.GrowThenShrink` | src/core/syscall.c:1252-1310 | two calls, growing and shrinking back, restore every translation and every frame |
| `ProcessBrk.FailedGrowth` | src/core/syscall.c:1274-1279 | a process with four free frames that asks for two pages: one is mapped and the break stays |
| `ProcessBrk.BrkLosesFrame` | src/core/syscall.c:1274-1295 | that process grows again and is destroyed: one frame never comes back |
| `HeapModel.TakeKeeps` | src/memory/heap.c:58-74 | carving and marking a free block keeps blocks aligned, disjoint, tiling the granted pages and coalesced |
| `HeapModel.ReleaseKeeps` | src/memory/heap.c:77-103 | freeing and merging with both neighbours keeps all of that |
| `HeapModel.TakeLive` | src/memory/heap.c:117-133 | taking a block adds exactly one allocation, of the size asked or else the whole block, which is then less than 48 bytes larger |
| `HeapModel.ReleaseLive` | src/memory/heap.c:154-171 | freeing removes exactly one allocation |
| `HeapModel.TakeSums` | src/memory/heap.c:121-125 | bytes, bytes in use and number of allocations change as the counters do |
| `HeapModel.ReleaseSums` | src/memory/heap.c:163-170 | the counters follow a free exactly |
| `HeapModel.GrowKeeps` | src/memory/heap.c:34-54 | fresh pages join the tiling without overlap |
| `HeapModel.LiveApart` | src/memory/heap.c:11-16 | a header lies between any two allocations |
| `HeapModel.AllFreed` | src/memory/heap.c:77-103 | once everything is freed no block continues its neighbour |
| `Heap.Kheap.constructor` | src/memory/heap.c:105-108 | an empty heap, or one free block of five pages |
| `Heap.Kheap.SplitBlock` | src/memory/heap.c:58-74 | the headers in memory spell the split list |
| `Heap.Kheap.MergeFreeBlocks` | src/memory/heap.c:77-103 | the headers in memory spell the merged list |
| `Heap.Kheap.Append` | src/memory/heap.c:34-54 | fresh pages become the last block of the list and are counted |
| `Heap.Kheap.FindFit` | src/memory/heap.c:117-133 | the first free block that is large enough; none exactly when there is none |
| `Heap.Kheap.Kmalloc` | src/memory/heap.c:110-152 | for every size, NULL exactly for 0 bytes or when nothing fits and no pages are granted, else the first fit or the fresh pages; up to 2^64 - 32 bytes a 16-aligned allocation is added and all others stay; it has the aligned size, or is a whole block or run less than 48 bytes larger; beyond that the pointer cannot hold the request |
| `Heap.Kheap.Kfree` | src/memory/heap.c:154-171 | exactly that allocation ends; a second free of the block changes nothing |
| `Heap.Kheap.Kcalloc` | src/memory/heap.c:173-184 | refused exactly when the product does not fit a word; else NULL exactly when kmalloc is, and the block kmalloc takes; up to 2^64 - 32 bytes one allocation is added, zeroed, and the others are untouched; beyond that the pointer cannot hold the request |
| `Heap.Kheap.Krealloc` | src/memory/heap.c:186-213 | stays exactly when the aligned size fits the block, and is NULL exactly when nothing fits and no pages are granted; else the allocation moves, its old prefix with it; other allocations and their bytes are untouched; failure changes nothing |
| `Heap.WrappedRequestServed` | src/memory/heap.c:110-133 | a fresh heap asked for 2^64 - 1 bytes hands out its only block |
| `CacheInvariant.GetOk` | src/fs/bcache.c:214-278 | a get keeps recency list, hash chains, keys and dirty count right and changes no logical block, whatever the device does |
| `CacheInvariant.GetKeepsPinned` | src/fs/bcache.c:214-278 | a held buffer keeps its block and its data through any get |
| `CacheInvariant.WriteOkView` | src/fs/bcache.c:287-293 | a write by a holder changes exactly its block |
| `CacheInvariant.PutOk` | src/fs/bcache.c:280-285 | a put keeps the invariant and the logical blocks |
| `CacheInvariant.SyncOk` | src/fs/bcache.c:295-335 | a sync changes no logical block, also when writes fail or tear |
| `CacheInvariant.SyncedDiskIsView` | src/fs/bcache.c:295-335 | a true result means that the disk holds the logical blocks |
| `CacheRuns.StepView` | src/fs/bcache.c:214-335 | one call changes the logical blocks as it changes a plain map that is told only the call and whether a get succeeded |
| `CacheRuns.CacheRefinesMap` | src/fs/bcache.c:214-335 | after any run the cache shows the plain map, for every block; a write goes to the block of the get that handed the buffer out |
| `CacheRuns.StepOk` | src/fs/bcache.c:214-335 | every buffer handed out keeps its block until its holder puts it back |
| `CacheRuns.GetReadsMap` | src/fs/bcache.c:214-278 | a get at the end of any run returns the plain map's bytes |
| `CacheLaws.GetServes` | src/fs/bcache.c:214-278 | a get returns a buffer if and only if the block is cached, or the least recent buffer that nobody holds exists, its old contents are clean or can be written back, and the block exists and can be read |
| `CacheLaws.GetPins` | src/fs/bcache.c:214-278 | the buffer returned is held once more and most recent, all others keep count and order; a failed get leaves counts and order alone |
| `CacheLaws.EvictableIs` | src/fs/bcache.c:151-159 | the buffer found is the last of the recency list that nobody holds |
| `CacheLaws.SyncCleans` | src/fs/bcache.c:295-335 | exactly the selected dirty buffers whose write succeeds become clean, also after a failure |
| `CacheLaws.SyncAnswers` | src/fs/bcache.c:295-335 | the answer is true if and only if every write that was needed succeeded |
| `CacheLaws.RunExact` | src/fs/bcache.c:214-285 | buffers with as many references as holders, such as those of an unused cache, have as many after any run |
| `CacheLaws.RunRecency` | src/fs/bcache.c:54-77 | after any run the recency list is in the order of the last gets |
| `CacheLaws.EvictsOldest` | src/fs/bcache.c:151-159 | the buffer evicted after any run is, of those nobody holds, the one whose last get is longest ago |
| `BufferCache.Bcache.constructor` | src/fs/bcache.c:163-212 | an empty cache whose recency list holds the buffers that got memory |
| `BufferCache.Bcache.LruRemove` | src/fs/bcache.c:54-61 | unlinks one buffer |
| `BufferCache.Bcache.LruPushFront` | src/fs/bcache.c:63-70 | links a buffer at the front |
| `BufferCache.Bcache.LruTouch` | src/fs/bcache.c:72-77 | moves a buffer to the front |
| `BufferCache.Bcache.HtRemove` | src/fs/bcache.c:79-94 | removes a buffer from its chain only |
| `BufferCache.Bcache.HtInsert` | src/fs/bcache.c:96-101 | puts a buffer at the head of its chain |
| `BufferCache.Bcache.HtLookup` | src/fs/bcache.c:103-112 | the first valid match in the chain |
| `BufferCache.Bcache.WritebackOne` | src/fs/bcache.c:134-149 | the model's write-back, failures included |
| `BufferCache.Bcache.FindEvictable` | src/fs/bcache.c:151-159 | the least recent buffer that nobody holds |
| `BufferCache.Bcache.Get` | src/fs/bcache.c:214-278 | the state and result are the model's; GetServes and GetPins in CacheLaws say when it succeeds and what it changes |
| `BufferCache.Bcache.Reuse` | src/fs/bcache.c:236-277 | the victim emptied and filled as in the model, which RefillServes and RefillPins in CacheLaws describe |
| `BufferCache.Bcache.PutBuf` | src/fs/bcache.c:280-285 | the state is the model's |
| `BufferCache.Bcache.WriteBuf` | src/fs/bcache.c:287-293 | the state is the model's |
| `BufferCache.Bcache.Sync` | src/fs/bcache.c:295-335 | the state and result are the model's |
| `PipeRing.Ring.Read` | src/core/syscall.c:94-113 | the oldest bytes, as many as asked for and waiting; written is always read followed by waiting |
| `PipeRing.Ring.Write` | src/core/syscall.c:115-130 | as much as fits into 4096 bytes, behind what waits |
| `FdModel.ClearKeeps` | src/core/syscall.c:231-252 | closing keeps every pipe and vnode count exact and the slot is wiped with its last reference |
| `FdModel.CopyKeeps` | src/core/syscall.c:284-303 | installing a copy over any entry keeps every count exact; the source's vnode or pipe is never freed on the way |
| `FdModel.OpenKeeps` | src/core/syscall.c:177-197 | an opened file is held once and has a description of its own; a full table puts the reference back |
| `FdModel.MakePipeKeeps` | src/core/syscall.c:213-229 | a new pipe has two references, one reader and one writer |
| `FdModel.SyncKeeps` | src/core/syscall.c:254-282 | moving an offset or changing flags keeps descriptors of one description in agreement |
| `FdModel.GetPut` | src/vfs/vfs.c:795-815 | get adds one holder and put removes one, freeing at the last, for stored counts of 0 and 1 alike |
| `FdRuns.StepKeeps` | src/core/syscall.c:1021-1124 | every call by every process keeps the invariant |
| `FdRuns.CountsAfterAnyRun` | src/core/syscall.c:61-92 | after any calls a pipe is in use exactly while an entry names it and its counts are those entries; a vnode is live exactly while an entry holds it |
| `FdRuns.DescriptionsAgree` | src/core/syscall.c:254-282 | after any calls entries of one description are in one process and agree on file, offset and flags |
| `FdRuns.DupShares` | src/core/syscall.c:1038-1055 | dup makes an entry of the same description and adds one holder |
| `FdRuns.CloseFromEmpties` | src/core/process.c:127-136 | closing a process's files empties exactly its entries |
| `FdRuns.AllClosedFreesAll` | src/core/process.c:127-136 | with every entry closed no pipe is in use and no vnode is live |
| `FdLaws.DupLaw` | src/core/syscall.c:1038-1055 | dup succeeds exactly when the descriptor stands for something and one is free; the lowest free one from the bound on becomes its twin, in direction, file and description, and no other entry changes |
| `FdLaws.Dup2Law` | src/core/syscall.c:1057-1072 | dup2 makes the target, whatever it was, the twin of the source and changes no other entry; onto itself it does nothing |
| `FdLaws.CloseLaw` | src/core/syscall.c:1021-1036 | close empties exactly that entry and fails exactly when it is not in use |
| `FdLaws.CloseAllLaw` | src/core/process.c:127-136 | exactly the entries of the process are emptied |
| `FdLaws.OpenLaw` | src/core/syscall.c:1006-1018 | open gives the lowest free descriptor from 3 on, with the file, flags and offset asked for and a description nobody else has; with none free it fails and changes no entry |
| `FdLaws.OffsetLaw` | src/core/syscall.c:1994-2029 | the offset moves for exactly the entries of the description, and nothing else changes |
| `FdLaws.FlagsLaw` | src/core/syscall.c:1111-1120 | the append bit, and no other bit, changes for exactly the entries of the description |
| `FdLaws.CloexecLaw` | src/core/syscall.c:1098-1108 | close-on-exec changes for exactly that descriptor |
| `FdLaws.PipeLaw` | src/core/syscall.c:1176-1209 | pipe succeeds exactly when two descriptors and a slot are free; the lower descriptor reads and does not write, the other writes and does not read, both on the new pipe, and no other entry changes |
| `FdLaws.PipeCarries` | src/core/syscall.c:785-936 | after pipe, bytes written to the second descriptor are read from the first, in order and as far as the pipe holds; writing to the first or reading from the second is refused |
| `Descriptors.Table.FindFree` | src/core/syscall.c:199-211 | the lowest free descriptor from one on |
| `Descriptors.Table.ReleaseFd` | src/core/syscall.c:231-243 | drops the entry's reference; the last one wipes the pipe or frees the vnode; every other pipe keeps its bytes |
| `Descriptors.Table.InstallCopy` | src/core/syscall.c:284-303 | the target becomes the source's twin; only a pipe whose last reference went loses its bytes |
| `Descriptors.Table.SyncEntries` | src/core/syscall.c:254-282 | all file entries of the description in the process, and no other |
| `Descriptors.Table.SysClose` | src/core/syscall.c:1021-1036 | state and result are those of the step; a pipe keeps its bytes unless its slot was given up |
| `Descriptors.Table.SysDup` | src/core/syscall.c:1038-1055 | state and result are those of the step; a pipe keeps its bytes unless its slot was given up |
| `Descriptors.Table.SysDup2` | src/core/syscall.c:1057-1072 | state and result are those of the step; a pipe keeps its bytes unless its slot was given up |
| `Descriptors.Table.SetFdFlags` | src/core/syscall.c:1098-1108 | state and result are those of the step |
| `Descriptors.Table.SetFlags` | src/core/syscall.c:1111-1120 | state and result are those of the step |
| `Descriptors.Table.MoveOffset` | src/core/syscall.c:1994-2029 | state and result are those of the step |
| `Descriptors.Table.SysOpen` | src/core/syscall.c:1006-1018 | state and result are those of the step |
| `Descriptors.Table.SysPipe` | src/core/syscall.c:1176-1209 | state and result are those of the step; the first descriptor returned reads and only reads, the second writes and only writes; the new pipe is empty and every other keeps its bytes |
| `Descriptors.Table.CloseFiles` | src/core/process.c:127-136 | the state is that of the step; pipes that others hold keep their bytes |
| `Descriptors.Table.ReadPipe` | src/core/syscall.c:931-936 | state, result and bytes are those of the step: the oldest waiting bytes; descriptors, counts and all other pipes stay |
| `Descriptors.Table.WritePipe` | src/core/syscall.c:785-790 | accepted exactly on a write end while some entry reads; as much as fits is appended |
| `Descriptors.Table.Serve` | src/core/syscall.c:785-1209 | any call of any process gives the state, result and bytes of the step |
| `Descriptors.ServeAll` | src/core/syscall.c:785-1209 | any run on the tables and rings is the run of the model |
| `PipeRuns.StepOk` | src/core/syscall.c:94-130 | every call keeps, for every pipe: sent is received followed by waiting, and at most 4096 bytes wait |
| `PipeRuns.ExchangedIs` | src/core/syscall.c:94-130 | what callers put in and got out, told by their calls and the answers alone, is what the pipe records |
| `PipeRuns.ReadsArePrefix` | src/core/syscall.c:94-130 | after any calls of any processes the bytes read from a pipe are a prefix of the bytes written to it, and the rest waits |
| `Paths.WalkCanonical` | src/core/syscall.c:564-598 | the component stack stays free of ".", ".." and empty names and within the buffer |
| `Paths.NormalIsStable` | src/core/syscall.c:600-636 | a normal path fits the buffer and normalising it again changes nothing |
| `Paths.WalkJoined` | src/core/syscall.c:638-676 | walking p and from there q is walking p/q, for any paths, directories and buffers |
| `Paths.Meaning` | src/core/syscall.c:564-598 | from any directory "." stays, ".." leads back to where the directory was entered from and stays at the root, and any other name that fits leads one deeper |
| `Paths.UpCancels` | src/core/syscall.c:600-636 | walking a name that fits, ".." and q is walking q, from any directory |
| `Paths.NormalCancels` | src/core/syscall.c:600-636 | as texts: p/c/../q and p/q have the same normal form, for every p, q and name c that fits behind p; so have p/./q and p//q, and /../q and /q |
| `Paths.RootUp` | src/core/syscall.c:544-562 | ".." at the root stays at the root, whatever follows |
| `Paths.FromDirectory` | src/core/syscall.c:658-676 | directory, slash and path from the root is the path from the directory, if the directory fits the buffer |
| `PathBuffers.PopPathComponent` | src/core/syscall.c:544-562 | the buffer holds the path without its last component |
| `PathBuffers.AppendPathComponent` | src/core/syscall.c:564-598 | one component entered, or failure exactly when the text would not fit |
| `PathBuffers.NormalizeAbsolutePath` | src/core/syscall.c:600-636 | succeeds exactly when the component stack fits, and the buffer then holds it |
| `PathBuffers.ShellPop` | src/core/shell.c:1132-1158 | the buffer holds the path without its last component, the root as "/" |
| `PathBuffers.ShellAppend` | src/core/shell.c:1160-1192 | one component entered, or failure exactly when the text would not fit |
| `PathBuffers.NormalizeShellPath` | src/core/shell.c:1203-1236 | as the component stack says, from the root or from the current directory |
| `PathBuffers.BothNormalise` | src/core/shell.c:1203-1236 | on every absolute path and buffers of one size kernel and shell agree on success and result |
| `PathBuffers.ResolveKernelPath` | src/core/syscall.c:638-676 | succeeds exactly when the path walked from the directory of the process fits and directory and path fit the joining buffer; the result can be the next directory |
| `PathBuffers.BothResolve` | src/core/shell.c:1203-1236 | on every path the kernel succeeds exactly when the shell does and a relative path fits the joining buffer, with the same text |
| `ByteFields.UnpackOfPack` | src/core/kxe.h:39-65 | packed little-endian fields of any widths read back, whatever follows |
| `ByteFields.PackOfUnpack` | src/core/kxe.h:39-65 | fields of any widths read from bytes pack to the same bytes |
| `ByteFields.UnpackIs` | src/core/kxe.h:39-65 | each field is read at the sum of the widths before it |
| `ByteFields.FieldsAt` | src/core/kxe.h:39-65 | a field of 2, 4 or 8 bytes is the number with the lowest byte first |
| `KxeImage.HeaderLayout` | src/core/kxe.h:39-54 | every header field is the number of its width at its offset |
| `KxeImage.SectionLayout` | src/core/kxe.h:56-65 | every field of a section is the number of its width at its offset |
| `KxeImage.SectionOkIs` | src/core/kxe.c:75-147 | a section passes exactly when every address it covers is a user address in the announced image, it starts on a page, every byte it loads lies in the file behind the header, and it is not both writable and executable |
| `KxeImage.AcceptsExecutables` | src/core/kxe.c:149-287 | kxe_validate accepts exactly the executables: magic, version and sizes, the CRC of the page with its checksum zeroed, sane sections no two of which share a page, and an entry in an executable one |
| `Kxe.HeaderReadsBack` | src/core/kxe.h:39-54 | a packed header reads back |
| `Kxe.TableReadsBack` | src/core/kxe.h:56-65 | each entry of a packed section table reads back |
| `Kxe.KxeValidate` | src/core/kxe.c:149-287 | accepts exactly the pages whose header, checksum and sections pass every check, and returns what they hold |
| `Elf2Kxe.TruncationTest` | tools/elf2kxe.c:266-270 | the test accepts exactly segments in the file if and only if no segment's end wraps 64 bits |
| `Elf2Kxe.KeptExactly` | tools/elf2kxe.c:251-260 | the segments converted are the PT_LOAD segments with memory, each as often as it occurs |
| `Elf2Kxe.KeptOrder` | tools/elf2kxe.c:251-260 | in the order of the program headers |
| `Elf2Kxe.PlanSections` | tools/elf2kxe.c:251-310 | accepts exactly 1 to 16 segments that pass the test in 64-bit arithmetic and are not both writable and executable, and plans offsets, bounds and flags |
| `Elf2Kxe.PlaceSection` | tools/elf2kxe.c:281-294 | one section at the next multiple of 16, its bytes counted |
| `Elf2Kxe.FlagsMean` | tools/elf2kxe.c:119-131 | a section is writable or executable exactly when its segment is |
| `Elf2Kxe.Convert` | tools/elf2kxe.c:251-380 | the output is the header page and then each segment's bytes at its offset, and its length is the header's file size |
| `Elf2Kxe.EmitPayloads` | tools/elf2kxe.c:352-378 | each section's bytes at its offset, zeros between |
| `Elf2Kxe.RightIffNoWrap` | tools/elf2kxe.c:262-378 | the output holds every segment as the file has it if and only if no segment wraps |
| `Elf2Kxe.BytesBeforeTheFile` | tools/elf2kxe.c:266-270 | a segment of sixteen bytes at offset 2^64 - 8 is converted, and its first eight bytes are not the file's |
| `Elf2Kxe.PageReadsBack` | tools/elf2kxe.c:312-336 | the loader reads back the planned header, checksum and sections |
| `KxeLoad.AcceptedIff` | src/core/kxe.c:149-287 | converted output is accepted exactly when segments are page aligned, in range, page disjoint, no longer in the file than in memory, and the entry is executable |
| `KxeLoad.AcceptedIsShort` | src/core/kxe.c:149-287 | a page whose layout wrapped 64 bits is never accepted |
| `KxeLoad.InMemoryIff` | src/core/kxe.c:289-336 | loaded payloads are the ELF image if and only if no segment wraps |
| `KxeLoad.LoadSection` | src/core/kxe.c:289-336 | every page of the section, and no other, is mapped: file bytes, then zeros, writable as flagged |
| `KxeLoad.LoadSections` | src/core/kxe.c:546-555 | each section is in memory and the mapped pages are exactly those of the sections |
| `KxeLoad.ElfToMemory` | src/core/kxe.c:477-585 | loads exactly when the converter accepts it, it is loadable and below the stack; then every page is told, and memory is the ELF image, zeros to the page end, writable exactly as the segment, if and only if no segment wraps |
| `InitialStack.UserStack.WriteUserBytes` | src/core/kxe.c:338-366 | writes the bytes across pages and nothing above them |
| `InitialStack.UserStack.PushWord` | src/core/kxe.c:368-375 | the word reads back at the new stack pointer |
| `InitialStack.UserStack.SetupInitialStack` | src/core/kxe.c:377-475 | succeeds exactly for at most 32 arguments of at most 127 bytes; rsp is aligned, inside the stack, and what it points to decodes to argc, arguments, NULL, environment, NULL |
| `DirRecords.PutParses` | tools/kifs_cp.c:579-588 | a written record is what a scan reads there |
| `DirRecords.Rewrite` | tools/kifs_cp.c:719-767 | rewriting the bytes of one record replaces that record in the chain and no other |
| `DirRecords.ReplaceRebinds` | tools/kifs_cp.c:719-767 | replacing a record binds its name anew and leaves every other name |
| `DirBlock.PutOver` | tools/kifs_cp.c:874-898 | writing over a matching or free record |
| `DirBlock.PutAfter` | tools/kifs_cp.c:899-908 | shortening a record and writing behind it: both parse, the name is bound, all others stay |
| `DirBlock.ScanDirBlock` | tools/kifs_cp.c:719-767 | the last record that binds the name and the last one a new entry could go into |
| `DirBlock.DirWriteEntry` | tools/kifs_cp.c:579-588 | the record's bytes in place, nothing else |
| `DirBlock.UpdateDirChecksum` | tools/kifs_cp.c:769-776 | the checksum that validation will compute, nothing else |
| `DirBlock.EnsureDirEntry` | tools/kifs_cp.c:852-917 | succeeds exactly when the name is bound or the last candidate has room; then the name is bound to the inode with the file type given, every other name and the chain's end are as before, and the block validates; else nothing is written |
| `DirBlock.FreeRecordPassedOver` | tools/kifs_cp.c:736-744 | a block of 4096 bytes with a free record that is long enough, in which a new name of one letter is refused |
| `DirBlock.RoomOverlooked` | tools/kifs_cp.c:719-767 | when some record has room the block is called full if and only if the last candidate is in use and has no slack |
| `KifsBitmap.Placement` | tools/kifs_cp.c:528-559 | different bits have different places |
| `KifsBitmap.BitmapMem.Get` | tools/kifs_cp.c:528-537 | the bit, and used outside the bitmap |
| `KifsBitmap.BitmapMem.Set` | tools/kifs_cp.c:539-548 | exactly that bit is set |
| `KifsBitmap.BitmapMem.Clear` | tools/kifs_cp.c:550-559 | exactly that bit is cleared |
| `KifsModel.ExtentLookup` | src/fs/kifs/kifs.c:290-306 | finding a file block through its extent gives the block at its place in file order |
| `KifsModel.MapInline` | src/fs/kifs/kifs.c:296-306 | the kernel finds the block that the tools wrote at that place of the file, and none exactly beyond its end |
| `KifsModel.StoreKeepsConsistent` | tools/kifs_cp.c:1106-1143 | giving a file free blocks keeps every file in the data area, no block shared, and the bitmap exactly the metadata and the owned blocks |
| `KifsModel.StoreKeepsOthers` | tools/kifs_cp.c:1106-1143 | every other file keeps inode, blocks and contents |
| `KifsModel.ReadBack` | tools/kifs_cp.c:919-939 | data laid out by padded chunks reads back |
| `KifsCopy.Image.FreeInodeBlocks` | tools/kifs_cp.c:600-613 | clears exactly the inode's blocks |
| `KifsCopy.Image.GatherExtents` | tools/kifs_cp.c:615-672 | the first free blocks as runs; fails exactly when there are too few or more than eight runs |
| `KifsCopy.Image.AllocateExtents` | tools/kifs_cp.c:615-685 | and marks exactly them; failure changes nothing |
| `KifsCopy.Image.WriteFileData` | tools/kifs_cp.c:919-939 | each block holds its chunk, zero padded; no other block changes |
| `KifsCopy.Image.FindFreeInode` | tools/kifs_cp.c:590-598 | the lowest free inode from 1 on, none exactly when there is none |
| `KifsCopy.Image.StoreFile` | tools/kifs_cp.c:1106-1140 | the file's blocks replaced, written and entered; it reads back |
| `KifsCopy.Image.FlushMetadata` | tools/kifs_cp.c:941-980 | the disk holds what memory holds |
| `KifsCopy.ChooseInode` | tools/kifs_cp.c:1075-1115 | the inode the name is bound to if it is a file, else the lowest free one |
| `KifsCopy.CopyFile` | tools/kifs_cp.c:1075-1150 | succeeds exactly when the name is free or a file and blocks, extents, inode and record suffice; then the file reads back, the name leads to it as a file, in the inode it led to before or in one that was free, every other name, file, inode and block is as before and the image is consistent, its bitmap exactly the metadata and the owned blocks; else every file reads as before |
| `Mkfs.ChooseLayout` | tools/mkfs_kifs.c:387-426 | ends, succeeds for every partition of 64 blocks or more, passes the layout check, has an inode for everything mkfs creates, and halves the number asked for no more often than it must |
| `Mkfs.OneRegion` | tools/mkfs_kifs.c:387-426 | every block of the partition belongs to exactly one of superblocks, bitmaps, inode table, data and journal |
| `MkfsDirs.FreshTree` | tools/mkfs_kifs.c:558-616 | "." leads every directory to itself, ".." to the root, and the root's names bin, dev, mnt, home and tmp to their directories |
| `Mkfs.FreshConsistent` | tools/mkfs_kifs.c:476-556 | the new bitmaps and inodes are consistent |
| `MkfsDirs.BuildDirectory` | tools/mkfs_kifs.c:558-616 | the block validates and its records are exactly the given names |
| `MkfsDirs.MkfsPartition` | tools/mkfs_kifs.c:387-697 | succeeds for every partition of 64 blocks or more; the image is consistent, its used blocks are exactly the first ones, the directories form the tree, there is no file yet, every directory is ready for copies, and the layout is the one chosen |
| `KifsSession.CopyJob` | tools/kifs_cp.c:1023-1150 | one run of the copy tool succeeds exactly when there is room and keeps the volume sound: consistent, the metadata bits included, and the directory tree as mkfs made it |
| `KifsSession.CopyKeepsTree` | tools/kifs_cp.c:1075-1150 | a copy leaves "." , ".." and the base directories leading where they led |
| `KifsFiles.CopyLists` | tools/kifs_cp.c:1075-1150 | a copy puts its file under its name; every other name of every directory shows what it showed, and no file gets a second name |
| `KifsFiles.FailureLists` | tools/kifs_cp.c:1075-1150 | a copy that fails changes nothing a reader sees |
| `KifsFiles.OutcomeIs` | tools/kifs_cp.c:1023-1150 | a name is listed exactly when a copy to it succeeded, with the bytes of the last one that did |
| `KifsFiles.MkfsThenCopies` | tools/kifs_cp.c:1023-1150 | after mkfs, for any copies: each succeeds exactly when there is room for it then, the volume stays consistent and its directories usable, and in the end every name shows the bytes of the last successful copy to it and no other name leads to a file |
| `UndoLog.LogKeepsFaithful` | limine/limine.c:439-488 | the earliest record of a byte keeps its original value when a write is logged |
| `UndoLog.UndoRestores` | limine/limine.c:490-540 | undoing gives the original device if and only if no unlogged byte was changed, overlapping records included |
| `InstallDevice.Device.FlushCache` | limine/limine.c:256-275 | the disk holds what was written, or some bytes of it and the cache keeps the rest |
| `InstallDevice.Device.CacheBlock` | limine/limine.c:277-302 | nothing that was written is lost, whatever fails |
| `InstallDevice.Device.Read` | limine/limine.c:417-437 | the bytes as written so far, whatever is cached |
| `InstallDevice.Device.WriteAll` | limine/limine.c:464-482 | exactly a prefix of the buffer is laid down, all of it on success; a failure leaves its last block alone |
| `InstallDevice.Device.LoggedWrite` | limine/limine.c:439-488 | the replaced bytes are logged exactly when all were replaced |
| `InstallDevice.Device.ReverseLog` | limine/limine.c:318-324 | the records in reverse |
| `InstallDevice.Device.PutBack` | limine/limine.c:500-519 | a true result means the record is written and nothing before it was lost, retry included |
| `InstallDevice.Device.Uninstall` | limine/limine.c:490-540 | a true result means every record reached the disk, in order, and a device that does not fail gives it |
| `InstallDevice.Serve` | limine/limine.c:439-488 | one request keeps the log able to undo everything except the bytes that a failed write laid down, none of them in its last block |
| `InstallDevice.Install` | limine/limine.c:1113-1131 | on success the device holds exactly what the requests ask for and the log can undo it; on a device that does not fail it succeeds for all requests that lie on it; an undone failure restores the device if no request can lose a byte, and if one can, a device that fails there loses it and the undo is reported as done |
| `InstallDevice.HealthyInstall` | limine/limine.c:1113-1131 | for any contents and any requests that lie on the device: installed, every byte then is the one the last request for it gives or as before, and uninstalling gives the contents back |
| `InstallDevice.UnsafeInstall` | limine/limine.c:1122-1131 | for any requests that can lose a byte, a device on which they do |
| `InstallDevice.OneBlockIsSafe` | limine/limine.c:464-482 | requests that each lie in one block can lose no byte |
| `InstallDevice.TwoBlockWriteLoses` | limine/limine.c:464-482 | four bytes across a block border: install fails, the undo succeeds, and a byte has changed |
| `InstallDevice.InstallThenUninstall` | limine/limine.c:490-540 | installing and uninstalling restores the device byte for byte |
| `Crc32.TableStep` | src/libc/crc32.c:24-26 | one table look-up does the work of eight shifts |
| `Crc32.SerialIsShifts` | src/libc/crc32.c:6-16 | feeding eight bits serially is xoring a byte in and shifting eight times |
| `Crc32.InitTable` | src/libc/crc32.c:6-16 | entry i is eight shifts of i |
| `Crc32.Crc32Ieee` | src/libc/crc32.c:18-29 | the table-driven result is the bit-serial CRC-32 of IEEE 802.3 section 3.2.9, for every byte string |
| `Crc32.OneByteErrorDetected` | src/libc/crc32.c:18-29 | messages that differ in one byte have different checksums |

## Left out

- Hardware: interrupts, context save and restore, the TLB, port I/O and timing; a switch is the choice of the next process.
- Pid wrap-around: process ids only grow in the model.
- Kernel.Machine.SysReadKey: reads one key or blocks; the line discipline and escape sequences of console input are not modelled.
- Pmm.Allocator.constructor: the initial bitmap is any bitmap; the parsing of the boot memory map is not modelled.
- vmm_init and the kernel half of the page tables: shared and fixed. Huge pages do not occur.
- Vmm.AddressSpace.MapPage: frames come from the bitmap allocator, with page 0 in use; while a process lives, the others only give frames back.
- Kernel.Machine.ProcessCreate: the allocation of the page table and the kernel stack is `ProcessMemory.Create`; here it is an argument that succeeds or fails.
- Kernel.Machine.Handle: its events are the calls that change processes, the timer and the keyboard; descriptor calls are `Descriptors.Table.Serve` and brk is `ProcessBrk.SysBrk`.
- Kernel.Machine.SysExec: closing the files of the replaced process is `Descriptors.Table.CloseFiles`; it is not part of this step.
- Kernel.Machine.SysExit: closing the files of the process is `Descriptors.Table.CloseFiles`, and freeing its memory is `ProcessMemory.Process.Destroy`; the three are not joined into one step.
- Heap.Kheap.Kcalloc: what is zeroed after a request beyond 2^64 - 32 bytes is not modelled.
- Heap.Kheap.Krealloc: after a request beyond 2^64 - 32 bytes has wrapped, the copy and the free are not modelled.
- Heap.Kheap.Kfree: a pointer must be NULL or one that had a header; header bytes overwritten by their new owner are not modelled. The counters are unbounded; they count disjoint 64-bit ranges.
- bcache used_bufs and the other statistics, which the source calls approximate.
- FdModel.OpenKeeps: description numbers only grow; the source wraps after 2^32 descriptions.
- Descriptors.Table.SysOpen: starts from a resolved vnode; path resolution, creation and truncation are not modelled.
- Descriptors.Table.MoveOffset: the offset is a parameter; the arithmetic of seek and the file operations that move it are not modelled.
- PathBuffers.NormalizeShellPath: lengths are unbounded where the source uses 32 bits.
- Elf2Kxe.Convert: starts from program headers; the ELF identification checks are not modelled. What lies in memory outside the input is a parameter. Of an output whose layout reaches 2^64 bytes only the header page is described; no such page is accepted.
- KxeLoad.LoadSection: the contents of pages; allocation, mapping and their failure are `ProcessMemory.Process.MapRegion`.
- KxeLoad.LoadSections: no section fails, for the same reason.
- KifsCopy.Image.FlushMetadata: the checksums of the metadata blocks and the two superblock copies are not modelled.
- PipeRuns.ReadsArePrefix: reads and writes of files and the console leave the pipes alone; their own results are not modelled.
- KifsCopy.CopyFile: device I/O succeeds; the destination directory is resolved and its entries in range are in use; the superblock copies, timestamps and mode bits are not modelled; the block count of the file is unbounded.
- Inodes with extent trees: the tools refuse them and the model has none.
- Mkfs.ChooseLayout: for sizes and inode counts whose round-ups do not wrap 32 bits.
- MkfsDirs.MkfsPartition: memory and device I/O succeed; bitmap block headers and the superblock bytes are not modelled.
- GPT lookup, the kernel's own KiFS and FAT drivers, the VFS mount table, drivers, the console and shell commands: they would add members without harder properties.
- InstallDevice.Device.Uninstall: nothing is promised on a false result; after a failed retry the source keeps using a cache whose contents it could not read.
- The file that keeps the undo log between runs: its records are taken to come back as they were stored.
