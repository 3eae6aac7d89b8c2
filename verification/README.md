# YinyangOS: a verified model of the kernel's core

YinyangOS is a small message-passing kernel for the 80386. This project models the parts of it
whose correctness is a statement about the whole machine, and proves those statements:

- **Virtual memory** (`Words`, `ProcessTable`, `PageGraph`, `PhysicalMemory`, `PageRequests`,
  `Teardown`, `AddressSpace`, `FirstFit`, `CloneSpace`, `Views`, `FrameCounters`, `MemoryInvariant`,
  `MemoryTheorems`, `MemoryEffects`, `UserMemory`, `UserCopy`, `MemoryManager`, `MemoryServer`). User pages and page
  tables lie in one physical memory, so that a data write could hit a table; the two-level walk
  reads real bytes. The *page graph* of a state says which directory or table entry of which
  process points at which frame. `Sound` says that user frames have one reference, that a
  reference counter is the number of references, and that a table is never a page; `Good` adds
  that live processes have the kernel window and that no user table is empty. Every operation of
  `kernel/mm.c` is an imperative method on the class `Machine`, proved against the graph;
  `MemoryServer.Serve` runs any list of requests.
- **Fork and exec** (`ForkStore`, `ForkStraddle`, `ForkFrames`, `ForkWitness`, `Fork`, `Argv`,
  `ProgramImage`, `LoadWitness`, `TrapFrames`, `ExecStack`, `Exec`, `KernelPaging`; `SampleStates` has the written-out
  states of the two witnesses): the child's memory, the packing and parsing of arguments,
  the loading of the program, and the stack it starts on, read back through user addresses.
- **Message passing** (`Semaphore`, `Lock`, `Rings`, `Mail`, `Mailbox`, `MessageBox`, `Ipc`,
  `IpcCells`, `IpcRuns`, `IpcTheorems`, `ProducerConsumer`). `MessageBox` is the heap: a slot pool
  threaded onto two circular doubly linked rings, each method doing to the heap what a function of
  `Mail` does to a value. `Ipc` is the machine of all interleavings of those functions with
  semaphore steps, for any number of processes and interrupt handlers, split at the boundaries of
  lock and unlock. `Lock` shows why the parts between are indivisible.
- **Scheduling** (`RoundRobin`, `Scheduler`, `WaitQueue`): the process ring on the heap, the search
  for the next process, and the queue of processes waiting for an exit.
- **Drivers** (`SectorCache`, `IdeDriver`, `AlarmQueue`, `TimerDriver`, `Lines`, `Typing`, `Terminal`): the
  write-back sector cache against a flat disk, the delta queue of alarms against absolute
  deadlines, and the line editor and input ring against sequences of lines.

`Counting` holds facts about the sizes of finite sets.

A panic of the kernel is a result `ok == false` (or the field `panic` of `Ipc.State`), and the
contract says exactly when it happens; where the kernel takes a limit for granted without
checking it, that limit is a precondition and is listed at the end.

In six places the code does not do what its design needs. Each has an input that shows it and the
exact condition under which the code is right:

- An alarm of zero or negative seconds is overdue when it is set, and delays those behind it; one of
  more than 21474836 seconds overflows the 32-bit product and goes off at another time than asked.
  All alarms are on schedule at every point of a run if and only if each asked for 1 to 21474836
  seconds (`AlarmQueue.RunOnTimeExactly`; one tick: `AlarmQueue.OnTimeExactly`; inputs:
  `AlarmQueue.ShortAlarmDelays`, `AlarmQueue.LongAlarmFiresAtOnce`).
- An empty argument list, or one with an empty string in it, is not found again by exec
  (`Argv.ScanFindsAllIff`; inputs: `Argv.NoStringsAreLost`, `Argv.EmptyStringIsLost`).
- The saved eax of a fork is cleared at a physical address. When its word goes over into a page
  whose frame is not the next one, the store hits the frame behind the first page instead
  (`ForkStraddle.StraddlingStore`). When this matters can be told before the fork
  (`Fork.ForkedWellExactly`; input: `ForkWitness.StraddlingForkFails`).
- `exit_page` decrements counters outside its array: for every live process 4096 bytes, each once,
  from 0xFF000 bytes behind its start on (`FrameCounters.ExitStaysInsideExactly`).
- The loader allocates `memsz / 4096 + 1` pages for a segment. A segment that starts inside a page
  can need one more: then part of its memory is not mapped, and bytes of the file are stored over
  another segment or through an entry that is not present. With the next page free a segment gets
  all its memory if and only if it lies in those pages (`ProgramImage.FitsIsTheGuard`); a whole
  program is in place if and only if the segments cover for each other and do not contradict each
  other (`ProgramImage.InPlaceExactly`; input: `LoadWitness.UnalignedProgramFails`).
- A reader of the terminal can be left waiting beside unread input (`Lines.LeftWaitingExactly`;
  input: `Lines.ReaderLeftWaiting`), and for ever if others keep coming (`Lines.ReaderCanStarve`).

## Model

| member | source | states |
|---|---|---|
| Words.MakeEntryDecodes | kernel/memory/util.c:12-28 | an entry made for a frame has its number, and of the flags below it just those for present, writable and user |
| PhysicalMemory.AddressParts | kernel/mm.c:161-162 | an address is its directory index, table index and offset, each in range |
| PhysicalMemory.ReadDir | kernel/mm.c:139-141 | the present bit and frame of a directory word are what the page graph says |
| PhysicalMemory.ReadEntry | kernel/mm.c:144-146 | the same for a table word read out of physical memory |
| PhysicalMemory.EntryChangesOneSite | kernel/memory/util.c:21-28 | writing one table entry in memory changes one site of the page graph and no other |
| PhysicalMemory.LinkTable | kernel/mm.c:172-184 | a free frame made a user table keeps the counters exact, and its stale entries are not in force |
| PhysicalMemory.GraphIgnoresData | kernel/mm.c:129-136 | bytes outside user tables cannot change any mapping |
| PageGraph.LinkFresh | kernel/mm.c:101-111 | linking a frame whose counter is zero and setting the counter to one keeps all counters exact |
| PageGraph.Unlink | kernel/mm.c:115-118 | dropping a reference with its decrement keeps them exact; the counter was positive |
| PageGraph.Share | kernel/mm.c:123-125 | sharing a kernel table with its increment keeps them exact, without overflow |
| PageGraph.CountersBounded | kernel/mm.c:8 | no counter exceeds 32, so the 8-bit counters never wrap |
| PageGraph.FreeMeansUnreferenced | kernel/mm.c:101-111 | a counter is zero if and only if no entry of any process points at the frame |
| PageGraph.UserFrameUnique | kernel/mm.c:195 | a frame with a user reference has no other reference |
| PageGraph.FreeCount | kernel/mm.c:74-83 | the empty frames are exactly the frames nothing points at, counted |
| PageGraph.FramesTaken | kernel/mm.c:101-111 | each new site costs exactly one empty frame |
| PageGraph.OutOfFrames | kernel/mm.c:109 | running out part-way means there were fewer empty frames than sites to fill |
| FrameCounters.CounterIndex | kernel/mm.c:88-96 | pa_to_id with its 32-bit wrap is inside the array exactly for frames from 16MB to 128MB, and undoes id_to_pa |
| FrameCounters.ExitStaysInsideExactly | kernel/mm.c:251-264 | every counter index the loops of exit_page compute is inside the array if and only if the process has no address space; for a live process the indices outside are 0xFF000 to 0xFFFFF, each once |
| MemoryManager.Machine.AllocateMemory | kernel/mm.c:101-111 | the first frame with counter zero is taken; panic exactly when there is none |
| MemoryManager.Machine.FreeMemory | kernel/mm.c:115-118 | one counter goes down, modulo 256 |
| MemoryManager.Machine.ShareMemory | kernel/mm.c:123-125 | one counter goes up, modulo 256 |
| MemoryManager.Machine.CopyMemory | kernel/mm.c:129-136 | one frame becomes byte-equal to another and nothing else changes |
| MemoryManager.Machine.AllocatePage | kernel/mm.c:150-204 | succeeds exactly when the range is unmapped and the frames for its pages and new tables are there; then the graph has grown by just those sites, in frames that were free |
| MemoryManager.Machine.FreePage | kernel/mm.c:341-404 | succeeds exactly when the whole range is mapped; then just those pages are gone, and the tables they emptied |
| MemoryManager.Machine.ExecPage | kernel/mm.c:206-239 | one user table and one user page are left, at 0xBFFFF000; the empty frames rise by the old user sites minus 2; the others and the kernel half stay; panic exactly when those frames are not there |
| MemoryManager.Machine.ExitPage | kernel/mm.c:242-267 | the teardown that sharing needs: all references of the process are released, each with its counter, and no byte of memory changes |
| MemoryManager.Machine.ExitPageAsWritten | kernel/mm.c:242-267 | the loops as they stand over all 1024 directory entries reach such an end too, make exactly the listed free_memory calls, and lower each of the 4096 bytes behind the array by one |
| MemoryTheorems.ExitedIsUnique | kernel/mm.c:242-267 | that end is one state, so the two leave the same directories, counters and memory |
| MemoryManager.Machine.InitUserPage | kernel/mm.c:408-458 | a new process has the kernel window and its stack page, at a cost of exactly 6 frames |
| MemoryManager.Machine.CopyPage | kernel/mm.c:270-338 | the target gets a twin of each user site with equal bytes in fresh frames, the lowest free ones in the order of the address space, and shares the kernel tables; frames used are the user tables and pages of the source, and panic is exactly their lack |
| PageRequests.FitsExactly | kernel/mm.c:170-203 | the frames an allocation used are the pages and missing tables of its range |
| PageRequests.RequestTooLarge | kernel/mm.c:109 | a panic part-way through means the request never fitted |
| Teardown.FramesReturned | kernel/mm.c:217-231 | releasing the user half returns one frame for each user site and no frame of another process |
| CloneSpace.CloneCount | kernel/mm.c:299-320 | a clone costs one frame for each user table and page of the source |
| Views.UserWalk | kernel/pm.c:65-72 | the hardware walk below 3G is mapped, and to what, exactly as the page graph says |
| Views.ForkClones | kernel/mm.c:299-320 | the child maps the same user addresses with the same bytes, in frames unused before |
| MemoryInvariant.Isolated | kernel/mm.c:150-404 | an operation that keeps the sites and frames of others changes no translation and no byte of theirs |
| MemoryInvariant.WindowCloned | kernel/mm.c:322-331 | after fork the child reaches the kernel through the very tables of its parent |
| MemoryInvariant.GoodAfterAlloc | kernel/mm.c:150-204 | allocation keeps the machine invariant and disturbs nobody else |
| MemoryInvariant.GoodAfterFree | kernel/mm.c:341-404 | so does freeing: no user table is left empty |
| MemoryInvariant.GoodAfterExec | kernel/mm.c:206-239 | so does exec |
| MemoryInvariant.GoodAfterExit | kernel/mm.c:242-267 | so does exit, after which the process is unused |
| MemoryInvariant.GoodAfterInit | kernel/mm.c:408-458 | so does the creation of a process |
| MemoryInvariant.GoodAfterCopy | kernel/mm.c:270-338 | so does fork |
| MemoryTheorems.CountersFollowGraph | kernel/mm.c:8 | the counters are determined by the references alone |
| MemoryTheorems.FreeUndoesAllocate | kernel/mm.c:150-204 | freeing a range just allocated restores every mapping, every counter and every process's view |
| MemoryTheorems.AllocatedIsMapped | kernel/mm.c:341-404 | a range just allocated is mapped throughout, so that it can be freed |
| MemoryEffects.AllocateEffect | kernel/mm.c:150-204 | address by address: after allocate_page the range is mapped besides what was, and what was mapped keeps its bytes |
| MemoryEffects.FreeEffect | kernel/mm.c:341-404 | after free_page what was mapped is so but for the range, with its bytes |
| MemoryEffects.ExecEffect | kernel/mm.c:206-239 | after exec_page the addresses from 0xBFFFF000 to 3G are mapped and no other user address |
| MemoryEffects.InitEffect | kernel/mm.c:428-450 | the same after init_user_page |
| MemoryEffects.ExitEffect | kernel/mm.c:242-267 | after exit_page no user address is mapped |
| MemoryEffects.RangeIsFree | kernel/mm.c:150-404 | the conditions of allocate_page and free_page on the range: no address of it mapped, all of them mapped |
| MemoryServer.AllocateAndFree | kernel/mm.c:150-404 | allocate_page and then free_page: whenever the first succeeds so does the second, and everything is back |
| MemoryServer.Acceptable | kernel/mm.c:27-60 | true exactly for the requests the process manager may send: live targets, unused targets for new processes, ranges below 3G |
| MemoryServer.Perform | kernel/mm.c:27-60 | each request succeeds exactly when its frames and mappings allow; then it has its effect on its process, keeps the invariant, and every other process keeps its translations and bytes |
| MemoryServer.Serve | kernel/mm.c:20-64 | any list of requests, mixed with stores of the processes, is served one by one; it stops early only at the first inadmissible request or at a panic, with its exact cause |
| MemoryServer.ServedShows | kernel/mm.c:20-64 | what each served request leaves at each user address of its process: whether it is mapped, and to what byte |
| MemoryServer.RunIsolates | kernel/mm.c:20-64 | over any run a process that no request is about keeps its translations and bytes |
| AddressSpace.WindowTranslates | kernel/mm.c:433-443 | a process with the kernel window sees x at KOFFSET + x for all x below 16MB |
| AddressSpace.WindowKept | kernel/mm.c:237-238 | what keeps the kernel half keeps the window |
| AddressSpace.EmptyIsGood | kernel/mm.c:66-71 | zero counters and empty directories, over any stale memory, satisfy the invariant |
| KernelPaging.InitPage | kernel/memory/kvm.c:8-29 | the kernel's own tables map the first 128MB at 0 and at KOFFSET and nothing else, for every 32-bit address |
| KernelPaging.WindowMatchesKernel | kernel/memory/kvm.c:18-29 | below 16MB every process sees at KOFFSET what the kernel's own tables show |
| UserMemory.UserBytesAreSeparate | kernel/mm.c:195 | two user addresses share a physical byte only if they are the same address of the same process |
| UserMemory.StoreByteMeaning | kernel/process/util.c:77 | a store through the tables of one process changes what it reads there and nothing else any process reads, nor any mapping |
| UserMemory.StoreBytesMeaning | kernel/process/util.c:71-90 | the same for a range of any length |
| UserMemory.GoodAfterStore | kernel/process/util.c:53-91 | storing keeps the machine invariant, every kernel half and every other process |
| UserCopy.CopyFromKernel | kernel/process/util.c:53-91 | the cursor loop stores page by page in the frame its entry names, present or not, and ends; where the range is mapped, each byte goes where a fresh translation of its address says, across pages and directories |
| UserCopy.CopyToKernel | kernel/process/util.c:93-130 | the cursor loop reads what the process reads at each address |
| UserCopy.CopiedBytesReadBack | kernel/process/util.c:53-130 | what was copied in is copied out again |
| Fork.Translate | kernel/pm.c:65-72 | V_to_P computes the hardware walk |
| ForkStore.WordIsContiguous | kernel/pm.c:317-319 | four user bytes are physically consecutive if and only if they lie in one page or the frame of their second page follows that of the first |
| ForkStraddle.StraddlingStore | kernel/pm.c:317-319 | otherwise the store clears the first part of the word and the first bytes of the frame behind its page, and nothing else; the second part is in neither frame |
| ForkStraddle.ClearedExactly | kernel/pm.c:317-319 | in any good state the store clears just that word for that process and nothing anyone else sees, if and only if the word is contiguous, or its second part is zero already and the bytes hit are zero or of no use to anybody |
| ForkFrames.CloneFrame | kernel/mm.c:101-111 | the frame of each page of the child is the free one with as many free ones below it as the parent has tables and pages before it |
| ForkFrames.ContiguousExactly | kernel/mm.c:299-320 | so the child's word in two pages will be contiguous if and only if these share a table and the frame behind that of the first is free before the fork |
| Fork.ForkedWellExactly | kernel/pm.c:281-319 | a fork leaves the child the parent's memory with eax cleared, the machine invariant, and everyone else undisturbed, exactly when the word lies in one page or will be contiguous, or its second part is zero and the frame behind is in use with nothing to lose: a condition on the state before |
| ForkWitness.StraddlingForkFails | kernel/pm.c:281-319 | a good state and the clone that copy_page makes of it, in which the parent loses a byte and the child's eax keeps one |
| Fork.ForkMemory | kernel/pm.c:281-319 | for a saved eax anywhere: panic exactly for lack of frames; else the child is cloned, the four bytes at the physical address are cleared, and the result is right exactly as Fork.ForkedWellExactly says; when it is, the child starts from its parent's trap frame with eax zero |
| Fork.ChildFrame | kernel/pm.c:315-319 | the word that is cleared is the eax of the trap frame (kernel/include/x86/memory.h:85-88): a child that comes out right has its parent's nine registers but for that one |
| Argv.Pack | lib/oslib.c:35-60 | execv lays the strings out one behind the other with a NUL each and one more at the end |
| Argv.ScanFindsAll | kernel/pm.c:94-114 | the parse finds one or more nonempty strings again, whatever follows in memory |
| Argv.EmptyStringIsLost | kernel/pm.c:106-112 | with an empty string among the arguments it does not, whatever follows |
| Argv.NoStringsAreLost | kernel/pm.c:94-114 | nor does it with no arguments at all |
| Argv.ScanFindsAllIff | kernel/pm.c:94-114 | whatever follows in memory, the arguments are found again if and only if there is one and none is empty |
| ExecStack.ParseArgv | kernel/pm.c:94-114 | the loop over the caller's memory computes that parse and copies the text |
| ExecStack.PushPointers | kernel/pm.c:176-186 | the pointers are relocated in place and pushed last first, so that they lie in order |
| ExecStack.BuildStack | kernel/pm.c:168-236 | the whole stack image, from the strings down to the saved stack pointer, in the one stack page |
| ExecStack.StackSpellsArgs | kernel/pm.c:168-236 | followed through user addresses, argc, argv, the pointers and the strings on the stack spell the arguments, within 254 bytes; below them lie the return address, the flags with interrupts on, the code segment, the entry point, nine zero registers, and their address |
| ProgramImage.PagesAreEnough | kernel/pm.c:159 | the pages asked for hold the memsz bytes and at least one more, and one page fewer would not |
| ProgramImage.SegmentIsMappedExactly | kernel/pm.c:155-161 | all of [vaddr, vaddr + memsz), and of the file's bytes, is mapped after the allocation if and only if what lies beyond the pages asked for was mapped before |
| ProgramImage.FitsIsTheGuard | kernel/pm.c:155-161 | with the next page free this is so if and only if offset plus size is at most the size of those pages |
| ProgramImage.RegularFits | kernel/pm.c:155-161 | a segment that starts at a page and has no more bytes in the file than in memory always lies in its pages |
| ProgramImage.RegularHolds | kernel/pm.c:156-163 | for such a segment being in place means that all of [vaddr, vaddr + memsz) is mapped and begins with the bytes of the file |
| ProgramImage.LoadSegment | kernel/pm.c:155-163 | panic exactly when a page of the segment is in use or frames are short; else its pages are new, the cursor stores its bytes, and if they land in mapped pages they are in place, the rest stays and nobody else is disturbed; a page-aligned segment with no more bytes in the file than in memory always lands, and all of [vaddr, vaddr + memsz) is mapped with those bytes |
| ProgramImage.LoadImage | kernel/pm.c:143-164 | the whole program, with any segments below 3G: it loads exactly when the segments ask for different free pages, frames suffice and every byte lands, and goes astray exactly at the first segment whose bytes do not; loaded, the address space is what the segments make of it in order; page-aligned segments never go astray, and each is mapped throughout with its bytes |
| ProgramImage.InPlaceExactly | kernel/pm.c:143-164 | every segment is then in place, with all its memory mapped, if and only if the segments lie in mapped pages or each other's and give no address two bytes; and what was there stays if and only if they also agree with it |
| ProgramImage.FitsIsEnough | kernel/pm.c:155-163 | segments that fit and share no page meet all these conditions |
| ProgramImage.FitsIsNeeded | kernel/pm.c:155-163 | one that does not fit fails them unless the page behind it is mapped or another segment's |
| ProgramImage.StrayTail | kernel/process/util.c:71-90 | bytes that go over the last page are written to the start of the frame that the next entry names, present or not |
| LoadWitness.UnalignedProgramFails | kernel/pm.c:155-163 | from a good state a segment of 8 bytes that starts 4 below the next page is left half unmapped, and its other half is stored at physical address 0 |
| Exec.ExecArguments | kernel/pm.c:76-243 | parse, release of the old memory, load and stack build together: panic and going astray have their exact conditions; else the new program has its arguments and nobody is disturbed, and its segments are all in place if and only if they cover for each other and contradict neither each other nor the stack |
| Exec.FittingProgramStarts | kernel/pm.c:76-243 | for segments that fit, in pages of their own outside the stack's, only a lack of frames can go wrong |
| Exec.RegularProgramStarts | kernel/pm.c:143-164 | in the terms of the program headers: page-aligned segments that end one behind another and below the stack's page go wrong only for lack of frames; the byte behind a segment counts as its own, since a size of whole pages asks for one page more |
| Exec.Execv | lib/oslib.c:35-64 | from the caller's strings to the new program's argv, end to end; page-aligned segments never go astray and are mapped throughout with their bytes |
| Semaphores.RunBalance | kernel/semaphore.c:22-53 | over any history tokens and sleepers account for every P and V, and nobody sleeps while a token is left |
| Semaphores.ReturnedExactly | kernel/semaphore.c:22-53 | as many P return as the lesser of the calls of P and the tokens plus calls of V |
| Semaphores.WokenInTurn | kernel/semaphore.c:32-47 | last come, first served: a process asleep in P is woken by the V that comes after as many calls of V as of P, by none before, and leaves the semaphore as before its P |
| Semaphores.Semaphore.Down | kernel/semaphore.c:22-38 | Sem_P on the array is P on the value, with the caller asleep exactly when it does not pass; the queue of 50 has room for every process |
| Semaphores.Semaphore.Up | kernel/semaphore.c:41-53 | Sem_V is V, and wakes the process that went to sleep last |
| Lock.SectionsExclude | kernel/lock.c:7-20 | in every interleaving a process in a section is the running one, interrupts are off, and the counter is its nesting depth |
| Lock.HandlersExclude | kernel/lock.c:7-20 | an interrupt handler never finds a section open |
| Lock.FlagFollowsCounter | kernel/lock.c:7-20 | after any run the interrupt flag of the running code is on exactly when no section is open and no handler runs |
| Lock.SectionRestores | kernel/lock.c:7-20 | so an outermost section leaves the interrupt flag as it found it |
| Rings.HookedCircle | kernel/message.c:56-60 | the four link updates put a slot at the end of a circular doubly linked list |
| Rings.JoinedCircle | kernel/message.c:141-142 | the two link updates take any member out of it |
| Mail.FirstFree | kernel/message.c:6-14 | the first free slot, or none exactly when all are taken |
| MessageBoxes.MessageBox.FindEmptyMessage | kernel/message.c:6-14 | the loop finds that slot |
| MessageBoxes.MessageBox.Enqueue | kernel/message.c:18-63 | the slot is filled and becomes the last received one; the rings stay well formed; panic exactly when the pool is full |
| MessageBoxes.MessageBox.FindIgnored | kernel/message.c:77-90 | the walk around the ignored ring finds the first message of the source asked for, or the oldest if any will do, or that there is none |
| MessageBoxes.MessageBox.ReceiveIgnored | kernel/message.c:77-114 | it finds one exactly when an ignored message has the source asked for, or any will do; the first such leaves its ring and nothing else changes |
| MessageBoxes.MessageBox.Dequeue | kernel/message.c:121-166 | the oldest received message is taken exactly if any will do or its source is the one asked for, and else becomes the last ignored one; null exactly on an empty ring |
| MessageBoxes.MessageBox.Finish | kernel/message.c:170-174 | the message is copied out and its slot freed |
| IpcCells.StartHits | kernel/message.c:77-114 | a wanted ignored message is the first wanted one of the plain sequence, and taking it keeps the invariant |
| IpcCells.TakeHits | kernel/message.c:123-151 | so is a wanted received one, since nothing ignored was wanted |
| IpcCells.TakeMisses | kernel/message.c:153-166 | diverting an unwanted message does not change the plain sequence |
| IpcRuns.StepKeeps | kernel/message.c:18-174 | every step of every actor keeps the invariant |
| IpcTheorems.StepRefines | kernel/message.c:18-174 | on the mailbox as the sequence of ignored and then received messages, send appends its message with its source; receive removes the first of the source asked for, with none of that source before it, or the very first if any will do; every other step is invisible |
| IpcTheorems.ReceivesBySource | kernel/message.c:77-151 | in every reachable state, when receive gets a message and which, told by sources alone |
| IpcTheorems.SemaphoreIsNeverWrong | kernel/message.c:125 | the panic on an empty ring is unreachable |
| IpcTheorems.SemaphoreAccounting | kernel/message.c:48-66 | received messages are tokens plus senders before V plus the receiver after P; only the owner ever sleeps, and only at zero tokens |
| IpcTheorems.SlotOwnership | kernel/message.c:6-174 | every slot is exactly one of free, received, ignored and held by the receiver |
| IpcTheorems.NoLostWakeUp | kernel/message.c:117-121 | while the owner sleeps and no sender is before V, the mailbox holds no message of the source it waits for, and none at all if it waits for any |
| IpcTheorems.SourceOrder | kernel/message.c:18-174 | for each source, the messages received and those still there are the messages sent, in order |
| IpcTheorems.Conservation | kernel/message.c:18-174 | no message is lost or duplicated |
| IpcTheorems.PoolFullExactly | kernel/message.c:25-28 | send panics exactly when 128 messages are received, ignored or in the receiver's hand |
| ProducerConsumer.CounterBounded | kernel/test/myproc.c:30-65 | with any number of threads under any schedule PC_counter stays between 0 and 20 |
| ProducerConsumer.NoUpdateLost | kernel/test/myproc.c:44-65 | though each update is a load and a store, PC_counter is the number of stores by producers less those by consumers |
| ProducerConsumer.MutualExclusion | kernel/test/myproc.c:44-65 | at most one thread is between P(mutex) and V(mutex) |
| ProducerConsumer.NoDeadlock | kernel/test/myproc.c:39-65 | with a producer and a consumer there is always a thread that is not asleep |
| RoundRobin.Chosen | kernel/process/schedule.c:8-19 | the first waiting process behind the current one, which itself comes last |
| Scheduler.IdleInitWaits | kernel/main.c:92-96 | while init idles there is always a process to choose |
| Scheduler.TurnPasses | kernel/process/schedule.c:21-66 | the turn goes to the first process behind that is not asleep; who was running is waiting again, unless chosen, and every other status is as before |
| Scheduler.BoundedWaitingRun | kernel/process/schedule.c:8-66 | a process that nobody puts to sleep gets a turn in every stretch of as many reschedulings as the ring is long, however often it has had one, whoever else sleeps or wakes |
| Scheduler.Processes.FindEmptyPCB | kernel/process/util.c:38-44 | the first free entry from 1 on, or PROC_FULL exactly when there is none |
| Scheduler.Processes.FindNextLiveProcess | kernel/process/schedule.c:8-19 | the search over the heap ring ends at that choice |
| Scheduler.Processes.Schedule | kernel/process/schedule.c:21-66 | the table is rescheduled so if asked for and otherwise unchanged |
| Scheduler.Processes.Create | kernel/process/util.c:155-186 | a free entry joins the ring in front of init and waits; panic exactly on a full table |
| Scheduler.EnrolledWaits | kernel/process/util.c:168-181 | its entry is taken, it is waiting and last in turn, and every other entry is as before |
| Scheduler.Processes.Exit | kernel/pm.c:394-403 | a process other than init and the running one leaves the ring, which stays a circle |
| Scheduler.LeftIsFree | kernel/pm.c:394-401 | its entry is free again, it does not wait and is off the ring, whose order stays, and every other entry is as before |
| WaitQueue.Waiters.Sleep | kernel/pm.c:378-384 | the waiter is added |
| WaitQueue.RoomForOneMore | kernel/pm.c:378-384 | the queue always has room for a process that does not wait yet |
| WaitQueue.Waiters.WakeUp | kernel/pm.c:345-376 | each waiter for the process gets one reply, nobody who waits for it is left, and the multiset of the others stays |
| WaitQueue.SplitIsUnique | kernel/pm.c:357-372 | replying to the waiters for a process and keeping the rest is, up to order, the only such split |
| WaitQueue.RunSettles | kernel/pm.c:345-384 | over any run every request is waiting or answered, once, and after an exit nobody waits for that process |
| SectorCache.AddressedExactly | kernel/drivers/ide.c:112-115 | the address registers name the sector exactly if its number fits in 28 bits |
| IdeDriver.Transfer | kernel/drivers/ide.c:134-146 | 128 longs carry a sector over unchanged |
| IdeDriver.Driver.AwaitReady | kernel/drivers/ide.c:130-132 | the wait loop ends, drops write-back messages only, and keeps all requests in order |
| IdeDriver.Driver.CacheFetch | kernel/drivers/ide.c:160-184 | the slot holds the sector as the clients see it, and they see no difference |
| IdeDriver.Driver.ReadByte | kernel/drivers/ide.c:186-193 | the byte the clients see, and no change |
| IdeDriver.Driver.WriteByte | kernel/drivers/ide.c:194-200 | exactly one byte changes |
| IdeDriver.Driver.WriteBackAll | kernel/drivers/ide.c:39-47 | afterwards the raw disk is what the clients see, and they see no difference |
| IdeDriver.Driver.Handle | kernel/drivers/ide.c:36-79 | one round serves the request at the head of the inbox as a flat disk would, or writes back; the panic on a leaking interrupt is not reached |
| IdeDriver.Driver.Run | kernel/drivers/ide.c:33-80 | any run serves the requests in the order they came, loses none, and in as many rounds as there were messages has served all that were waiting; each is answered to its sender, a Read with the bytes as they stand after the requests before it, and every byte of the disk is that of the last Write that covers it, else the original one |
| IdeDriver.FlatStoreByte | kernel/drivers/ide.c:71-74 | a store on the flat disk changes the bytes of its range to the data and no others |
| IdeDriver.ServesByte | kernel/drivers/ide.c:51-78 | one request, whatever its kind, changes the bytes it writes and no other |
| IdeDriver.ServedBytes | kernel/drivers/ide.c:51-78 | after any list of requests each byte is that of the last Write covering it, else the original one |
| IdeDriver.ServedReplies | kernel/drivers/ide.c:51-78 | each Read in the list is answered with those bytes as of its turn, each Write with none, to the sender |
| IdeDriver.ReadBack | kernel/drivers/ide.c:51-78 | what one request writes a later one reads |
| AlarmQueue.InsertDeadlines | kernel/drivers/timer.c:110-129 | with prefix sums read as deadlines, a new alarm goes behind all that are not later, and no other deadline changes |
| AlarmQueue.InsertProper | kernel/drivers/timer.c:100-129 | whatever time is asked for, negative too, the queue stays proper exactly for at least one tick |
| AlarmQueue.TickDeadlines | kernel/drivers/timer.c:63-79 | a tick fires exactly the alarms due then, in order, and keeps the other deadlines |
| AlarmQueue.OnTimeExactly | kernel/drivers/timer.c:63-79 | for every queue that insertions of any time build, a tick keeps the remaining alarms on time if and only if the first had time left or none remains |
| AlarmQueue.InsertFitsExactly | kernel/drivers/timer.c:110-129 | in 32 bits the insertion is that on integers if and only if the new time and the first one are less than 2^31 apart |
| AlarmQueue.ShortAlarmDelays | kernel/drivers/timer.c:99-147 | an alarm of zero or negative seconds makes another come late |
| AlarmQueue.ShortAlarm32 | kernel/drivers/timer.c:99-147 | and the 32-bit code does just that |
| AlarmQueue.LongAlarmFiresAtOnce | kernel/drivers/timer.c:100-101 | an alarm of 21474837 seconds goes off at the next tick |
| AlarmQueue.RunOnTimeExactly | kernel/drivers/timer.c:53-147 | over any run from an empty queue, in 32-bit arithmetic, every alarm has at every point gone off on its tick or waits for it, if and only if each was for 1 to 21474836 seconds |
| AlarmQueue.AskedIsRequested | kernel/drivers/timer.c:99-101 | an alarm of s seconds set after n ticks is due at tick n + 100 * s |
| AlarmQueue.FiresOnTime | kernel/drivers/timer.c:53-147 | over any such run the alarms that have gone off at a tick are just those set for it, once for each time: s seconds after tick n is tick n + 100 * s |
| TimerDriver.Timer.NewAlarm | kernel/drivers/timer.c:99-135 | the list surgery computes that insertion in 32 bits, with the product of the seconds wrapped, and queue and free list stay a partition of the pool |
| TimerDriver.Timer.FreeAlarmLeft | kernel/drivers/timer.c:99-104 | as long as no process has two alarms set, there is a free one for a process that has none |
| TimerDriver.Timer.PopAlarm | kernel/drivers/timer.c:137-147 | the head of the queue becomes the head of the free list |
| TimerDriver.Timer.TimerIntr | kernel/drivers/timer.c:63-79 | the interrupt computes the tick and reports the processes whose alarms fire |
| TimerDriver.InsertSplices | kernel/drivers/timer.c:110-129 | the walk with its subtractions and the correction of the next alarm are the recursive insertion |
| Lines.ServeTakes | kernel/drivers/tty.c:249-258 | the last reader to come gets a prefix of the oldest line, as long as it asked for or the whole line, and the rest is left |
| Lines.RunConserves | kernel/drivers/tty.c:180-191 | over any run the bytes delivered and those unread are the bytes entered, in order |
| Typing.PressEdits | kernel/drivers/tty.c:140-179 | on the text and the cursor: a character goes in at the cursor and moves it on by one, Back removes the byte before it, Left and Right move it by one within the text |
| Typing.TypingEnters | kernel/drivers/tty.c:140-191 | typing w on an empty line, and Enter, enters w and a newline, for every w |
| Typing.TypedIsDelivered | kernel/drivers/tty.c:33-60 | from the keyboard to the readers, over any run of characters, Enter and read requests: the bytes delivered, those unread and those on the line are the bytes typed, in order |
| Lines.LeftWaitingExactly | kernel/drivers/tty.c:249-262 | a reader is left waiting beside unread input exactly when others waited too and the line is longer than the last asked for |
| Lines.ReaderLeftWaiting | kernel/drivers/tty.c:249-262 | two readers and one line of which one remains waiting though there is input |
| Lines.ServedByLines | kernel/drivers/tty.c:249-262 | with no new reader each line entered serves one, so a reader waits for as many lines as there are readers above it, and one more |
| Lines.ReaderCanStarve | kernel/drivers/tty.c:56-59 | with new readers coming, round after round of lines leaves the first one beside unread input and no number of rounds serves it |
| Terminal.ContentPut | kernel/drivers/tty.c:184-185 | a byte put at the wrapped write end comes last in the ring |
| Terminal.ContentDrop | kernel/drivers/tty.c:253 | moving the wrapped read end drops the oldest byte |
| Terminal.Terminal.PressKey | kernel/drivers/tty.c:140-179 | the buffer and its cursor are edited just so, for every key but Enter |
| Terminal.Terminal.PressEnter | kernel/drivers/tty.c:180-191 | the line joins the unread ones, at most one reader is served, and editing starts afresh |
| Terminal.Terminal.WakeupRead | kernel/drivers/tty.c:245-263 | the last reader to come gets the start of the oldest line, never past the write end |
| Terminal.Terminal.Read | kernel/drivers/tty.c:56-59 | a new reader is queued and the wake-up done |
| Terminal.Terminal.Serve | kernel/drivers/tty.c:33-60 | the driver's loop over any signals does to buffer, ring and readers what the run on values does, with the same replies |

## Left out

- MemoryManager.Machine.ExitPageAsWritten: the bytes behind the counter array that it lowers are an array of their own; what the kernel keeps there is not modelled. ExitPage is the teardown without these calls.
- MemoryManager.Machine: directories are arrays of the process table and not part of the modelled physical memory; the code keeps them in the kernel's memory below 16MB, which holds no user page.
- MemoryManager.Machine.AllocatePage: the range lies below 3G; the code does not check it. Addresses of frames are frame numbers, and CR3 is the process number. FreePage likewise.
- Fork.ForkMemory: requires the four bytes of the saved eax to be mapped, as the code does; bytes from 128MB on are not memory, so the part of a store that goes there is lost. Kernel stacks and PCB fields are not modelled.
- ProgramImage.LoadImage: the segments are a parameter, with their bytes as the file manager would deliver them, and lie below 3G; the reads of kernel/pm.c:128-134 and 146-152 and the decoding of the ELF headers are not modelled. When bytes go astray the run of the model ends there, with memory as LoadSegment and StrayTail say: the code does not notice, which the model finds out by a test of its own. The memory of a segment beyond the bytes of the file is what the frames held.
- Exec.ExecArguments: the limits of 150 bytes and 10 strings, which the code does not check, are preconditions, and so is a list that survives the parse (Argv.ScanFindsAllIff). ParseArgv has the same limits.
- Argv.Pack: the static buffer is assumed large enough, as the code assumes.
- Semaphores.Semaphore.Down: a process that sleeps calls nothing, so the caller is not in the queue already.
- Ipc.Step: the set of processes is fixed. init_message_pool during fork and exec, and the reuse of a pid, are left out, as is the `static` message of int_handle (kernel/irq/irq_handle.c:78), which all system calls share: each send here has its own message. The scan of the ignored ring, which runs outside the lock, is one step, since only the owner touches that ring.
- Lock: entry and exit of interrupts are steps of the machine; the assembly, the gates and the interrupt controller are not modelled.
- Scheduler.Processes.Schedule: requires a waiting process on the ring, which idle init supplies (Scheduler.IdleInitWaits); while the system starts, init itself can block. CR3 loads, stacks and time slices are left out.
- Scheduler.Processes.Create: the PCB's pid, stack frame and mailbox are not modelled; the same link updates in Create_uthread and Fork_uthread are not repeated.
- WaitQueue.Waiters.Sleep: a process waits in one place at a time, since it sleeps until it is answered. A wait for a process that has already gone is never answered, in the code as in the model.
- IdeDriver.Driver: ports are reduced to the address registers and whole-sector transfers of 32-bit words; the drive raises one interrupt for each command; requests stay on the disk. The count in a reply is the length of the request. The copies to and from the client's memory are those of UserCopy.
- AlarmQueue.RunOnTimeExactly: says when all alarms of a run are on schedule. For those behind a short alarm OnTimeExactly says it of each tick; the 32-bit tick count of `time_elapsed` is not modelled.
- TimerDriver.Timer.NewAlarm: requires a free alarm, which the code does not check; see TimerDriver.Timer.FreeAlarmLeft.
- Terminal.Terminal: requires room in the line buffer and the pool, which the code does not check. The list nodes of waiting readers are a sequence (the timer shows the same list scheme on the heap); key codes, shift state and the console are left out, and so is writing.
- The file manager, makefs, printf, the boot loader, segment and interrupt tables and the unused old copies of files (kernel/mm_backup.c, kernel/process/backup_util.c) would add only easy members or hardware effects.
