# Verified model of the kernel's memory, process and archive code

A small i386 teaching kernel manages its own heap, its page tables, its processes and its boot archive in C. This project
models that code in Dafny and proves what it is relied on for: that the heap never corrupts itself, that no two address
spaces share a frame, that a failed `exec` leaves no trace, that signal handlers give back the interrupted registers, that
the process table stays consistent over every run, and that an archive reads back as it was built.

The model keeps the form of the C. What the C updates in place is a class with the same fields, loops stay loops with
invariants, and a pure function or relation next to each says what it computes. `ASSERT` and `PANIC` halt the kernel, so they
are outcomes of their own or obligations; where the C's own tests can never fire, the model has `assert` in their place.

| files | what they model |
|---|---|
| `Memory.dfy`, `OrderedArray.dfy`, `Blocks.dfy`, `HeapTags.dfy`, `KernelHeap.dfy`, `HeapRuns.dfy`, `HeapSessions.dfy` | the kernel heap: raw bytes with boundary tags, the size-sorted hole index, and the block partition they stand for |
| `FrameBitmap.dfy`, `PageTables.dfy`, `Paging.dfy` | frames, page tables and directories, with the owner of every table and frame |
| `Elf.dfy`, `ElfImage.dfy`, `Loader.dfy`, `Arguments.dfy`, `InitialStack.dfy`, `Exec.dfy` | the ELF validator and the byte layout it reads, the loader, argument capture, the initial stack, commit and rollback |
| `Processes.dfy`, `SignalDelivery.dfy`, `SignalChain.dfy` | one process; dispositions, delivery and return; chains of handlers |
| `UserHeap.dfy`, `UserMemory.dfy`, `ProcessRules.dfy`, `ProcessTable.dfy` | `sbrk`, accesses to a process's own addresses, the ready list, the scheduler, fork, exit, wait, and what keeps the table consistent |
| `SystemCalls.dfy`, `ProcessRuns.dfy` | the system-call dispatcher, and whole runs of system calls, user stores, timer and keyboard interrupts and switches |
| `Paths.dfy`, `FileTree.dfy`, `Archive.dfy`, `Mount.dfy` | path text, the directory tree, the archive builder and the archive reader |

## What the proofs found

- `free` reads the merged hole's header after `contract` has unmapped trailing pages (src/kheap.c:592-610). When the hole
  reaches the arena end and its header lies on the new end or less than 20 bytes below it, `free` never completes: with fewer
  than 12 bytes left the read faults, with 12 to 19 `heap_validate` fails on the next walk. The branch at lines 604-609 that
  is meant for this case is never reached. `KernelHeap.Heap.Free` gives the exact condition, and
  `Blocks.GrowThenFreeStrands` the ordinary way there: fill the initial arena, allocate 100 bytes, free them.
- `alloc` needs at most two growths of the arena for any request, and an aligned one can need both.
- `service_signal` reports `EINVAL` for a change it has made exactly when the previous handler's address is 0x80000000 or
  more (src/syscall.c:213-219); `SignalDelivery.ChangeReportedAsError` is such a case.
- In `task_signal_deliver` neither the missing-trampoline test nor the second stack test is ever taken (src/signal.c:161-168),
  and in `build_initial_stack` neither space check is (src/exec.c:288-304).
- Once validation has passed, the only failure of `exec` short of running out of memory is an image whose page-rounded end
  reaches the heap limit (src/exec.c:369-376). At most fifteen arguments are accepted, not sixteen.
- The archive builder accepts file lists that the kernel then refuses to mount: a path above another one, or a file named
  `dev`. Absence of such clashes is exactly what mounting needs; `Mount.BuiltInNameTaken` and `Mount.FileAboveFile` are lists
  of both kinds.

## Model

| member | source | states |
|---|---|---|
| OrderedArrays.OrderedArray.Insert | src/ordered_array.c:68-90 | the entry goes in front of the first one that does not sort before it; the others keep their order |
| OrderedArrays.OrderedArray.Remove | src/ordered_array.c:101-120 | exactly one entry leaves and the others keep their order |
| OrderedArrays.InsertedSorted | src/ordered_array.c:77-89 | inserting by a size order keeps the array sorted by size |
| OrderedArrays.InsertedContents | src/ordered_array.c:68-90 | an insertion adds that one entry to the contents, counted with repetition |
| OrderedArrays.RemovedSorted | src/ordered_array.c:112-119 | removing any entry keeps the array sorted |
| OrderedArrays.RemovedContents | src/ordered_array.c:112-119 | a removal takes away that one occurrence and nothing else |
| Blocks.TilesOrder | src/kheap.c:251-276 | the blocks of a partition are pairwise disjoint and in address order |
| Blocks.HoleCount | src/kheap.c:251-277 | with no two neighbouring holes, minimum sizes bound how many holes an arena of given length can have |
| Blocks.IndexNeverFull | src/ordered_array.c:75 | in an arena of at most 0x380000 bytes the index capacity assertion never fires |
| Blocks.AlignOffset | src/kheap.c:191-201 | the prefix puts the payload on a page boundary and is empty or big enough for a hole of its own |
| Blocks.AlignOffsetLeast | src/kheap.c:191-201 | no smaller prefix has both properties |
| Blocks.CarveKeeps | src/kheap.c:429-498 | splitting a hole that fits keeps the blocks a partition with no two neighbouring holes |
| Blocks.CarveLive | src/kheap.c:429-498 | a split adds exactly one live block and leaves every other as it was |
| Blocks.CarvedMeans | src/kheap.c:429-498 | in numbers: the block gets the bytes asked for and less than 20 more, aligned when asked; what lies in front of it, or 20 bytes or more behind it, is a hole afterwards |
| Blocks.FitsMeans | src/kheap.c:203-236 | a hole fits exactly when some address in it, its start or one 20 bytes or more behind it, leaves room for the block |
| Blocks.ReleaseKeeps | src/kheap.c:536-619 | releasing a block keeps the partition, the arena shape and the no-neighbouring-holes rule whenever the freed hole is not stranded |
| Blocks.ReleaseLive | src/kheap.c:536-619 | a release removes exactly the released block from the live ones |
| Blocks.ReleaseEndBounds | src/kheap.c:148-182 | the new arena end is page-aligned, not above the old one and never below the minimum arena |
| Blocks.ReleaseEndMeans | src/kheap.c:148-182 | a release moves the arena end exactly when no live block lies behind, and then to the least page boundary above every live block and the minimum arena |
| Blocks.CarveThenRelease | src/kheap.c:429-584 | allocating from a hole below the arena end and freeing the block restores the exact previous partition, leading and trailing splits included |
| Blocks.GrowKeeps | src/kheap.c:361-427 | growing the arena changes no live block and keeps holes apart |
| Blocks.GrowthSuffices | src/kheap.c:361-427 | one growth serves every unaligned request and two serve every aligned one |
| Blocks.OneGrowthCanFallShort | src/kheap.c:361-427 | a concrete aligned request that one growth does not serve |
| Blocks.GrowThenFreeStrands | src/kheap.c:592-610 | a concrete sequence of ordinary requests after which `free` halts |
| HeapTags.ValidatesIff | src/kheap.c:245-293 | `heap_validate` passes on a memory and an index exactly when together they describe some partition of the arena, holes listed once each and sorted by their current sizes |
| HeapTags.TaggedMeans | src/kheap.h:44-56 | which word or byte of a block each tag field is, and the value it must have |
| HeapTags.SpliceTagged | src/kheap.c:429-498 | rewriting the tags inside one extent leaves the tags of all blocks around it intact |
| KernelHeap.Heap.constructor | src/kheap.c:295-348 | a new heap represents one hole over the whole arena, with exactly the arena mapped |
| KernelHeap.Heap.HeapValidate | src/kheap.c:245-293 | the C's two loops compute exactly the validation predicate |
| KernelHeap.Heap.PageAlignmentOffset | src/kheap.c:191-201 | the masking arithmetic computes the least usable prefix |
| KernelHeap.Heap.FindSmallestHole | src/kheap.c:203-236 | a hole of minimum size among all that fit after alignment, or -1 exactly when none fits |
| KernelHeap.Heap.Expand | src/kheap.c:113-146 | pages are mapped up to the rounded size exactly when range and frames allow, otherwise the kernel halts on the first limit met |
| KernelHeap.Heap.Contract | src/kheap.c:148-182 | whole pages above the rounded size, and never below the minimum arena, are unmapped and their frames given back |
| KernelHeap.Heap.Alloc | src/kheap.c:350-499 | after at most two growths the best fitting hole is carved: the caller gets a live block with room for the request and its tags and less than 20 bytes more, 20 or more left behind it stay a hole, and no byte of any live block has changed; it halts exactly on a bad size or when growth is refused while nothing fits |
| KernelHeap.Heap.MergeLeft | src/kheap.c:536-557 | a left neighbour that is a hole takes in the freed block, and leaves the index under its old size |
| KernelHeap.Heap.MergeRight | src/kheap.c:559-584 | a right neighbour that is a hole is taken in, and leaves the index |
| KernelHeap.Heap.Free | src/kheap.c:501-621 | completes exactly when the freed hole is not stranded; then the partition is the released one, frames plus arena are conserved, and no byte of another live block has changed; otherwise which halt it is |
| KernelHeap.Heap.GrowsToMeans | src/kheap.c:361-427 | what the retry recursion establishes about each growth: nothing fitted before it, and it was possible |
| KernelHeap.GrownBy | src/kheap.c:361-427 | every growth moves the end by the rounded request and takes one frame for each page of it |
| KernelHeap.ValidateFails | src/kheap.c:251-276 | no index makes `heap_validate` pass when the last block is shorter than its own tags |
| KernelHeap.PayloadStored | src/kheap.c:245-293 | a store anywhere inside a live payload leaves memory and index describing the same partition |
| HeapRuns.StepRefines | src/kheap.c:350-621 | each completed operation is one step of the simplest allocator: it adds one disjoint, large enough, aligned block inside the arena, or removes one |
| HeapRuns.LiveDisjoint | src/kheap.c:350-621 | any two live blocks are disjoint and inside the arena |
| HeapRuns.RunGood | src/kheap.c:350-621 | the partition invariant holds after every step of every run |
| HeapSessions.Session | src/kheap.c:350-621 | a whole run of the code, with a client that also writes into what it holds, is a run of the simple allocator whose operations are those of the requests: the pointers held are exactly the live blocks', each with the size asked for and less than 20 bytes to spare, every byte last written behind one is still there, frames are conserved, and `free` halts only on a stranded hole |
| HeapSessions.AlignedAnswers | src/kheap.c:429-498 | in every run each request for an aligned block was answered with a page-aligned pointer |
| HeapSessions.AllocThenFree | src/kheap.c:350-621 | calling alloc and then free, when nothing grew and the hole lay below the arena end, completes and leaves partition, end, frames and all live bytes as they were |
| HeapSessions.GrowthConserves | src/kheap.c:113-146 | growth moves frames into the arena and loses none |
| HeapRuns.BlockSurvives | src/kheap.c:350-621 | over every run a live block keeps its extent until it is itself freed |
| Frames.BitChange | src/paging.c:52-71 | setting or clearing one bit of a bitmap word changes that bit alone |
| Frames.FullWord | src/paging.c:91-104 | the whole-word test is true exactly when all 32 frames of the word are in use |
| Frames.FrameBitmap.SetFrame | src/paging.c:52-60 | exactly that frame joins the used ones |
| Frames.FrameBitmap.ClearFrame | src/paging.c:63-71 | exactly that frame leaves the used ones |
| Frames.FrameBitmap.FirstFrame | src/paging.c:85-109 | the lowest free frame, or -1 exactly when every frame is in use |
| Paging.AddressSpaces.AllocFrame | src/paging.c:112-133 | an absent entry gets an unused frame, the permissions asked for, and becomes its owner; a present one is left alone; the out-of-memory panic comes exactly when all frames are used |
| Paging.AddressSpaces.UserPages | src/paging.c:112-133 | where the kernel has no table, user code may use exactly the pages the directory maps, and write exactly those mapped writable |
| Paging.AddressSpaces.FreeFrame | src/paging.c:136-156 | the entry's frame, and no other, becomes free |
| Paging.AddressSpaces.GetPage | src/paging.c:285-318 | the table of the entry, the directory's own or the kernel's, is found or made exactly when asked for; no directory shows different memory |
| Paging.AddressSpaces.CloneTable | src/paging.c:353-383 | a fresh table with fresh frames, the same flags and the same bytes, page by page; nothing that existed has changed |
| Paging.AddressSpaces.CopyDirectory | src/paging.c:385-428 | slot by slot: empty and kernel slots as in the source, every private table copied |
| Paging.AddressSpaces.CloneDirectory | src/paging.c:385-428 | the clone shows exactly what the source shows, in frames of its own; every other directory's memory and frames are as before |
| Paging.AddressSpaces.ReleaseDirectory | src/paging.c:430-459 | exactly the tables and frames that directory owned are gone |
| Paging.AddressSpaces.DestroyDirectory | src/paging.c:430-459 | the used frames lose exactly those the directory held, and no other directory changes; never called for the loaded directory |
| Paging.AddressSpaces.NoSharing | src/paging.c:353-459 | two different private present pages, of one directory or of two, never share a frame |
| Paging.AddressSpaces.HeldFrames | src/paging.c:353-459 | the frames a directory owns are exactly those behind its private present pages |
| Paging.AddressSpaces.FramesAccounted | src/paging.c:112-156 | the used frames are the disjoint union of what the live directories, the kernel's included, hold |
| Paging.AddressSpaces.StoreByte | src/paging.c:353-428 | a byte written through one directory changes that byte there and nothing in any other directory |
| Paging.AddressSpaces.MapPage | src/exec.c:238-244 | an absent page becomes present, writable and zero; a page already present is refused unchanged |
| Paging.AddressSpaces.Protect | src/exec.c:252-257 | only the permission of that page changes |
| PageTables.SpaceCloned | src/paging.c:353-428 | equal entries over equal bytes show equal memory |
| Elf.Power2Test | src/exec.c:182-183 | the and-with-predecessor test accepts exactly the powers of two |
| Elf.LowMask | src/exec.c:184-185 | masking with a power of two less one is the remainder |
| Elf.CheckSegment | src/exec.c:166-187 | accepts exactly the segments inside the file and the user range that are congruent modulo a power-of-two alignment |
| Elf.CheckOverlap | src/exec.c:194-207 | accepts exactly when no earlier loadable segment shares a page |
| Elf.DisjointMeans | src/exec.c:194-207 | the page comparison of two segments holds exactly when no byte of one lies on a page of the other |
| Elf.EntryMeans | src/exec.c:207-215 | the entry point is inside a loadable segment whose execute bit is set |
| Elf.ValidateElf | src/exec.c:124-218 | accepts exactly the files whose header, segments and entry point are acceptable, and reports their highest address |
| ElfImage.HeaderReadsBack | src/elf.h:28-44 | each field of a file header laid out byte by byte is read back from where it was put |
| ElfImage.ProgramReadsBack | src/elf.h:46-56 | the same for a program header at any offset |
| ElfImage.ProgramsAt | src/exec.c:150-164 | the program table has as many entries as the header says, 32 bytes apart, from the offset the header gives |
| ElfImage.HeaderOkBytes | src/exec.c:133-148 | what the first 52 bytes of an acceptable file are |
| ElfImage.SmallImageAccepted | src/exec.c:124-218 | an executable given as literal bytes is accepted, with its entry point and segment |
| Elf.HighestMeans | src/exec.c:209-210 | the reported address bounds every loadable segment and is the end of one |
| Loader.MapPages | src/exec.c:236-246 | a range of pages becomes present, writable and zero exactly when none was present |
| Loader.LoadSegment | src/exec.c:228-259 | one segment's pages, file bytes and permission are in place, and nothing else changed |
| Loader.MapAndLoadSegments | src/exec.c:220-260 | after validation the already-present failure is unreachable, and memory is the image |
| Loader.ImageMemoryExact | src/exec.c:220-260 | every byte of a segment's pages is its file byte or zero, nothing else is mapped, and no segment disturbs another |
| Loader.ImageFlagsExact | src/exec.c:251-257 | a page is present exactly when a segment covers it and writable exactly when that segment has the write flag |
| Loader.ImageByte | src/exec.c:220-260 | in numbers: every byte of a page that a segment touches is its file byte or zero, and writable exactly when bit 1 of the segment's flags is set |
| Loader.InSegmentMeans | src/exec.c:228-235 | a page belongs to a segment exactly when it holds one of its bytes |
| Arguments.CopyBoundedString | src/exec.c:55-71 | succeeds exactly when a terminator appears within the limit, and then copies the string before it |
| Arguments.CaptureRequest | src/exec.c:73-111 | accepts exactly a terminated non-empty path, an empty environment and admissible arguments, and keeps exactly those strings |
| Arguments.RequestLimits | src/exec.c:23-111 | the limits in numbers: a path of 1 to 255 bytes, at most 15 strings, at most 2048 bytes for them with their terminators |
| InitialStack.BuildInitialStack | src/exec.c:262-322 | both space checks never fail, the stack address is 16-byte aligned inside the stack, and the strings read back |
| InitialStack.StackDecodes | src/exec.c:277-321 | argc, argv and envp as the entry code reads them give back the captured strings and the two terminators, and all writes are inside the stack |
| InitialStack.StackPointerFits | src/exec.c:297-304 | strings, padding and vectors fit in the stack for every accepted request |
| InitialStack.PushVectors | src/exec.c:306-318 | the pushes leave the words in memory in reading order |
| Exec.BuildProgram | src/exec.c:350-367 | a new directory holds exactly the image and the stack; everything else is as before |
| Exec.ProgramBytes | src/exec.c:220-322 | below the stack each byte of the new program is its segment's file byte or zero, unmapped outside the segments |
| Exec.HeapAboveSegments | src/exec.c:369-383 | all segments end at or below the new heap, and the heap limit lies below the stack |
| Exec.ProcessExecve | src/exec.c:324-395 | fails exactly when the stated condition does not hold, and then nothing at all has changed; on success the process has the new program and exactly the old image's frames are free again |
| SignalDelivery.SetHandler | src/signal.c:63-92 | accepted exactly for a signal from 1 to 31 other than 9 whose handler and trampoline, when it has one, lie on pages the process maps; SIGKILL's disposition stays the default |
| SignalDelivery.AcceptsMeans | src/signal.c:63-92 | the acceptance condition in numbers, over the pages of the process |
| SignalDelivery.ServiceSignal | src/syscall.c:213-219 | a change that was made is reported as an error exactly when the previous handler address is 0x80000000 or more |
| SignalDelivery.ChangeReportedAsError | src/syscall.c:213-219 | a concrete pair of calls whose second change is made and answered with EINVAL |
| SignalDelivery.Send | src/signal.c:94-117 | a deliverable signal joins the pending ones, unless it is ignored or is SIGCHLD with its default disposition; the ones already pending stay, and a sleeping reader wakes |
| SignalDelivery.RaisedMeans | src/signal.c:94-117 | the set of pending signals gains that number or stays as it is, and which of the two |
| SignalDelivery.TakeNext | src/signal.c:119-130 | the lowest pending signal is taken and only its bit cleared |
| SignalDelivery.Deliver | src/signal.c:132-180 | the lowest pending signal is dropped, kills, or enters its handler with the registers saved; two of the tests are unreachable |
| SignalDelivery.DeliveredMeans | src/signal.c:132-180 | in numbers, what a delivery does for each disposition: drop, exit with 128 plus the number, or enter the handler 16-byte aligned below the interrupted stack pointer with the frame's words in place |
| SignalDelivery.Return | src/signal.c:182-205 | registers come back from the saved frame exactly when a handler is active and the frame carries its number and the cookie |
| SignalDelivery.Inherit | src/signal.c:207-219 | a child has its parent's dispositions and nothing pending or active |
| SignalDelivery.ExecReset | src/signal.c:221-235 | ignored signals stay ignored, custom handlers go, pending signals survive |
| SignalChain.HandlerFrame | src/signal.c:169-180 | a handler finds the trampoline as return address and its number as argument, and delivery wrote only the frame |
| SignalChain.FrameSurvives | src/signal.c:132-205 | a handler that leaves the saved frame alone passes every check of the return, which gives back the interrupted registers |
| SignalChain.RoundKeeps | src/signal.c:132-205 | one round takes one signal and leaves the process as ready for the next |
| SignalChain.ChainRestores | src/signal.c:119-205 | any set of custom-handled pending signals runs each once, in ascending order, in as many rounds, and restores the registers |
| SignalChain.ThirtyOneRounds | src/syscall.c:356-363 | thirty-one rounds always suffice and leave nothing pending |
| SignalChain.ServedIsRound | src/syscall.c:356-363 | the dispatcher's sigreturn branch, entered from a handler, completes exactly one round |
| SignalChain.RunIsChain | src/syscall.c:356-368 | every run of the code through deliveries, handlers and sigreturns takes the same signals as the chain and ends where it ends |
| SignalChain.DispatcherChain | src/syscall.c:356-363 | such a run has at most thirty-one handlers in ascending order, and when a delivery finds nothing the interrupted registers are back and nothing is pending |
| UserHeap.NewBreak | src/task.c:300-315 | the break arithmetic is exact for every signed increment: no 32-bit wrap |
| UserHeap.TaskSbrk | src/task.c:288-340 | moves the break exactly when it stays in range; the mapped end is the page-rounded highest break since the program started, new pages read as zero, old bytes are untouched |
| UserHeap.BrokenMeans | src/task.c:316-339 | in numbers: the mapped end is the least page boundary at or above the highest break, the bytes in between are zero, all others are as before |
| UserHeap.NewProgramHeap | src/exec.c:369-383 | a program just installed has a well-formed empty heap, and all its other pages but the stack lie below it |
| UserMemory.StoreByUser | src/paging.c:285-318 | a store by the program inside the user range goes through exactly when its directory maps the page writable, changes that byte alone, and otherwise faults |
| UserMemory.CopyOut | src/syscall.c:117-128 | a copy to the caller's buffer inside the user range goes through exactly when every page is present, and writes exactly those bytes |
| UserMemory.WordCopied | src/task.c:552-553 | a stored word reads back and nothing around it changes |
| Memory.WordInBytes | src/task.c:552-553 | a 32-bit word is its four bytes, the lowest first |
| ProcessRules.SwitchApproaches | src/task.c:175-181 | a switch never passes a runnable task |
| ProcessRules.ScheduledSoon | src/task.c:169-181 | without forks or removals a task that stays runnable is chosen within one list length of switches |
| ProcessRules.ChoosesFirst | src/task.c:169-181 | the task chosen is runnable and every task passed over in list order is not |
| ProcessTable.Table.Turns | src/task.c:169-184 | repeated switches of the table itself: a runnable task is current after one of the first list-length many |
| ProcessRules.GoneStays | src/task.c:532-561 | a PID that has left the table never comes back |
| ProcessRules.OrphanStays | src/task.c:551-552 | once the parent's PID is gone nobody can collect the child |
| ProcessRules.TableSent | src/signal.c:94-117 | sending a signal keeps the process-table invariant |
| ProcessRules.NotifiedMeans | src/signal.c:94-117 | in numbers, what a send does to the one process it reaches, with every other entry as before |
| ProcessRules.HousedReplaced | src/exec.c:378-393 | exchanging one process's directory keeps every process in a directory of its own, and leaves no directory without a process |
| ProcessTable.Table.constructor | src/task.c:52-81 | PID 0 alone in the list satisfies the invariant |
| ProcessTable.Table.CreateInitial | src/task.c:226-286 | the first user process gets the next PID, a directory of its own whose only memory is a zeroed stack, and an empty heap |
| ProcessTable.Table.NextCandidate | src/task.c:169-181 | the circular search terminates at the next runnable task |
| ProcessTable.Table.SwitchTask | src/task.c:169-184 | the chosen task is runnable and the first such after the current one |
| ProcessTable.Table.Fork | src/task.c:449-502 | the child joins under a new PID with an equal address space in new frames, inherited dispositions and EAX zero; nothing of any other process changes |
| ProcessTable.Table.Exit | src/task.c:504-530 | the process becomes a zombie that keeps its status, its parent gets SIGCHLD pending exactly when it has a handler for it, and another runnable task takes over |
| ProcessTable.ExitedMeans | src/task.c:504-530 | which entries of the table an exit changes and how, in numbers |
| ProcessTable.Table.WaitForKeyboard | src/task.c:414-421 | the process sleeps and a runnable one takes over, with the table invariant kept |
| ProcessTable.Table.WakeKeyboardWaiters | src/task.c:423-428 | exactly the sleepers become runnable |
| ProcessTable.Table.Waitpid | src/task.c:532-561 | only the parent gets the status, only of an exited child and only once; the child's frames and nothing else are freed |
| ProcessTable.Table.Sbrk | src/task.c:288-340 | the break, mapped-end and zero-page laws for the running process, with every process's heap and the table invariant kept |
| ProcessTable.Table.SbrkThenStore | src/task.c:288-340 | after a change of the break a store anywhere from the heap start to the mapped end goes through |
| ProcessTable.Table.Execve | src/exec.c:324-395 | keeps every process's heap and table invariant, changes no other process, and leaves the caller running the program its path led to with the strings of its vector |
| ProcessTable.Table.Kill | src/signal.c:94-117 | the process of that PID has the signal pending besides those it had, unless it ignores it; no other process changes, and the table invariant holds |
| ProcessTable.Table.SetDisposition | src/signal.c:63-92 | one disposition of the calling process changes, and the trampoline with a custom handler; the invariant holds |
| ProcessTable.Table.DeliverPending | src/signal.c:132-180 | delivery changes only the calling process's signal fields and its own stack, never another process's memory |
| ProcessTable.Table.ReturnFromSignal | src/signal.c:182-205 | the interrupted registers come back exactly when the saved frame in the process's own memory passes the checks |
| ProcessTable.Table.ReturnToUser | src/signal.c:132-180 | one delivery at the end of a call; a fatal signal makes the process a zombie with 128 plus the number and another task takes over |
| SystemCalls.ServiceFork | src/syscall.c:345-352 | the caller gets the new PID, the child's frame is the caller's with EAX zero, and the child's memory equals the caller's |
| SystemCalls.ServiceExec | src/syscall.c:334-344 | EAX is zero in the new program, which is the one the path led to with the arguments given; otherwise ENOEXEC and nothing else has changed |
| SystemCalls.ServiceSbrk | src/syscall.c:199-204 | the old break with the mapped-end and zero-page laws, or all ones with nothing changed |
| SystemCalls.ServiceWaitpid | src/syscall.c:206-211 | the collected PID with its status in the word the caller points at and no other byte changed, zero while the child runs, or ECHILD exactly when there is no such child |
| SystemCalls.ServiceDisposition | src/syscall.c:213-219 | for every number, handler and trampoline: which change is made, and which answer, with the case where a change made is answered as an error |
| SystemCalls.ServiceKill | src/syscall.c:221-227 | the signal is pending in the process of that PID besides those it had, and zero; or ESRCH and no process has changed |
| SystemCalls.ServiceSigreturn | src/syscall.c:356-363 | on success every register, EAX too, is the interrupted one; on failure only EAX changes |
| SystemCalls.ServiceOuter | src/syscall.c:26-295 | the services outside the process machinery put their bytes into the caller's buffer and nowhere else, or fault where a page is missing; those that fill no buffer change no memory |
| SystemCalls.CallService | src/syscall.c:307-369 | each number of the service table does what that service promises, in numbers; unknown numbers get ENOSYS and change nothing |
| SystemCalls.Serve | src/syscall.c:321-369 | number by number, what the call does and answers: unknown ones, getpid, sbrk, exec, fork, waitpid, signal, kill and sigreturn each by its own law; of the registers every ordinary call changes EAX alone; only exit never comes back |
| SystemCalls.SyscallHandler | src/syscall.c:321-369 | a call is its service and then exactly one delivery of the lowest pending signal, none while a handler is active or on the way to another ring |
| SystemCalls.NextMeans | src/signal.c:119-146 | which signal the delivery takes: the lowest pending one on a return to ring 3 outside a handler, and else none |
| SystemCalls.FollowsTwice | src/task.c:135-561 | what each step keeps, the kernel's and PID 0's frames and the absence of collected PIDs, holds across steps |
| ProcessRuns.TimerCallback | src/timer.c:12-24 | one delivery on the interrupted frame and then a switch; a fatal signal has switched already |
| ProcessRuns.Perform | src/task.c:135-561 | any system call with any registers, any store by the running program, any timer or keyboard interrupt and any switch keeps the process-table invariant, or is the out-of-memory or page-fault halt, or stores outside the user range |
| ProcessRuns.WhoHolds | src/paging.c:52-156 | every frame in use is held by the kernel, by PID 0, or by exactly one process in the table |
| ProcessRuns.Run | src/task.c:135-561 | every run that stores inside the user range keeps the invariant at every step up to a halt; no collected PID returns, and at the end the frames in use are those of the kernel and PID 0 at the start plus those of the processes still in the table |
| Paths.ComponentsOfPath | src/fs.c:89-124 | splitting a printed path gives back the names it was printed from |
| Paths.GoodMeans | make_initrd.c:21-41 | the accepted image paths are exactly the non-empty slash-joined lists of their own components without dot names |
| Paths.ComponentCount | src/initrd.c:177 | a path of 63 characters has at most 32 components |
| FileTree.Tree.Resolve | src/fs.c:76-126 | scanning the text takes exactly the steps of its components |
| FileTree.StepMeans | src/fs.c:105-119 | one component: a dot stays, two dots go to the parent and stay at the root, another name leads to the child of that name or fails when there is none |
| FileTree.PathUnfolds | src/fs.c:82-124 | a leading slash starts at the root and any other path at the working directory, and a path is its first component and then the rest |
| FileTree.Tree.GetPath | src/fs.c:128-159 | prints the names from the root exactly when there are at most 32 and the text fits the buffer |
| FileTree.PrintedPathResolves | src/fs.c:76-159 | the path printed for a node resolves, from any directory, to that node |
| FileTree.Tree.Mkdir | src/fs.c:169-224 | succeeds exactly when all names but the last lead to a directory where the last is free; then the path resolves to the new directory and every earlier resolution stands |
| FileTree.MkdirMeans | src/fs.c:169-224 | when a new directory can be made: every name but the last leads to a directory, and the last is a proper name that nothing there has |
| FileTree.AttachKeeps | src/initrd.c:59-66 | linking a differently named child in front of its siblings keeps the tree well formed |
| FileTree.WalkKept | src/initrd.c:114-124 | a new entry changes no path that resolved before |
| FileTree.Tree.FindChild | src/initrd.c:68-76 | the sibling walk finds the entry of that name, or none exactly when there is none |
| Archive.ValidImagePath | make_initrd.c:21-41 | the cursor loop accepts exactly the good paths |
| Archive.Build | make_initrd.c:43-159 | succeeds exactly on acceptable file lists and lays every file behind the one before it |
| Archive.DataAt | make_initrd.c:95-145 | each file's bytes are in the image exactly at its recorded offset |
| Archive.RecordMeans | make_initrd.c:59-107 | the header slot of a file in numbers: magic, padded name, length, and an offset behind 64 slots and the files before it |
| Archive.AcceptsMeans | make_initrd.c:51-107 | the limits of the builder in numbers |
| Mount.AddArchivedFile | src/initrd.c:151-196 | passes its assertions exactly for a good path that clashes with no earlier one |
| Mount.MountImage | src/initrd.c:198-227 | passes all assertions exactly on the mountable images; then the tree holds each file at its path, the directories above them, and nothing else |
| Mount.FileMountsMeans | src/initrd.c:151-227 | what each header must be for the assertions to pass, in numbers |
| Mount.BuiltImageMounts | src/initrd.c:198-227 | a built image mounts exactly when no path is above or equal to another or named like the built-in directory |
| Mount.BuiltInNameTaken | src/initrd.c:198-227 | a file list the builder accepts and the kernel refuses: a file named like the built-in directory |
| Mount.FileAboveFile | make_initrd.c:43-159 | another such list: a file beside one in a directory of the same name |
| Mount.ReadFile | src/initrd.c:78-89 | the bytes from the offset on, cut at the end of the file |
| Mount.ArchiveRoundTrip | src/initrd.c:151-227 | each path put into the image resolves to a file that reads as the bytes put in |

## Left out

- KernelHeap.Heap.Free: addresses that are not payloads of live blocks, which the C stops with assertions, are not modelled.
- KernelHeap.Heap.constructor: an arena shorter than the contraction minimum is excluded; there `contract` would raise the end.
- KernelHeap.Heap.Expand: growth past the page table created at boot halts in the model; the C would re-enter `alloc` from `get_page`.
- KernelHeap.Heap.Alloc: as for `Expand`, a request that needs growth past that page table halts.
- Paging.AddressSpaces.CloneTable: the `user` flag of a copied page is always set, as in the C, so exact preservation is not claimed.
- ProcessTable.Table.Fork: descriptors, the working directory, the kernel stack and the 32-bit wrap of the PID counter are not modelled.
- Exec.ProcessExecve: a zero result of the kernel allocator for the request buffer is not modelled; the path lookup is a parameter.
- Every `kmalloc` and `kfree` inside fork, exec, waitpid and `destroy_directory` is taken to complete, although `free` can halt; the process steps halt here only when the frame bitmap is full or on a page fault.
- Page tables and directories are named by addresses never used before, so reuse of freed kernel memory for them, and the kernel heap frames they occupy, do not appear.
- Archive.Build: a host file reads the same in both passes, and writing the image succeeds.
- Mount.ReadFile: records whose data would begin inside the header area, which no builder makes, are excluded.
- The image is its records and its data bytes; the byte layout of the record structure, the same on both sides, is not spelled out.
- Hardware effects: CR0 and CR3, TLB flushes, segment and interrupt tables, ports, the timer, the keyboard queue, assembly stubs.
- `move_stack` and the register juggling of `switch_task`; the bytes a keyboard read returns.
- The early placement allocator and the boot order in src/main.c.
- ProcessRuns.Run: stores outside 0x00400000 to 0xC0000000 are not covered, whether by the program, which the C lets write kernel pages, or by the kernel through a caller's pointer, which the C does not check.
- SystemCalls.Serve: a service outside the process machinery is only its result and the bytes it writes, and what a call reads through its pointers is a parameter.
- System-call wrappers and descriptors; monitor output, the shell and the user programs.
