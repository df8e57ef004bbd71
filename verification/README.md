# egos-2k+: a verified model of its file system, kernel, memory and shell

This project models the parts of egos-2k+ in which data structures are changed in place, and proves
what they keep over every run.

* **treedisk** (`Radix`, `DiskLayout`, `DiskSteps`, `DiskPaths`, `DiskWalk`, `DiskFiles`, `DiskFormat`,
  `DiskRuns`, `Treedisk`). Files live on one array of 512-byte blocks: a superblock, inode blocks, 128-way
  indirect trees that grow on demand, holes, and a free list stored in the free blocks. A block is 128
  words, and every kind of block is a reading of the same words. A ghost layout gives each block exactly
  one role (a place on the free list, or a place in the tree of one inode), and `DiskLayout.Valid` says
  that the words on the disk are precisely the encoding of that layout. The operations of
  `library/file/file1.c` are proved to keep `Valid` and to refine a plain table of files.
* **processes and messages** (`Processes`, `Rendezvous`, `KernelSteps`, `KernelRuns`,
  `KernelEffects`, `KernelCode`, `KernelLoad`). The
  steps of the system are kernel entries, writes by the running process, and the calls by which
  GPID_PROCESS makes and removes processes. `KernelCode.Machine` is the in-place code; each of its methods
  is proved equal to a step function, `KernelRuns` proves what holds over all runs of those steps, and
  `KernelEffects` says what the steps do in terms of statuses, pages, addresses and program counters.
* **address spaces** (`PrivateMemory`, `SoftTlb`, `PageBitmap`, `ElfLoader`, `ElfPrograms`). The software TLB copies pages
  in and out of one user region; it is proved to refine one private memory per process, and the kernel
  reaches user pages only through it. The page bitmap and the ELF loader work on the same frames.
* **shell** (`ShellParser`, `ShellProtocol`, `Directory`, `DirectoryBlock`). The command tokeniser, the messages between the
  shell and the process server, and directory lookup against the text that mkfs prints.

`Egos` holds the constants that these parts share.

Where the code does less than one might expect, the effect and the exact condition are proved:

* A write at offset 2^32-1 wraps the size word to 0. On an empty file the call succeeds if and only if six
  blocks are free; the file is then empty, and no layout makes the disk valid again. The same holds for a file
  of five levels, with the blocks missing on its path (`Treedisk.InodeStore.Write`). At every other offset a
  write that returns has exactly its specified effect.
* In any program whose segments share no page, a segment is in memory where its header asks for it, for every
  file, if and only if it is page aligned in memory and block aligned in the file, takes nothing from the
  file, or ends with its last page and spills onto a page where another segment has the same file bytes
  (`ElfPrograms.ProgramRightIff`).
* All of a segment's memory is mapped if and only if it is empty, ends at a page boundary, or its end
  shares a page with file bytes (`ElfLoader.MemoryMappedIff`); `ElfLoader.UnmappedTail` is a segment whose
  tail is left unmapped.
* All names of a printed directory are looked up right if and only if the listing is shorter than the
  512-character block that `dir_lookup` reads and all inode numbers are below 1000
  (`DirectoryBlock.RoundTripIff`). The block is the limit that a directory meets in practice:
  `DirectoryBlock.OverflowingListing` is a listing of four files whose last name is lost. The number 1000 is a
  limit of the print format, which the 128 inodes of the file system do not reach: a wider number leaves no
  space after its name, which is then not found unless another entry spells it (`Directory.FoundIffNarrow`),
  and it can spoil the lookup of another name (`Directory.WideNumberHidesOther`).
* Removing a process, in whatever state, keeps the system settled (`KernelSteps.FreeKeepsSettled`). A process
  removed while blocked in a receive leaves the open receive in its slot, also when the pid is used again
  (`KernelSteps.ReuseKeepsRecord`); a send to the new process is then marked DONE in the sender's page although
  nobody receives it and the sender stays blocked, and it is marked so in no other case
  (`KernelSteps.SendToReusedPid`).

Run `dafny verify dfyconfig.toml` here to verify the project.

## Model

| member | source | states |
|---|---|---|
| `Radix.ShiftIsPrefix` | library/file/file1.c:73-78 | shifting an offset by n digits gives its base-128 prefix for every n, also when the shift distance reaches 32 bits |
| `Radix.LevelsLeast` | library/file/file1.c:254-267 | the level count of x is the least n with x < 128^n, and it is also the least n at which the shifted offset is 0 |
| `Radix.LevelsAtMostFive` | library/file/file1.c:254-267 | no 32-bit offset needs more than five levels |
| `Radix.CountLevels` | library/file/file1.c:195-202 | the counting loop returns the least n with x < 128^n, at most 5 |
| `DiskLayout.OnDisk` | library/file/file1.h:42-62 | which words are the inode block count, the list head, and the root and size of an inode |
| `DiskLayout.WalkIsContent` | library/file/file1.c:204-229 | following the references on the disk down from a tree place ends at the block the layout stores for the offset, or at a hole where it stores none |
| `DiskLayout.FileIsContent` | library/file/file1.c:178-231 | the file read off the words of the disk is the file stored by the layout |
| `DiskLayout.AncestorExists` | library/file/file1.h:73-77 | every stored block has all its ancestors, so each tree node has a parent up to the root |
| `DiskSteps.PopKeeps` | library/file/file1.c:114-156 | taking a block keeps the partition of the disk, the free list and every tree, and moves exactly the returned block |
| `DiskSteps.LinkChild` | library/file/file1.c:302-334 | linking a fresh block at a missing place of an indirect block keeps the whole structure, adds that place only, and shows no old contents of a recycled block |
| `DiskSteps.LinkRoot` | library/file/file1.c:302-334 | the same for the reference in the inode |
| `DiskSteps.GrowKeeps` | library/file/file1.c:269-291 | putting an indirect block on top of a tree keeps every stored block of every file under its old offset |
| `DiskSteps.ResizeKeeps` | library/file/file1.c:254-267 | changing the size word of one inode changes no other size and no stored block |
| `DiskSteps.StoreKeeps` | library/file/file1.c:336-338 | overwriting a data block changes that block of that file only |
| `DiskPaths.FullIffNoHead` | library/file/file1.c:118-119 | the list head is 0 exactly when no block is free |
| `DiskPaths.PopCount` | library/file/file1.c:114-156 | an allocation removes exactly one place from the free list |
| `DiskWalk.GrowRound` | library/file/file1.c:273-291 | one round of the growing loop, on the store and the inode still in memory, adds one level and runs out exactly when the free blocks are used up |
| `DiskWalk.WalkRound` | library/file/file1.c:312-319 | one round of the walk at an empty slot: allocate, link, and go on below or finish, with all other files unchanged |
| `DiskWalk.WalkFound` | library/file/file1.c:320-325 | one round of the walk at a used slot goes down, or overwrites the data block |
| `DiskFiles.HeightGrows` | library/file/file1.c:254-267 | a write never lowers a tree, and the height it works with reaches the offset |
| `DiskFiles.MissingAfterGrowth` | library/file/file1.c:269-291 | after growing, a path to the offset that forced the growth has only its top |
| `DiskFiles.WrittenValid` | library/file/file1.c:234-339 | resize, grow and walk together keep the invariant of the whole disk |
| `DiskFiles.WrittenFiles` | library/file/file1.c:234-339 | and change one file, by putting the block at its offset with null blocks in the gap, and no other file |
| `DiskFiles.WrittenCost` | library/file/file1.c:245-334 | blocks taken by growing and by walking add up to the cost of the write |
| `DiskFiles.CostBounds` | library/file/file1.c:245-334 | the cost is 2L'-L when levels grow from L to L', at most L' otherwise, one for the first block of an empty file, never more than 10 |
| `DiskFormat.EnoughInodes` | library/file/file1.c:408-410 | the inode blocks hold all inodes asked for exactly if the rounding up does not wrap, and no smaller number of blocks does |
| `DiskFormat.FreshValid` | library/file/file1.c:426-442 | a formatted disk satisfies the invariant, all files are empty, and the free blocks are those after the inode blocks |
| `DiskFormat.FreshCount` | library/file/file1.c:380-399 | a new free list has one place for each of its blocks |
| `DiskFormat.PopBlocks` | library/file/file1.c:114-156 | an allocation removes precisely the returned block from the set of free blocks |
| `DiskFormat.DrainAll` | library/file/file1.c:114-156 | allocating over and over returns every free block exactly once, never 0, and empties the list exactly then |
| `DiskFormat.FreshDrain` | library/file/file1.c:380-399 | on a formatted disk these are all blocks of [n_inodeblocks+1, nblocks) |
| `DiskRuns.EndIsHighest` | library/file/file1.c:256-260 | the size after a run of writes is one past the highest offset written |
| `DiskRuns.ReadsLastWrite` | library/file/file1.c:178-339 | in the table of files, after any writes, an offset holds the last block written there, or null below the size |
| `Treedisk.AllocBlock` | library/file/file1.c:114-156 | the scan of the list block and both ways of taking a block; panics exactly on an empty list, or on a head outside the store |
| `Treedisk.GrowTree` | library/file/file1.c:269-291 | adds the missing levels, and fails exactly when fewer blocks are free than levels are missing |
| `Treedisk.WalkTree` | library/file/file1.c:302-338 | the pointer walk that links missing blocks; in a tree of the height it assumes it fails exactly when fewer blocks are free than are missing on the path |
| `Treedisk.InodeStore.GetSnapshot` | library/file/file1.c:83-110 | reads the superblock and the inode block, and fails exactly for inode numbers outside the table |
| `Treedisk.InodeStore.GetSize` | library/file/file1.c:161-167 | the size of the file, an error outside the table |
| `Treedisk.InodeStore.Read` | library/file/file1.c:178-231 | the block of the file at the offset, null for a hole, an error exactly at or past the size or outside the table |
| `Treedisk.PlanWrite` | library/file/file1.c:245-267 | the levels before and after, the size word brought up to date, which is 0 exactly when it has wrapped |
| `Treedisk.InodeStore.WriteWithin` | library/file/file1.c:269-338 | the rest of a write whose size has not wrapped: a panic exactly when the free list is shorter than the cost, else one file changes as specified |
| `Treedisk.InodeStore.WriteLast` | library/file/file1.c:269-338 | the rest of a write at 2^32-1: on an empty file a panic exactly with fewer than six free blocks, else the file is empty and no layout makes the disk valid; the same on a file of five levels |
| `Treedisk.InodeStore.Write` | library/file/file1.c:234-339 | an error exactly outside the table; for offsets below 2^32-1 a panic exactly when the free list is shorter than the cost, else one file changes as specified, the invariant holds again and the free list shrinks by exactly the cost; at 2^32-1 the effects of `WriteLast` |
| `DiskFiles.LastStart` | library/file/file1.c:256-272 | with the size wrapped to 0, an empty tree or one of five levels is still well formed at the height the walk assumes |
| `DiskFiles.LastEnd` | library/file/file1.c:302-338 | after that walk the file is empty but has a root, so no layout makes the disk valid |
| `Treedisk.FillList` | library/file/file1.c:386-392 | one list block: the link, the following blocks, zeros |
| `Treedisk.SetupFreelist` | library/file/file1.c:380-399 | all list blocks of the range are written, the head is the last of them, nothing below the range changes |
| `Treedisk.Create` | library/file/file1.c:403-451 | fails exactly on too small a disk, leaves an existing file system alone, else makes a valid disk of empty files with all other blocks free; there are at least as many files as asked for, and fewer than 64 more, exactly if the rounding up does not wrap |
| `Treedisk.DrainDisk` | library/file/file1.c:114-156 | calling the allocator until it fails returns every free block exactly once |
| `Treedisk.CreateAndDrain` | library/file/file1.c:380-451 | create, then allocate until nothing is left: every block of [n_inodeblocks+1, nblocks) exactly once, and the list is then empty |
| `Treedisk.WriteAll` | library/file/file1.c:234-339 | a sequence of writes has the effect of the writes on the table of files; it stops only at a write that costs more than the free list holds, which cannot be while ten blocks are free for each |
| `Treedisk.CreateWriteRead` | library/file/file1.c:178-451 | create, any writes, one read: the last block written at the offset, null where nothing was written below the size, an error at or past it |
| `PrivateMemory.StepRefines` | earth/mem_soft_tlb.c:29-67 | each switch, write, map, fill and release acts on the per-process memories as the same step without copying |
| `PrivateMemory.RunRefines` | earth/mem_soft_tlb.c:29-67 | so does every run |
| `PrivateMemory.Isolation` | earth/mem_soft_tlb.c:43-62 | over every run, pages of a process that is not written, mapped, filled or released stay the same whatever others write |
| `PrivateMemory.ResidentSees` | earth/mem_soft_tlb.c:55-61 | the resident process finds its own pages in the user region |
| `PrivateMemory.MapShowsFrame` | earth/mem_soft_tlb.c:38-41 | mapping shows the frame's contents if and only if the process is not resident or the region already holds the same page |
| `PrivateMemory.ReleaseView` | earth/mem_soft_tlb.c:29-36 | releasing a process removes its pages and changes no other page |
| `SoftTlb.SwapSwitches` | earth/mem_soft_tlb.c:47-61 | copying out and then in leaves every owned page as it was |
| `SoftTlb.Mmu.Switch` | earth/mem_soft_tlb.c:43-62 | nobody's memory changes, and the process becomes resident |
| `SoftTlb.Mmu.Translate` | earth/mem_soft_tlb.c:64-67 | afterwards the process is resident and its address can be used directly |
| `SoftTlb.Mmu.Map` | earth/mem_soft_tlb.c:38-41 | adds one page to one memory: the frame's contents, or what the user region holds if the process is resident |
| `SoftTlb.Mmu.Free` | earth/mem_soft_tlb.c:29-36 | removes the pages of one process |
| `Processes.DecodeEncode` | library/syscall/syscall.h:12-18 | a system call record written to a page is read back unchanged, each field at its word, and nothing behind it changes |
| `Processes.DeliverCarries` | grass/ipc.c:19-47 | a delivery puts the content of the sender's page and its pid into the receiver's page, sets both status words to DONE and changes no other page |
| `Processes.DeliverUnblocks` | grass/ipc.c:41-43 | sender and receiver leave the blocked state together, nobody else changes |
| `Rendezvous.PairIsOnlyMatch` | grass/ipc.c:4-32 | if everybody else was settled, all open matches have the receiver of the one pair that the current call makes possible |
| `Rendezvous.PassStep` | grass/scheduler.c:37-45 | each visit of a pass moves the pair from untouched to half done to delivered, and counts progress exactly at its receiver |
| `Rendezvous.VisitFilled` | grass/ipc.c:34-48 | visiting a filled receive completes the delivery |
| `Rendezvous.DeliverCloses` | grass/scheduler.c:33-47 | after the delivery no match is open |
| `KernelSteps.NextSlot` | grass/scheduler.c:21-31 | the first eligible slot in cyclic order after the current one, the current one last |
| `KernelEffects.NextSlotFirst` | grass/scheduler.c:23-28 | whenever a process is READY or RUNNABLE one is chosen, and it comes no later in cyclic order than any other |
| `KernelEffects.SomebodyRuns` | grass/scheduler.c:49-60 | a yield with no orphaned sender goes on whenever a process is READY or RUNNABLE |
| `KernelEffects.FirstRun` | grass/scheduler.c:64-70 | over every run, a loaded process stays READY until it is chosen and then starts at 0x80200000 with 0x80300000 and 0x80300004 in its argument registers |
| `KernelEffects.AllocTakes` | grass/process.c:46-54 | an allocated slot is LOADING, cannot be allocated again and can be loaded; no other slot or page changes |
| `KernelEffects.AllocsDiffer` | grass/process.c:46-54 | over every run, two allocations return different pids unless the first process has exited in between |
| `KernelEffects.CtrlCResets` | grass/kernel.c:56-63 | ctrl+c sends the running process to 0x8020000C with its registers and changes nothing else |
| `KernelEffects.StoreWrites` | earth/mem_soft_tlb.c:43-62 | a store by the running process is seen in its own page and nowhere else |
| `KernelEffects.ExitEmpties` | grass/process.c:59-63 | an exit leaves no page of the process and a slot that can be allocated again; all else stays |
| `KernelEffects.FreedLeavesNoPage` | grass/process.c:59-74 | removing one or all user processes, in any state, leaves none of their pages and all others |
| `KernelEffects.CallsAsk` | library/syscall/syscall.c:21-36 | the pages that sys_send and sys_recv leave ask for what their arguments say |
| `KernelEffects.TrapDelivers` | grass/ipc.c:4-48 | a trap completes a rendezvous exactly if the trapping process and a waiting one ask for each other; a receiver takes the first such sender in cyclic order; the kernel then goes on if all receivers exist |
| `KernelEffects.DeliveryWakes` | grass/ipc.c:41-43 | after a delivery both processes are RUNNABLE, or RUNNING if chosen |
| `KernelEffects.BadCallIsFatal` | grass/ipc.c:31-60 | a send to a pid that no process has, and a call of unknown kind, stop the kernel |
| `KernelSteps.StepKeeps` | grass/kernel.c:52-86 | after every step exactly one process is RUNNING, it is current, no blocked receive is complete, and no blocked sender and receiver match |
| `KernelRuns.BootIsQuiescent` | grass/process.h:16-28 | the state in which only GPID_PROCESS exists satisfies this |
| `KernelRuns.AlwaysQuiescent` | grass/scheduler.c:33-47 | so does every state of every run |
| `KernelRuns.CallBalance` | grass/ipc.c:4-48 | a step opens a call, or completes it, or leaves it open, and completes at most one rendezvous |
| `KernelRuns.ExactlyOnce` | grass/ipc.c:4-48 | over every run, the sends (receives) of a process are those delivered plus the one it is blocked in |
| `KernelRuns.BoundedWaiting` | grass/scheduler.c:21-31 | a process whose status stays READY or RUNNABLE waits through at most 14 yields, so it runs within 15 |
| `KernelRuns.InterruptSaves` | grass/kernel.c:22-41 | after the step that interrupts a process, its slot holds the registers and program counter of that moment, plus 4 after a system call, also if it is chosen again at once |
| `KernelRuns.ContextRestored` | grass/scheduler.c:49-73 | over every run, a process interrupted at step t is resumed, whenever that is and whatever ran in between, with the context of step t |
| `KernelRuns.BlockedPageKeptInRun` | grass/ipc.c:4-48 | while a process is blocked its system call page does not change |
| `KernelRuns.PagesKeptInRun` | grass/scheduler.c:49-73 | while a process is ready and does not run, none of its pages changes |
| `KernelRuns.SenderTrap` | grass/kernel.c:65-82 | every delivery of a run goes back to one trap of its sender, which has been blocked since |
| `KernelRuns.DeliveryStep` | grass/ipc.c:4-48 | the step that completes a rendezvous changes memory as a delivery does |
| `KernelRuns.DeliveryAsked` | grass/ipc.c:7-17 | in every rendezvous the sender's page names the receiver, and the receiver's page names the sender or takes from anybody |
| `KernelRuns.MessageCarried` | grass/kernel.c:71-81 | for every delivery of every run from boot there is the sender's trap, at which its page named the receiver, and the receiver's page asks for the sender or anybody; the receiver's page then holds the content of the sender's page at that trap and the sender's pid, both status words are DONE, and no other page changes in that step |
| `KernelRuns.UserToUser` | library/syscall/syscall.c:21-36 | when the receiver next runs, what sys_recv copies out is what was passed to sys_send, and the sender it reports is the one who sent it |
| `KernelCode.PassEnd` | grass/scheduler.c:33-47 | a pass with progress leaves strictly fewer processes blocked and nothing more to do, so the loop ends |
| `KernelCode.PassVisitsAll` | grass/scheduler.c:37-38 | the sixteen steps of a pass visit every slot |
| `KernelCode.TrapTry` | grass/kernel.c:80-80 | trying the call right after the trap leaves the state in which a pass starts |
| `KernelCode.Machine.ProcSetStatus` | grass/process.c:11-14 | sets the status of the slots with the pid and changes nothing else |
| `KernelCode.Machine.ProcTrySend` | grass/ipc.c:4-32 | the scan for the receiver and its three outcomes; fatal exactly for an unknown receiver |
| `KernelCode.Machine.ProcTryRecv` | grass/ipc.c:34-48 | copies a completed receive back through the address space and frees both processes |
| `KernelCode.Machine.ProcTrySyscall` | grass/ipc.c:50-61 | fatal exactly for an unknown type or receiver |
| `KernelCode.Machine.Pass` | grass/scheduler.c:37-46 | one pass: delivered if there was a pair, progress exactly then |
| `KernelCode.Machine.ClearPending` | grass/scheduler.c:33-47 | terminates in the settled state, or is fatal exactly at an orphaned sender |
| `KernelCode.Machine.RoundRobin` | grass/scheduler.c:21-31 | the loop returns a slot that is READY or RUNNABLE and passes over none before it in cyclic order, 16 if there is none |
| `KernelCode.Machine.SwitchTo` | grass/scheduler.c:61-70 | the chosen process is current, resident and RUNNING; a new one starts at the entry point with its arguments |
| `KernelCode.Machine.ProcYield` | grass/scheduler.c:49-73 | settling and scheduling as one step; fatal exactly if nobody can run or a sender is orphaned |
| `KernelCode.Machine.KernelEntry` | grass/kernel.c:22-41 | every entry is the step of its cause; on return the current process is the one RUNNING, it is resident, its saved context is resumed, and the system is quiescent; ctrl+c resumes a user process at 0x8020000C and touches nothing else, and any other entry saves the interrupted context, plus 4 after a system call |
| `KernelCode.Machine.Syscall` | grass/kernel.c:65-82 | the soft-interrupt branch is the trap step |
| `KernelCode.Machine.ProcAlloc` | grass/process.c:46-57 | takes the lowest unused pid of 1..15 and marks that slot, and no other, LOADING; fatal exactly if there is none |
| `KernelCode.Machine.ProcFree` | grass/process.c:59-75 | gives back pages and slot of one pid, or of every user process for GPID_ALL, nothing else changes |
| `KernelCode.Machine.FreeExited` | apps/system/sys_proc.c:52-53 | for a process that has exited this is the exit step, and the system stays quiescent |
| `KernelSteps.FreeKeepsSettled` | grass/process.c:59-63 | removing a process in any state keeps one RUNNING process, open calls of the blocked, and no open match |
| `KernelSteps.ReuseKeepsRecord` | grass/process.c:46-63 | when the pid of a removed process is used again, its slot holds an open receive exactly if the process was blocked in one |
| `KernelSteps.SendToReusedPid` | grass/ipc.c:4-32 | a send to a live process that is not blocked stays blocked however often it is tried; its page is marked DONE exactly if the receiver's slot holds such a stale receive |
| `KernelSteps.FreeAllKeepsSettled` | grass/process.c:64-73 | removing all user processes in any state leaves the system processes and their pages alone and keeps the system settled |
| `KernelLoad.ElfLoadIsLoad` | apps/system/sys_proc.c:80-82 | what elf_load builds for a process being loaded is an allowed load step of the kernel, and the memory after the step is the memory it built |
| `KernelLoad.LoadProcess` | apps/system/sys_proc.c:80-82 | the loader's code and then the load step: the kernel's memory is the loader's, the system stays quiescent, and it fails exactly with too few frames |
| `PageBitmap.With` | earth/mem_alloc.c:22-24 | sets one bit of a byte and no other |
| `PageBitmap.Without` | earth/mem_alloc.c:26-28 | clears one bit of a byte and no other |
| `PageBitmap.SameBitmap` | earth/mem_alloc.c:18-32 | packed bitmaps with equal bits are equal |
| `PageBitmap.MaskIsShift` | earth/mem_alloc.c:22-32 | bit k of a byte is 1 shifted by k |
| `PageBitmap.PageAddress` | earth/mem_alloc.c:44-54 | page ids are the page frames from 0x80400000 up to 0x80800000 |
| `PageBitmap.PaddrToPgid` | earth/mem_alloc.c:44-54 | is the inverse of pgid_to_paddr, and -1 exactly outside its range |
| `PageBitmap.PageAllocator.Set` | earth/mem_alloc.c:22-24 | sets the bit of one page and keeps all others |
| `PageBitmap.PageAllocator.Clear` | earth/mem_alloc.c:26-28 | clears the bit of one page and keeps all others |
| `PageBitmap.PageAllocator.Take` | earth/mem_alloc.c:60-75 | returns the lowest free page and marks it only; fails exactly if none is free |
| `ElfLoader.CopyBlock` | library/elf/elf.c:41-44 | copying a block to its place in the page extends the loaded file bytes by that block and keeps zeros behind |
| `ElfLoader.ImageByteIsInPage` | library/elf/elf.c:29-45 | where each byte of a segment's image lies |
| `ElfLoader.AlignedIsRight` | library/elf/elf.c:25-51 | every file byte of an aligned segment is on a mapped page, at its address |
| `ElfLoader.ImageRightIff` | library/elf/elf.c:30-33 | for every file, all file bytes are mapped and right, exactly for aligned segments and those without file bytes |
| `ElfLoader.MisalignedIsWrong` | library/elf/elf.c:30-33 | for a segment that is not aligned, a file and a byte that is unmapped or wrong |
| `ElfLoader.MemoryMappedIff` | library/elf/elf.c:47-51 | when all of a segment's memory is mapped |
| `ElfLoader.UnmappedTail` | library/elf/elf.c:32-51 | a segment whose last bytes are not mapped |
| `ElfLoader.LoadedByte` | library/elf/elf.c:25-51 | in the memory elf_load builds, aligned or not, each mapped byte of a segment is that of its image, and zero after the file part |
| `ElfLoader.UnmappedByte` | library/elf/elf.c:47-51 | a byte off the segment's pages is not mapped, unless another segment covers its page |
| `ElfLoader.LoadedRight` | library/elf/elf.c:25-51 | every aligned segment of a program is in memory where its header asks for it |
| `ElfPrograms.ProgramRightIff` | library/elf/elf.c:25-51 | segment i of any laid out program is right for every file if and only if it is aligned, takes nothing from the file, or spills onto a page where another segment has the same file bytes |
| `ElfPrograms.ContinuedIsRight` | library/elf/elf.c:34-45 | a segment whose spilling bytes another segment has is right for every file |
| `ElfPrograms.OwnByteWrong` | library/elf/elf.c:29-45 | any other segment that is not aligned and does not merely spill has a wrong byte on one of its own pages, for some file |
| `ElfPrograms.LoadedRightIff` | library/elf/elf.c:25-51 | a program of one segment is loaded right for every file if and only if the segment is aligned or takes nothing from the file |
| `ElfLoader.LoadedImage` | library/elf/elf.c:25-51 | byte k of an aligned segment's pages is byte k of its file part, zero behind it |
| `ElfLoader.BuildArgPage` | library/elf/elf.c:61-70 | argc, pointers to the copied argument strings, the strings, zeros elsewhere |
| `ElfLoader.OwnersDetermineBitmap` | earth/mem_alloc.c:60-82 | equal ownership of frames makes equal packed bitmaps |
| `ElfLoader.Loader.NewPage` | earth/cpu_mmu.c:19-22 | a zeroed frame becomes a page of the process, its bit is set, fails exactly if no frame is free |
| `ElfLoader.Loader.LoadBlock` | library/elf/elf.c:34-44 | one block: a new page before every eighth, then the copy; the loaded bytes grow by that block |
| `ElfLoader.Loader.LoadFile` | library/elf/elf.c:34-45 | the file part page by page: exactly its pages are new and hold the file bytes; fails exactly with too few frames |
| `ElfLoader.Loader.LoadSegment` | library/elf/elf.c:26-51 | the file part and the zero pages: exactly the segment's pages are new; fails exactly with too few frames |
| `ElfLoader.Loader.LoadSegments` | library/elf/elf.c:25-55 | all segments from RAM_START on, other processes untouched |
| `ElfLoader.FixedPages` | library/elf/elf.c:57-80 | argc is at 0x80300000, argv[i] behind it is the address of a copy of argument i, a blank page is at 0x80301000, and two below 0x80400000 |
| `ElfLoader.Loader.ElfLoad` | library/elf/elf.c:17-81 | the image and those fixed pages and nothing else are added, at those addresses; frames and bits agree, and it fails exactly with fewer free frames than pages |
| `ElfLoader.Loader.Release` | earth/mem_soft_tlb.c:29-36 | frames of the process lose their owner and their bits, the rest stays |
| `ElfLoader.Loader.LoadThenFree` | earth/mem_soft_tlb.c:29-36 | loading a fresh process and freeing it restores the packed bitmap exactly |
| `ShellParser.SplitOfWeave` | apps/system/sys_shell.c:64-72 | splitting a line woven from words and gaps gives back the words |
| `ShellParser.WeaveOfSplit` | apps/system/sys_shell.c:64-72 | every line is woven from its words, so these are the maximal runs without spaces |
| `ShellParser.FitsIff` | apps/system/sys_shell.c:66-71 | a line fits iff every word has fewer than 32 characters and there are fewer than 16 words, or 16 with nothing behind |
| `ShellParser.OverflowStays` | apps/system/sys_shell.c:64-72 | where the loop gives up, the whole line does not fit |
| `ShellParser.Request.Parse` | apps/system/sys_shell.c:60-74 | succeeds exactly if the line fits; the rows then hold the words in order, NUL-terminated, the others empty; all stores are in bounds |
| `ShellProtocol.InvStep` | apps/system/sys_proc.c:37-66 | every step of shell, server and processes keeps the invariant that the server sends only to a shell that is receiving |
| `ShellProtocol.DueOf` | apps/system/sys_proc.c:46-47 | a command whose last word starts with & calls for one message, any other for two if found and one if not |
| `ShellProtocol.WhoLives` | apps/system/sys_proc.c:43-62 | a found command adds its process, an exit removes the process that has ended and is announced exactly if the shell waits for it, killall removes all |
| `ShellProtocol.Balance` | apps/system/sys_proc.c:37-66 | over every run, messages received and owed are those the commands call for, and messages sent are those received and in flight |
| `ShellProtocol.PromptIsSettled` | apps/system/sys_shell.c:94-108 | at the prompt the shell has received, and the server sent, exactly two messages per found foreground command and one per other command |
| `ShellProtocol.OneCommand` | apps/system/sys_shell.c:94-108 | between two prompts a command is served once, exactly its messages are received, and its foreground process has ended |
| `ShellProtocol.NoDeadlock` | apps/system/sys_proc.c:37-66 | away from the prompt the two programs can go on, or the shell waits for a live process whose exit the server announces |
| `ShellProtocol.ProcServer.AppSpawn` | apps/system/sys_proc.c:73-85 | bin/ is looked up in the root directory and the command in there; with printed directories that fit their blocks a command is refused exactly if it is not listed, else it gets its own inode and the lowest pid not in use; app_pid changes only then |
| `ShellProtocol.ProcServer.HandleSpawn` | apps/system/sys_proc.c:43-51 | the spawn case, with request and reply in one buffer, is the server's step with a fresh pid, found exactly if the directory lists the command; the reply is 0 if found and 1 if not; fatal then only if all pids are in use |
| `ShellProtocol.ProcServer.HandleExit` | apps/system/sys_proc.c:52-59 | the exit case is the server's step, and it announces only to a shell that waits for an exit |
| `Directory.AtoiOfDec` | library/syscall/servers.c:35-35 | a printed number is read back |
| `DirectoryBlock.DirLookup` | library/syscall/servers.c:26-40 | on one block: the number behind the first place where the name stands as a word of the text before the NUL, -1 if there is none; it reads past the buffer exactly if the block has no NUL, or if the name is longer than the text, where the unsigned bound wraps, and stands nowhere in the block |
| `Directory.EntryStep` | tools/mkfs.c:120-122 | where a name matches in a printed entry followed by more text |
| `Directory.LookupPrinted` | tools/mkfs.c:120-122 | for any entries, searching the printed text finds what searching the list for the first word finds |
| `DirectoryBlock.DirectoryRoundTrip` | library/syscall/servers.c:26-40 | in a block that holds a listing with numbers below 1000, each listed name gives its number and every other name no longer than the text -1 |
| `Directory.TextRoundTrip` | tools/mkfs.c:120-122 | the same for the search in the text of a listing of any length |
| `DirectoryBlock.RoundTripIff` | library/syscall/servers.c:26-40 | all listed names are looked up right if and only if the listing is shorter than the block and all numbers are below 1000 |
| `Directory.FormatIff` | tools/mkfs.c:121-121 | the limit of the print format alone: in the text of a listing of any length all names are found right if and only if all numbers are below 1000 |
| `DirectoryBlock.BeyondBlock` | library/syscall/servers.c:27-28 | an entry whose name does not end within the block would not be found even if the search stopped at the end of the block |
| `DirectoryBlock.OverflowingListing` | library/syscall/servers.c:27-28 | a listing of four entries with small numbers whose last name is lost |
| `Directory.FoundIffNarrow` | tools/mkfs.c:121-121 | in the text, a listed name that no other entry's name and wide number spell is found iff its own number is below 1000 |
| `Directory.WideNumberHidesOther` | tools/mkfs.c:121-121 | a text in which a number too wide for the format spoils the lookup of another name |
| `DirectoryBlock.PrintAndLookup` | library/syscall/servers.c:26-40 | the lookup loop on the block of a printed directory: the number of a listed name, -1 for any other; it reads past the buffer exactly if the listing does not fit or the name is longer than it |

## Left out

- Treedisk.Create: the store below is a total block array that refuses only numbers past its end, so the error branches for a failing read or write are proved not to be reached on a valid disk and are not modelled further.
- Treedisk.WriteAll: covers offsets below 2^32-1; a full disk (panic) is a terminal outcome, nothing is promised about the disk after it; crash consistency is not modelled, as the code links a new indirect block before initialising it.
- `treedisk_setsize` (panics) and `library/file/file0.c` (fixed linear offsets).
- KernelSteps.StepKeeps: covers pids 1..15 and processes that leave through PROC_EXIT; slot 16, which proc_alloc offers but the scans skip, and an idle slot 0 as the current process are outside, and runs do not kill blocked processes (`KernelSteps.FreeKeepsSettled` and `KernelSteps.SendToReusedPid` say what such a removal keeps and what it leaves behind).
- KernelCode.Machine.ProcAlloc: scans the slots 1..15 that the scheduler scans, not slot 16.
- KernelRuns.BootIsQuiescent: the boot path is assumed to end with pid 1 RUNNING, current and resident.
- KernelRuns.UserToUser: sys_send and sys_recv are modelled by the page they leave and the words they copy out; the busy wait on the status word is the blocked state. Messages are counted in words.
- SoftTlb.Mmu.Free: leaves the page bitmap to `ElfLoader.Loader.Release`, which models the same loop with pfree.
- PageBitmap.PageAllocator.Take: the clearing of the page is done where the frame is used, in `ElfLoader.Loader.NewPage`.
- ElfLoader.Loader.ElfLoad: takes the program headers as a list and the file as a total function of block numbers; decoding the header is not modelled, and segments must lie, without sharing a page, in the area between APPS_ENTRY and the argument page, since elsewhere they would overwrite the kernel or one another.
- DirectoryBlock.DirLookup: atoi is unbounded, the C function overflows beyond 32 bits; reading past the buffer is an outcome, not what is then read.
- ShellProtocol.ProcServer.AppSpawn: elf_load and the argument count it is given are modelled in `ElfLoader` and `KernelLoad.LoadProcess`; a failing file read leaves its buffer unspecified and is not modelled.
- SoftTlb.Mmu.Map: a frame is mapped while it is free and a page once, as elf_load does; remapping would break the one frame per page that the TLB relies on.
- Treedisk.InodeStore.WriteLast: on a file of one to four levels, or of one block, nothing is promised about the disk: the walk then reads data or indirect blocks at the wrong height.
- ShellProtocol.Balance: requests have at least one argument, as the source indexes argv[argc-1]; no process other than the shell asks for commands; a pid handed out is unused, as `ShellProtocol.ProcServer.AppSpawn` picks it.
- ShellParser.Request.Parse: the line is the text before its NUL.
- Splitting of batched commands, `cd`, `pwd`, terminal and disk drivers, timers, multicore locks, assembly trap code, and the unimplemented lab stubs (mlfq, sleep, user-level threads, page tables).
