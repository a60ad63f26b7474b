# Kuzne: verified models of a small x86 kernel

Kuzne is a 32-bit kernel with a block-map heap, two-level paging, processes loaded from ELF
files, a round-robin task list, a FAT16 reader and a small user library. This project models
that code in Dafny and proves what the layers promise to each other. Machine words are
explicit (`Word`, `Wrap`, `ToSigned`): unsigned addition wraps at 2^32 where the code's does.
Code that changes things in place is a class or an array algorithm proved against functions on
values; the laws are lemmas about those functions.

- **Memory.** `Heap` (chains of flag bytes), `Paging` (page tables inside one physical memory
  of 2^20 frames), `Directory` (page directories built from heap blocks), `Kernel` (the same in
  place), `Bytes` (memory byte by byte, memset and file reads), `ElfMap` and `ElfBounds` (images and stacks).
- **Processes.** `Isolation`, `Steps`, `Process`, `System`, `Contents`, `Runs` (any number of
  processes over one heap, with their stores), `LoadedFile` (a file from the disk to its
  addresses), `NullImage` (a load without room), `Programs` (user programs in between),
  `ProcessCode` (the process code in place), `CopyString` (`copy_string_from_task`, byte by
  byte through two page directories).
- **Tasks.** `TaskList` (the linked list and round robin), `ContextSwitch` (a state machine
  over user steps, clock ticks, device interrupts and system calls), `SwitchCode` (the same
  switches at the level of pushes, pops and moves).
- **Disk.** `Stream` (sector reads) and `Fat` (cluster chains; the FAT lookup is a parameter).
- **Text and queues.** `CStrings`, `Tokenizer`, `PathParser`, `Numbers`, `Keyboard`.
- `Machine` holds words, status codes and page arithmetic.

`dafny verify dfyconfig.toml` checks everything.

## Where the code does not do what one would expect

Each of these is a contract over all inputs that its preconditions admit; the members named
state what the code does instead, and under which condition it is right.

- `heap_get_start_block` tests `bs` where it means `bc` (src/malloc/Heap.c:104), so a request
  that does not fit can get the start of a short trailing run: `Heap.FirstFit`,
  `Heap.StaysInsideIff`, `Heap.ShortRunExample`.
- A request of size 0, or above 0xFFFFF000 (which rounds up to 0 blocks), reserves nothing but
  can return a pointer, and clears its bytes: `Runs.ZeroSizeAlloc`, `Runs.MallocIsolationIff`.
- A writeable program header that reaches beyond its image opens foreign frames for writing;
  exactly when is `System.LoadIsolationIff`, and `System.LargeBssBreaksIsolation` gives a .bss
  for which it happens in every system.
- `elf_load` does not look at what the allocation of the image returned
  (src/loader/Elfloader.c:208-212). A file that does not fit is read to physical address 0 and
  its headers are mapped from there; a harmless file then opens low memory for writing:
  `NullImage.NullImageIff`, `NullImage.NullImageInside`, `NullImage.NullImageExample`. From
  31.5 KB on the read itself goes over the heap map at 0x7E00, which may then be no list of
  chains any more: `NullImage.NullReadBreaksMap`.
- A loaded process can read all of memory (`LoadedFile.AccessAfterLoad`): what the isolation
  results protect is writing. A failed load leaks its image and stack: `System.FailedLoadLeaks`.
- Nothing clears the memory of a program header behind the end of its file (a .bss): it holds
  what the heap block held before, `LoadedFile.FileAtItsAddresses`.
- Later headers win on shared pages, and the stack wins on its own. Headers whose ranges do not
  wrap are translated correctly if and only if p_vaddr and p_offset are congruent modulo the
  page size, headers that share a page agree on p_vaddr - p_offset, and headers on stack pages
  agree with the stack: `ElfMap.ImageTranslationIff`.
- `paging_get` on an address inside a page reads the entry of page 0: `Paging.GetInsidePage`.
- A virtual base address of 0 counts as "not set": `ElfBounds.BaseIsLowestIff`.
- `remove_task_from_list` never writes the successor's `prev`; which removals and appends work
  all the same is `TaskList.Scheduler.Remove`, `TaskList.Scheduler.RemoveNeighbours` and
  `TaskList.Scheduler.Append`. Exit of the current task skips a turn:
  `TaskList.Scheduler.ExitCurrent`.
- `task_return` pushes the live flags, so a switch is transparent exactly to programs that do
  not look at flags: `ContextSwitch.TransparentIff`.
- A FAT read takes chunks of a whole cluster even from the middle of one
  (src/fs/fat/Fat16.c:467): `Fat.ReadRightIff`. The 16-bit end marks of FAT16 (Microsoft FAT32
  File System Specification 1.03, section "FAT Data Structure") are not recognised:
  `Fat.EndMarksNotRecognised`, `Fat.WalkFailsIff`. The position of a FAT entry is a product
  instead of a sum: `Fat.EntryPositionWrong`. `fat16_read` leaves the position alone:
  `Fat.Reader.Read`.
- A key pushed into a full ring replaces the oldest one, and a backspace on an empty one loses
  the next key: `Keyboard.PushIff`, `Keyboard.FullPushReplacesOldest`, `Keyboard.BackspaceIff`,
  `Keyboard.BackspaceOnEmptyLosesKey`.
- When an allocation fails, `kuzne_parse_command` leaves strtok's cursor inside its own dead
  buffer: `Tokenizer.Libc.ParseCommand` says exactly when.

Repair: `process_terminate_allocations` passes null for every empty slot
(src/process/Process.c:138); `heap_free(0)` names map entry -4096, in front of the map
(`Heap.AddressBlockInverse`), so empty slots are modelled as skipped. In the same way the exit
of a process without an image (src/loader/Elfloader.c:105-111) frees null; that is skipped too.

## Model

| member | source | states |
|---|---|---|
| Heap.FirstFit | src/malloc/Heap.c:77-111 | for every map and n >= 1: the least start of n free blocks if there is one; otherwise -ENOMEM exactly if the map is empty or its last entry is taken, else the start of the short trailing run, in front of which no entry is free |
| Heap.EntryTests | src/malloc/Heap.c:72-75 | an entry is free by its low four bits alone, has-next is the highest bit, first the one below |
| Heap.ChainBytes | src/malloc/Heap.c:118-137 | the entries of a chain are 0x41 alone, else 0xC1, 0x81, ..., 0x01 |
| Heap.LiveIsChains | src/malloc/Heap.c:118-137 | the abstraction `Live` of a map lists exactly the stretches of the form first entry, followers, has-next on all but the last |
| Heap.ChainsApart | src/malloc/Heap.c:118-137 | chains with different starts never overlap |
| Heap.CoversUnique | src/malloc/Heap.c:118-173 | every entry belongs to at most one chain: a map decomposes in one way only |
| Heap.ChainsDetermineMap | src/malloc/Heap.c:118-173 | two well-formed maps with the same chains are the same map |
| Heap.TakeAddsChain | src/malloc/Heap.c:118-137 | marking a free run taken keeps the map well formed and adds exactly that chain |
| Heap.FreeRemovesChain | src/malloc/Heap.c:158-173 | freeing the start of a chain keeps the map well formed and removes exactly that chain, nothing more or less |
| Heap.TakeThenFreeRestores | src/malloc/Heap.c:139-190 | malloc then free of its result gives back the map byte for byte |
| Heap.BlocksIsCeiling | src/malloc/Heap.c:60-70 | the number of blocks is the ceiling of size/4096, except that it is 0 for size 0 and above 0xFFFFF000 |
| Heap.AddressBlockInverse | src/malloc/Heap.c:175-178 | block to address and back is the identity also for addresses inside a block; null becomes entry -4096 |
| Heap.StaysInsideIff | src/malloc/Heap.c:139-156 | marking stays inside the map if and only if the request is empty, a fit exists or the last entry is taken |
| Heap.ShortRunExample | src/malloc/Heap.c:104-110 | a two-entry map where a request for three blocks gets entry 0 |
| Heap.MallocOutcome | src/malloc/Heap.c:139-185 | null and no change exactly if nothing fits; otherwise a page-aligned address of a new chain of exactly the requested number of blocks, disjoint from all others |
| Heap.RunRefinesLedger | src/malloc/Heap.c:118-190 | over every run of mallocs (size >= 1, serveable) and frees of live addresses, the chains of the map are exactly the allocations a ledger of addresses and sizes records |
| Heap.InitialAgrees | src/malloc/Heap.c:31-58 | the zeroed map of a new heap agrees with the empty ledger |
| Heap.LedgerDisjoint | src/malloc/Heap.c:118-190 | after any such run no two allocations overlap, measured in requested bytes |
| Heap.KernelHeap.GetStartBlock | src/malloc/Heap.c:77-111 | the loop with bc and bs computes the value `FirstFit` is about |
| Heap.KernelHeap.MarkBlocksTaken | src/malloc/Heap.c:118-137 | the loop writes the chain bytes of the run and leaves every other entry |
| Heap.KernelHeap.MarkBlocksFree | src/malloc/Heap.c:158-173 | the loop clears from the start to the first entry without has-next, or to the end of the map, and nothing else |
| Heap.KernelHeap.Malloc | src/malloc/Heap.c:180-185 | the whole of heap_malloc equals `AfterMalloc` on every serveable request |
| Heap.KernelHeap.Free | src/malloc/Heap.c:187-190 | the whole of heap_free, for addresses not in front of the heap |
| Paging.IndexesBijective | src/paging/Paging.c:89-103 | directory and table index determine an aligned address and are in range; other addresses are refused |
| Paging.IndexesOnto | src/paging/Paging.c:89-103 | every index pair is that of an aligned address |
| Paging.GetIsPageEntry | src/paging/Paging.c:200-216 | paging_get and paging_get_physical_address look up the same page entry for every address of the page |
| Paging.GetInsidePage | src/paging/Paging.c:207-216 | for an address inside a page paging_get reads the entry of page 0, whatever the page |
| Machine.OrIsAddition | src/paging/Paging.c:122-130 | for an aligned address and flags below 4096 the bitwise or is the sum, and masking gives the address back |
| Paging.SetEntryExact | src/paging/Paging.c:178-198 | in a directory with separate tables, writing one entry changes that page's entry and no other, and no frame but that table |
| Paging.MapPagesExact | src/paging/Paging.c:132-144 | for any count, page i of the range gets frame phys/4096 + i with the flags, and all other translations stay |
| Paging.MapRangeExact | src/paging/Paging.c:132-144 | paging_map_range is all-or-nothing too: an error and no change exactly if the range is not empty and an address is misaligned |
| Paging.MapToExact | src/paging/Paging.c:146-176 | paging_map_to is all-or-nothing: an error and no change exactly on a misaligned argument or end < phys, otherwise the whole range and only the range |
| Paging.ViaIsDirect | src/paging/Paging.c:122-176 | with separate directory and tables no page written changes the pointer the next one is written through |
| Kernel.KernelMemory.PagingGet | src/paging/Paging.c:207-216 | the table walk reads the entry of the page |
| Kernel.KernelMemory.PagingSet | src/paging/Paging.c:178-198 | -EINVARG and no change on a misaligned address, otherwise exactly the one entry |
| Kernel.KernelMemory.MapPage | src/paging/Paging.c:122-130 | an error and no change if either address is misaligned, otherwise one entry with frame and flags |
| Kernel.KernelMemory.PagingMapRange | src/paging/Paging.c:132-144 | on any structure the loop equals the recursion that reads the directory pointer again for every page; where directory and tables are separate that is the function of `MapPagesExact`, although alignment is checked page by page |
| Kernel.KernelMemory.PagingMapTo | src/paging/Paging.c:146-176 | on any structure the checks and the loop equal their function; where directory and tables are separate, the function of `MapToExact` |
| Directory.AllocatedBytes | src/malloc/Kheap.c:28-35 | for every size of at least one block that the heap can serve: null and no change, or exactly the requested bytes are zero and every other byte of memory is as before |
| Directory.OneBlock | src/malloc/Kheap.c:28-35 | with a free block left, a zeroed allocation of up to a page takes exactly one free block, clears every word within the size and leaves every word behind it |
| Directory.NewDirectoryOutcome | src/paging/Paging.c:17-58 | with 1026 free blocks: 1024 distinct tables, a directory and a chunk out of free blocks, all 2^20 pages mapped to themselves with the flags, all 1024 directory entries with the flags and bit 1 set, every other frame and chain as before |
| Directory.NewSpaceAccess | src/paging/Paging.c:17-58 | in such a directory every address translates to itself, and the processor (both levels taken together) lets user code read or write exactly as the flags say |
| Directory.FreeDirectoryExact | src/paging/Paging.c:66-77 | freeing an address space gives back exactly its 1026 chains |
| Directory.DirectoryLifeCycle | src/paging/Paging.c:17-77 | build a directory, run any sequence of paging_set and paging_map_range on it with any arguments, free it: the heap map is byte for byte what it was |
| Kernel.KernelMemory.ZeroedAllocate | src/malloc/Kheap.c:28-35 | allocation and memset equal the function `AllocatedBytes` is about |
| Kernel.KernelMemory.NewPageDirectory | src/paging/Paging.c:17-58 | both loops compute the directory `NewDirectoryOutcome` is about |
| Kernel.KernelMemory.FreePageDirectory | src/paging/Paging.c:66-77 | the loop frees the parts found by masking the entries, in order |
| ElfMap.MapSectionsExact | src/process/Process.c:399-431 | success exactly if no header's physical range wraps; then every page has the entry of the last header that covers it, or its old one |
| ElfMap.StackExact | src/process/Process.c:434-468 | the four stack pages go to the stack block, writeable; all other pages stay |
| ElfMap.ImageTranslation | src/process/Process.c:399-468 | every byte of [p_vaddr, p_vaddr + p_memsz) of every header translates to elf_memory + p_offset + its distance, the 16 KB stack to the stack block, every page outside keeps its entry; headers may share pages if they agree on p_vaddr - p_offset, and lie on stack pages if they agree with the stack |
| ElfMap.ImageTranslationOnlyIf | src/process/Process.c:399-431 | whenever all non-empty headers that do not wrap are translated correctly, p_vaddr and p_offset are congruent modulo the page size and headers that share a page agree |
| ElfMap.ImageTranslationIff | src/process/Process.c:399-468 | process_map_memory translates all non-empty headers that do not wrap correctly if and only if they are congruent, agree on shared pages and agree with the stack block on the stack pages |
| ElfMap.BinaryTranslation | src/process/Process.c:370-377 | a flat binary is found byte for byte from 4 MB on, on pages that are present, writeable and open to user code |
| ElfMap.HeaderFrame | src/loader/Elfloader.c:75-78 | where a page covered by a header leads |
| ElfBounds.BaseIsLowestIff | src/loader/Elfloader.c:121-167 | the virtual base is the lowest p_vaddr of the loadable headers if and only if none is 0 or the last one is |
| ElfBounds.BaseOfHeader | src/loader/Elfloader.c:121-137 | virtual and physical base come from the same loadable header |
| ElfBounds.EndOfHeader | src/loader/Elfloader.c:121-137 | the virtual end is the highest p_vaddr + p_filesz (as 32-bit values), the physical end belongs to the same header |
| ElfBounds.ElfFile.ProcessHeaders | src/loader/Elfloader.c:139-167 | the loop over the headers computes these bounds |
| Isolation.UsesDisjoint | src/process/Process.c:65-96 | under the invariant two holders (allocation, page-table part, image or stack, of any processes) never share a heap block |
| Isolation.AllocationsDisjoint | src/process/Process.c:65-96 | an allocation overlaps no other allocation of any process |
| Isolation.AllocationBytes | src/process/Process.c:75-93 | each byte of an allocation translates to itself for its owner, on a page that the processor lets user code write: present, writeable and user bits are set in directory and page entry |
| Isolation.NoSharedWrites | src/process/Process.c:65-96 | no frame can be written by two processes |
| Isolation.PageTablesProtected | src/process/Process.c:65-96 | no process can write a frame of any page directory, its own included |
| Isolation.FreeBlocksProtected | src/process/Process.c:297-319 | no process can write a free heap block |
| Contents.KernelMemoryProtected | src/process/Process.c:65-96 | no process can write memory outside the heap (the kernel, the heap map) or a live chain that no process holds (Task, Process, stream structures) |
| Steps.AllocKeepsIsolation | src/malloc/Kheap.c:28-35 | a zeroed allocation of at least one block that the heap can serve keeps everybody isolated, and its chain belongs to nobody |
| Steps.ReleaseKeepsIsolation | src/malloc/Heap.c:187-190 | freeing a chain nobody holds keeps everybody isolated |
| Process.MallocKeepsIsolation | src/process/Process.c:65-96 | process_malloc keeps the invariant and every other process; null exactly if nothing fits or the table is full, and then the heap map is unchanged; otherwise one new chain, recorded and mapped |
| Contents.MallocClears | src/process/Process.c:65-96 | what process_malloc returns is zero in all its bytes, found by the process at the same addresses and writeable for it; no other byte outside its page tables changes |
| Process.FreeKeepsIsolation | src/process/Process.c:297-319 | process_free of a recorded pointer takes away exactly its chain, marks exactly its pages not present in its own directory, empties its slot, touches no other process |
| Process.FreeIgnoresForeign | src/process/Process.c:99-131 | a non-null pointer the process was not given changes nothing |
| Process.UntouchedView | src/process/Process.c:65-319 | a step that leaves a process untouched leaves the translation of all its addresses |
| Process.MallocThenFree | src/process/Process.c:65-319 | malloc then free restores the heap map and the table's pointers and touches no other process |
| Process.TerminateConserves | src/process/Process.c:134-142 | (empty slots skipped) the whole table is emptied, exactly its chains are freed, exactly their pages unmapped, every other process untouched |
| System.DirectoryKeepsIsolation | src/paging/Paging.c:17-58 | building a page directory disturbs no process |
| System.LoadedMappedIff | src/process/Process.c:399-468 | after loading, all writeable pages lead into the image and the stack if and only if every page outside the stack whose last header is writeable does, by that header's p_offset, p_vaddr and the page |
| System.HomeByOffset | src/process/Process.c:399-431 | for a header that does not wrap, a page leads into the frames of the image exactly if p_offset - p_vaddr + page address is inside the size of the image |
| System.ElfLoadKeepsIsolation | src/loader/Elfloader.c:189-227 | allocating the image and reading the file disturbs no process, wherever the file goes: to a new chain that belongs to nobody, or, exactly if nothing fits, to address 0 (there: a file that ends in front of the heap map) |
| System.LoadIsolationIff | src/process/Process.c:434-594 | with a free slot and room for stack and directory (an image that does not fit ending in front of the heap map), loading keeps everybody isolated if and only if it fails on the way or its headers write into its stack and, if it has one, its image; in both cases no other process is touched |
| System.LoadKeepsIsolation | src/process/Process.c:434-594 | in particular if the image fits and every writeable header stays inside it |
| System.FailedLoadLeaks | src/process/Process.c:522-594 | a load that fails gives back the page directory, but its image and stack stay allocated to nobody |
| System.LargeBssBreaksIsolation | src/process/Process.c:399-431 | whatever the system and the contents, loading a file of one page whose writeable header has p_memsz 24576 breaks isolation, unless it fails |
| NullImage.NullImageIff | src/loader/Elfloader.c:189-227 | a load whose image does not fit (and ends in front of the heap map) keeps isolation if and only if the stack does not fit either, a header wraps, or all writeable pages outside the stack lead into the stack block |
| NullImage.NullImageInside | src/loader/Elfloader.c:208-212 | if all its headers stay inside the file, that means no writeable page outside the stack at all |
| NullImage.NullImageExample | src/loader/Elfloader.c:208-212 | a concrete heap in which every 20 KB file with one writeable page inside it breaks isolation |
| NullImage.NullReadBreaksMap | src/loader/Elfloader.c:208-212 | a longer file is read over the heap map, which is then ill-formed unless the byte that lands on the first entry has the low bits of an entry |
| NullImage.MapLiesInMemory | src/malloc/Kheap.c:10-21 | the heap map is the memory at 0x7E00: a read changes both alike |
| LoadedFile.FileAtItsAddresses | src/process/Process.c:399-594 | for every file whose image fits and headers that `ImageTranslation` covers: loading succeeds exactly if the stack fits, and then every address of every header shows the byte of the file the header names, or behind the end of the file the byte the heap block held before |
| LoadedFile.StackIsZero | src/process/Process.c:522-594 | every byte of the 16 KB stack of a loaded process is zero |
| LoadedFile.AccessAfterLoad | src/process/Process.c:399-468 | a loaded process may read every page, and write exactly its stack pages and those whose last header is writeable |
| System.ExitConserves | src/process/Process.c:205-232 | a terminating process gives back exactly the chains it held (allocations, image, stack, page tables) |
| System.LoadThenExit | src/process/Process.c:205-594 | loading then terminating restores the heap map byte for byte (image, stack and page directory) |
| Runs.BootIsolated | src/malloc/Kheap.c:10-21 | the invariant holds at start |
| Runs.StepIsolated | src/process/Process.c:65-594 | every legal step (a load is legal exactly under the condition of `LoadIsolationIff`) keeps the invariant and the record and page tables of every process it is not for |
| Runs.RunIsolated | src/process/Process.c:65-594 | the invariant holds in every state of every run of loads (with the file read), mallocs, frees, exits, user stores and kernel allocations by any number of processes |
| Runs.RunLeavesAlone | src/process/Process.c:65-594 | over every run in which it does nothing, a process keeps its record and the translation of every address |
| Runs.RunKeepsContents | src/process/Process.c:65-594 | over every run in which it does nothing, while files are read and the others may store through any writeable page, every frame a process holds (allocations, image, stack, page tables) keeps its contents |
| Runs.RunKeepsKernel | src/process/Process.c:65-594 | over every run, every frame above the first 32 KB that is outside the heap or in a chain of the kernel's that the run does not free keeps its contents, and the chain stays the kernel's |
| Programs.RunsAsAlone | src/process/Process.c:65-594 | a program that computes on registers, stores where the processor permits and loads from frames it holds has, after any interleaving with legal steps of others and the kernel, the registers and in all its frames the words it would have running alone |
| Contents.StoreKeepsIsolation | src/process/Process.c:75-93 | a store through any page the processor lets the process write keeps everybody isolated and changes no page table and no frame of another process, of the kernel or outside the heap |
| Contents.StoreExact | src/process/Process.c:75-93 | a store changes the four bytes where its address translates to, and no other byte |
| Programs.LoadExact | src/paging/Paging.c:200-205 | a load delivers the four bytes where its address translates to |
| Contents.LoadKeepsApart | src/process/Process.c:434-594 | loading a process, with any file and headers, writes no frame of a process, of the kernel or outside the heap, except the first 32 KB when the image does not fit |
| Runs.ZeroSizeAlloc | src/malloc/Heap.c:98-128 | a request of no block (size 0 or above 0xFFFFF000) returns a free block without reserving it, or null exactly if the last block is taken; its size bytes are cleared all the same |
| Runs.MallocIsolationIff | src/process/Process.c:65-96 | for every size the heap can serve, process_malloc keeps the invariant if and only if the size is 1 to 0xFFFFF000, or the last heap block is taken, or the size is 0 and the table is full |
| Runs.HugeClearBreaks | src/malloc/Kheap.c:28-35 | clearing more than 0xFFFFF000 bytes from any heap block on destroys a page directory of every process, so the invariant fails |
| Runs.OverrunIsWriteable | src/process/Process.c:399-431 | user code can read a page outside the stack always and write it exactly if its last header is writeable, and the page leads to the frame that header names; if that is in neither image nor stack, the process can write memory it was not given |
| ProcessCode.UserProcess.FindFreeIndex | src/process/Process.c:49-62 | the first empty slot, or -ENOMEM |
| ProcessCode.UserProcess.GetAllocation | src/process/Process.c:123-131 | the first slot that holds the address, or none |
| ProcessCode.UserProcess.UnjoinAllocation | src/process/Process.c:110-120 | every slot with the pointer is emptied, no other |
| ProcessCode.UserProcess.Malloc | src/process/Process.c:65-96 | in place, with its error paths, equals the step of `MallocKeepsIsolation` and `MallocIsolationIff`, for every size the heap can serve |
| ProcessCode.UserProcess.Free | src/process/Process.c:297-319 | in place, equals the step of `FreeKeepsIsolation` |
| ProcessCode.UserProcess.TerminateAllocations | src/process/Process.c:134-142 | the loop over the table equals the step of `TerminateConserves` |
| ProcessCode.UserProcess.MapLoadableSections | src/process/Process.c:399-431 | the loop over the headers equals the function of `MapSectionsExact` |
| ProcessCode.UserProcess.MapProcessMemory | src/process/Process.c:434-468 | sections, then stack, as in `ImageTranslation` |
| CopyString.StringCopy | src/memory/Memory.c:183-195 | strncpy through any page directory: the bytes seen at the source up to NUL or count - 1, a NUL behind them, all other bytes as before, and no access faults; given a destination the copy does not read or translate through, and pages that permit the accesses |
| CopyString.ScratchMapped | src/process/Task.c:82-117 | mapping the temporary page makes it present and writeable, and changes the translation of that page only |
| CopyString.ScratchRestored | src/process/Task.c:82-117 | putting the saved entry back undoes the mapping whatever was written to the page |
| CopyString.CopyStringFromTask | src/process/Task.c:82-117 | delivers exactly the string as the task's translation shows it, cut to max - 1 and terminated, across page boundaries; only the bytes up to the terminator have to be present and apart from the temporary page, and no access faults; heap map as before; -EINVARG from 4096 on, -ENOMEM without a free block |
| CopyString.CopyKeepsTables | src/process/Task.c:82-117 | into memory that holds no page table of the task, its directory and tables are afterwards what they were, so every address translates as before |
| TaskList.RoundIsRotation | src/process/Task.c:32-54 | k calls of run_next_task on k tasks run the list rotated: each task once, in order, the current one last |
| TaskList.RunsSplit | src/process/Task.c:44-54 | n + m calls are n calls then m calls, so rounds repeat |
| TaskList.Scheduler.GetNext | src/process/Task.c:32-40 | the next field or the front, which on a list in forward order is the cyclically next task |
| TaskList.Scheduler.RunNext | src/process/Task.c:44-54 | current moves there; a list in forward order stays one |
| TaskList.Scheduler.Tick | src/interrupt_descriptor_table/Idt.c:76-82 | n clock ticks run exactly `Runs`; a full round runs every task once and returns to the first |
| TaskList.Scheduler.Append | src/process/Task.c:246-285 | on any list in forward order: the new task is found at its end if and only if the list was empty or tail was its last task; the full doubly linked invariant is kept where it held |
| TaskList.Scheduler.Remove | src/process/Task.c:166-191 | on any list in forward order, with any prev: the order afterwards is the old one without the task if and only if, behind the front, prev is the task before it or, at the front, prev is null or no later task; then tail is right too, unless the only task had a prev; the written next field, front, tail and current are stated in all cases |
| TaskList.UnlinksIff | src/process/Task.c:166-191 | both directions of that condition, from the one next field that the removal writes |
| TaskList.RemovalIff | src/process/Task.c:166-191 | an ordered list, tail included, stays one without the task if and only if that condition holds and an only task has no prev |
| TaskList.Scheduler.RemoveFromLinked | src/process/Task.c:166-191 | from a fully linked list any removal keeps the forward order, and the full invariant survives if and only if the tail was removed |
| TaskList.Scheduler.RemoveNeighbours | src/process/Task.c:166-191 | for every fully linked list: removing a task and then its old successor leaves the order without both if and only if the first was the front; otherwise the second stays reachable; with two tasks tail is left at a removed one |
| TaskList.Scheduler.ExitCurrent | src/interrupt_service_routines/Process_isr.c:82-91 | on any ordered list, with any prev: exit of the current task advances twice, so its successor's turn is skipped, except where that successor is its stale prev or the only task left |
| ContextSwitch.OwnDirectoryAlways | src/interrupt_descriptor_table/Idt.c:44-82 | over every sequence of events the loaded page directory is that of the current task |
| ContextSwitch.ClockIsRoundRobin | src/interrupt_descriptor_table/Idt.c:76-82 | over any events with n clock ticks the task n places down the list (round and round) is current, and the ticks resume the tasks that n calls of run_next_task run, in that order |
| ContextSwitch.EveryTaskHasItsTurn | src/process/Task.c:32-54 | as many ticks as tasks resume every task once, in list order, whatever comes between |
| ContextSwitch.EntrySaves | src/interrupt_descriptor_table/Idt.c:44-82 | tick, device interrupt and system call leave the registers and flags of the task that ran in its structure and no other structure changed |
| ContextSwitch.InterruptsOn | src/process/Task.asm:24-28 | the flags a task is resumed with have bit 9 set and every other bit as it was |
| ContextSwitch.SwitchTransparent | src/interrupt_descriptor_table/Idt.c:44-82 | over every interleaving, a program that computes on registers and private memory, and whose steps do not depend on flags, has in all eleven registers and in memory exactly what it would have running alone |
| ContextSwitch.TransparentIff | src/process/Task.asm:24-28 | a program is transparent in all machines and interleavings if and only if its steps do not depend on flags |
| ContextSwitch.ResumedWithLiveFlags | src/process/Task.asm:24-28 | a task interrupted with one set of flags is resumed with the live ones |
| SwitchCode.Processor.EnterInterrupt | src/arch/x86/Idt.asm:40-65 | processor entry and pushad build a struct InterruptFrame with exactly the interrupted registers |
| SwitchCode.Processor.SaveState | src/process/Task.c:65-79 | frame and task structure have different layouts, yet every register and the flags reach their fields, and nothing else is written |
| SwitchCode.Processor.RestoreGeneralPurpose | src/process/Task.asm:51-63 | all seven registers get the structure's values although ebx and ebp serve as pointers on the way |
| SwitchCode.Processor.TaskReturn | src/process/Task.asm:9-49 | after iretd all eleven registers are those of the structure, the flags the live ones with interrupts on |
| SwitchCode.Processor.ClockTick | src/interrupt_descriptor_table/Idt.c:44-82 | a whole tick: the interrupted task's structure holds its registers, the processor those of the next task |
| SwitchCode.Processor.SystemCall | src/arch/x86/Idt.asm:67-92 | a whole system call: registers and flags come back, with the result in eax |
| Stream.BytesAreFlat | src/disk/Streamer.c:27-59 | the bytes a read delivers are a slice of the sectors laid end to end |
| Stream.ReadsJoin | src/disk/Streamer.c:27-59 | read(a) then read(b) delivers what read(a + b) delivers; only the sector at the meeting point is fetched twice |
| Stream.SectorsReadExact | src/disk/Streamer.c:27-59 | the sectors fetched are exactly those holding a position of [pos, pos + total], the end included |
| Stream.Disk.ReadBlock | src/disk/Disk.c:54-62 | one sector into the buffer, or -EIO for a disk that is not the static one |
| Stream.DiskStream.Seek | src/disk/Streamer.c:21-25 | sets the position, always succeeds |
| Stream.DiskStream.Read | src/disk/Streamer.c:27-59 | for every position, total and output buffer: bytes [pos, pos + total) and no other byte written, end at pos + total, sectors pos/512 to (pos + total)/512 fetched in order; -EIO changes nothing; a negative total fetches one sector, writes nothing and moves the position |
| Fat.NextOnWalk | src/fs/fat/Fat16.c:405-448 | the walk ends with -EIO at the entries 0, 0xFF0, 0xFF6, 0xFF7, 0xFF8 and 0xFFF and goes on to the entry's cluster at every other |
| Fat.WalkFailsIff | src/fs/fat/Fat16.c:405-448 | the walk to cluster n fails if and only if one of the entries it meets is one of the six stopping values |
| Fat.EndMarksNotRecognised | src/fs/fat/Fat16.c:413-444 | at an end mark 0xFFF8 to 0xFFFF the mark itself is returned as the next cluster |
| Fat.EntryPositionWrong | src/fs/fat/Fat16.c:383-385 | in 32-bit arithmetic, for all 16-bit counts of reserved sectors and clusters, the seek position is that of the entry if and only if both are 0 |
| Fat.ReadRightIff | src/fs/fat/Fat16.c:450-490 | a successful read takes every byte from its place in the file if and only if every chunk that does not fit behind its start continues in the physically next cluster |
| Fat.AlignedIsExact | src/fs/fat/Fat16.c:450-490 | that holds from every cluster-aligned offset, for any total, and within one cluster |
| Fat.ClustersTile | src/fs/fat/Fat16.c:362-366 | the data area is tiled by clusters from its first sector on, the first one having number 2: what is read at cluster 2 + k is the k-th piece of the flat disk behind that sector |
| Fat.ReadIsFileSlice | src/fs/fat/Fat16.c:450-490 | then the output is bytes [offset, offset + total) of the file: the sectors of its clusters on the flat disk, laid end to end |
| Fat.ItemsAreFileSlice | src/fs/fat/Fat16.c:706-727 | the same for nmemb items of fat16_read |
| Fat.WholeClusterItems | src/fs/fat/Fat16.c:706-727 | any number of items of whole clusters from an aligned position meets the condition |
| Fat.Reader.ClusterForOffset | src/fs/fat/Fat16.c:405-448 | the loop returns the cluster of the walk, or -EIO |
| Fat.Reader.ReadFromStream | src/fs/fat/Fat16.c:450-490 | the recursion, which walks the chain from its head at every level, terminates with the first failure or 0 and writes exactly the chunks before that failure; on an unreadable disk it writes nothing and returns the walk's error or -EIO |
| Fat.Reader.Read | src/fs/fat/Fat16.c:706-727 | returns nmemb or the first error, delivers the items from the position on, and leaves the position alone |
| Tokenizer.SpansAreMaximal | programs/kuzne_system_library/src/libc/memory.c:157-211 | a pair of positions is a token if and only if it bounds a maximal non-empty substring without delimiters |
| Tokenizer.SpansInOrder | programs/kuzne_system_library/src/libc/memory.c:157-211 | tokens come from left to right, without overlap |
| Tokenizer.NextReturned | programs/kuzne_system_library/src/libc/memory.c:157-211 | with its string already cut up by NULs, a call still returns the next token of the original string, or null with an empty cursor |
| Tokenizer.StrNCpy | programs/kuzne_system_library/src/libc/memory.c:133-145 | the longest prefix of the source string of at most count - 1 characters, always terminated |
| Tokenizer.Libc.StrTok | programs/kuzne_system_library/src/libc/memory.c:157-211 | works on the cursor if it is set, else on the argument; returns the token, writes exactly one NUL or nothing, moves the cursor behind it |
| Tokenizer.Libc.ParseCommand | programs/kuzne_system_library/src/syscalls/syscalls.c:4-50 | null for max >= 1025; else a linked list of the tokens of the first 1024 characters in order, each cut to 511, as many as malloc serves; the cursor ends empty if and only if malloc served them all |
| PathParser.AcceptedIff | src/fs/PathParser.c:95-133 | accepted are exactly a digit, ":/" and up to 105 characters, empty fields included; the parts are the fields up to the first empty one |
| PathParser.PartsAreFields | src/fs/PathParser.c:35-79 | the parts are the fields before the first empty one |
| PathParser.ParsePrinted | src/fs/PathParser.c:95-133 | for every digit and list of non-empty parts without slash or NUL whose printed path has at most 108 characters, parsing the printed path gives them back |
| PathParser.PrintParsedIff | src/fs/PathParser.c:95-133 | printing an accepted path gives back the text if and only if no field is empty or nothing follows the drive |
| PathParser.Parser.GetPathPart | src/fs/PathParser.c:35-59 | the text up to the slash in a new buffer, the cursor behind the slash; for an empty part null and the heap map as before |
| PathParser.Parser.ParsePathPart | src/fs/PathParser.c:61-79 | a new node linked behind the last one, two blocks more in use; or null |
| PathParser.Parser.Parse | src/fs/PathParser.c:95-133 | null exactly for a path over 108 characters or without digit, colon, slash; otherwise drive and linked parts of the path, with exactly the root's block and two blocks per part more in use |
| PathParser.Parser.Free | src/fs/PathParser.c:81-93 | frees buffer and node of every part, then the root, each once, on any list and heap |
| PathParser.FreeingRestores | src/fs/PathParser.c:81-93 | freeing what a parse took brings back the heap map byte for byte |
| PathParser.Parser.ParseAndFree | src/fs/PathParser.c:81-133 | parse then free leaves the heap map as it was, for every path |
| Numbers.DecimalReadsBack | src/memory/Memory.c:221-244 | the decimal text of any integer is a minus sign exactly for a negative one and then at least one digit 0 to 9, without leading zero but in "0"; reading it back gives the integer |
| Numbers.DecimalUnique | src/memory/Memory.c:221-244 | no other text of that form reads back to it |
| Numbers.HexReadsBack | src/memory/Memory.c:246-267 | the hexadecimal text is at least one digit 0 to 9 or A to F, without leading zero but in "0", reads back to the 32-bit pattern, and is the only such text |
| Numbers.Printer.Itoa | src/memory/Memory.c:221-244 | for every int, the minimum included, the text in the 12-byte buffer is the decimal numeral, at most 11 characters, terminated |
| Numbers.Printer.ItoaHex | src/memory/Memory.c:246-267 | for every int the text is the numeral of its two's complement; for a negative one exactly 8 digits, although the arithmetic shift never reaches 0 |
| Keyboard.ZeroIffEmpty | src/keyboard/Keyboard.c:81-100 | the slot at head is zero if and only if nothing is pending |
| Keyboard.HoldsUnique | src/keyboard/Keyboard.c:41-100 | a ring holds at most one queue |
| Keyboard.PushIff | src/keyboard/Keyboard.c:63-79 | a push of a NUL does nothing; any other one enqueues if fewer than 1024 characters are pending; on a full ring no queue describes the result |
| Keyboard.FullPushReplacesOldest | src/keyboard/Keyboard.c:63-79 | a push on a full ring is popped next, in place of the oldest character |
| Keyboard.PopDequeues | src/keyboard/Keyboard.c:81-100 | a pop returns the oldest character, or 0 and no change |
| Keyboard.BackspaceIff | src/keyboard/Keyboard.c:46-51 | a backspace drops the newest character if there is one; on an empty ring no queue describes the result |
| Keyboard.BackspaceOnEmptyLosesKey | src/keyboard/Keyboard.c:46-100 | after a backspace on an empty ring the next key pushed is not popped |
| Keyboard.RunRefinesQueue | src/keyboard/Keyboard.c:41-100 | over every run of pushes (room left), pops and backspaces (something pending) the ring outputs what a queue outputs |
| Keyboard.KeyBuffer.PushKey | src/keyboard/Keyboard.c:63-79 | in place, equals the push of `PushIff` |
| Keyboard.KeyBuffer.PopKey | src/keyboard/Keyboard.c:81-100 | in place, equals the pop of `PopDequeues` |
| Keyboard.KeyBuffer.BackspaceKey | src/keyboard/Keyboard.c:46-51 | in place, equals the backspace of `BackspaceIff` |

## Left out

- Heap.KernelHeap.Malloc: requests that would write past the map (nothing fits and the last entry is free) are excluded by a precondition; `Heap.StaysInsideIff` says when that is.
- Heap.KernelHeap.Free: entries in front of the map are excluded; only null and addresses below the heap name one.
- Kernel.KernelMemory.ZeroedAllocate: the same requests are excluded as in Heap.KernelHeap.Malloc.
- Kernel.KernelMemory.FreePageDirectory: a directory with a part below the heap, whose entry would lie in front of the map, is excluded.
- Process.TerminateConserves: skips empty slots, where the code frees null.
- ProcessCode.UserProcess.TerminateAllocations: skips empty slots, where the code frees null.
- ProcessCode.UserProcess.Free: not for null, which names an empty slot and then entry -4096.
- ProcessCode.UserProcess.Malloc: requests that would write past the heap map are excluded.
- Runs.MallocIsolationIff: requests that would write past the heap map are excluded; memset is taken to go round at 4 GB, beyond what its int counter defines.
- System.LoadIsolationIff: a file that does not fit and reaches the heap map (more than 31.5 KB) is excluded by a precondition, since the map afterwards is whatever the file says (`NullImage.NullReadBreaksMap`). Loading is that of an ELF file whose read succeeds; the headers are a parameter, not taken from the file. The Process, Task and ElfFile structures and parsed paths, some of which the code never frees, are not modelled.
- System.LoadKeepsIsolation: says nothing of an image that does not fit; that is `NullImage.NullImageIff`.
- System.ExitConserves: the Process and Task structures are not modelled, and the exit of a process without an image skips the free of null.
- Runs.RunKeepsKernel: the first 32 KB are left out, as a load whose image does not fit reads its file there.
- Programs.RunsAsAlone: loads from frames the process does not hold, which the page tables permit, are excluded; so are its own system calls.
- LoadedFile.FileAtItsAddresses: headers must lie in the blocks of the image.
- System.LoadThenExit: balance is stated for image, stack and page directory only, since the Process structure and parsed paths are never freed.
- CopyString.CopyStringFromTask: a source that faults is excluded: it must be present and avoid the temporary page and the table that maps it, up to its terminator, and the destination must avoid the temporary page.
- Contents.StoreKeepsIsolation: stores are of aligned words, and a store that faults is no step.
- TaskList.Scheduler.Remove: a stale prev names a task structure; that its block may meanwhile hold something other than a task, which the write then damages, is not modelled.
- ContextSwitch.SwitchTransparent: a task's memory is private to it by type, and a system call writes the caller's memory only; that page tables keep it private is `Programs.RunsAsAlone`.
- SwitchCode.Processor.TaskReturn: segment registers other than cs and ss are not modelled; memory cells hold whole words, so overlapping unaligned words are not represented.
- Stream.DiskStream.Read: positions are unbounded integers; overflow of int beyond 2 GB is not modelled.
- Fat.Reader.Read: the output array is exactly the requested region; offsets and sizes are unbounded integers; the chain must not lead before sector 0.
- Tokenizer.Libc.ParseCommand: a start with a cursor that an earlier failed parse left inside its dead stack buffer.
- PathParser.Parser.Parse: strings live in typed buffers beside the heap map, not as bytes of physical memory; allocation must succeed, as the code does not test it.
- PathParser.Parser.ParseAndFree: allocation must succeed, as in PathParser.Parser.Parse.
- Keyboard.KeyBuffer.PushKey: which process is current (CURRENT_PROCESS_ for pushes, CURRENT_TASK_ for pops); the laws are about one buffer.
- Flags of page entries are below 4096, so that "or" is addition (`Machine.OrIsAddition`); the kernel's own directory is the identity.
- The running 4 MB offset of new_page_directory_allocation is taken to wrap at 2^32.
- heap_create's validation of its arguments: short checks.
- FAT directory search and subdirectories, fat16_seek, file descriptors: the index and the count use different conventions and the rest is bounded tables.
- Port I/O, PIC, CR0, boot code, GDT, IDT and TSS set-up: hardware effects. Loading CR3 is setting the current directory; panic does not return.
- Terminal, shell, logging, scancodes: user interface.
