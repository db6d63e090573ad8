# AlienOS domains, modelled and proved in Dafny

The kernel components of AlienOS that keep real state between calls, each as a Dafny
module. State that the source updates in place is a class here; each of its methods is
proved against a function on values, and what the component is for is proved about that
function, for every input, every run, or both directions of an if-and-only-if. Check the
whole project with `dafny verify dfyconfig.toml`.

| file | component | main results |
|---|---|---|
| `Disk.dfy`, `CacheBlk.dfy` | write-back page cache over a 512-byte block device | `Serve`: over any run, capacity and choice of victims the cache is one flat array of bytes |
| `BufStream.dfy` | byte stream of the SD card driver | `Drive`: over any run of seeks, reads and writes it is a flat array with a cursor |
| `UserStack.dfy` | initial stack image of a process | `UserStack.Init`: which images fit, which are refused and which panic, and that one that fits parses back to argv, envp and the auxiliary vector; `EntryAlignment`: when the pointer is a multiple of 16 |
| `AddressSpace.dfy`, `ElfLoad.dfy` | loading ELF segments page by page | `LoadToVmSpace`: pages, permissions, bytes and break of every image by the fields of its program headers, even on shared pages; exactly which images fail, and how (`FaultOfHeaders`, `MismatchIff`) |
| `Heap.dfy` | placing stack, heap and kernel pages, and brk | `BuildVmSpace`: file bytes in place, two free pages below the stack; `RunTilesHeap`, `RunSoundIff`, `RunEndsSoundIff`: over any run of brk calls the heap's areas have no gap or overlap, and exactly which runs keep the end at the current end rounded up |
| `HeapAndMMap.dfy` | the address space that heap and mmap share | `BrkIsHeapGrows`: a brk in the terms of the region table; `MappingBlocksHeap`: a mapping that no brk can grow over |
| `Exec.dfy` | replacing the program of a process | `Execve`: after loading, placing and filling the stack, file bytes and arguments are all in memory |
| `MMap.dfy` | the region table behind mmap and munmap | `OverlayIsUpdate`, `WrappedRelabelView`, `MmapDisjointIff`, `RunTidyIff`: for which runs regions stay disjoint, and exactly those; `MunmapSoundIff`, `NeverReused` |
| `ProcessTree.dfy` | clone, exit with reparenting, wait4 | one parent, no cycles, nothing overwritten, `ReapedAtMostOnce`; `Kernel.Wait`: which child serves which wait |
| `Pipe.dfy` | the pipe ring buffer | `NothingLost`, `EndOfFile`, `ReadsDeliver`, for every interleaving |
| `Futex.dfy` | futex wait queues | `RequeueCutsInThree`; `RunConservesIff` says for which runs no waiter gets lost |
| `KFile.dfy`, `Vfs.dfy` | open files across a swap of the file system domain | `SwapDoesNotShow`: no run that opens, closes, reads, writes, seeks and sets flags can tell, unless it uses a special file that was open; `IdsAreFresh` |
| `Readdir.dfy` | listing a directory into a buffer | `EveryEntryOnce`; `WholeDirectoryIff`: which directories a fixed buffer reads to the end |
| `Scheduler.dfy` | the two schedulers and their shared queue | `WaitingIsExact` and `PriorityWaitingIsExact`: how long a task waits under either; `OrderKept`, `NeverOvertakes`, `RunConserves` |
| `SlotVec.dfy` | the table of open files | a finite map that hands out the lowest free index, until every file is dropped: `CountsIff`, `DupToLargest` |

## Where the code does not do what one might expect

Each of these is a lemma, not a remark.

- A stack image can start at an address that is not a multiple of 16, which section 3.4.1
  of the System V ABI AMD64 Architecture Processor Supplement asks for: the image is only
  aligned to eight. `EntryAlignment` gives the exact condition; `EntryCanBeMisaligned` shows
  that every process whose strings have at most seven bytes is off by eight.
- A stack that is too small does not always give ENOSPC. The first byte block that passes
  the limit is refused if it is no longer than the address it is pushed from, and panics
  otherwise (`FateIsFirstPast`, `LongArgument`); and `push_u64` looks at the position before
  it subtracts, so an image whose words alone do not fit panics (`OnlyWordsDoNotFit`).
  `UserStack.Init` says for every image which of the three it is (`ImageFate`).
- A file segment that ends in the last page of the address space fails the final count of
  copied bytes, because rounding its end up wraps to zero (`MismatchAtTheTop`); `MismatchIff`
  says for which images.
- A mapping below the bump area is not kept out of it by its length, so two calls can leave
  overlapping regions (`CrossingMappingOverlaps`). `MmapDisjointIff` says for which calls,
  `NextReservationIff` when the next reservation meets the mapping.
- A MAP_FIXED request inside a region whose end wraps past 2^64 is granted, relabels nothing
  and extends the region downwards instead, over whatever lies there (`WrappedRelabelView`,
  `WrappedRelabelDisjointIff`; `WrappedRequestOverlaps` gives two calls).
  `CutStaysInsideIff` says when the second split underflows.
- munmap takes away the whole area that starts where its region starts, so after MAP_FIXED
  has split a region the rest loses its memory, and an executable mapping can be put over
  the regions that are left (`SplitUnmapOverlaps`). `MunmapSoundIff` says for which calls
  that happens, `MunmapPanicsIff` when munmap panics instead, and `RunTidyIff` which runs
  keep regions disjoint all along.
- Requeueing part of a futex queue onto itself loses the waiters that moved
  (`RequeueConservesIff`; over runs, `RunConservesIff`).
- dup3 to descriptor 2^64 - 1 drops every open file: the length of the table wraps to zero,
  and its counter stays. From then on opening a file panics (`DupToLargest`). `CountsIff` says
  after which runs the counter is right.
- An exit that cannot clear the word its threads wait on panics after its children have
  moved: the task stays a managed zombie, which no wait takes for terminated
  (`StuckKeepsValid`).
- Under the priority scheduler a task that may run waits for the tasks ahead of it and for
  every less nice one that comes meanwhile, and for no others (`PriorityWaiting`, exact by
  `PriorityWaitingIsExact`); so nothing but the newcomers limits its wait
  (`PriorityStarves`).
- A directory read that returns zero means either the end of the directory or a buffer too
  small for the next entry (`NothingAtReach`). Reading again with the same buffer gets stuck
  there (`StuckAtLargeEntry`).
- After exec the region table still holds the regions of the old program. A MAP_FIXED request
  for a page of one of them is granted, and no page is mapped (`StaleRegionGrantsNothing`).
- Two tasks that read a shared file at once can get the same bytes, and the position moves past
  them twice (`SameBytesTwice`); `FollowsOnIff` says for which reads and writes that matters.
- The function that extends the heap keeps it sound only behind the guard in the system call
  (`ExtendKeepsSoundIff`), and not even there if the call panics: the current end has moved by
  then, past the pages of the heap, and brk with 0 answers it (`BrkOutcome`, `BlockedHeap`). A
  run of calls keeps the heap sound all along if and only if none panics (`RunSoundIff`); a
  later granted call repairs it (`RunEndsSoundIff`). One executable mapping at the start of an
  empty heap makes every brk panic (`MappingBlocksHeap`).

## How to read the model

- `Bytes.USIZE_RANGE` is 2^64. The domains are built without overflow checks
  (domain/src/subcommand/build.rs:150-152), so sums of machine words wrap around where the
  model says `% USIZE_RANGE`; elsewhere a precondition or a proved bound keeps them in range,
  or "Left out" says otherwise.
- `FRAME_SIZE` is 4096; the constants of the auxiliary vector are those of the System V
  ABI. `PROCESS_HEAP_MAX`, `PIPE_BUF` and the size of the user stack are parameters.
- The page-table, LRU and storage crates are not part of this model; `VmSpace`,
  `PageTable`, the cache map and the storage map stand in for them. What such a crate may
  choose freely, the model leaves open: the page that is evicted and the contents of a fresh
  frame. `PageTable` holds areas by where they start: mapping adds one unless it meets
  another, unmapping takes away the one that starts at the address given. `VmSpace` holds the
  same by its pages; `FreeIsUnmapped`, `MappedAlike` and `UnmappedAlike` tie the two together.
- A program panic is a value (`Panic`, `Panics`, `panicked`), so that a contract says when
  it happens.
- Steps of concurrent parties are atomic where the source holds a lock, and a run is any
  sequence of such steps. Two calls that the source makes of more than one such step are one
  step here: brk, and reading or writing a file at its position. `StaleGuardSoundIff`,
  `PositionAfterTurns` and `FollowsOnIff` say what becomes of them when others come in between.

## Model

| member | source | states |
|---|---|---|
| `Disk.AfterIsLastWritten` | drivers/cache_blk/cache_blk/src/lib.rs:139-173 | the flat array that runs are compared with: each byte is what the last write covering it put there, else its initial value |
| `Disk.ReadAfterRun` | drivers/cache_blk/cache_blk/src/lib.rs:139-155 | a read at the end of any run returns the bytes of the array that the run left |
| `CacheBlk.PageCache.CopyTo` | drivers/cache_blk/cache_blk/src/lib.rs:28-41 | exactly the asked bytes of the page, across its blocks, land in the asked part of the buffer; the rest of the buffer stays |
| `CacheBlk.PageCache.CopyFrom` | drivers/cache_blk/cache_blk/src/lib.rs:43-56 | the page's bytes are the old ones with the data spliced in |
| `CacheBlk.GenericBlockDevice.constructor` | drivers/cache_blk/cache_blk/src/lib.rs:72-78 | a new cache shows the device's bytes |
| `CacheBlk.GenericBlockDevice.ReadPage` | drivers/cache_blk/cache_blk/src/lib.rs:82-93 | a page is read from its own eight device blocks |
| `CacheBlk.GenericBlockDevice.Push` | drivers/cache_blk/cache_blk/src/lib.rs:94-96 | the cache stays within capacity; whichever page leaves still holds its bytes, and every other page still shows them |
| `CacheBlk.GenericBlockDevice.WriteBack` | drivers/cache_blk/cache_blk/src/lib.rs:96-102 | exactly the eight blocks of the evicted page change on the device |
| `CacheBlk.GenericBlockDevice.Check` | drivers/cache_blk/cache_blk/src/lib.rs:80-105 | afterwards the page is cached, whole and within capacity, and the flat view has not changed |
| `CacheBlk.GenericBlockDevice.Read` | drivers/cache_blk/cache_blk/src/lib.rs:139-155 | returns the asked bytes of the flat disk and changes none, whatever is cached |
| `CacheBlk.GenericBlockDevice.Write` | drivers/cache_blk/cache_blk/src/lib.rs:157-173 | exactly the bytes from the offset on change, to the buffer's |
| `CacheBlk.Serve` | drivers/cache_blk/cache_blk/src/lib.rs:139-173 | over any run, every capacity and every choice of victims the replies and the final disk are those of a plain array |
| `CacheBlk.PageIsDisk` | drivers/cache_blk/cache_blk/src/lib.rs:139-155 | a stretch of a cached page is the same stretch of the flat disk |
| `CacheBlk.PageWritten` | drivers/cache_blk/cache_blk/src/lib.rs:157-173 | splicing into a page is splicing into the disk at that page |
| `CacheBlk.OtherPagesKept` | drivers/cache_blk/cache_blk/src/lib.rs:157-173 | a splice inside one page leaves the blocks of all other pages |
| `BufStreams.BufStream.Read` | drivers/vf2_sd/vf2_sd/src/fs_test.rs:56-80 | fills the buffer with the card's bytes from the cursor and moves the cursor past them |
| `BufStreams.BufStream.WritePart` | drivers/vf2_sd/vf2_sd/src/fs_test.rs:87-117 | a whole or partial block write changes only the written bytes of the card |
| `BufStreams.BufStream.Write` | drivers/vf2_sd/vf2_sd/src/fs_test.rs:87-117 | the card changes exactly in the written range, at any length and alignment; the cursor moves past it |
| `BufStreams.BufStream.Seek` | drivers/vf2_sd/vf2_sd/src/fs_test.rs:124-141 | the cursor goes to the target, a negative one wraps; seeking from the end panics and leaves the cursor |
| `BufStreams.SeekLeads` | drivers/vf2_sd/vf2_sd/src/fs_test.rs:124-141 | where a seek leads, by its argument |
| `BufStreams.Drive` | drivers/vf2_sd/vf2_sd/src/fs_test.rs:55-141 | over any run the stream is a flat array with a cursor: what is read, what is left on the card, and where the cursor ends |
| `UserStacks.LittleEndianRoundTrip` | common/task/task/src/resource.rs:213-224 | a word written as bytes reads back as the same word |
| `UserStacks.UserStack.PushBytes` | common/task/task/src/resource.rs:237-250 | succeeds, is refused or panics exactly as the length, the position and the limit say; places the bytes and disturbs no earlier block |
| `UserStacks.UserStack.PushU64` | common/task/task/src/resource.rs:213-224 | stores one word below the others, or fails in the write where the limit was passed |
| `UserStacks.UserStack.AlignTo8` | common/task/task/src/resource.rs:252-260 | rounds the position down to eight, or reports that the stack is full |
| `UserStacks.UserStack.PushStrings` | common/task/task/src/resource.rs:184-200 | succeeds, is refused or panics as the first string without room says; returns, last one first, the addresses where each string with its zero now lies |
| `UserStacks.UserStack.PushVecU64` | common/task/task/src/resource.rs:202-211 | the words lie below each other in the order pushed |
| `UserStacks.UserStack.SetAux` | common/task/task/src/resource.rs:291-301 | updates the table as a map; refuses the two reserved keys and then changes nothing |
| `UserStacks.InsertOrderedIsUpdate` | common/task/task/src/resource.rs:291-301 | insertion into the ordered table is map update |
| `UserStacks.UserStack.PushAuxVec` | common/task/task/src/resource.rs:161-182 | succeeds, is refused or panics as the blocks and words of the table say; the final table has the three addresses filled in and lies in memory above its terminator's words |
| `UserStacks.FateIsFirstPast` | common/task/task/src/resource.rs:237-250 | pushing blocks succeeds if and only if they end at or above the limit; otherwise it is refused if and only if the first block to pass the limit is no longer than the address it is pushed from, and panics if it is longer |
| `UserStacks.FateOfConcat` | common/task/task/src/resource.rs:237-250 | what becomes of two runs of blocks: the second is pushed from where the first ends, unless that one failed |
| `UserStacks.UserStack.Init` | common/task/task/src/resource.rs:144-155 | succeeds, is refused or panics exactly as `ImageFate` of the lengths says; on success memory parses to argc, argv, envp and the final table, with every pointer leading to its string; memory outside the stack is as before |
| `UserStacks.UserStack.ImageReads` | common/task/task/src/resource.rs:144-155 | a stack that holds the words and the strings reads back as the image |
| `UserStacks.UserStack.ImageParses` | common/task/task/src/resource.rs:144-155 | the parser finds argc, both vectors and the pairs up to the zero key |
| `UserStacks.UserStack.StringsParse` | common/task/task/src/resource.rs:184-200 | each pointer reads back its zero-terminated string |
| `UserStacks.WordsImage` | common/task/task/src/resource.rs:144-182 | the words of an image parse as argc, argv, NULL, envp, NULL and pairs |
| `UserStacks.EntryAlignment` | common/task/task/src/resource.rs:144-155 | the entry pointer is a multiple of 16 if and only if the byte blocks end on the half that the number of strings asks for |
| `UserStacks.EntryCanBeMisaligned` | common/task/task/src/resource.rs:144-155 | every process whose strings have at most seven bytes and fit, whatever its table, gets an image whose pointer is eight off a multiple of 16 |
| `UserStacks.OnlyWordsDoNotFit` | common/task/task/src/resource.rs:213-224 | stacks of every size that hold the byte blocks but not the words: starting the process panics and is not refused |
| `UserStacks.LongArgument` | common/task/task/src/resource.rs:237-250 | an argument longer than the stack, if the strings pushed before it fit, panics if it is as long as the position it is pushed from is high, and is refused otherwise |
| `UserStacks.LongEnvironmentString` | common/task/task/src/resource.rs:237-250 | the same of an environment string |
| `AddressSpace.VmSpace.MapPage` | common/task/task/src/elf.rs:247-259 | maps a page unless one is mapped there, and keeps all other memory |
| `AddressSpace.VmSpace.MapArea` | common/task/task/src/task.rs:279-285 | maps an area unless a page of it is mapped, and keeps all other memory |
| `ElfLoad.EnsurePage` | common/task/task/src/elf.rs:236-264 | the page ends up with its old permissions and the new ones, and mapped memory keeps its bytes |
| `ElfLoad.CopyToPage` | common/task/task/src/elf.rs:266-284 | exactly the backed bytes of the page get the file's bytes, and the count is how many there are |
| `ElfLoad.LoadPages` | common/task/task/src/elf.rs:235-287 | permissions, bytes and count over the whole page range of a segment |
| `ElfLoad.LoadSegment` | common/task/task/src/elf.rs:194-296 | exactly which segments fail and with which error; otherwise all backed bytes hold the file's, pages gain the permissions, nothing else changes |
| `ElfLoad.LoadToVmSpace` | common/task/task/src/elf.rs:144-302 | which headers cannot be loaded, and with which error, by their fields; otherwise exactly the pages of LOAD headers are added, with the permissions the headers ask for, the file's bytes are at virtualAddr + bias, and the break is the greatest virtualAddr + bias + memSize |
| `ElfLoad.PageOfHeaders` | common/task/task/src/elf.rs:144-178 | a page belongs to a collected segment, or is given a permission by one, if and only if a LOAD header over it, file-backed or not, says so |
| `ElfLoad.ByteOfHeaders` | common/task/task/src/elf.rs:144-178 | the byte that belongs at an address is the one of the last LOAD header whose part of the file covers it |
| `ElfLoad.BreakOfHeaders` | common/task/task/src/elf.rs:194-206 | the break is the greatest end in memory of a LOAD header, zero without any |
| `ElfLoad.FaultOfHeaders` | common/task/task/src/elf.rs:211-294 | loading ends with an error if and only if the first LOAD header that cannot be loaded fails with it: more bytes in the file than in memory, bytes past the file, or an end in the last page |
| `ElfLoad.LoadedAsHeadersSay` | common/task/task/src/elf.rs:144-302 | pages, permissions and bytes of a loaded address space by the fields of the headers |
| `ElfLoad.PagesNext` | common/task/task/src/elf.rs:236-264 | one more segment adds its permissions to the union on every page it touches |
| `ElfLoad.BytesNext` | common/task/task/src/elf.rs:266-284 | one more segment overwrites the bytes it backs and no others |
| `ElfLoad.DisjointSegmentsLoaded` | common/task/task/src/elf.rs:194-301 | if no other segment backs its bytes, byte k of a segment is in memory at startVaddr + k and is byte offset + k of the file |
| `ElfLoad.BackedBelowBreak` | common/task/task/src/elf.rs:194-301 | no byte taken from the file lies at or above the break |
| `ElfLoad.MismatchIff` | common/task/task/src/elf.rs:288-294 | loading ends with the copied-size mismatch if and only if the first faulty segment passes both checks, has file bytes and ends in the last page of the address space |
| `ElfLoad.MismatchAtTheTop` | common/task/task/src/elf.rs:288-294 | a segment of one byte, all of it in the file, that cannot be loaded |
| `ElfLoad.MismatchOnlyAtTheTop` | common/task/task/src/elf.rs:288-294 | the copied-size mismatch cannot come up unless a segment with file bytes ends in the last page |
| `Heap.StackAboveBreak` | common/task/task/src/elf.rs:355-360 | break, gap and stack are in increasing order with two free pages between if and only if they fit the address space |
| `Heap.TouchedBelowBreak` | common/task/task/src/elf.rs:194-206 | all segment pages lie below the break rounded up |
| `Heap.PlaceStack` | common/task/task/src/elf.rs:355-378 | the stack is never refused above a break that all mapped pages lie below |
| `Heap.BuildVmSpace` | common/task/task/src/elf.rs:352-400 | which images are faulty, by the fields of the headers, or clash with the kernel's pages; otherwise all file bytes are in memory, and segments, two free pages, stack and heap start lie in this order, with nothing mapped between or above but the trap context and the trampoline |
| `Heap.BuiltAsSaid` | common/task/task/src/elf.rs:352-400 | break, bytes, pages and permissions of a finished image by the fields of the headers |
| `Heap.MapKernelPages` | common/task/task/src/elf.rs:380-400 | maps the trap context and the trampoline unless one of them is taken, and keeps all other memory |
| `Exec.Execve` | common/task/task/src/task.rs:563-610 | which images are faulty, or clash with the kernel's pages, and otherwise which stacks fail, and how; when both succeed, every byte that one segment alone takes from the file is in place, and the stack parses to the arguments |
| `Exec.StackIsThere` | common/task/task/src/elf.rs:355-400 | the stack of a finished image is mapped throughout, and the word below it is not |
| `Exec.BackedBelowStack` | common/task/task/src/elf.rs:194-378 | no byte taken from the file lies on the stack |
| `Heap.Task.ExtendHeap` | common/task/task/src/task.rs:257-288 | sets the current end; maps exactly the missing pages, or panics where one is in use or past the top, which leaves the new current end behind and nothing mapped |
| `Heap.Task.Brk` | common/syscall/syscall/src/mm.rs:14-28 | answer and effect of the call: 0 asks, a lower address is refused and changes nothing, a higher one extends or panics |
| `Heap.ExtendKeepsSoundIff` | common/task/task/src/task.rs:257-288 | extending keeps the end equal to the rounded current end if and only if the address is in the space, not below the start, and does not leave the last page unused |
| `Heap.StaleGuardSoundIff` | common/syscall/syscall/src/mm.rs:20-27 | two calls that both passed the guard before either extended the heap leave it sound if and only if the second does not end on a lower page than the first |
| `Heap.BrkKeepsSound` | common/syscall/syscall/src/mm.rs:23-28 | a granted call leaves a sound heap, also after one that panicked, and never shrinks it |
| `Heap.BrkAnswers` | common/syscall/syscall/src/mm.rs:20-27 | 0 is answered with the current end, an address below the start or the current end with EINVAL, and a granted address with itself, which is then the current end |
| `Heap.BrkOutcome` | common/task/task/src/task.rs:257-288 | a call that panics leaves the current end past the heap's pages, one that is granted a sound heap, and any other changes nothing |
| `Heap.BrkSoundIff` | common/task/task/src/task.rs:257-288 | a call keeps a sound heap sound if and only if it does not panic |
| `Heap.BrkPanicsIff` | common/task/task/src/task.rs:257-288 | exactly when a brk cannot be served, also after one that panicked |
| `Heap.BlockedHeap` | common/task/task/src/task.rs:257-288 | where the page behind the heap is in use every brk past the heap panics, and then brk with 0 answers an end that the heap's pages do not reach |
| `Heap.RunSoundIff` | common/task/task/src/task.rs:257-288 | over any run of brk calls start <= current <= end and the end is the current end rounded up, all along, if and only if no call panics |
| `Heap.RunEndsSoundIff` | common/task/task/src/task.rs:257-288 | a run ends with such a heap if and only if the last call that set the current end was granted |
| `Heap.RunTilesHeap` | common/task/task/src/task.rs:257-288 | over any run, with panics or without, the current end and the end only grow, the mapped areas tile what was added, none of those pages was in use, and no other page changes |
| `HeapAndMMap.BrkIsHeapGrows` | common/task/task/src/task.rs:257-288 | a brk, granted or not, is the event `HeapGrows` of the region table, and heap and address space agree with the table afterwards |
| `HeapAndMMap.MappingBlocksHeap` | common/task/task/src/syscall/mmap.rs:146-158 | an executable mapping at the start of an empty heap is granted; after that every brk above the start panics, and brk with 0 answers what was asked for |
| `MMap.MMapRegion.Split` | common/task/task/src/resource.rs:409-419 | on machine words; a cut inside the region shares out its addresses between the two parts |
| `MMap.MMapRegion.SplitKeepsPlaces` | common/task/task/src/resource.rs:409-419 | wherever the cut is, both parts keep protection, flags, file and place in the file of every address |
| `MMap.MMapInfo.Alloc` | common/task/task/src/resource.rs:351-357 | hands out the next range and moves the start past it, rounded up to pages |
| `MMap.MMapInfo.GetRegion` | common/task/task/src/resource.rs:363-367 | the first region that contains the address |
| `MMap.MMapInfo.RemoveRegion` | common/task/task/src/resource.rs:375-384 | removes the region that `GetRegion` finds, and keeps the others in order |
| `MMap.Overlay` | common/task/task/src/syscall/mmap.rs:162-205 | splits the region that a MAP_FIXED request falls in, in any table and for any length, with the wrapped end that the source compares and cuts at |
| `MMap.OverlayIsUpdate` | common/task/task/src/syscall/mmap.rs:162-205 | if the end of the request does not wrap, only addresses from its start to the smaller of its end and the region's change; every other address keeps its file offset; the table stays disjoint and covers as much |
| `MMap.KeptOutside` | common/task/task/src/syscall/mmap.rs:162-205 | replacing a region by pieces of it changes nothing outside it |
| `MMap.DoMmap` | common/task/task/src/syscall/mmap.rs:120-237 | for any table and any request the call is the function `Mmap` on regions, bump pointer and areas |
| `MMap.MmapRefusedIff` | common/task/task/src/syscall/mmap.rs:120-177 | exactly which requests are refused with EBADF and which with EINVAL, by the fields of the request and what the regions contain; those change nothing, nor does a request in the heap |
| `MMap.MmapOutcome` | common/task/task/src/syscall/mmap.rs:146-237 | where any other request puts its mapping, that it relabels or else adds one region with the fields asked for, what it maps, how the bump pointer moves, and exactly when it panics |
| `MMap.DoMunmap` | common/task/task/src/syscall/mmap.rs:239-255 | for any table and any range the call is the function `Munmap`: it removes the region and the area that starts there, or panics if none does |
| `MMap.MunmapOutcome` | common/task/task/src/syscall/mmap.rs:239-255 | exactly when munmap is refused or panics; else region and area go, and nothing else |
| `MMap.VdsoReserve` | common/task/task/src/syscall/mmap.rs:17-31 | the reservation is the function `Reserve` |
| `MMap.ReserveOutcome` | common/task/task/src/syscall/mmap.rs:17-31 | a reservation is refused if and only if it is empty; else it is granted at the bump pointer, which moves past it, and its region has no area |
| `MMap.CutStaysInsideIff` | common/task/task/src/syscall/mmap.rs:178-187 | the second cut lies inside the region if and only if start + len does not wrap; where it wraps the cut is always made, and below the part it cuts, so that the subtraction underflows |
| `MMap.WrappedRelabelView` | common/task/task/src/syscall/mmap.rs:178-187 | a request that wraps relabels nothing: every address keeps what it stood for, and those from the wrapped end up to the request's start that stood for nothing now belong to the region |
| `MMap.WrappedRelabelDisjointIff` | common/task/task/src/syscall/mmap.rs:178-187 | it leaves regions disjoint if and only if it starts where its region does and no other region lies between the wrapped end and there |
| `MMap.WrappedRequestOverlaps` | common/task/task/src/syscall/mmap.rs:162-205 | two granted calls, at any three free pages below the heap, that leave two regions containing the same page |
| `MMap.AppendDisjointIff` | common/task/task/src/syscall/mmap.rs:206-237 | a table stays disjoint with one more region if and only if that one is empty or meets no non-empty one |
| `MMap.MmapTidyIff` | common/task/task/src/syscall/mmap.rs:120-237 | adding a region keeps the regions disjoint and below the bump pointer if and only if its range fits, for any table that was so |
| `MMap.RelabelTidyIff` | common/task/task/src/syscall/mmap.rs:162-205 | a MAP_FIXED call inside a region keeps them so if and only if its end does not wrap |
| `MMap.RelabelKeepsCover` | common/task/task/src/syscall/mmap.rs:162-205 | if it does not wrap it changes what addresses stand for, not which ones do |
| `MMap.MmapIsUpdate` | common/task/task/src/syscall/mmap.rs:120-237 | a granted call whose end does not wrap updates the address map in its range and nowhere else, and the covered length grows by the pages added |
| `MMap.ReserveTidyIff` | common/task/task/src/syscall/mmap.rs:17-31 | a reservation keeps the regions disjoint and below the bump pointer if and only if that pointer does not wrap |
| `MMap.MunmapKeepsTidy` | common/task/task/src/syscall/mmap.rs:239-255 | any munmap does so, and forgets exactly the addresses of its region |
| `MMap.MmapDisjointIff` | common/task/task/src/syscall/mmap.rs:206-237 | after a granted mapping below the bump area the regions are disjoint if and only if every region in the bump area starts at or above its end; the address space sees to all others |
| `MMap.NextReservationIff` | common/task/task/src/syscall/mmap.rs:17-31 | then the next reservation is disjoint from all regions if and only if the mapping ends at or below the bump pointer, or the reservation wraps and contains nothing |
| `MMap.CrossingMappingOverlaps` | common/task/task/src/syscall/mmap.rs:206-237 | a mapping and a reservation whose regions overlap, in every process with an empty heap and no area from there up to the first page of the bump area |
| `MMap.MmapSoundIff` | common/task/task/src/syscall/mmap.rs:120-237 | adding a region keeps all regions below the bump area in areas of their own if and only if there is room in the bump area for it |
| `MMap.MunmapPanicsIff` | common/task/task/src/syscall/mmap.rs:239-255 | munmap of a region panics if and only if no area starts there; below the bump area, if and only if the region lies inside an area that starts before it |
| `MMap.MunmapSoundIff` | common/task/task/src/syscall/mmap.rs:239-255 | munmap leaves every other region its area if and only if the area that starts there ends with the region |
| `MMap.SplitUnmapOverlaps` | common/task/task/src/syscall/mmap.rs:239-255 | four calls, at any three free pages below the heap, that are all granted and leave overlapping regions |
| `MMap.RunTidyIff` | common/task/task/src/resource.rs:351-384 | over any run of mmap, munmap, reservations, a growing heap, other mappings, exec and processes that share the table, regions are disjoint and below the bump pointer all along if and only if every region added fits the table of that moment, no relabelling wraps and every heap starts below the bump area; nothing is asked of munmap or of the address spaces |
| `MMap.RunStaysSound` | common/task/task/src/resource.rs:351-384 | if munmap takes whole areas only, and the table passes to another address space only without regions below the bump area, it is enough that mappings stay clear of the bump area |
| `MMap.StaleRegionGrantsNothing` | common/task/task/src/task.rs:574-583 | exec keeps the regions: a page of an old one is granted to a MAP_FIXED request of the new program, in whatever address space it has, and nothing is mapped there |
| `MMap.NeverReused` | common/task/task/src/resource.rs:351-357 | bump-allocated ranges are whole pages, one above the other, so that none is handed out twice, if and only if no bump allocation wraps; whatever else the run does |
| `MMap.RunStaysPaged` | common/task/task/src/resource.rs:351-384 | regions are whole pages over any run, wrapped or not |
| `MMap.FreeIsUnmapped` | common/task/task/src/syscall/mmap.rs:231-236 | the two stand-ins for an address space, by areas and by pages, refuse to map the same ranges |
| `MMap.MappedAlike` | common/task/task/src/syscall/mmap.rs:231-236 | and agree after mapping |
| `MMap.UnmappedAlike` | common/task/task/src/syscall/mmap.rs:252 | and after unmapping an area |
| `ProcessTree.OneParent` | common/task/task/src/task.rs:557-559 | every task but init is in the children map of its parent, which is older, under its tid, and in no other children map |
| `ProcessTree.ChainsEndAtInit` | common/task/task/src/syscall/exit.rs:13-48 | parent chains are acyclic and end at init |
| `ProcessTree.CloneKeepsValid` | common/task/task/src/task.rs:406-561 | a fork-style clone keeps the tree |
| `ProcessTree.ClonedFields` | common/task/task/src/task.rs:406-561 | what a clone adds, field by field, and that nothing else changes |
| `ProcessTree.NoOverwrite` | common/task/task/src/syscall/exit.rs:13-48 | handing children to init overwrites none of init's own |
| `ProcessTree.ExitKeepsValid` | common/task/task/src/syscall/exit.rs:13-48 | exit with reparenting keeps the tree |
| `ProcessTree.StuckKeepsValid` | common/task/task/src/syscall/exit.rs:13-40 | an exit that panics half way keeps the tree |
| `ProcessTree.DepartedFields` | common/task/task/src/syscall/exit.rs:13-48 | every field of every task after an exit |
| `ProcessTree.ExitedFields` | common/task/task/src/syscall/exit.rs:13-48 | what an exit does beside the tasks: the task leaves the manager, its code is recorded, its status is the code's low byte shifted up |
| `ProcessTree.ReapedFields` | common/task/task/src/syscall/wait.rs:9-57 | what a reap takes away, field by field: the child under the tid and no other |
| `ProcessTree.MatchIsTid` | common/task/task/src/syscall/wait.rs:59-74 | a wait for -1 is about all children and served by the lowest terminated tid, any other about the child under that tid alone |
| `ProcessTree.ReapKeepsValid` | common/task/task/src/syscall/wait.rs:9-57 | reaping keeps the tree, and the task was never reaped before |
| `ProcessTree.Kernel.Clone` | common/task/task/src/task.rs:406-561 | the new task is entered under its tid with its parent, or nothing changes when tids run out |
| `ProcessTree.Kernel.MoveChildren` | common/task/task/src/syscall/exit.rs:13-48 | all children, and only they, move to init |
| `ProcessTree.Kernel.Exit` | common/task/task/src/syscall/exit.rs:13-48 | the task leaves its children to init, ends with its status and leaves the manager; init may not exit; where the word to clear cannot be written the exit panics and the task stays a managed zombie without children |
| `ProcessTree.Kernel.FilterExitTask` | common/task/task/src/syscall/wait.rs:59-74 | the terminated child under the tid asked for, or for -1 the one with the lowest tid; tells "no such child", by the keys of the children, from "none ended yet" |
| `ProcessTree.Kernel.Wait` | common/task/task/src/syscall/wait.rs:9-57 | exactly when each answer comes: ECHILD for -1 without children or a pid that is no child's tid; a wait for a pid is served by that pid, a wait for -1 by the lowest terminated tid; the status is (code & 0xff) << 8, and the child is removed unless it is to be kept; a status that cannot be written panics and removes nobody |
| `ProcessTree.ExitStatus` | common/task/task/src/syscall/exit.rs:13-48 | the status is the low byte of the code, shifted up by eight |
| `ProcessTree.ReapedAtMostOnce` | common/task/task/src/syscall/wait.rs:9-57 | over any run, every status that a wait returns is that of the code its task exited with; a task is reaped at most once, and after that no wait returns its status, not even one that keeps the child |
| `ProcessTree.CodesStay` | common/task/task/src/syscall/exit.rs:13-48 | an exit code once set is never replaced |
| `Pipes.PipeInodeData.AvailableRead` | common/vfs/vfs/src/pipe.rs:150-156 | the number of bytes waiting |
| `Pipes.PipeInodeData.AvailableWrite` | common/vfs/vfs/src/pipe.rs:158-164 | with the bytes waiting it always adds up to one less than the ring |
| `Pipes.PipeInodeData.Write` | common/vfs/vfs/src/pipe.rs:167-176 | appends as many bytes as there is room for, in order |
| `Pipes.PipeInodeData.Read` | common/vfs/vfs/src/pipe.rs:178-187 | takes the oldest bytes, as many as there are and fit, and writes nowhere else in the buffer |
| `Pipes.Pipe.Read` | common/vfs/vfs/src/pipe.rs:224-248 | one turn of a reader: it yields if and only if nothing waits and a writer is left, else it returns the oldest bytes, as many as wait and fit, leaves the rest, and writes nowhere else in the buffer |
| `Pipes.Pipe.Write` | common/vfs/vfs/src/pipe.rs:250-274 | one turn of a writer: it yields if and only if the ring is full and a reader is left, else it appends the first bytes, as many as there is room for |
| `Pipes.ReadTakesOldest` | common/vfs/vfs/src/pipe.rs:224-248 | the same of a turn of the queue that runs are made of |
| `Pipes.WriteAppendsFirst` | common/vfs/vfs/src/pipe.rs:250-274 | the same for writes |
| `Pipes.ReadsDeliver` | common/vfs/vfs/src/pipe.rs:224-248 | by as many non-empty reads as n, however small and whatever else happens, the oldest n bytes are delivered |
| `Pipes.Pipe.Poll` | common/vfs/vfs/src/pipe.rs:275-292 | readiness to read and to write exactly when it is asked for and there; hang-up and error exactly when one end alone is left, asked for or not |
| `Pipes.Pipe.constructor` | common/vfs/vfs/src/pipe.rs:340-347 | a new pipe is empty with both ends open |
| `Pipes.NothingLost` | common/vfs/vfs/src/pipe.rs:223-274 | for every interleaving, delivered bytes followed by the ring are the accepted bytes |
| `Pipes.EndOfFile` | common/vfs/vfs/src/pipe.rs:224-248 | a non-empty read returns nothing only when no writer is left and every accepted byte was delivered |
| `Futexes.MatchAnyHits` | common/task/task/src/futex.rs:59-77 | a wake for any bit takes in exactly the waiters with a bit set |
| `Futexes.CommonBitIff` | common/task/task/src/futex.rs:59-77 | two masks have a bit in common if and only if some place has a one in both |
| `Futexes.AllHit` | common/task/task/src/futex.rs:59-77 | a wake that takes in everyone wakes the oldest min(num, n) in arrival order |
| `Futexes.OldestFirst` | common/task/task/src/futex.rs:59-77 | with a bitset, the oldest matching waiters are woken in order, and all others stay in order |
| `Futexes.WokenAndLeft` | common/task/task/src/futex.rs:59-77 | every waiter is either woken or left, as often as it was there |
| `Futexes.FutexWaitManager.AddWaiter` | common/task/task/src/futex.rs:55-57 | the waiter is last in its queue and no other queue changes |
| `Futexes.FutexWaitManager.Wake` | common/task/task/src/futex.rs:59-77 | the in-place loop wakes and keeps exactly the waiters `Woken` and `Left` say |
| `Futexes.FutexWaitManager.Requeue` | common/task/task/src/futex.rs:79-102 | moves the youngest to the target, in order, and returns how many |
| `Futexes.RequeueConserves` | common/task/task/src/futex.rs:79-102 | no waiter is lost or doubled by a requeue that does not overwrite |
| `Futexes.RequeueConservesIff` | common/task/task/src/futex.rs:79-102 | waiters are conserved if and only if it does not move a proper part of a queue onto itself |
| `Futexes.FutexSyscall` | common/task/task/src/syscall/futex.rs:20-134 | each operation is the function `Futex` on the queues; also which calls fail with EINVAL, EAGAIN or ENOSYS, and which panic on unreadable memory |
| `Futexes.WaitOutcome` | common/task/task/src/syscall/futex.rs:62-123 | with the memory readable a wait blocks if and only if the word equals val, and then its waiter is last in the queue with the mask of its operation; else the answer is EAGAIN and nothing changes |
| `Futexes.WakeOutcome` | common/task/task/src/syscall/futex.rs:102-128 | a wake goes through the queue from the oldest on and wakes those with a bit in common with its mask until there are val; it answers how many, and all others stay in order |
| `Futexes.PlainWake` | common/task/task/src/syscall/futex.rs:102-105 | a plain wake of waiters for some bit wakes the oldest min(val, n) and leaves the rest |
| `Futexes.RequeueOutcome` | common/task/task/src/syscall/futex.rs:80-101 | a compare-requeue answers EAGAIN if and only if the word is not val3, and is otherwise, like a requeue, the cut in three |
| `Futexes.OtherOutcome` | common/task/task/src/syscall/futex.rs:28-131 | the operations that only fail |
| `Futexes.RequeueCutsInThree` | common/task/task/src/syscall/futex.rs:80-100 | wake-and-requeue between two addresses splits a queue into the oldest woken, the youngest moved and the middle; returns woken plus moved; other queues stay |
| `Futexes.CallConserves` | common/task/task/src/syscall/futex.rs:20-134 | one call that moves no part of a queue onto itself: waiters before and entered are those woken and those waiting |
| `Futexes.RunConservesIff` | common/task/task/src/syscall/futex.rs:20-134 | over any run every waiter that was there or came is woken or waiting, as often as it came, if and only if no call moved part of a queue onto itself |
| `Futexes.NeverTooMany` | common/task/task/src/syscall/futex.rs:20-134 | over any run no waiter is woken or waiting more often than it was there or came |
| `KFiles.KernelFile.Read` | common/vfs/vfs/src/kfile.rs:132-156 | reads at the position, moves it by what was read, and on a refused or failed read leaves it |
| `KFiles.KernelFile.Write` | common/vfs/vfs/src/kfile.rs:138-169 | the same for writing |
| `KFiles.KernelFile.Seek` | common/vfs/vfs/src/kfile.rs:191-203 | sets the position, or leaves it where the target is no word or the size cannot be had |
| `Vfs.PositionAfter` | common/vfs/vfs/src/kfile.rs:132-143 | over any reads and writes the position moves by exactly what the file system transferred |
| `Vfs.CallsFollowOn` | common/vfs/vfs/src/kfile.rs:132-169 | of calls made one after the other, each read or write asks its own inode for the bytes right after those transferred so far |
| `Vfs.PositionAfterTurns` | common/vfs/vfs/src/kfile.rs:132-143 | however tasks mix the halves of their reads and writes, the position moves by what was transferred, all in all |
| `Vfs.FollowsOnIff` | common/vfs/vfs/src/kfile.rs:132-143 | a read or write with others between its halves asks for the bytes at the position where it began, and they follow on those transferred so far if and only if the others moved the position by nothing, modulo 2^64 |
| `Vfs.SameBytesTwice` | common/vfs/vfs/src/kfile.rs:132-143 | two reads at once ask for the same bytes, and the position moves past both |
| `Vfs.DecimalInjective` | common/vfs/vfs/src/kfile.rs:45 | two numbers never print alike |
| `Vfs.KeyInjective` | common/vfs/vfs/src/tree.rs:193 | two files never share a stored record |
| `Vfs.OpenKeepsSound` | common/vfs/vfs/src/lib.rs:73-79 | opening stores a new record under a fresh key, never an old one |
| `Vfs.OpenOutcome` | common/vfs/vfs/src/lib.rs:73-79 | opening enters a regular file, its shadow id and a record under the next id; the position is the size for appending and zero otherwise; no other id is touched |
| `Vfs.OpenSpecialOutcome` | common/vfs/vfs/src/lib.rs:81-85 | a special file gets the next id and leaves no trace in the storage |
| `Vfs.CloseKeepsSound` | common/vfs/vfs/src/lib.rs:87-94 | closing keeps the table sound, and the check in the file's drop cannot fail |
| `Vfs.CloseOutcome` | common/vfs/vfs/src/lib.rs:87-94 | closing removes file, shadow id and record together, touches no other id, and leaves the first four alone |
| `Vfs.ClosedPanics` | common/vfs/vfs/src/lib.rs:87-98 | using a closed id panics at once and after every later run |
| `Vfs.UseOutcome` | common/vfs/vfs/src/lib.rs:215-255 | a call reaches the special file, or the record and the inode of the regular file, and no other id |
| `Vfs.TransferOutcome` | common/vfs/vfs/src/kfile.rs:132-169 | a read or write is refused with EPERM if and only if it is not empty and its access flag is missing; else it asks at the position, which moves by what was done |
| `Vfs.SeekOutcome` | common/vfs/vfs/src/kfile.rs:191-203 | where a seek from the start, the position or the end leads, and exactly when it is refused |
| `Vfs.SwapOutcome` | common/vfs/vfs/src/tree.rs:181-212 | after a swap exactly the regular files are there, each with the inode of its record |
| `Vfs.UseKeepsSound` | common/vfs/vfs/src/lib.rs:215-224 | a call on an id panics if and only if the id denotes no file |
| `Vfs.SwapKeepsRegularFiles` | common/vfs/vfs/src/tree.rs:181-212 | recovery misses no record; afterwards the table holds the regular files, with position, flags and inode as before, and only those |
| `Vfs.StepKeepsSound` | common/vfs/vfs/src/lib.rs:59-98 | in every step the shadow ids are exactly those with a `kfile_` record |
| `Vfs.StepTouchesOneFile` | common/vfs/vfs/src/lib.rs:73-98 | a step leaves the metadata of every other regular file alone |
| `Vfs.RunKeepsSound` | common/vfs/vfs/src/lib.rs:59-98 | the same over any run with swaps |
| `Vfs.ClosedStaysClosed` | common/vfs/vfs/src/lib.rs:87-98 | a closed id is never handed out again and no swap brings it back |
| `Vfs.IdsAreFresh` | common/vfs/vfs/src/lib.rs:62-63 | no id is handed out twice in a run, across swaps |
| `Vfs.StepAlike` | common/vfs/vfs/src/tree.rs:181-212 | tables that differ only in lost special files answer a call alike if and only if it does not use one |
| `Vfs.SwapDoesNotShow` | common/vfs/vfs/src/tree.rs:181-212 | after a swap every reply of every run that opens, closes, reads, writes, seeks and sets flags is as without it, if and only if the run uses no special file that was open |
| `Vfs.BootIsSound` | common/vfs/vfs/src/tree.rs:90-112 | the first start registers the root and the standard streams consistently |
| `Vfs.BootOutcome` | common/vfs/vfs/src/tree.rs:90-112 | which of the first four ids has which inode and flags, all at position zero |
| `Vfs.VfsDomain.constructor` | common/vfs/vfs/src/tree.rs:90-112 | the first start |
| `Vfs.VfsDomain.InsertDentry` | common/vfs/vfs/src/lib.rs:73-79 | opening on maps and shared records is the step `Open` |
| `Vfs.VfsDomain.InsertSpecialFile` | common/vfs/vfs/src/lib.rs:81-85 | a special file gets an id but neither shadow nor record |
| `Vfs.VfsDomain.Drop` | common/vfs/vfs/src/kfile.rs:302-311 | dropping a regular file removes its record |
| `Vfs.VfsDomain.RemoveFile` | common/vfs/vfs/src/lib.rs:87-94 | closing is the step `Close`; the first four ids cannot be closed |
| `Vfs.VfsDomain.CallFile` | common/vfs/vfs/src/lib.rs:218-255 | a call changes the one record that the file shares with the storage |
| `Vfs.VfsDomain.FillTable` | common/vfs/vfs/src/tree.rs:186-209 | recovery enters every id of the shadow, and fails if and only if one has no record |
| `Vfs.VfsDomain.Recover` | common/vfs/vfs/src/tree.rs:181-212 | the start after a swap is the step `Swap` |
| `Readdir.PutRecord` | common/vfs/vfs/src/kfile.rs:240-250 | one record: fixed part and name with its zero, inside its size, nothing else written |
| `Readdir.List` | common/vfs/vfs/src/kfile.rs:227-260 | lists as many entries as fit, in order, moves the position past them, never writes past the buffer or after the last record; an unreadable entry resets the position |
| `Readdir.ScanStops` | common/vfs/vfs/src/kfile.rs:227-260 | the listing stops at the end, at the first unreadable entry, or before the first record that has no room; the records listed fit |
| `Readdir.EveryEntryOnce` | common/vfs/vfs/src/kfile.rs:227-260 | successive reads list consecutive entries, each once; with room for the next record each read makes progress |
| `Readdir.WholeDirectory` | common/vfs/vfs/src/kfile.rs:227-260 | enough reads list the whole directory |
| `Readdir.StuckAtLargeEntry` | common/vfs/vfs/src/kfile.rs:227-260 | reads into the same buffer list exactly the entries before the first whose record is larger than the buffer |
| `Readdir.NothingAtReach` | common/vfs/vfs/src/kfile.rs:240-257 | the read after that lists nothing and reports no error |
| `Readdir.WholeDirectoryIff` | common/vfs/vfs/src/kfile.rs:227-260 | they list the whole directory if and only if every record fits the buffer |
| `Schedulers.CustomFiFoScheduler.FetchTask` | common/fifo_scheduler/fifo_scheduler/src/scheduler.rs:29-40 | takes the first task that may run on the CPU, and keeps the order of the others |
| `Schedulers.RandomScheduler.FetchTask` | common/random_scheduler/random_scheduler/src/lib.rs:44-66 | the scan with its running minimum picks what `Scan` says |
| `Schedulers.PriorityPicksLeastNice` | common/random_scheduler/random_scheduler/src/lib.rs:47-55 | a task is picked if and only if it is the earliest of the least nice that may run, below 127 |
| `Schedulers.PriorityPicksNobodyIff` | common/random_scheduler/random_scheduler/src/lib.rs:47-55 | nobody is picked if and only if every task that may run has nice value 127 |
| `Schedulers.PriorityPicksWhenFifoDoes` | common/random_scheduler/random_scheduler/src/lib.rs:44-66 | with nice values up to 19 it picks a task if and only if the other scheduler does |
| `Schedulers.RunConserves` | common/random_scheduler/random_scheduler/src/lib.rs:29-38 | over any run of adds, fetches and replacements no task is lost or doubled |
| `Schedulers.OrderKept` | common/random_scheduler/random_scheduler/src/lib.rs:44-66 | any two tasks that are still queued are in the order in which they came, under both schedulers and across replacements |
| `Schedulers.NeverOvertakes` | common/random_scheduler/random_scheduler/src/lib.rs:44-66 | of two tasks with the same nice value and CPUs the earlier one is fetched first, under both schedulers and across replacements |
| `Schedulers.BoundedWaiting` | common/fifo_scheduler/fifo_scheduler/src/scheduler.rs:26-40 | a task with k eligible tasks ahead is gone after k + 1 fetches of its CPU, whatever else happens |
| `Schedulers.WaitingIsExact` | common/fifo_scheduler/fifo_scheduler/src/scheduler.rs:26-40 | when only that CPU fetches, it is gone if and only if it fetched more than k times |
| `Schedulers.PriorityWaiting` | common/random_scheduler/random_scheduler/src/lib.rs:44-66 | under priorities a ready task is gone once its CPU has fetched more often than there are queued rivals and less nice newcomers, whatever else happens |
| `Schedulers.PriorityWaitingIsExact` | common/random_scheduler/random_scheduler/src/lib.rs:44-66 | when tasks are added and then only that CPU fetches, it is gone if and only if it fetched more often than that |
| `Schedulers.PriorityStarves` | common/random_scheduler/random_scheduler/src/lib.rs:44-66 | the newcomers are no bound: with one less nice task before every fetch the task waits through any number of them |
| `SlotVecs.SlotVec.Put` | common/task/task/src/utils.rs:60-71 | the step `AfterPut` on slots and counter |
| `SlotVecs.SlotVec.PutAt` | common/task/task/src/utils.rs:76-86 | the step `AfterPutAt`, with the wrap of idx + 1 |
| `SlotVecs.SlotVec.Remove` | common/task/task/src/utils.rs:91-102 | the step `AfterRemove` |
| `SlotVecs.SlotVec.Get` | common/task/task/src/utils.rs:49-54 | looks an index up |
| `SlotVecs.SlotVec.IsEmpty` | common/task/task/src/utils.rs:32-34 | on a right counter it is zero if and only if the table holds nothing; on a stale one it never is |
| `SlotVecs.PutIsUpdate` | common/task/task/src/utils.rs:60-71 | with a right counter a put goes into the lowest free index and moves nothing; it panics only where every slot is taken and memory has no room for another |
| `SlotVecs.PutAtIsUpdate` | common/task/task/src/utils.rs:76-86 | updates one index and answers what was there; beyond the memory it panics and changes nothing, at the largest index it panics and drops every item |
| `SlotVecs.PutAtCountsIff` | common/task/task/src/utils.rs:76-86 | the counter stays right if and only if idx + 1 does not wrap or the table held nothing |
| `SlotVecs.RemoveIsUpdate` | common/task/task/src/utils.rs:91-102 | empties one index and answers what was there |
| `SlotVecs.CountsIff` | common/task/task/src/utils.rs:8-14 | after any run the counter is the number of items if and only if it was and no put_at at the largest index dropped any |
| `SlotVecs.PutPanicsIff` | common/task/task/src/utils.rs:60-71 | a put panics if and only if memory runs out or, on a stale counter, every slot left is taken |
| `SlotVecs.DupToLargest` | common/task/task/src/syscall/fs.rs:23-34 | dup3 to the largest descriptor drops every open file, and after that every put panics, over any run of puts and removals |
| `SlotVecs.OccupiedIsItems` | common/task/task/src/utils.rs:8-14 | the number of occupied slots is the number of items |

## Left out

- Page cache: device errors, more than one client at a time, the LRU order, the list of
  dirty pages and `flush`, which does nothing. Accesses past the last whole page of the
  device are outside the contracts; the device has at most 2^32 blocks.
- SD stream: device errors.
- Stack image: a position below address zero is a panic in the model; if the address type
  wraps instead, the write past the top of the address space fails, which panics as well.
  Strings with a zero inside read back up to that zero.
- UserStacks.UserStack.Init: requires the whole stack to be mapped, the word below it to be
  unmapped, and fewer than 2^64 arguments; `Exec.StackIsThere` proves the first two for every
  finished image. The vector ends with one zero word, and parsing stops at a zero key without
  looking at its value.
- Exec.Execve: requires the kernel's pages to lie above the stack. What becomes of the old
  address space, files and signals of the process is not modelled.
- ELF: interpreter, relocation, TLS, the regions that an architecture adds, and failures of
  the frame allocator. A segment whose 64-bit sums wrap is loaded as the wrapped sums say.
- Heap.BuildVmSpace: requires the stack to fit below the top of the address space, the
  condition of `StackAboveBreak`; what the area constructor makes of a wrapped range is not
  part of this model.
- mmap: mprotect, device mappings, mapping of the vDSO pages, and page faults. The table's
  protection is not claimed to be the page table's. Frames do not run out, except for a new
  mapping whose range wraps: it panics after its region was entered, for it is longer than
  any memory, or the area constructor, which is not part of this model, gets an end below
  the start.
- Heap.Task.ExtendHeap: panics where the new end wraps, for the same reason.
- Heap.Task.Brk: is one step, while the guard reads the heap in one call and extends it in
  another; what a stale guard does is `Heap.StaleGuardSoundIff`.
- MMap.RunStaysSound: excludes munmap of a region whose area goes on behind it; what happens
  then is `SplitUnmapOverlaps`, and `RunTidyIff` covers those runs too. So does it those where
  exec or a fork passes regions below the bump area on to another address space.
- Process tree: CLONE_THREAD and CLONE_PARENT, which enter tasks under keys that are not
  unique; process groups, signals, and the futex wake at exit. Tasks are named by creation
  number instead of object reference, and the index allocator hands out only free tids.
- ProcessTree.Kernel.Wait: is one turn of the wait loop; yielding and trying again is an
  answer, so termination of the loop is not claimed. What a wait or an exit can write is a
  parameter.
- Pipe: one turn under the lock per call; a caller that has to wait is told to yield.
- Futex: waking the task behind a waiter, and lost wakeups; addresses are numbers. The end of
  a timed wait is recorded, and as in the source nothing reads it again.
- Open files: path lookup, permissions, and the contents of files. What a file system domain
  answers is a parameter. Flags are the answers of `contains`, so that the bit values do not
  matter. A file of the replaced domain is assumed not to be dropped by the swap.
- Vfs.CallsFollowOn: a read or write is one step; `Vfs.FollowsOnIff` is about its halves. The
  file's flags are looked at in the second half.
- Vfs.IdsAreFresh: assumes that the 64-bit counter of ids does not wrap in the run.
- Vfs.VfsDomain.InsertDentry: assumes that the next id is not in the table, which holds in
  every sound table; a dentry that is not from a file system domain panics in the source.
- vfs2: a near copy of vfs; it is the other side of the swap here.
- Readdir: the layout of a record is a parameter with the two bounds that the copying needs.
- Schedulers: names and messages; CPU masks are sets of CPU numbers.
- File table: iterators and the fixed limit on descriptors, which the source does not check.
  How many slots memory has room for is a parameter; the counter itself does not wrap.
- Drivers, domain entry points, system call dispatch, sockets, epoll, event counters and
  logging.
