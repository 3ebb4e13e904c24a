# The memory manager and two device rings of Strawberry-OS

This project models how the Strawberry-OS kernel manages memory, from the firmware's map to page faults, and the two
hardware ring protocols that rest on it, and proves what they keep.

- **Interval index** (`Intervals.dfy`, `Block.dfy`, `Links.dfy`, `MemoryMap.dfy`). The AVL tree with parent pointers and cached
  heights of `block.c`, as objects. Every pointer operation is proved equal to an operation on trees, and that to one on the
  sorted sequence of entries. Removal by copying the predecessor, the climb that rebalances, and the insertion that merges touching
  blocks are done as the code does them. A normal map (positive sizes, strict gaps) is determined by its set of bytes.
- **Frames and page tables** (`Physical.dfy`, `PageWalk.dfy`, `Paging.dfy`). The aligned first-fit allocator of `page.c`, and the four
  levels of tables, which behave as one map from pages to frames. New tables come out of the free map and share no frame.
- **Virtual memory** (`Regions.dfy`, `Frames.dfy`, `Release.dfy`, `Uncommit.dfy`, `Space.dfy`, `Virtual.dfy`, `Requests.dfy`,
  `Faults.dfy`, `Committed.dfy`, `Direct.dfy`). Reserve, commit, uncommit and free of `virtual.c`, and the page fault handler. Free and reserved
  space partition the window of 2^44 bytes; every frame has one owner; no byte is lost; a fault returns just when it can.
  `PageFaults.Run` states this for every run. A request is done as a whole or not at all, but for the requests that
  `Requests.RefusedUnchangedIff` names; `CommittedPages.RunBooksIff` and `CommittedPages.RunKeepsIff` say for which runs only
  reserved space is ever committed, and only committed pages ever mapped, with the rights they were committed with: a right
  must be given at every level of the tables. `DirectMaps.RunStraight` says that the direct map stays right in every run.
- **Kernel heap** (`Heap.dfy`). The header chain of `heap.c` over an array of words, with merging put off until the next
  allocation, which no run of requests can tell from merging at once.
- **xHCI rings** (`XhciRing.dfy`, `XhciEvents.dfy`). The producer ring with cycle bit and link as a machine whose steps are single word
  stores and single controller accesses, the controller going where the link leads, the event ring, and the wait for a completion.
- **NVMe queue pair** (`Nvme.dfy`). Submission, phase tags and timeouts, interleaved with a controller that fetches and posts
  whenever it may.
- **Boot** (`Efi.dfy`, `Boot.dfy`, `Startup.dfy`). Sorting, compacting and translating the UEFI map, the loader's allocator, page
  tables and 2M mappings, and the kernel's load of what is left. `Startup.Start` joins them: the memory manager starts with the
  memory the firmware described as free, less four tables and sixteen frames, with a mapping given for every address, and in the
  state all of the above starts from.

Imperative functions of the source are methods that change the same fields; each is proved against a specification function, or
against a statement about bytes, pages or blocks in use. Names follow the source. QWORDs are natural numbers; where wrap-around
or unsigned subtraction matters it is written out (`Add64`, `Sub64`, `RoundUp`, `RoundUp8`). Where the code does not do what its
callers rely on, the code is kept and the exact condition proved: `Requests.RefusedUnchangedIff`, `Requests.ReserveTest`,
`Space.CommitKeepsIff`, `CommittedPages.FaultKeepsIff`,
`Paging.UnmapAsWritten`, `XhciRings.LimitIsExact`, `XhciEvents.StaleIff`, `KernelHeap.NeedIsEnough`, `EfiMemoryMap.ClassesKeptIff`, `NvmeQueues.WrapTest`.

`dafny verify dfyconfig.toml` checks the whole project.

## Model

| member | source | states |
|---|---|---|
| `AvlTree.RotateLeftKeepsOrder` | KERNEL/SOURCE/memory/block.c:50-63 | a left rotation leaves the in-order sequence of nodes and entries as it is |
| `AvlTree.RotateRightKeepsOrder` | KERNEL/SOURCE/memory/block.c:64-77 | a right rotation leaves the in-order sequence as it is |
| `AvlTree.RebalanceKeeps` | KERNEL/SOURCE/memory/block.c:94-114 | one round of the climb keeps the nodes and their order, whichever rotations it does |
| `AvlTree.RebalanceBalances` | KERNEL/SOURCE/memory/block.c:94-114 | one round makes a node whose balanced subtrees differ by at most two in height balanced again, with a height at most one off, even when its cached height is stale |
| `AvlTree.CloseBalances` | KERNEL/SOURCE/memory/block.c:82-117 | the climb to the root balances the whole tree |
| `AvlTree.CloseKeepsOrder` | KERNEL/SOURCE/memory/block.c:82-117 | the climb to the root keeps the order |
| `AvlTree.ManyNodes` | KERNEL/SOURCE/memory/block.c:82-117 | a tree of height h has at least Fib(h+2)-1 nodes |
| `AvlTree.LogarithmicHeight` | KERNEL/SOURCE/memory/block.c:82-117 | so its height is at most twice the logarithm of its size: every search, descent and climb is logarithmic |
| `AvlTree.DepthBelowHeight` | KERNEL/SOURCE/memory/block.c:84-116 | the climb from a node of the tree takes no more rounds than the tree is high |
| `MemoryMaps.MemoryMap.NodeReference` | KERNEL/SOURCE/memory/block.c:9-27 | the reference found is the one slot that holds the node: a child field of its parent, or the root |
| `MemoryMaps.MemoryMap.AdjustHeight` | KERNEL/SOURCE/memory/block.c:36-41 | the cached height becomes one more than the larger of the children, and no other field changes |
| `MemoryMaps.MemoryMap.AdjustAVL` | KERNEL/SOURCE/memory/block.c:42-81 | the pointer rewiring is exactly the rotation of the tree that hangs in the slot: parent, child and height fields agree again |
| `MemoryMaps.MemoryMap.Round` | KERNEL/SOURCE/memory/block.c:86-115 | one round on the pointers is one round of the tree, and goes on at the parent |
| `MemoryMaps.MemoryMap.AdjustMemoryMap` | KERNEL/SOURCE/memory/block.c:82-117 | the loop on the pointers rebalances every tree on the way to the root, in one round for each level |
| `MemoryMaps.MemoryMap.SearchMemoryNode` | KERNEL/SOURCE/memory/block.c:215-259 | option 0 returns the last node with A <= address, option 1 the first with A >= address, null where there is none, in at most height steps |
| `MemoryMaps.MemoryMap.RemoveMemoryNode` | KERNEL/SOURCE/memory/block.c:118-162 | the entry goes and no other changes; the tree stays wired and balanced; nodes behind the entry keep their contents, although the two-child case overwrites the node with its predecessor and drops that one; at most height rounds |
| `MemoryMaps.MemoryMap.RemoveInner` | KERNEL/SOURCE/memory/block.c:122-146 | delete by copy, stale height included, is the removal of one entry in order |
| `MemoryMaps.MemoryMap.Neighbours` | KERNEL/SOURCE/memory/block.c:167-170 | next and prev are the entries around the new one |
| `MemoryMaps.MemoryMap.AbsorbLow` | KERNEL/SOURCE/memory/block.c:173-181 | the predecessor that touches or overlaps is taken in and removed |
| `MemoryMaps.MemoryMap.AbsorbHigh` | KERNEL/SOURCE/memory/block.c:182-190 | then the successor found before that removal, which is still the right node, is taken in |
| `MemoryMaps.MemoryMap.FindSlot` | KERNEL/SOURCE/memory/block.c:194-210 | the descent ends at the empty slot where the key belongs, in at most height steps |
| `MemoryMaps.MemoryMap.Descend` | KERNEL/SOURCE/memory/block.c:193-213 | the node is put in at its rank and nothing else changes; the tree stays wired and balanced |
| `MemoryMaps.MemoryMap.InsertMemoryNode` | KERNEL/SOURCE/memory/block.c:163-214 | without merging: the entries with the new one at its rank; with merging: the entries with the touching neighbours replaced by the union |
| `MemoryMaps.MemoryMap.SetBlock` | KERNEL/SOURCE/memory/virtual.c:53-75 | a client that overwrites A and S of a node it has found changes that one entry and leaves the tree wired |
| `Intervals.MergeIsUnion` | KERNEL/SOURCE/memory/block.c:163-191 | merging a block that shares no byte with a normal map gives exactly the old bytes and those of the block |
| `Intervals.MergeNormal` | KERNEL/SOURCE/memory/block.c:163-191 | and a normal map: no empty block, strict gaps |
| `Intervals.NormalIsUnique` | KERNEL/SOURCE/memory/block.c:163-214 | two normal maps of the same bytes are the same sequence of blocks |
| `Physical.AllocatePhysicalMemory` | KERNEL/SOURCE/memory/page.c:327-403 | codes, address and count for every request; the map loses exactly the pages granted and stays normal; the loop terminates |
| `Physical.FindPage` | KERNEL/SOURCE/memory/page.c:344-379 | the search stops at the first block that holds an aligned page, or says that none does |
| `Physical.Cut` | KERNEL/SOURCE/memory/page.c:386-400 | a range is taken out of a block, and the rest of the block stays in the map |
| `Physical.FirstPageIsFirst` | KERNEL/SOURCE/memory/page.c:355-367 | the aligned address is the first page boundary at or above the start of the block |
| `Physical.TakesLowest` | KERNEL/SOURCE/memory/page.c:344-383 | what is granted is aligned, wholly free, and starts at the lowest aligned page that is free |
| `Physical.TakesMost` | KERNEL/SOURCE/memory/page.c:376-385 | fewer pages than asked for are granted only up to the first that is not free |
| `Physical.NoneUsableIff` | KERNEL/SOURCE/memory/page.c:347-353 | a request fails just when no aligned page is free |
| `Physical.PageTaken` | KERNEL/SOURCE/memory/page.c:344-400 | taking a 4K page leaves exactly one less, and the same others, to be taken |
| `Physical.NoFreePages` | KERNEL/SOURCE/memory/page.c:347-353 | 4K pages can be had as long as one is left |
| `Physical.FreePhysicalMemory` | KERNEL/SOURCE/memory/page.c:404-423 | the bytes are added, the map stays normal; address ~0, no pages and bad sizes change nothing |
| `Physical.TakenAndReturned` | KERNEL/SOURCE/memory/page.c:384-423 | giving back what was taken restores the map block for block |
| `Physical.AllocateAndFree` | KERNEL/SOURCE/memory/page.c:327-423 | so freeing exactly what an allocation returned undoes it |
| `PageWalk.WalkByTables` | KERNEL/SOURCE/memory/page.c:230-270 | the walk of physical_mapping is the translation that the tables define |
| `PageWalk.OneWay` | KERNEL/SOURCE/memory/page.c:129-143 | no two ways lead to the same table |
| `PageWalk.StoreMaps` | KERNEL/SOURCE/memory/page.c:160-181 | a leaf stored where w ends maps the whole page of w, with the rights of the entry |
| `PageWalk.StoreElsewhere` | KERNEL/SOURCE/memory/page.c:160-181 | and is seen by no address of another page |
| `PageWalk.ExtendedTree` | KERNEL/SOURCE/memory/page.c:133-138 | a new table keeps the tables a tree without shared frames |
| `PageWalk.ExtendedSame` | KERNEL/SOURCE/memory/page.c:133-138 | and changes no translation |
| `PageWalk.PageEntryMeans` | KERNEL/SOURCE/memory/page.c:150-181 | the word stored for a page is present, large where due, and holds the frame |
| `PageWalk.PageEntryRights` | KERNEL/SOURCE/memory/page.c:150-151 | the entry allows writing just when bit 1 of the options is set, and running code just when bit 2 is |
| `PageWalk.PageEntryBits` | KERNEL/SOURCE/memory/page.c:147-181 | its low twelve bits are those of the options and the large-page bit, its bits 59 to 63 no-execute alone: nothing else is set |
| `PageWalk.RightsOfWalk` | KERNEL/SOURCE/memory/page.c:129-185 | a page may be written to, or run code, just when the entries of all levels on the walk to it allow it |
| `PageWalk.MapsPageMeans` | KERNEL/SOURCE/memory/page.c:144-185 | after a mapping physical_mapping gives the frame plus the offset on the target page, and what it gave before on every other |
| `PageWalk.SameMappingMeans` | KERNEL/SOURCE/memory/page.c:144-185 | after a refused mapping physical_mapping is unchanged everywhere |
| `PageWalk.UnmappedIsOpen` | KERNEL/SOURCE/memory/page.c:175-176 | where nothing is mapped a 4K page can be |
| `PageWalk.OneTableLess` | KERNEL/SOURCE/memory/page.c:133-138 | with each table made, one less is missing on the way to the page |
| `Paging.PageTables.empty_page` | KERNEL/SOURCE/memory/page.c:117-128 | a 4K frame leaves the free map, which then has one less; the machine halts just when no aligned 4K page is free |
| `Paging.PageTables.page_entry` | KERNEL/SOURCE/memory/page.c:129-143 | the next table, new if there was none, none behind a large page; its entry withholds neither writing nor running and sets no other bit; translations and rights stay as they are; it halts just when a new table is needed and no frame is free |
| `Paging.PageTables.linear_mapping` | KERNEL/SOURCE/memory/page.c:144-185 | 0 just when no large page lies around and the entry is not in use: then exactly that page is mapped, with the rights and the entry asked for; 1 or a halt: no translation changed; it halts just when more tables are missing on the way than 4K frames are free, and takes exactly as many frames as it makes tables |
| `Paging.PageTables.linear_unmapping` | KERNEL/SOURCE/memory/page.c:186-229 | the size of the page that was mapped, which alone is no longer; 0xFF and nothing changed where there was none |
| `Paging.UnmapAsWritten` | KERNEL/SOURCE/memory/page.c:222-228 | line 222 as it is written unmaps a 4K page and nothing else just when the walk to it reads that index of the frame at address 0, as a table of whatever level, and nothing else is mapped through that word |
| `Paging.UnmapAsWrittenFails` | KERNEL/SOURCE/memory/page.c:222-228 | concrete tables, none in frame 0, on which it leaves the page mapped |
| `Release.ReleasePages` | KERNEL/SOURCE/memory/virtual.c:87-106 | exactly the mapped pages of the range are unmapped, and exactly their frames freed, each once, although they are freed run by run |
| `Release.ReleasePage` | KERNEL/SOURCE/memory/virtual.c:89-104 | one round: the frame extends the run or ends it |
| `Release.ReleasedOwned` | KERNEL/SOURCE/memory/virtual.c:87-106 | releasing keeps every frame with one owner and conserves bytes |
| `Uncommit.RoundsUp` | KERNEL/SOURCE/memory/virtual.c:112-114 | rounding gives the first page boundary, or 0 where it is beyond the last QWORD |
| `Uncommit.TrimBehind` | KERNEL/SOURCE/memory/virtual.c:45-67 | a region the range begins in keeps what lies before and, in a new node, what lies behind |
| `Uncommit.TrimFront` | KERNEL/SOURCE/memory/virtual.c:68-80 | a region that begins in the range loses its front, its key moving up in place |
| `Uncommit.TrimRegion` | KERNEL/SOURCE/memory/virtual.c:37-85 | the three cases and the end of the scan |
| `Uncommit.UncommitVirtualMemory` | KERNEL/SOURCE/memory/virtual.c:24-108 | the commit map is cleared on exactly the range, over any number of regions; exactly the committed pages of the range are unmapped and their frames freed; the scan terminates |
| `Regions.ClearAt` | KERNEL/SOURCE/memory/virtual.c:45-80 | clearing takes the protection of exactly the bytes of the range |
| `Regions.ClearTiled` | KERNEL/SOURCE/memory/virtual.c:45-80 | and leaves whole pages in order |
| `Regions.SetAt` | KERNEL/SOURCE/memory/virtual.c:210-219 | a commit gives exactly the range the new protection and leaves all else |
| `Regions.SetTiled` | KERNEL/SOURCE/memory/virtual.c:210-219 | and leaves whole pages in order, without overlap |
| `Frames.MapsWindow` | KERNEL/SOURCE/memory/page.c:59-81 | a 4K mapping maps one window page and no other |
| `Frames.FaultOwned` | KERNEL/SOURCE/memory/page.c:54-81 | a fault gives the page a frame of its own; all other frames keep their one owner |
| `Frames.FaultConserved` | KERNEL/SOURCE/memory/page.c:54-81 | and moves bytes between free map, tables and pages without loss |
| `Frames.GrownStillOwned` | KERNEL/SOURCE/memory/page.c:129-143 | tables added take no frame of a window page |
| `Space.ReservesSound` | KERNEL/SOURCE/memory/virtual.c:149-193 | reserving keeps the partition of the window into free and reserved space |
| `Space.CommitsSound` | KERNEL/SOURCE/memory/virtual.c:195-220 | a commit keeps the books and conserves bytes just when its range lies within the windows, reserved or not |
| `Space.UncommitsSound` | KERNEL/SOURCE/memory/virtual.c:222-235 | uncommitting keeps the books and conserves bytes |
| `Space.FreesSound` | KERNEL/SOURCE/memory/virtual.c:237-270 | freeing keeps the partition and the books, and conserves bytes |
| `Space.FloorHolds` | KERNEL/SOURCE/memory/virtual.c:151-170 | the test on the floor block is exact: the whole range is free, or reserved |
| `Space.CommitTest` | KERNEL/SOURCE/memory/virtual.c:204-208 | the QWORD test of COMMIT and UNCOMMIT is right just when the range does not start beyond the end of the block found |
| `Space.CommitTestFails` | KERNEL/SOURCE/memory/virtual.c:204-208 | a concrete state in which it passes for memory that is not reserved |
| `Space.CommitKeepsIff` | KERNEL/SOURCE/memory/virtual.c:204-219 | a commit keeps committed space within reserved space just when its range is reserved |
| `Space.OptionBits` | KERNEL/HEADER/memory/virtual.h:7-10 | RESERVE, COMMIT, UNCOMMIT and FREE are bits 0 to 3 of the option |
| `Space.StepsMean` | KERNEL/SOURCE/memory/virtual.c:148-270 | what the steps that were asked for come to, together, in bytes, protections and pages |
| `VirtualMemories.VirtualMemory.constructor` | KERNEL/SOURCE/memory/virtual.c:14-23 | at first the whole window of 2^44 bytes is free |
| `VirtualMemories.VirtualMemory.Reserve` | KERNEL/SOURCE/memory/virtual.c:149-193 | granted just when the whole range is free; then it moves to reserved space |
| `VirtualMemories.VirtualMemory.IsReserved` | KERNEL/SOURCE/memory/virtual.c:199-208 | true just when the whole range is reserved or starts beyond the end of the block found for it |
| `VirtualMemories.VirtualMemory.Commit` | KERNEL/SOURCE/memory/virtual.c:196-220 | let through just when that test passes; then exactly the range has the new protection, and the pages that were committed there are unmapped and their frames freed; the books are right afterwards just when the range does not reach from beyond a reserved block to beyond the windows |
| `VirtualMemories.VirtualMemory.StepUncommit` | KERNEL/SOURCE/memory/virtual.c:223-235 | let through just when that test passes; then the range is cleared, and the pages that were committed there are unmapped; the books are kept in every case |
| `VirtualMemories.VirtualMemory.Free` | KERNEL/SOURCE/memory/virtual.c:238-270 | granted just when the whole range is reserved; then it is free and uncommitted, and the pages that were committed there are unmapped and their frames freed; pages mapped there without being committed stay mapped |
| `VirtualMemories.VirtualMemory.FindFree` | KERNEL/SOURCE/memory/virtual.c:129-145 | the lowest address at which the size is free, or 0 when there is none |
| `VirtualMemories.VirtualMemory.Perform` | KERNEL/SOURCE/memory/virtual.c:148-272 | all steps asked for are done, or none; only a FREE that is refused after COMMIT or UNCOMMIT was let through from beyond a reserved block leaves those done |
| `VirtualMemories.VirtualMemory.NtAllocateVirtualMemory` | KERNEL/SOURCE/memory/virtual.c:109-273 | 0 just when the request is refused, and what then is left; otherwise the address, and exactly what was asked for; every call keeps the books |
| `Requests.RefusedUnchangedIff` | KERNEL/SOURCE/memory/virtual.c:195-250 | a refused request has changed nothing just when it is not one of FREE after COMMIT or UNCOMMIT from beyond the end of the block found, or those had nothing to change |
| `Requests.UncommitsNothing` | KERNEL/SOURCE/memory/virtual.c:222-235 | for UNCOMMIT that is: just when nothing is committed in the range |
| `Requests.RefusedHalfDone` | KERNEL/SOURCE/memory/virtual.c:222-250 | a concrete state, and a request of UNCOMMIT and FREE that is refused after it has taken the commitment of a page |
| `Requests.StepsPartition` | KERNEL/SOURCE/memory/virtual.c:148-270 | free and reserved space stay a partition of the window whatever is committed, and wherever |
| `Requests.AllocatedBooksIff` | KERNEL/SOURCE/memory/virtual.c:148-270 | a request keeps committed space within reserved space unless it does no more than commit a range that is not reserved |
| `Requests.ReserveTest` | KERNEL/SOURCE/memory/virtual.c:157-167 | the QWORD test of RESERVE is right just when the range does not wrap to an end within the block found |
| `Requests.ReserveTestFails` | KERNEL/SOURCE/memory/virtual.c:157-167 | all but one page of the address space, reserved from within the free window, passes it |
| `Requests.FreeTest` | KERNEL/SOURCE/memory/virtual.c:246-249 | the QWORD test of FREE is right just when the range does not wrap to an end at or below that of the block found |
| `PageFaults.INT0E` | KERNEL/SOURCE/memory/page.c:38-84 | a fault returns just when it is not fatal and as many 4K frames are free as it needs, for the page and for missing tables; then it has mapped the page to a free frame with the rights of the committed block below, or all rights on a stack, or the direct map; books and bytes are kept |
| `PageFaults.StaticFault` | KERNEL/SOURCE/memory/page.c:46-53 | the direct map gets the 1G page at the same physical address just when nothing is there yet, and is unchanged otherwise; it returns just when there are frames for the missing tables |
| `PageFaults.CommittedBelow` | KERNEL/SOURCE/memory/page.c:57-58 | the handler goes by the last committed block that starts at or below the address |
| `PageFaults.OneOwner` | KERNEL/SOURCE/memory/page.c:54-81 | no byte is at once free, in a table or in a window page, and none in two pages |
| `PageFaults.Run` | KERNEL/SOURCE/memory/virtual.c:109-273 | every run of allocations and faults is a trace of states in each of which the books are right, no byte is both free and in a table, and all bytes are those there were; each step is what its event does; the run stops early only at a fatal fault, or one for which the frames do not suffice |
| `CommittedPages.AllocatedKeeps` | KERNEL/SOURCE/memory/virtual.c:148-270 | where only committed pages are mapped in dynamic space, with the rights of their commits, every request keeps it so |
| `CommittedPages.StaleStays` | KERNEL/SOURCE/memory/virtual.c:87-106 | a page that is mapped without being committed keeps its frame and rights when its range is committed, uncommitted or freed; only a request that commits the range and takes it back unmaps it |
| `CommittedPages.ProtectionAt` | KERNEL/SOURCE/memory/page.c:57-58 | an address is committed just when it lies before the end of the block found, which then gives its protection |
| `CommittedPages.FaultKeepsIff` | KERNEL/SOURCE/memory/page.c:54-68 | a fault in dynamic space that returns keeps the mapped pages committed just when its own address is committed: the test of the end of the block, which line 58 does not make |
| `CommittedPages.FaultBehindBlock` | KERNEL/SOURCE/memory/page.c:57-67 | one committed page, and a fault on the page behind it, not even reserved: not fatal, with frames enough, so that the handler returns with an uncommitted page mapped |
| `CommittedPages.StackPage` | KERNEL/SOURCE/memory/page.c:71-81 | the page of a stack that a fault has mapped may be written to and run |
| `CommittedPages.RunKeepsIff` | KERNEL/SOURCE/memory/page.c:54-81 | over every run the mapped pages of dynamic space are committed, with the rights of their commits, at all times just when every fault there comes from a committed address |
| `CommittedPages.RunBooksIff` | KERNEL/SOURCE/memory/virtual.c:195-220 | over every run only reserved space is committed at all times just when no request commits a range from beyond a reserved block without taking it back |
| `DirectMaps.DirectFault` | KERNEL/SOURCE/memory/page.c:46-53 | after a fault in the direct map, if nothing was in the way, its address is found there, at its place |
| `DirectMaps.RunStraight` | KERNEL/SOURCE/memory/page.c:42-84 | over every run of requests and faults, physical address p is found at 0xFFFF800000000000 + p or nowhere, to be written to and run |
| `KernelHeap.NeedIsEnough` | KERNEL/SOURCE/memory/heap.c:22 | the rounded size holds the request just when that is at most 2^64-8 bytes; above, it is 0 |
| `KernelHeap.Heap.constructor` | KERNEL/SOURCE/memory/heap.c:10-18 | one free block up to the sentinel, whatever the arena held |
| `KernelHeap.Heap.MergeFree` | KERNEL/SOURCE/memory/heap.c:31-39 | the free run behind a free block becomes one block, nothing else changes |
| `KernelHeap.Heap.TakeBlock` | KERNEL/SOURCE/memory/heap.c:40-57 | the block is cut to size and taken, the rest stays a free block |
| `KernelHeap.Heap.HeapAlloc` | KERNEL/SOURCE/memory/heap.c:19-65 | the chain ends on the sentinel as before; the answer and the new chain are those of the specification; the block was in no block in use; no live header or payload word changes |
| `KernelHeap.Heap.HeapFree` | KERNEL/SOURCE/memory/heap.c:66-71 | one header word changes: that block is free |
| `KernelHeap.AllocUse` | KERNEL/SOURCE/memory/heap.c:25-63 | an allocation keeps all blocks in use, adds one out of unused words, and keeps the size of the arena |
| `KernelHeap.FreeUse` | KERNEL/SOURCE/memory/heap.c:66-71 | freeing takes exactly that block out of use |
| `KernelHeap.UseApart` | KERNEL/SOURCE/memory/heap.c:19-71 | blocks in use are pairwise disjoint |
| `KernelHeap.AllocIsFirstFit` | KERNEL/SOURCE/memory/heap.c:25-64 | the lowest maximal run of free blocks that holds the request is taken; 0 only when there is none |
| `KernelHeap.CoalesceMaximal` | KERNEL/SOURCE/memory/heap.c:30-39 | those runs are maximal |
| `KernelHeap.LateIsEager` | KERNEL/SOURCE/memory/heap.c:30-39 | merging in HeapAlloc answers as merging in HeapFree would |
| `KernelHeap.FreeIsEager` | KERNEL/SOURCE/memory/heap.c:66-71 | and leaves the same chain, once it is merged |
| `KernelHeap.LateIsEagerForever` | KERNEL/SOURCE/memory/heap.c:19-71 | over every run of requests the two cannot be told apart |
| `XhciRings.TransferRing.constructor` | KERNEL/SOURCE/device/xhci.c:840-850 | a page of zeros with the back pointer in slot 255 |
| `XhciRings.TransferRing.CopyTRB` | KERNEL/SOURCE/device/xhci.c:337-344 | the four words with the cycle bit, in the slot at NID |
| `XhciRings.TransferRing.QueueTRB` | KERNEL/SOURCE/device/xhci.c:321-336 | what it stores, link included, is what the stores of the interleaved machine store |
| `XhciRings.StepKeeps` | KERNEL/SOURCE/device/xhci.c:321-344 | every single store of the driver and every access of the controller keeps the ring invariant |
| `XhciRings.FirstInFirstOut` | KERNEL/SOURCE/device/xhci.c:321-344 | at every interleaving, for any number of laps, a controller that goes where the links lead takes exactly the blocks queued, in order, each word for word but for the cycle bit; it never leaves the ring; slot 255 stands |
| `XhciRings.PeekSees` | KERNEL/SOURCE/device/xhci.c:343 | the cycle bit shows the controller a block just when one is outstanding, and the link just when it is complete |
| `XhciRings.TakeSees` | KERNEL/SOURCE/device/xhci.c:325-335 | what it then reads is the next block, word for word, or a link whose first two words are the address of the ring |
| `XhciRings.LinkLeads` | KERNEL/SOURCE/device/xhci.c:325-330 | the link stored has the address of the ring in its first two words, and in the others its type, the toggle bit and the cycle bit alone |
| `XhciRings.SlotAtIs` | KERNEL/SOURCE/device/xhci.c:325-330 | the slot that a link leads to is the one whose address it holds, and none if that is no address of the ring |
| `XhciRings.LimitIsExact` | KERNEL/SOURCE/device/xhci.c:323-335 | the next slot holds no outstanding block just when at most 253 are outstanding |
| `XhciRings.Fill` | KERNEL/SOURCE/device/xhci.c:321-336 | a run that queues 254 blocks before the controller takes any: as many may be outstanding |
| `XhciRings.OneMoreOverruns` | KERNEL/SOURCE/device/xhci.c:321-344 | from any reachable state with 254 blocks outstanding, queueing one more overwrites the first of them, with the cycle bit of another lap |
| `XhciEvents.TestsAreExact` | KERNEL/SOURCE/device/xhci.c:355-356 | the two tests pass just when an event is pending; on laps with CCS 0 it is the type test that rejects the slots left |
| `XhciEvents.EachOnce` | KERNEL/SOURCE/device/xhci.c:349-404 | every interleaving of posts and the steps of the consumer keeps the event ring invariant |
| `XhciEvents.OnceAndInOrder` | KERNEL/SOURCE/device/xhci.c:349-404 | at every interleaving, for any number of laps, the events handled are the first ones posted, each once, in order, word for word but for the cycle bit |
| `XhciEvents.EventRing.XHCIProcessEvent` | KERNEL/SOURCE/device/xhci.c:349-404 | 1 just when an event was pending: it is handled, its slot zero, index and CCS moved on, ERD pointed at the next slot, the ring it is about told, or the port it names acknowledged |
| `XhciEvents.Acknowledged` | KERNEL/SOURCE/device/xhci.c:378-382 | the word written back to a port keeps its other bits, but neither the enabled nor the reset bit, and has link state 1 |
| `XhciEvents.EventRing.Complete` | KERNEL/SOURCE/device/xhci.c:362-375 | EVT and EID of the ring the event points into |
| `XhciEvents.PointerMeans` | KERNEL/SOURCE/device/xhci.c:366-370 | the pointer to slot i gives the page of the ring, and EID i + 1 |
| `XhciEvents.PointerWords` | KERNEL/SOURCE/device/xhci.c:366 | the completion pointer is the 64-bit address in the first two words, low word first |
| `XhciEvents.EventTypes` | KERNEL/SOURCE/device/xhci.c:359-376 | events of type 32 and 33 complete a block, those of type 34 are about a port, whatever their other bits are |
| `XhciEvents.StaleIff` | KERNEL/SOURCE/device/xhci.c:405-413 | an older completion is taken for the awaited one just when whole laps of 254 blocks lie between |
| `XhciEvents.WaitIsRight` | KERNEL/SOURCE/device/xhci.c:405-413 | so while at most 253 blocks are outstanding, older transfers included, EID meets NID just when the last block is done |
| `XhciEvents.WaitEndsEarly` | KERNEL/SOURCE/device/xhci.c:405-413 | with 254 outstanding they meet before anything is done |
| `XhciEvents.LookIsRight` | KERNEL/SOURCE/device/xhci.c:366-372 | with completions that carry the address of their block, EID is NID just when the last news about the ring is the completion of the last block |
| `XhciEvents.EventRing.InterruptXHCI` | KERNEL/SOURCE/device/xhci.c:27-36 | all pending events are handled, EID and EVT of every ring are those of the last event about it, and ERD still points at the next slot |
| `XhciEvents.EventRing.XHCIWaitCompletion` | KERNEL/SOURCE/device/xhci.c:405-413 | driven by the event ring, the wait returns the completion code of the last block, at the first look at which that block is the last one of the ring reported done |
| `NvmeQueues.QueuePair.constructor` | KERNEL/SOURCE/device/nvme.c:29-62 | heads and tails 0, phase 1, entries zero |
| `NvmeQueues.StepKeeps` | KERNEL/SOURCE/device/nvme.c:83-133 | every step of driver and controller keeps the queue invariant |
| `NvmeQueues.OneAtATime` | KERNEL/SOURCE/device/nvme.c:83-133 | over every run TAL is HAD or the next slot; what the controller fetches is the command of the last caller, word for word but for the identifier, which is its slot; callers are served in order; completions are returned in order and at most once |
| `NvmeQueues.GivenInOrder` | KERNEL/SOURCE/device/nvme.c:94-102 | what has been submitted is what callers gave, in order, but for a command whose doorbell is still to be rung |
| `NvmeQueues.ErrorIsTold` | KERNEL/SOURCE/device/nvme.c:85-92 | what a refused or timed out call returns is a failure to the tests of its callers, and answers no command |
| `NvmeQueues.PollIsExact` | KERNEL/SOURCE/device/nvme.c:107 | the phase test passes just when a completion waits, and it is that of this call |
| `NvmeQueues.TimeoutIsFinal` | KERNEL/SOURCE/device/nvme.c:88-115 | after a timeout every later call is refused |
| `NvmeQueues.RoomToPost` | KERNEL/SOURCE/device/nvme.c:117-131 | the completion queue never overflows |
| `NvmeQueues.WrapTest` | KERNEL/SOURCE/device/nvme.c:119-123 | the wrap is seen just in queues of two entries or more |
| `NvmeQueues.QueuePair.Commit` | KERNEL/SOURCE/device/nvme.c:94-102 | the caller's command with its identifier, the new tail, the doorbell |
| `NvmeQueues.QueuePair.ConsumeOne` | KERNEL/SOURCE/device/nvme.c:117-132 | head, phase and submission head after a completion |
| `NvmeQueues.QueuePair.NVMEWaitingCMD` | KERNEL/SOURCE/device/nvme.c:83-133 | refused, timed out, or the completion of the command submitted by this call |
| `EfiMemoryMap.SortMemoryMap` | EFI/main.c:355-380 | sorted by start, a permutation, the rest of the array untouched |
| `EfiMemoryMap.SameTypes` | EFI/main.c:355-380 | so the type of every byte is kept |
| `EfiMemoryMap.CompactMemoryMap` | EFI/main.c:381-403 | in place: every byte keeps its type, no two neighbours could still be one, order is kept; of an empty map it says that one descriptor is left |
| `EfiMemoryMap.Translate` | EFI/main.c:580-637 | the regions written are those of the specification |
| `EfiMemoryMap.RegionsKeepClasses` | EFI/main.c:580-637 | with the lowest descriptor at 0 every byte has the class that its UEFI type stands for, free for all types but 0 and 8 to 12, and the regions are in order |
| `EfiMemoryMap.ClassesKeptIff` | EFI/main.c:623-630 | every byte keeps its class just when the lowest descriptor starts at 0 |
| `EfiMemoryMap.LoadRegions` | KERNEL/SOURCE/memory/page.c:300-315 | of any list whose free regions share no byte and do not wrap, in any order and with empty ones, the free map gets exactly the bytes of class 1 |
| `EfiMemoryMap.Prepare` | EFI/main.c:578-637 | sort, compact and translate together keep the class of every byte |
| `BootLoader.SuitsIff` | BIOS/STBR64.C:318-347 | a range suits just when it is of type 1, starts at or above 1M, and an aligned page lies wholly in it |
| `BootLoader.CutFree` | BIOS/STBR64.C:348-367 | shrinking in place and appending the gap lose exactly the bytes handed out |
| `BootLoader.BootMap.Find` | BIOS/STBR64.C:318-347 | the first usable range at or above 1M with an aligned page |
| `BootLoader.BootMap.allocate_physical` | BIOS/STBR64.C:309-374 | aligned, usable, at or above 1M, first fit; what was handed out is pairwise disjoint and, with the list, what the BIOS gave; it halts just when no range suits |
| `BootLoader.PutFrames` | BIOS/STBR64.C:454-458 | a run of 2M frames in the table |
| `BootLoader.FillFrames` | BIOS/STBR64.C:450-459 | entries get frames of their own, and the list loses exactly those; it halts, with some entries left, only when no range suits |
| `BootLoader.setup_paging` | BIOS/STBR64.C:421-470 | four tables and sixteen 2M frames, aligned, at or above 1M, pairwise disjoint, all out of usable memory; the list loses exactly those; the last table holds nothing else; it halts only when no range suits what it asks for next |
| `BootLoader.FramesApart` | BIOS/STBR64.C:454-458 | entries that differ map frames without a common byte |
| `Startup.RangesMean` | BIOS/STBR64.C:318-347 | the loader finds free exactly what EFI/main.c wrote as free |
| `Startup.RegionsMean` | KERNEL/SOURCE/memory/page.c:300-315 | the list that the loader leaves, with empty ranges and gaps at its end, can be loaded, and is free where the loader left it free |
| `Startup.LinkTables` | BIOS/STBR64.C:424-470 | the stores into the four tables |
| `Startup.BootTree` | BIOS/STBR64.C:424-470 | they are a tree, no two ways leading to one table, once the low half of the root is cleared |
| `Startup.BootMaps` | BIOS/STBR64.C:424-470 | where every 48-bit address leads: the first 4G of the upper half to the same physical addresses, the sixteen slots of the last 1G each to its own frame, all others nowhere; and the flags of each word |
| `Startup.DirectMap` | BIOS/STBR64.C:432-436 | physical_mapping finds every address below 4G in the direct map |
| `Startup.KernelMap` | BIOS/STBR64.C:448-470 | physical_mapping finds slot i of the last 1G in frame i |
| `Startup.LoadedStraight` | BIOS/STBR64.C:432-436 | so the direct map starts right |
| `Startup.NoWindowPage` | BIOS/STBR64.C:424-470 | and map no page of the windows |
| `Startup.StartsApart` | KERNEL/SOURCE/memory/page.c:300-315 | no free byte lies in a table, and the windows own no frame: what paging and virtual memory start from |
| `Startup.Start` | KERNEL/SOURCE/memory/page.c:294-326 | from the firmware map to the memory manager: it starts with exactly the memory free that was described as such, less the four tables and sixteen frames, with the mapping of `BootMaps`, and in order; or the loader halts for want of memory |
| `Startup.StartAndRun` | KERNEL/SOURCE/memory/page.c:294-326 | and any run of requests and page faults from there keeps that and a right direct map, with the conditions of both theorems about runs |

## Left out

- Paging.PageTables.linear_unmapping: modelled with `~0xFFF` where `page.c:222` writes `!0xFFFULL`, which is 0; `Paging.UnmapAsWritten` says exactly when the line as written does the same, and `Paging.UnmapAsWrittenFails` shows it fail.
- VirtualMemories.VirtualMemory.Perform: a COMMIT without RESERVE from beyond the end of the reserved block found that also reaches beyond the windows (`virtual.c:204`) is excluded, because pages that the windows do not own would be committed; `VirtualMemory.Commit` is modelled for it. Within the windows nothing is excluded.
- VirtualMemories.VirtualMemory.NtAllocateVirtualMemory: excludes the same requests, and those whose rounded end wraps around the address space; `Requests.ReserveTest` and `Requests.FreeTest` say exactly when the tests fail for those, `Requests.ReserveTestFails` gives an instance.
- MemoryMaps.MemoryMap.InsertMemoryNode: a merging insert at a key that the map already holds is excluded; `block.c:168-190` would take the same node for both neighbours and remove it twice.
- Physical.FreePhysicalMemory: frames that are free already are excluded; a map in which blocks overlap is not one the source is made for.
- Stale pages: the fault handler does not look at the end of a committed block (`page.c:57-58`), so not only committed pages get mapped; `CommittedPages.RunKeepsIff` gives the exact condition on the faults of a run, `CommittedPages.FaultBehindBlock` an instance.
- The 64-bit wrap of `A + S` in the trees: excluded by `NoWrap`, which every client keeps.
- Heap placement of tree nodes: nodes are objects and `HeapAlloc` succeeds for them; the heap is modelled by itself over an array of words. Dropped nodes are no longer part of the tree.
- TLB, accessed and dirty bits, the direct-map arithmetic `| SYSTEM_LINEAR`, and faults while the handler stores into a table: tables are a map from frames to words, and a page has the rights that all entries on the walk to it allow.
- `MemoryNotEnough` and the halt loops: results that say so; of the machine after a fault that does not return it is said only how the free frames ran out.
- Physical memory at or above 2^59, which a page table entry cannot name: the free map is taken to lie below.
- Startup.Start: the list is the one EFI/main.c writes; the BIOS path that builds it in STBRBOOT.ASM is not part of this model, though the loader and the kernel are modelled for any list. Copying the kernel into its frames is left out.
- Two processors in these functions at once: the code has no locks.
- XhciEvents.EventRing.XHCIProcessEvent: the message for other event types, and a port number the controller does not have, for which nothing is stored.
- Doorbells, and the contents of the blocks that `XHCITransfer` and `XHCICommand` queue: a transfer is a number of blocks.
- Waits with 254 or more blocks outstanding, for which `XhciEvents.WaitEndsEarly` shows that `XHCIWaitCompletion` may return at once; a transfer queued behind older ones is within the model as long as at most 253 are.
- The I/O queue pair of `nvme.c:350-374`, whose submission queue is created with the mask of the completion queue; the queue properties are for a pair of agreed sizes, as the admin pair is.
- Timeouts of `NVMEWaitingCMD`: a number of polls.
- NTFS, AHCI, USB enumeration, SCSI, console and interrupt set-up: device plumbing without invariants of this kind.
