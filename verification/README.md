# gullfoss: the memory system and the formatter, verified

`gullfoss` is a small 32-bit x86 kernel. This project models, in Dafny, everything between
the first page table it writes and the pointers its `malloc` returns, and the `printf`
formatter it logs with, and proves what a caller may count on:

- **Physical pages** (`PhysSpec`, `PhysTheorems`, `PhysScan`, `PhysBits`, `PhysMem`,
  `Multiboot`, `MemoryMap`, `Cstring`): the page bitmap as bytes in an array, filled from
  the Multiboot memory map (section 3.3 of the Multiboot Specification, version 0.6.96),
  and the three circular scans. The scans refine one function on the set of marked pages.
- **Paging** (`Paging`, `VirtMem`, `AddressSpace`, `BootPaging`, `PreKernel`): directory
  and tables as words of one physical memory, the page walk of section 4.3 of the Intel
  SDM, volume 3A, and what every write does to the translation of every page. Addresses
  are 32-bit and wrap.
- **Heap** (`HeapSpec`, `BlockList`, `HeapPages`, `HeapAllocator`, `HeapRuns`): in-place
  block headers keyed by address, three slab bitmaps, the mapping of the heap's pages. All
  of it amounts to four counters.
- **Boot and after** (`EndToEnd`, `BootBytes`, `Lifetime`): the three put together, down
  to physical bytes; exactly when boot succeeds; and that the heap survives whatever the
  kernel does with its memory later.
- **Formatter** (`FormatSpec`, `FormatRoundTrip`, `PrintSpec`, `Directives`, `Stdlib`):
  the specification parser, digit buffers, and the `vfprintf` loop.

`Kernel` holds the address macros of `kernel.h`, `Bitmap` the bit arithmetic both
allocators share. Unsigned arithmetic that may wrap is written `Wrap(..)`; a mask or a
shift by a power of two is written as a remainder or a division. The code's own loops are
methods, proved against functions on abstract state; properties of whole runs are lemmas
about those functions. `MemoryMap`, `HeapRuns`, `BootBytes` and `Directives` say in
literal bytes, addresses and characters what comes out of them. A few loops are split over
two or three methods (`ScanTable`, `Rescan32`, `MapKernelPage`, `MapChunk`, ..), one for
each nested loop, branch or tail. An assertion of the source, or a check that halts the
machine, is a result `ok` that says when it passes. The three identical slab scans share
one loop, `TakeCell`. The header size of a heap block is a constant of any value from 1 to
64: GCC makes it 64, although a comment in the source says 16.

To verify: `dafny verify dfyconfig.toml`.

## What does not hold

The code and its comments or names disagree in places. The model follows the code, and each
place has a lemma that says exactly when the promise is kept.

- `alloc1` and `alloc8` may return null with pages left, if page 0 is free: its address is
  the null pointer, so its group is marked and lost, and the second scan then stops at the
  hint it has just reset (`CompleteExactly` state by state, `CompleteWhatever` over all
  bitmaps, `FreePagesMissed`). `alloc32` is complete in every state.
- `map_page` does not refuse a page that is taken, as `virt_mem_allocator.h:27-31` says; it
  remaps it (`MapPageNull`). In a block without a table it reports success and maps nothing
  (`MapWorksIffLoaded`). Mapping a page below `KERNEL_BASE` remaps the high page that shares
  its table entry, if there is one; and so does asking for any page when none is free, which
  returns null but still writes through directory entry 0 (`SpaceMapLow`).
- `reserve_block` does not reserve a block against `map_page`: asked for any page, that
  takes the first page of the block just reserved whenever all pages below it are mapped
  (`ReservedIsTaken`).
- `clear_ident_map` clears one directory entry, which is enough if and only if the kernel
  ends in the first 4 MiB (`IdentityCleared`). With 4 MiB of page tables in its image it
  never does: every kernel page from 4 MiB on stays mapped to itself (`IdentityRemains`).
- `setup_paging` checks only where the boot loader's buffers start. If one crosses 4 MiB,
  pages are mapped wrong (`BootMapsExactly`).
- `init_heap_pages` goes on with a null heap if `reserve_block` found no block. Its assertion
  on `map_page` then fails only if no page at all is free (`InitHeapPages`).
- `%%` is not an escape (`PercentNotCollapsed`, `DirectiveEchoed`); space padding comes after a sign or a lone
  zero (`SpaceFilledInt`, `SpaceFilledUnsigned`); widths and precisions overflow silently
  (`NumberExactly`).

## Model

| member | source | states |
|---|---|---|
| Bitmap.LowestClearBit | gullfoss/src/kernel/phys_mem_allocator.cpp:75-80 | the shift loop finds the lowest clear bit of a byte that is not full |
| PhysSpec.FirstOpen | gullfoss/src/kernel/phys_mem_allocator.cpp:88-91 | the lowest aligned all-free group in a range, and nothing free below it |
| PhysTheorems.NullIffExhausted | gullfoss/src/kernel/phys_mem_allocator.cpp:71-146 | with page 0 marked, each allocation fails if and only if no aligned free group is left, and then changes nothing |
| PhysTheorems.HintIndependence | gullfoss/src/kernel/phys_mem_allocator.cpp:13 | with page 0 marked, whether an allocation succeeds does not depend on the hint |
| PhysTheorems.FirstInCyclicOrder | gullfoss/src/kernel/phys_mem_allocator.cpp:88-96 | with page 0 marked, the group handed out is the nearest free one going round from the hint, and only it is marked |
| PhysTheorems.NullExactly | gullfoss/src/kernel/phys_mem_allocator.cpp:71-146 | in every state, page 0 free included, exactly when each allocation returns null |
| PhysTheorems.ThirtyTwoAlwaysComplete | gullfoss/src/kernel/phys_mem_allocator.cpp:122-146 | alloc32 misses no free group in any state |
| PhysTheorems.FreePagesMissed | gullfoss/src/kernel/phys_mem_allocator.cpp:92-96 | states in which alloc1 and alloc8 return null with a free group left |
| PhysTheorems.CompleteWhatever | gullfoss/src/kernel/phys_mem_allocator.cpp:71-146 | for which granularities and hints a null result can be trusted whatever is marked: an if and only if |
| PhysTheorems.CompleteExactly | gullfoss/src/kernel/phys_mem_allocator.cpp:71-146 | in which states a null result can be trusted: an if and only if |
| PhysTheorems.TakesOneGroup | gullfoss/src/kernel/phys_mem_allocator.cpp:71-146 | each successful call takes exactly one group of its size from those that are left, a failed one none; alloc32 fails if and only if none is left |
| PhysTheorems.CallSafe | gullfoss/src/kernel/phys_mem_allocator.cpp:71-146 | one call from any state: the group is aligned, in range, was unmarked; new marks are it and what was lost |
| PhysTheorems.RunConserves | gullfoss/src/kernel/phys_mem_allocator.cpp:71-146 | over any interleaving, hint resets included, groups are pairwise disjoint, were unmarked at the start, and final marks = initial + granted + lost, disjointly |
| PhysTheorems.RunAligned | gullfoss/src/kernel/phys_mem_allocator.cpp:71-146 | every group granted in a run is aligned to its size, in range, and not page 0 |
| PhysTheorems.RunLosesOnce | gullfoss/src/kernel/phys_mem_allocator.cpp:71-146 | pages are lost at most once in a run: 1, 8 or 32 of them, from page 0, and none if page 0 was marked |
| PhysScan.FirstLoopStep | gullfoss/src/kernel/phys_mem_allocator.cpp:88-91 | a probe of the first loop keeps its invariant or returns what the whole call should |
| PhysScan.SecondLoopStep | gullfoss/src/kernel/phys_mem_allocator.cpp:92-95 | the same for the second loop |
| PhysBits.BytePages | gullfoss/src/kernel/phys_mem_allocator.cpp:99-104 | a byte is 0xff or 0 exactly when its eight pages are all or none marked |
| PhysBits.WordView | gullfoss/src/kernel/phys_mem_allocator.cpp:126-128 | the 32-bit view of the bitmap reads back what it stores, and is 0 exactly when its four bytes are |
| PhysBits.FillWord | gullfoss/src/kernel/phys_mem_allocator.cpp:128 | storing a full word is four byte updates and marks exactly 32 pages |
| PhysMem.MarkUnavailPages | gullfoss/src/kernel/phys_mem_allocator.cpp:23-36 | marks exactly the pages an unavailable region touches, from its rounded-down start |
| PhysMem.PhysMemAllocator.InitMmap | gullfoss/src/kernel/phys_mem_allocator.cpp:38-69 | for any well-formed map below 4 GiB a page ends up marked if and only if an unavailable entry, the kernel image or the VGA buffer covers it; the entry walk ends |
| MemoryMap.EntryReadBack | gullfoss/include/kernel/multiboot.h:230-242 | an entry written as size, address, length and type, little-endian, with any trailing bytes, is read back field by field |
| MemoryMap.MapReadBack | gullfoss/src/kernel/phys_mem_allocator.cpp:40-47 | any list of such entries, wherever it lies, is walked to its end and read back in order |
| MemoryMap.MarkedForMap | gullfoss/src/kernel/phys_mem_allocator.cpp:23-69 | the pages marked for it are exactly those of entries not of type 1 or 3, of the kernel image from _kernel_start - 0xc0000000 on, and page 0xb8 |
| PhysMem.PhysMemAllocator.TryAlloc1 | gullfoss/src/kernel/phys_mem_allocator.cpp:72-87 | a probe of one byte takes its first free page |
| PhysMem.PhysMemAllocator.TryAlloc8 | gullfoss/src/kernel/phys_mem_allocator.cpp:100-110 | a probe takes a free byte, eight pages |
| PhysMem.PhysMemAllocator.TryAlloc32 | gullfoss/src/kernel/phys_mem_allocator.cpp:124-135 | a probe through the word view takes a free word, 32 pages |
| PhysMem.PhysMemAllocator.Alloc1 | gullfoss/src/kernel/phys_mem_allocator.cpp:71-97 | new state and result are those of the abstract allocation of one page |
| PhysMem.PhysMemAllocator.Alloc8 | gullfoss/src/kernel/phys_mem_allocator.cpp:99-120 | the same for eight pages |
| PhysMem.PhysMemAllocator.Alloc32 | gullfoss/src/kernel/phys_mem_allocator.cpp:122-146 | the same for 32 pages, whose second loop has a fixed bound |
| Cstring.Memset | gullfoss/src/system/stdlib.cpp:18-25 | every byte of the buffer is the value |
| Paging.LoadKeepsWalk | gullfoss/src/kernel/virt_mem_allocator.cpp:31-35 | loading an absent high-half table changes no translation of any page |
| Paging.LoadKeepsInvariant | gullfoss/src/kernel/virt_mem_allocator.cpp:31-35 | loading keeps the directory invariant: distinct tables, clean spares |
| Paging.MapEffect | gullfoss/src/kernel/virt_mem_allocator.cpp:70-73 | in a loaded block map_page(v, p) maps v to p and changes no other high-half translation |
| Paging.MapLost | gullfoss/src/kernel/virt_mem_allocator.cpp:70-73 | in an absent block the entry goes to frame 0 and no high-half translation changes |
| Paging.MapWorksIffLoaded | gullfoss/src/kernel/virt_mem_allocator.cpp:62-75 | any page, low or high, is mapped to p afterwards if and only if its block was loaded |
| Paging.MapKeepsInvariant | gullfoss/src/kernel/virt_mem_allocator.cpp:70-73 | map_page at any page keeps the directory invariant |
| Paging.ClearKeepsInvariant | gullfoss/src/kernel/virt_mem_allocator.cpp:23-26 | clear_ident_map keeps the invariant and every high-half translation |
| VirtMem.VirtMemAllocator.ClearIdentMap | gullfoss/src/kernel/virt_mem_allocator.cpp:23-26 | clears one directory entry, the kernel's identity block, and nothing else |
| VirtMem.VirtMemAllocator.GetPageTable | gullfoss/src/kernel/virt_mem_allocator.cpp:28-30 | the address of the table a directory entry names |
| VirtMem.VirtMemAllocator.LoadPageTable | gullfoss/src/kernel/virt_mem_allocator.cpp:31-35 | writes one directory entry, for the block's own table, without wrap-around |
| VirtMem.VirtMemAllocator.FindFreeVirtPage | gullfoss/src/kernel/virt_mem_allocator.cpp:37-60 | terminates despite wrap-around; the lowest unmapped page from the kernel start on, its block loaded, nothing else changed; null if and only if every page is mapped |
| VirtMem.VirtMemAllocator.ScanTable | gullfoss/src/kernel/virt_mem_allocator.cpp:51-57 | the inner loop stops at the first absent entry or at the end of the block, 4 GiB included |
| VirtMem.VirtMemAllocator.MapPage | gullfoss/src/kernel/virt_mem_allocator.cpp:62-75 | the whole new memory, for a given page and for a page to be found; keeps the invariant |
| VirtMem.VirtMemAllocator.ReserveBlock | gullfoss/src/kernel/virt_mem_allocator.cpp:77-92 | loads the lowest absent block from the rounded-up kernel start; null if and only if there is none before wrap |
| AddressSpace.StepRefines | gullfoss/src/kernel/virt_mem_allocator.cpp:23-92 | every operation, at every page it accepts, acts on the high half as its abstract counterpart, with the same result, and keeps the invariant |
| AddressSpace.RunRefines | gullfoss/src/kernel/virt_mem_allocator.cpp:23-92 | after any run the page walk is the abstract map, and all results agree |
| AddressSpace.SpaceMapLow | gullfoss/src/kernel/virt_mem_allocator.cpp:62-75 | mapping a page below KERNEL_BASE, page 0 included, remaps the high pages at its place in the blocks that share its table, and nothing else in the high half |
| AddressSpace.AliasUnique | gullfoss/src/kernel/virt_mem_allocator.cpp:62-75 | there is at most one such high page |
| AddressSpace.MapPageNull | gullfoss/include/kernel/virt_mem_allocator.h:27-31 | map_page returns null exactly when asked to find a page with none free; a page given, low or high, is never refused but remapped |
| AddressSpace.ReservedIncrease | gullfoss/src/kernel/virt_mem_allocator.cpp:77-92 | in any run reserve_block's results are 4 MiB aligned, strictly increasing, and once null stay null |
| AddressSpace.ReservedIsUnmapped | gullfoss/src/kernel/virt_mem_allocator.cpp:84-88 | every page of a block is unmapped when reserve_block returns it |
| AddressSpace.ReservedIsTaken | gullfoss/include/kernel/virt_mem_allocator.h:32-35 | after reserve_block, map_page(null) takes the first page of that block if and only if every page of the kernel's range below it is mapped, and no other page of it ever |
| PreKernel.MapPage | gullfoss/src/kernel/pre_kernel.cpp:26-30 | the helper writes one table entry |
| PreKernel.MapKernel | gullfoss/src/kernel/pre_kernel.cpp:40-62 | directory and tables hold exactly the kernel's pages, across 4 MiB boundaries |
| PreKernel.MapBuffer | gullfoss/src/kernel/pre_kernel.cpp:73-83 | a buffer's pages go to table 0, each in the slot of its number modulo 1024 |
| PreKernel.SetupPaging | gullfoss/src/kernel/pre_kernel.cpp:34-85 | which checks halt, and the whole state of the tables otherwise |
| BootPaging.BootWalk | gullfoss/src/kernel/pre_kernel.cpp:34-85 | the page walk over those tables, for every page |
| BootPaging.FittingIsExact | gullfoss/src/kernel/pre_kernel.cpp:34-85 | with both buffers inside 4 MiB, v and KERNEL_BASE + v both give v for every kernel, VGA and Multiboot page, and nothing else is mapped |
| BootPaging.BootMapsExactly | gullfoss/src/kernel/pre_kernel.cpp:65-84 | exactly when that is so, for all that the checks let through |
| BootPaging.IdentityCleared | gullfoss/src/kernel/virt_mem_allocator.cpp:23-26 | clear_ident_map leaves nothing mapped low if and only if the kernel ends in the first 4 MiB |
| PreKernel.IdentityRemains | gullfoss/src/kernel/virt_mem_allocator.cpp:23-26 | for every kernel image, every page from 4 MiB to the kernel's end is still mapped to itself after clear_ident_map, and there is one |
| PreKernel.ImageExtent | gullfoss/src/kernel/bootstrap.s:25-29 | directory and tables lie in the kernel image, which therefore ends beyond 4 MiB |
| BootPaging.AllMappedIff | gullfoss/src/kernel/pre_kernel.cpp:34-85 | boot leaves no page above the kernel start free if and only if the kernel reaches 1 GiB |
| BootPaging.BootInvariant | gullfoss/src/kernel/pre_kernel.cpp:34-85 | the directory invariant holds from boot on |
| HeapSpec.NullIff | gullfoss/src/kernel/heap_allocator.cpp:132-150 | malloc returns null if and only if the size is over the limit or every store open to it is used up |
| HeapSpec.ServedFrom | gullfoss/src/kernel/heap_allocator.cpp:132-150 | in every state, which store serves a request, told by where the pointer lies: slab8, else slab16, else slab32, else the arena, each if and only if it can and none before it can; and the exact pointer |
| HeapSpec.GrantIsFresh | gullfoss/src/kernel/heap_allocator.cpp:63-150 | what a call hands out belonged to no one, now does, and nothing is taken back |
| HeapSpec.RunDisjoint | gullfoss/src/kernel/heap_allocator.cpp:63-150 | in any run no byte is given out twice |
| HeapSpec.RunDistinct | gullfoss/src/kernel/heap_allocator.cpp:63-150 | no two requests get the same pointer, requests for 0 bytes included |
| HeapSpec.DataAvoidsTop | gullfoss/src/kernel/heap_allocator.cpp:112-130 | no byte given out, early or late, lies in a header placed where the arena was ever used up to |
| HeapSpec.RunInside | gullfoss/src/kernel/heap_allocator.cpp:63-150 | every byte given out lies in the arena or a slab |
| HeapSpec.RunConserves | gullfoss/src/kernel/heap_allocator.cpp:63-150 | arena bytes used are the sum of the granted costs, and each slab counter the number of requests it served |
| HeapSpec.RefusedForGood | gullfoss/src/kernel/heap_allocator.cpp:112-130 | a block size once refused is refused for good, and any larger one |
| HeapRuns.CountersObserved | gullfoss/src/kernel/heap_allocator.cpp:63-150 | the four counters are what can be counted from the pointers returned so far |
| HeapRuns.RunAsExpected | gullfoss/src/kernel/heap_allocator.cpp:22-150 | over any run from a fresh heap, each pointer as a function of the sizes and the earlier pointers alone: 16384, 8192 and 4096 cells in the last three chunks, blocks in 29 pages at the start |
| HeapRuns.LargeRequests | gullfoss/src/kernel/heap_allocator.cpp:53-55 | a request over 32 bytes is granted if and only if it, its header and the blocks granted before it fit in 29 pages |
| BlockList.Split | gullfoss/src/kernel/heap_allocator.cpp:118-125 | splitting the last node keeps the list acyclic, exact on the arena, with only the last node free |
| BlockList.CarvedIsTiled | gullfoss/src/kernel/heap_allocator.cpp:114-126 | the same with and without a rest, and the bytes used go up by exactly the cost |
| BlockList.NodeAtTop | gullfoss/src/kernel/heap_allocator.cpp:112-130 | after any run, every node of the list is where the arena was once used up to |
| BlockList.DataAvoidsHeaders | gullfoss/src/kernel/heap_allocator.cpp:112-130 | after any part of a run, no byte given out in any other part lies in the header of any node of the list |
| HeapAllocators.Leftover | gullfoss/src/kernel/heap_allocator.cpp:114-117 | no test underflows, a node fits exactly when the rounded cost does, and the rest is what the cost leaves |
| HeapAllocators.FirstFitStep | gullfoss/src/kernel/heap_allocator.cpp:113-114 | the first-fit test holds only at the last node, and there if and only if the cost still fits |
| HeapAllocators.TakeCell | gullfoss/src/kernel/heap_allocator.cpp:63-110 | a slab scan extends the prefix of taken cells by one, or finds it complete |
| HeapAllocators.HeapAllocator.SplitNode | gullfoss/src/kernel/heap_allocator.cpp:119-124 | the headers after the four writes of a split |
| HeapAllocators.HeapAllocator.BlockMalloc | gullfoss/src/kernel/heap_allocator.cpp:112-130 | a bump pointer: succeeds if and only if used + cost fits, returns the byte after the header, advances by the cost; the list stays tiled, and is cut in one more place, or none, given exactly |
| HeapAllocators.HeapAllocator.Malloc | gullfoss/src/kernel/heap_allocator.cpp:132-150 | pointer and new state are those of malloc on the four counters (ServedFrom says which), and the nodes of the list those of the new counter |
| HeapAllocators.HeapAllocator.MapChunk | gullfoss/src/kernel/heap_allocator.cpp:33-50 | maps the chunk's 32 pages next in the block, changes no translation elsewhere, notes the slabs; its assertion fails if and only if there was neither a block nor a free page |
| HeapAllocators.HeapAllocator.AllocChunk | gullfoss/src/kernel/heap_allocator.cpp:31-32 | a chunk is allocated and noted if and only if fewer have been than there are free groups of 32 pages |
| HeapAllocators.HeapAllocator.InitHeapPages | gullfoss/src/kernel/heap_allocator.cpp:22-61 | succeeds if and only if 32 groups of 32 pages are free, and a block or at least a page of virtual memory; the heap is the first absent block, or null if and only if there is none; page 32i + j of it maps to chunk i plus j, nothing outside the block changes, chunks are fresh and disjoint, and the heap is unused, so that RunAsExpected holds of it |
| HeapPages.NextPage | gullfoss/src/kernel/heap_allocator.cpp:33-37 | mapping one more page extends the mapping and changes nothing elsewhere |
| HeapPages.ChunkTaken | gullfoss/src/kernel/heap_allocator.cpp:31-32 | a further chunk is aligned, was unmarked, and overlaps none before it |
| HeapPages.FramesDistinct | gullfoss/src/kernel/heap_allocator.cpp:34-36 | the mapping of heap pages to frames is injective |
| EndToEnd.EarlyMemory | gullfoss/src/kernel/kernel.cpp:60-74 | after paging and memory map are set up: the boot tables, and marks exactly on reserved pages |
| EndToEnd.Boot | gullfoss/src/kernel/bootstrap.s:62-70 | succeeds if and only if there is a memory map, the structures lie where setup_paging accepts them, the kernel does not reach 1 GiB, and 32 groups of 32 pages are not reserved; then the heap is ready, unused, on frames disjoint from the reserved pages, at the first multiple of 4 MiB from the kernel's end on, or null if that is 4 GiB |
| BootBytes.BootTranslates | gullfoss/src/kernel/pre_kernel.cpp:34-85 | the translation of every address after setup_paging, in literal addresses: x and 0xc0000000 + x both give x for the pages of the kernel image, the text buffer, the 120 bytes of the information structure and the map; no other page is mapped |
| BootBytes.ReservedExactly | gullfoss/src/kernel/phys_mem_allocator.cpp:38-69 | the reserved pages, for a map written in memory byte by byte |
| BootBytes.CanBootExactly | gullfoss/src/kernel/bootstrap.s:62-70 | when boot succeeds, in addresses: kernel, information structure and map start in their first 4 MiB, the kernel ends by 0xfffff000, and 32 aligned groups of 32 pages above page 0 are not reserved |
| EndToEnd.HeapBytesDiffer | gullfoss/src/kernel/heap_allocator.cpp:22-61 | different heap addresses translate to different physical bytes |
| EndToEnd.MallocIsBacked | gullfoss/src/kernel/heap_allocator.cpp:22-150 | every byte given out in any run is mapped, to a page outside kernel image, VGA buffer and unavailable memory |
| EndToEnd.MallocIsDisjoint | gullfoss/src/kernel/heap_allocator.cpp:22-150 | in any run no physical byte is given out twice |
| EndToEnd.HeapStoreKeepsTranslation | gullfoss/src/kernel/heap_allocator.cpp:53-56 | a store to any heap address changes no translation of any page, and the heap stays ready |
| EndToEnd.TablesReserved | gullfoss/src/kernel/phys_mem_allocator.cpp:49-59 | for every kernel image, the frames of the directory and of all 1024 tables are reserved |
| EndToEnd.RoomForHeap | gullfoss/src/kernel/virt_mem_allocator.cpp:77-92 | after boot no block is absent if and only if the kernel's blocks fill the high half, and no page free if and only if its pages do |
| Lifetime.BlockStaysHeld | gullfoss/src/kernel/virt_mem_allocator.cpp:23-92 | no operation on the page tables, short of mapping a page in the heap's block by its address, changes the block |
| Lifetime.EventKeepsHeap | gullfoss/src/kernel/kernel.cpp:83-140 | a physical allocation, a hint reset, such an operation, or a store to the heap leaves the heap ready |
| Lifetime.HeapSurvives | gullfoss/src/kernel/kernel.cpp:83-140 | so does any sequence of them, in any order |
| Lifetime.GrantsAvoidHeap | gullfoss/src/kernel/phys_mem_allocator.cpp:71-146 | no physical allocation after boot is given a frame of the heap |
| Lifetime.GrantsHoldLater | gullfoss/src/kernel/heap_allocator.cpp:132-150 | what malloc gave out is backed by its own unreserved memory at any later time |
| Lifetime.Allocate | gullfoss/src/kernel/heap_allocator.cpp:132-150 | any sequence of malloc calls: the pointers, the counters and the nodes are those of the specification |
| Lifetime.BootAndAllocate | gullfoss/src/kernel/bootstrap.s:62-75 | boot, clear_ident_map and any sequence of malloc calls: succeeds if and only if boot does and the kernel ends by 0xffc00000; every pointer is the one expected from the sizes asked for; every byte given out is backed outside the reserved pages, and no physical byte is given out twice |
| FormatSpec.ParseSpec | gullfoss/src/system/stdlib.cpp:43-127 | what is left after a specification is a suffix of what was there: the cursor never passes the terminator |
| FormatRoundTrip.FlagsRoundTrip | gullfoss/src/system/stdlib.cpp:46-70 | any set of flags, written in any order, is read back |
| FormatRoundTrip.NumberParsed | gullfoss/src/system/stdlib.cpp:71-87 | the digits of a number that fits are read as the number |
| FormatRoundTrip.NumberExactly | gullfoss/src/system/stdlib.cpp:76-83 | a number is read as itself if and only if it fits an int16_t |
| FormatRoundTrip.FieldParsed | gullfoss/src/system/stdlib.cpp:71-83 | the digits of a width or precision, if any, are read as their number, and a * after them ends it and counts for nothing |
| FormatRoundTrip.FormParsed | gullfoss/src/system/stdlib.cpp:43-127 | any directive as written: any flag characters, width, precision, stars, and any letter; a width over 1024 is read as 1024, and a letter that is not one of eight is left alone |
| FormatRoundTrip.WidthLimited | gullfoss/src/system/stdlib.cpp:84-87 | on any string the width parsed is at most 1024 |
| FormatRoundTrip.SpecRoundTrip | gullfoss/src/system/stdlib.cpp:43-127 | a written specification, its flags in any order, parses to itself, or to itself with width 1024 if its width is larger, and the cursor is left just after it whatever follows |
| PrintSpec.NumeralValue | gullfoss/src/system/stdlib.cpp:129-151 | reading a printed number gives it back, in base 10 and 16 |
| PrintSpec.WordLength | gullfoss/src/system/stdlib.cpp:163-168 | at most 10 or 8 digits are ever written into the 32-byte buffer |
| PrintSpec.PaddedUnsigned | gullfoss/src/system/stdlib.cpp:161-176 | zero-padded %u and %x: exactly the wider of width and numeral, and reads back as the argument |
| PrintSpec.PaddedInt | gullfoss/src/system/stdlib.cpp:178-198 | the same for %d and %i, the sign counted |
| PrintSpec.SpaceFilledInt | gullfoss/src/system/stdlib.cpp:191-197 | space-filled %d is right-justified if and only if the number is positive or needs no fill |
| PrintSpec.SpaceFilledUnsigned | gullfoss/src/system/stdlib.cpp:161-176 | space-filled %u and %x are right-justified if and only if the number is not 0 or the width at most 1 |
| PrintSpec.PercentNotCollapsed | gullfoss/src/system/stdlib.cpp:234-237 | the first of two percent signs is printed and the second still begins a specification |
| Directives.DirectiveConverted | gullfoss/src/system/stdlib.cpp:217-240 | what d, i, u and x write for their one argument, letter by letter: sign or lone zero, padding, plain numeral of the magnitude in base 10 or, for x, 16 |
| Directives.ConvertedOnce | gullfoss/src/system/stdlib.cpp:161-215 | that determines the text |
| Directives.DirectiveEchoed | gullfoss/src/system/stdlib.cpp:234-237 | any other letter, c, s, p and % among them, consumes no argument, and all before it is written as it is |
| Directives.ZeroPadded | gullfoss/src/system/stdlib.cpp:153-215 | with the flag 0 the text has exactly the width, or the digits needed, and reads back as the argument: in base 16 for x, in base 10 for u, signed for d and i |
| Directives.PiecesPrinted | gullfoss/src/system/stdlib.cpp:242-258 | any sequence of texts and directives, with letters that convert and letters that do not, is shown piece by piece, one argument for each that converts |
| Stdlib.ParseFormatSpec | gullfoss/src/system/stdlib.cpp:43-127 | the cursor loops compute the parse, within the string |
| Stdlib.UnsignedToBuf | gullfoss/src/system/stdlib.cpp:129-137 | the buffer holds the decimal digits, lowest first |
| Stdlib.HexToBuf | gullfoss/src/system/stdlib.cpp:138-151 | the same in base 16 |
| Stdlib.WriteFill | gullfoss/src/system/stdlib.cpp:153-159 | writes exactly the padding |
| Stdlib.FormatUnsignedArg | gullfoss/src/system/stdlib.cpp:161-176 | writes exactly what the specification of %u says |
| Stdlib.FormatIntArg | gullfoss/src/system/stdlib.cpp:178-198 | the same for %d, INT_MIN included |
| Stdlib.FormatHexArg | gullfoss/src/system/stdlib.cpp:200-215 | the same for %x |
| Stdlib.WriteArg | gullfoss/src/system/stdlib.cpp:217-240 | one directive: output, cursor and argument consumption |
| Stdlib.Vfprintf | gullfoss/src/system/stdlib.cpp:242-258 | terminates on every format; output, number of characters and arguments consumed are exactly those of the format |

## Left out

- Hardware and build: port I/O, serial output, interrupts, descriptor tables, boot assembly beyond the order of its calls, the linker script beyond where it places the page tables.
- `boot/` and `barebones/`, the VGA terminal, the shell and the panic screen.
- The keyboard: table lookups.
- `operator new` and `operator delete`: the first only calls `malloc`, the second is not implemented; so there is no free.
- `strlen`, and `vfprintf` called with fewer arguments than its format consumes, which C leaves undefined.
- The TLB, and how the tables themselves are reached: they are read and written as physical memory throughout, as the identity map of early boot allows.
- Debug output during initialisation, and the printed dump of tables and bitmap in `kernel_early_main`.
- PreKernel.SetupPaging: takes the address and length in the Multiboot information structure as given, and the memory map buffer to end at least a page below 4 GiB; nearer to it the source's 32-bit loop does not end.
- PhysMem.PhysMemAllocator.InitMmap: an unavailable entry that reaches past 4 GiB is excluded, because the source then writes past its bitmap.
- VirtMem.VirtMemAllocator.MapPage: page addresses are aligned, as the source asserts; release builds do not check it.
- HeapAllocators.HeapAllocator.InitHeapPages: when no block could be reserved and the heap pointer is null, says whether the assertions pass but not what the writes below address 4 MiB do.
- HeapAllocators.HeapAllocator.BlockMalloc: headers are kept by virtual address beside physical memory, not inside it; that a store through the heap cannot reach the page tables is HeapStoreKeepsTranslation.
- Stdlib.FormatIntArg: negating INT_MIN wraps, as on the target; the C standard leaves it undefined.
- Stdlib.WriteArg: left-justify, sign, space, point and precision are parsed but, as in the source, have no effect on the output.
