# MVK: a verified model

MVK is a small x86 kernel with a freestanding C library. This project models its heap, its paging and page
allocation, its choice of free memory, its text terminal, its PCI scan, its number printing and its random number
generator, and proves what they promise. `dafny verify dfyconfig.toml` checks all of it.

## What is modelled

**The boundary-tag heap** (`Liballoc.dfy`, `LiballocTheorems.dfy`, `LiballocRuns.dfy`, `PageProvider.dfy`). A tag is an object with the
fields of `struct boundary_tag`; its address is a constant of the object, and `Heap.at` is the cast from an address
to the tag stored there. `bytes` is the 32-bit address space; a load sees the little-endian fields of a tag where a
header lies, and `bytes` elsewhere (`Heap.ByteAt`). The invariant `Heap.Valid` says, tag by tag, how the split chain
tiles each page region, how the free lists are linked and ordered, which list a tag is in, which tags are live
blocks, and what the counters of whole regions hold. Every operation keeps it; `LiballocTheorems` says what it means
for whole regions, whole lists and the whole heap, and
`LiballocRuns` what it means for whole runs: to any client the heap is a store of independent byte strings. While an operation holds a tag, the tag is `busy` and exempt from
the clauses about clients and size classes. The page provider grants or refuses as it likes, within the contract of
`libc/private_include/liballoc.h`.

**Paging** (`Paging.dfy`, `Bits.dfy`, `PageAllocator.dfy`, `MemoryMap.dfy`, `Boot.dfy`). Physical memory is one array
of 32-bit words, and every access of the kernel to a page table goes through the walk that the hardware performs
(32-bit paging, section 4.3 of the Intel SDM, Volume 3A). The invariant says that each directory slot holds its own
table or none, and that a table without a slot is empty. The bitmap allocator works on top; `Boot` joins it with
`mmap_initialize`.

**The terminal** (`Page.dfy`, `Terminal.dfy`). The reference is an unbounded page: the text split at newlines, each
line wrapped at the width. The screen shows its last rows.

**The PCI scan** (`PciConfig.dfy`, `PciTree.dfy`, `Pci.dfy`, `PciTheorems.dfy`). Configuration space is a fixed
function from the address port to the data port. The scan is followed on a set of buses that its bridges do not leave
and on which they lead downwards in some ranking (`PciTree.Ranked`). There is one exactly when no bridges lead in a
circle (`PciTheorems.RankedIff`), which is exactly when the scan ends (`PciTheorems.ScanEndsIff`); bus numbers that
grow away from the host are an example.

**Numbers and printf** (`Numerals.dfy`, `Conversion.dfy`, `Stdio.dfy`) and **rand** (`Random.dfy`).

Shifts and masks are written as divisions and remainders by powers of two, and 32-bit and 64-bit wrap-around as an
explicit remainder. Page and word size are in `Machine.dfy`, arithmetic facts the proofs share in `Arithmetic.dfy` and
`Powers.dfy`.

## What the proofs found

* `alloc_page` never hands out bit 0 of a bitmap word, so `alloc_pages` returns consecutive pages exactly when
  `n mod 31 + k <= 31` after `n` allocations. liballoc takes 16 pages at a time and needs them consecutive: its first
  region is whole, its second has a hole (`PageAllocator.SecondGrantHasAHole`).
* `mmap_initialize` leaves the largest page-aligned part of its memory map entry, or of what lies behind the kernel in
  it if the two overlap, exactly when `MemoryMap.Reaches` holds (`MemoryMap.TrimIsExact`, for every entry). Four kinds
  of entries fail. One that starts at or above 4 GiB is mistaken for the memory 4 GiB below, as the source drops the
  upper half of the address (`MemoryMap.UpperEntryIsMissed`). One that ends before the page boundary where the region
  should start makes the 64-bit length wrap (`MemoryMap.RegionInsideKernelWraps`). One whose region should start at
  4 GiB leaves a region at 0 (`MemoryMap.LastPageWraps`). And one that passes 4 GiB can hide its overlap with the
  kernel (`MemoryMap.OverlapIsMissed`), though not with the linker's kernel start of 0. Memory in front of the kernel is
  given up, even if it is the larger part.
* `printf` runs past the end of its format exactly when the run of `%` at the end of the format has odd length
  (`Stdio.LonePercentAtInput`), and it returns the number of characters its conversions print, without the literal
  ones (`Stdio.LiteralsAtInput`). ISO C asks for all characters, so the value is right exactly for formats without
  literals.
* `malloc` is right exactly up to 0xFFFFFFDF bytes. Beyond, its 32-bit sums wrap: any tag passes the search though none
  has room (`Liballoc.OversizeIsWrong`). A new region is then split, with the new header inside the header of the
  block; a free tag is handed out whole, but for the smallest of its class (`Liballoc.OversizeSplits`). Requests above
  0xFFFFEFE0 bytes always end in NULL, as no region can hold them. The bound of 287 wasted bytes needs no assumption on
  the size of regions, because the size class of a free tag bounds what is left over (`Liballoc.Leftover`).
* `calloc` takes the product of its arguments in 32 bits, and clears through NULL when the allocation was refused;
  `realloc` copies through NULL in the same case (`Fault`). With an empty old block `realloc` frees it all the same.
* `scan_pci_buses` scans nothing when the host bridge is a multi-function device: its loop stops at the first function
  that is there (`PciTheorems.MultiFunctionHostIsMissed`). With a host that is there, the list is complete exactly if
  the host has a single function.
* The comment of `getexp` promises `2^n <= size < 2^(n+1)`; below 256 it returns -1. `kernel/include/terminal.h`
  declares `terminal_writechar`, which does not exist; the function is `terminal_putentryat`.

## Model

| member | source | states |
|---|---|---|
| Liballoc.GetExp | libc/src/liballoc/liballoc.c:43-67 | -1 below 256, else the exponent of the highest bit, for all 32-bit sizes |
| Liballoc.PagesSuffice | libc/src/liballoc/liballoc.c:236-250 | the pages have room for request and header exactly up to 0xFFFFFFDF, and they are 16 or the fewest that do |
| Liballoc.OversizeIsWrong | libc/src/liballoc/liballoc.c:204-208 | for every larger request each tag passes the wrapped search, none has room, and a split would put the new header inside the old one |
| Liballoc.OversizeSplits | libc/src/liballoc/liballoc.c:352-358 | such a split happens in every new region, and in a free tag exactly at the lower end of its class |
| Liballoc.Leftover | libc/src/liballoc/liballoc.c:352-358 | what a fitting tag leaves over never reaches the sign bit, so the split test is never misled |
| Liballoc.ClassUnique | libc/src/liballoc/liballoc.c:43-67 | a size has one class |
| Liballoc.HeaderLayout | libc/private_include/liballoc.h:17-30 | a 32-bit load at the offset of each field of the struct sees that field |
| Liballoc.Heap.constructor | libc/src/liballoc/liballoc.c:22-34 | the static initial state is a valid empty heap |
| Liballoc.Heap.PushFront | libc/src/liballoc/liballoc.c:152-160 | the pointer stores of insert_tag: one tag becomes head, all other links as before |
| Liballoc.Heap.InsertTag | libc/src/liballoc/liballoc.c:140-161 | keeps the whole invariant; the tag is the head of the list of its size class, the old list behind it; it counts as a whole region exactly if it has no split neighbour |
| Liballoc.Heap.Unlink | libc/src/liballoc/liballoc.c:163-173 | the pointer stores of remove_tag: the neighbours close the gap, all other links as before |
| Liballoc.Heap.RemoveTag | libc/src/liballoc/liballoc.c:163-173 | keeps lists acyclic, doubly linked and ordered; only this tag's index changes |
| Liballoc.Heap.MeltLeft | libc/src/liballoc/liballoc.c:176-186 | the left neighbour takes over the bytes; tiling and links are kept, the counters' sets unchanged |
| Liballoc.Heap.AbsorbRight | libc/src/liballoc/liballoc.c:189-202 | the right neighbour leaves its list and its bytes and right link join the tag; sizes, links and indices of all other tags stay |
| Liballoc.Heap.Sever | libc/src/liballoc/liballoc.c:204-223 | exact new state of the split: addresses, sizes and links of both parts and the right neighbour |
| Liballoc.Heap.SplitTag | libc/src/liballoc/liballoc.c:204-228 | keeps the invariant; the first part has header and request, the rest is a new free tag at the head of its list |
| Liballoc.Heap.AllocateNewTag | libc/src/liballoc/liballoc.c:236-276 | a granted region becomes one tag that spans it and overlaps nothing; a refusal changes nothing |
| Liballoc.Heap.FindFit | libc/src/liballoc/liballoc.c:305-320 | finds the first tag of the list that has room for request and two headers, and none exactly when none has; terminates |
| Liballoc.Heap.Initialize | libc/src/liballoc/liballoc.c:288-299 | the first call leaves cleared lists and counters |
| Liballoc.Heap.Take | libc/src/liballoc/liballoc.c:334-340 | the counter of whole regions stays exact when a tag is taken |
| Liballoc.Heap.Carve | libc/src/liballoc/liballoc.c:344-374 | the tag is cut to header and request exactly if a tag with 256 bytes fits behind, which then heads its list; so at most 287 bytes are wasted |
| Liballoc.Heap.Malloc | libc/src/liballoc/liballoc.c:280-389 | a new live block of the requested size, no byte of another live block changed; it is the first fit of the old list of its class, and pages are obtained exactly when there is none; what it leaves over heads a list, and no other tag changes or moves; NULL only on a refusal, and always above 0xFFFFEFE0 |
| Liballoc.Heap.BlockFits | libc/src/liballoc/liballoc.c:236-258 | no live block is larger than 0xFFFFEFE0 bytes |
| Liballoc.Heap.Melt | libc/src/liballoc/liballoc.c:421-438 | both melting loops terminate with no free neighbour left, and melt free tags of the same region only |
| Liballoc.Heap.SpansIff | libc/src/liballoc/liballoc.c:421-447 | the melted tag spans its region exactly if all other tags there were free |
| Liballoc.Heap.ReturnRegion | libc/src/liballoc/liballoc.c:449-467 | the provider gets back exactly one region it granted, with its page count |
| Liballoc.Heap.KeepRegion | libc/src/liballoc/liballoc.c:446-477 | a whole region waits in its list and the counter stays exact and at most 5 |
| Liballoc.Heap.Retire | libc/src/liballoc/liballoc.c:441-477 | the region goes back, with its page count, exactly when the tag spans it and its class already has 5 waiting; else no page moves |
| Liballoc.Heap.Free | libc/src/liballoc/liballoc.c:395-485 | exactly this block dies, no byte of another changes; the heap is coalesced again, the tag with the bytes of the block heads its list, and no other tag changes or moves; the region of the block goes back exactly when no other live block lies in it and its class has 5 waiting |
| Liballoc.Heap.OnlyIff | libc/src/liballoc/liballoc.c:421-447 | all other tags of a region are free exactly if no other live block lies in it |
| Liballoc.Heap.MemSet | libc/src/liballoc/liballoc.c:70-77 | sets the range and nothing else |
| Liballoc.Heap.MemCopy | libc/src/liballoc/liballoc.c:79-102 | the word-then-byte copy equals a byte copy and changes nothing else |
| Liballoc.Heap.Calloc | libc/src/liballoc/liballoc.c:490-502 | a new block of zeros of the 32-bit product, others unchanged, with the tags and pages as malloc leaves them; faults exactly on a refused non-empty request |
| Liballoc.Heap.Realloc | libc/src/liballoc/liballoc.c:506-531 | the first min(old, new) bytes move to the new block, the old one dies, others are unchanged; a fault changes no block; size 0 frees; pages come in as for malloc, and the old region goes back exactly if no block is left in it and enough others of its class wait |
| Liballoc.Heap.OthersWaitIff | libc/src/liballoc/liballoc.c:446-470 | the class of the last block's region was full before free exactly if it is full without that region afterwards |
| Liballoc.Heap.PayloadIsRaw | libc/src/liballoc/liballoc.c:376-376 | no tag header lies over a byte of a live payload |
| Liballoc.Heap.PayloadsDisjoint | libc/src/liballoc/liballoc.c:204-228 | live payloads are disjoint, a header's room apart |
| Liballoc.Heap.LiveBlock | libc/src/liballoc/liballoc.c:405-405 | behind every live pointer stands its tag, outside all lists |
| LiballocTheorems.RegionsAreTiled | libc/src/liballoc/liballoc.c:176-228 | following split_right from a region's start meets every tag of the region, end to end, with split_left the inverse, and the sizes add up to the region |
| LiballocTheorems.ListsAreExact | libc/src/liballoc/liballoc.c:140-173 | list k is exactly the tags of index k, each once, latest first, with prev the inverse of next |
| LiballocTheorems.FreeOnLists | libc/src/liballoc/liballoc.c:154-160 | each list after free is what remains of it, behind the tag with the freed bytes if that is its |
| LiballocTheorems.MallocOnLists | libc/src/liballoc/liballoc.c:305-340 | the block is the first of its old list that fits; each list goes on without it, behind what it left over if that is its |
| LiballocTheorems.LastFreedIsReused | libc/src/liballoc/liballoc.c:305-320 | the tag freed last is the one malloc takes, for a request of its class that it can hold |
| LiballocTheorems.FreeTagsAreSorted | libc/src/liballoc/liballoc.c:140-152 | a free tag's index is max(8, floor(log2(real_size - 32))), and neither split neighbour is free |
| LiballocTheorems.PagesAreConserved | libc/src/liballoc/liballoc.c:252-258 | pages obtained minus pages returned equal the summed real_size of all tags |
| LiballocTheorems.EmptyHeapIsCoalesced | libc/src/liballoc/liballoc.c:421-477 | without live blocks every held region is a single free tag, counted in its class, at most 5 to a class |
| LiballocTheorems.BlocksAreTight | libc/src/liballoc/liballoc.c:352-372 | every live block lies in one granted region behind its header and wastes at most 287 bytes |
| LiballocRuns.Run | libc/src/liballoc/liballoc.c:280-531 | any number of calls of any client from boot on: the heap stays valid, every load from a live block sees the bytes of a plain store, and each call does to that store what ISO C promises, up to the first fault |
| LiballocRuns.Perform | libc/src/liballoc/liballoc.c:280-531 | one call of malloc, calloc, realloc or free, or one store into a block, on the heap and on the store |
| LiballocRuns.BlockSurvives | libc/src/liballoc/liballoc.c:204-228 | through any run, a block keeps its bytes until the client passes its pointer |
| PageProvider.Provider.Alloc | libc/private_include/liballoc.h:51-58 | refusal, or fresh contiguous pages that overlap no held region |
| PageProvider.Provider.Release | libc/private_include/liballoc.h:60-68 | takes back exactly one earlier grant |
| Paging.Mmu.DirectoryWindow | kernel/src/paging.c:48-49 | the hardware walk of 0xFFFFF000 + 4i ends at directory entry i |
| Paging.Mmu.TableWindow | kernel/src/paging.c:51-52 | the hardware walk of the table window ends at the entry of the table that the slot holds, and fails exactly if it holds none |
| Paging.Mmu.GetPhysicalAddress | kernel/src/paging.c:43-55 | never faults, and equals the hardware walk for every 32-bit address, windows included |
| Paging.Mmu.WalkIsHardware | kernel/src/paging.c:43-55 | the walk in terms of physical words: indices from bits 22 and 12, bit 0 present, frame from bit 12 |
| Paging.Mmu.Attach | kernel/src/paging.c:69-77 | a new table changes the walks of no page but its own window page |
| Paging.Mmu.SetEntry | kernel/src/paging.c:79-82 | a table store changes the walks of exactly one page |
| Paging.Mmu.MapPage | kernel/src/paging.c:57-85 | the page translates as asked, every other address as before except the window page of a new table; the words stored are exactly the table entry, with its flags, and the directory entry of a new table; aborts exactly without table, changing nothing |
| Paging.Mmu.UnmapPage | kernel/src/paging.c:87-103 | removes exactly the translations of one page, by clearing the present bit of its entry; nothing changes if there are none |
| Paging.Mmu.TablesApart | kernel/src/paging.c:12-14 | two directory slots never share a table, and no table is the directory |
| Paging.Mmu.Initialize | kernel/src/paging.c:24-41 | the boot contents of directory and tables |
| Paging.Mmu.BootedIsValid | kernel/src/paging.c:24-41 | they satisfy the paging invariant |
| Paging.Mmu.BootWalk | kernel/src/paging.c:28-36 | the first 8 MiB appear at 0xC0000000 and nothing else is mapped below the windows |
| Bits.SetBitSetsOne | kernel/src/paging.c:129-129 | setting a bit changes that bit only |
| Bits.BitsAreArithmetic | kernel/src/paging.c:114-114 | testing and setting a bit, as quotient and sum |
| PageAllocator.IndexOrdinal | kernel/src/paging.c:117-117 | the n-th allocation lies at bit 31 - n mod 31 of word n / 31 |
| PageAllocator.MappedPages | kernel/src/paging.c:117-130 | an address is mapped exactly when it lies in the page of some earlier allocation |
| PageAllocator.Allocator.constructor | kernel/src/paging.c:38-40 | after boot no page is taken and none is mapped below the kernel |
| PageAllocator.Allocator.AllocPage | kernel/src/paging.c:105-138 | the n-th success yields page index n + n/31, with the flags asked for; refusal exactly on an exhausted bitmap, abort exactly on exhausted memory; earlier pages keep their flags |
| PageAllocator.Allocator.MapNext | kernel/src/paging.c:125-128 | map_page cannot abort here; page x of the region appears at virtual page x + 1 and all else stays |
| PageAllocator.Allocator.AllocPages | kernel/src/paging.c:151-160 | the address of the first page, how many were handed out, and their flags |
| PageAllocator.Allocator.PagesAreFreeMemory | kernel/src/paging.c:125-126 | while the pages handed out end below 4 GiB, a mapped address v below the kernel translates to the region's start + v - 4096, inside the region |
| PageAllocator.Allocator.ReachIff | kernel/src/paging.c:125-126 | exactly then |
| PageAllocator.TablesSuffice | kernel/src/paging.c:8-10 | the directory index of an allocated page never exceeds 766 |
| PageAllocator.ConsecutiveIff | kernel/src/paging.c:151-160 | k pages after n are consecutive exactly when n mod 31 + k <= 31 |
| PageAllocator.GrantIsWholeIff | libc/src/liballoc/mvk.c:20-23 | the pages returned to liballoc are all mapped exactly in that case |
| PageAllocator.SecondGrantHasAHole | libc/src/liballoc/mvk.c:20-23 | the first 16 pages are whole, the next 16 are not |
| MemoryMap.FreeRegion.Choose | kernel/src/mmap.c:39-53 | the first largest available entry, or none |
| MemoryMap.HalvesOfWords | kernel/src/mmap.c:46-46 | length and base of an entry are 64-bit words of which the fields are the halves |
| MemoryMap.FreeRegion.Trim | kernel/src/mmap.c:54-70 | exact result of kernel exclusion and alignment, in 32- and 64-bit arithmetic |
| MemoryMap.FreeRegion.Initialize | kernel/src/mmap.c:14-72 | both together; aborts exactly without a memory map |
| MemoryMap.TrimIsExact | kernel/src/mmap.c:49-70 | for every entry: the result lies in it, behind the kernel on overlap, and contains every other such page-aligned region, exactly when the entry starts below 4 GiB, reaches a start below 4 GiB and hides no overlap |
| MemoryMap.ExactAvoidsKernel | kernel/src/mmap.c:54-60 | such a result has no byte of the kernel image |
| MemoryMap.StaysInsideIff | kernel/src/mmap.c:49-70 | the result lies inside its entry exactly when that starts below 4 GiB and reaches the start of the result |
| MemoryMap.UpperEntryIsMissed | kernel/src/mmap.c:49-49 | 1 GiB at 4 GiB leaves a region wholly below the entry |
| MemoryMap.RegionInsideKernelWraps | kernel/src/mmap.c:55-60 | an entry that ends inside the kernel leaves a length of nearly 2^64 |
| MemoryMap.LastPageWraps | kernel/src/mmap.c:62-67 | an entry that starts in the last page below 4 GiB leaves a region at 0 |
| MemoryMap.OverlapIsMissed | kernel/src/mmap.c:55-55 | an entry around the kernel that passes 4 GiB keeps the kernel in the region |
| Boot.Start | kernel/src/kernel.c:22-38 | boot leaves a valid allocator over what is left of the first largest available entry |
| Boot.AllocatedMemoryIsOurs | kernel/src/paging.c:105-138 | from an entry that `TrimIsExact` accepts, through any number of allocations that end below 4 GiB, each mapped address below the kernel is a byte of the chosen entry outside the kernel image, and no two share one |
| Boot.StaysInReach | kernel/src/paging.c:117-123 | allocations from an entry that ends by 4 GiB never leave it |
| Boot.TablesAreOutOfReach | kernel/src/paging.c:12-14 | no such byte lies in the page directory or in a page table |
| Boot.StartAndAllocate | kernel/src/paging.c:105-138 | boot and any number of allocations in one run: where the pages lie, why they end early, and that every byte reached through them is ours |
| Page.CellBytes | kernel/include/vga.h:26-26 | a cell has the character in its low byte and the colour in its high byte; a blank is a space in the default colour |
| Page.LinesSplit | kernel/src/terminal.c:60-71 | a newline separates the lines before it from those after it |
| Page.OneLine | kernel/src/terminal.c:73-75 | a text without newline is one line, cell by cell |
| Page.WrapRegular | kernel/src/terminal.c:76-86 | a line of length L makes L / width + 1 rows, the last of length L mod width |
| Page.PageAppend | kernel/src/terminal.c:58-87 | one more character changes the split and wrapped page in the last row only |
| Page.PageSize | kernel/src/terminal.c:75-86 | number of rows and length of the last one, from the lines |
| Terminal.Screen.constructor | kernel/src/terminal.c:11-33 | the blank screen shows the empty page |
| Terminal.Screen.PutEntryAt | kernel/src/terminal.c:46-56 | stores one cell and no other |
| Terminal.Screen.ScrollDown | kernel/src/terminal.c:100-111 | every row moves up, the last becomes blank, the column 0 |
| Terminal.Screen.PutChar | kernel/src/terminal.c:58-87 | a screen that shows a page then shows the page with one more character |
| Terminal.Screen.Write | kernel/src/terminal.c:89-93 | after any text the screen shows the page of all text so far |
| Terminal.ScreenOfText | kernel/src/terminal.c:58-93 | every cell, and the cursor in closed form, after any text |
| Terminal.BufferOfText | kernel/src/terminal.c:53-53 | the same for each word of the buffer, row by row |
| PciConfig.AddressesDiffer | kernel/src/pci.c:78-82 | distinct bus, device, function and dword have distinct 32-bit addresses |
| PciConfig.AddressDecodes | kernel/src/pci.c:80-80 | the address is the one word whose fields are enable bit, bus, device, function and register |
| PciConfig.FieldsAreHeaderBytes | kernel/src/pci.c:84-122 | all eight accessors read the bytes of the PCI header that hold their fields |
| Pci.TreeOf | kernel/src/pci.c:34-53 | every configuration space has a tree of functions |
| Pci.TreeIsOfHeaders | kernel/src/pci.c:34-54 | presence, bridges and buses of the tree in terms of PCI header bytes |
| Pci.Scanner.CheckBus | kernel/src/pci.c:28-32 | terminates, appending the depth-first list of the bus |
| Pci.Scanner.CheckDevice | kernel/src/pci.c:34-46 | adds the functions of one device that are there |
| Pci.Scanner.CheckFunction | kernel/src/pci.c:48-68 | adds everything behind a bridge, then the function |
| Pci.Scanner.ScanBuses | kernel/src/pci.c:14-26 | bus 0 for a single-function host; otherwise exactly the buses numbered by the absent functions before the first present one |
| PciTheorems.ListedIffReachable | kernel/src/pci.c:28-68 | listed exactly when reachable over bridges |
| PciTheorems.ScanIsPostOrder | kernel/src/pci.c:53-67 | right before each function stands the list of everything behind it |
| PciTheorems.ListedOnceIff | kernel/src/pci.c:28-68 | no function is listed twice exactly when no two reachable bridges lead to one bus with functions on it |
| PciTheorems.SharedIsListedTwice | kernel/src/pci.c:53-54 | a bus behind two bridges is listed twice |
| PciTheorems.CyclesCannotBeRanked | kernel/src/pci.c:53-54 | bridges that lead back to their bus admit no ranking |
| PciTheorems.RankedIff | kernel/src/pci.c:53-54 | the buses behind some buses can be ranked exactly when no bridges there lead in a circle |
| PciTheorems.CirclesNest | kernel/src/pci.c:53-54 | around a circle there are chains of bridges of any length |
| PciTheorems.ScanEndsIff | kernel/src/pci.c:28-68 | some depth of calls suffices for check_bus exactly when no bridges behind the bus lead in a circle |
| PciTheorems.ScanIsAll | kernel/src/pci.c:28-68 | at any depth that suffices it lists the same |
| PciTheorems.IncreasingIsRanked | kernel/src/pci.c:53-54 | bus numbers that grow away from the host do |
| PciTheorems.FirmwareOrderIsAcyclic | kernel/src/pci.c:53-54 | a machine with such numbers has no circles |
| PciTheorems.Initialize | kernel/src/pci.c:70-76 | without circles: the list is what the scanned buses reach, in post-order, and from bus 0 without repetition unless buses are shared; with a host that is there, it is complete exactly if the host has a single function |
| PciTheorems.MultiFunctionHostIsMissed | kernel/src/pci.c:18-25 | a host of two functions, both reachable, of which none is listed |
| Numerals.NumeralReadsBack | libc/src/stdio.c:82-102 | a positional reader recovers the value, and the numeral is canonical |
| Numerals.NumeralIsUnique | libc/src/stdio.c:82-102 | no other canonical numeral means the same number |
| Numerals.NumeralLength | libc/src/stdio.c:82-90 | a 32-bit value needs at most 32 digits in any base |
| Numerals.SignedReadsBack | libc/src/stdlib.c:6-40 | base 10 round-trips signed values, other bases the two's-complement word, without leading zeros |
| Conversion.WriteDigits | libc/src/stdio.c:82-88 | the digit loop writes the numeral backwards |
| Conversion.Mirror | libc/src/stdio.c:92-101 | the swapping loop reverses the range in place and changes nothing else |
| Conversion.UIToA | libc/src/stdio.c:75-131 | the buffer holds the numeral and its terminator |
| Conversion.IToA | libc/src/stdlib.c:6-40 | the buffer holds the signed numeral and its terminator |
| Stdio.Output.PutString | libc/src/stdio.c:42-53 | emits the string up to its terminator and counts it |
| Stdio.Output.PutUpper | libc/src/stdio.c:62-73 | the same in upper case |
| Stdio.Output.Convert | libc/src/stdio.c:154-187 | each conversion through its buffer, with its count |
| Stdio.Output.Printf | libc/src/stdio.c:133-197 | emits the rendering of the format, returns the characters of the conversions only, and overruns the format exactly at a lone final % |
| Stdio.ConversionReadsBack | libc/src/stdio.c:154-187 | a reader of each of the eight conversions gets the argument back, in its base and case |
| Stdio.RenderingOfParts | libc/src/stdio.c:144-192 | a format renders part by part, each with its own arguments |
| Stdio.RenderingOfPart | libc/src/stdio.c:144-192 | a character stands for itself, a conversion for its argument, an unknown one for nothing |
| Stdio.LoneIffOdd | libc/src/stdio.c:144-150 | the format ends in a lone % exactly when its final run of % has odd length |
| Stdio.LonePercentAtInput | libc/src/stdio.c:146-150 | "100%" is such a format, "100%%" is not |
| Stdio.LiteralsAtInput | libc/src/stdio.c:191-196 | "x=%u" prints three characters, of which one is counted |
| Stdio.LiteralsAreRendered | libc/src/stdio.c:191-196 | every literal is printed, so the returned number is never negative |
| Random.Generator.Rand | libc/src/stdlib.c:53-57 | the state advances by the recurrence, the output is its bits 16 to 30 |
| Random.Generator.Draw | libc/src/stdlib.c:53-57 | any number of calls moves along the orbit of the seed, with the output of each state |
| Random.NextIsPortable | libc/src/stdlib.c:55-55 | the recurrence is that of section 7.22.2 of ISO C, modulo 2^32 |
| Random.ValueIsBits | libc/src/stdlib.c:56-56 | the output is bits 16 to 30 of the state |
| Random.AfterIsExact | libc/src/stdlib.c:55-55 | reducing at every step or once at the end is the same |
| Random.ExactJumps | libc/src/stdlib.c:55-55 | 2^k calls are one affine step with known multiplier and odd increment |
| Random.FullPeriod | libc/src/stdlib.c:51-62 | from every seed the state first returns after 2^32 calls |
| Random.EveryStateOccurs | libc/src/stdlib.c:53-57 | one period visits every 32-bit state |
| Random.OutputsAreUniform | libc/src/stdlib.c:53-57 | over one period each output 0..32767 occurs 2^17 times |

## Left out

- Liballoc.Heap.Malloc: the 32 sizes above 0xFFFFFFDF, for which `Liballoc.OversizeIsWrong` shows that no tag has room. So too for Calloc, Realloc and AllocateNewTag.
- Liballoc.Heap.Free: pointers that are not live, and with them the test of the magic number, which live blocks always pass.
- Liballoc.Heap.Calloc: products whose 32-bit value is above 0xFFFFFFDF.
- Liballoc.Heap.Realloc: sizes above 0xFFFFFFDF.
- Liballoc.Heap.MemCopy: overlapping ranges, which `realloc` never copies.
- liballoc's lock, debug output and statistics.
- Paging.Mmu.MapPage: any table array but `free_page_tables`, the only one the kernel passes, and addresses inside the table windows.
- Paging.Mmu.UnmapPage: addresses inside the table windows, where it would detach a whole table.
- Paging.Mmu.Initialize: loading CR3. TLB flushes, what the flags permit, and accessed or dirty bits are not modelled.
- `free_page` and `free_pages`: their index arithmetic is for 64-bit bitmap words and does not undo `alloc_page`.
- MemoryMap.FreeRegion.Initialize: the messages it prints.
- Boot.AllocatedMemoryIsOurs: allocations that pass 4 GiB, which go on at address 0 (`PageAllocator.Allocator.ReachIff`).
- Boot.Start: the terminal, descriptor tables and FPU set-up between the modelled steps.
- Terminal.Screen.constructor: the messages of `terminal_initialize`, and its abort on other framebuffer types.
- Pci.Scanner.CheckFunction: the abort when the list cannot grow; the list is a sequence.
- Stdio.Output.Printf: the connection of `putchar` to the terminal; `out` is the stream of characters.
- Conversion.IToA: negating the smallest value in base 10 overflows an `int` in C; the model takes the wrapped result that the machine gives.
- `read_rtc`, CPU features, GDT, IDT, PIC, interrupt stubs, `ctype` beyond `toupper`, `mmap`/`munmap` stubs and user mode.
