# Proofs for the rawOS kernel: heap, hash map, frames, address spaces and processes

This project models four parts of the rawOS kernel in Dafny and proves what holds of them over every input and every
run. `dafny verify dfyconfig.toml` checks all of it.

**The kernel heap** (`src/alloc`). Memory is a byte array. A heap is a run of segments, each with a 12-byte header and
an 8-byte footer in that array; `KallocHeap.Heap` writes the tags in place, in the order of the original, also where a
new footer or header lies over an old one. The holes are indexed by an AVL tree that lives in a fixed buffer of cells
together with its free list (`KallocAvl.Avl`): references are cell numbers, rotations rewire cells, and a ghost tree
(`HoleTree`) says what the cells amount to. `Segments`, `SegmentOps` and `SegmentTags` hold the run of segments and
its changes, `AllocatorLaws` and `AllocatorRuns` what all this means to callers, step by step and over whole runs,
`SearchLaws` how far the search for a hole keeps its promise, and `Kalloc` the calls on top, with `kalloc_init` and
`kalloc_realloc`.

**The hash map** (`src/hash_map.h`). `HashMap.HashMap` is the table with its probe loops, doubling and the gap-closing
deletion, for any equality and any hash that gives equal keys equal hashes; `Probing` is the theory of probe chains on
a circular table. `FileDescriptors` is its use for the open files of a process.

**Frames and address spaces** (`src/util/bitmap.c`, `src/paging.c`). `Bitmap` packs one bit per frame into bytes.
`PageTables` defines tables, directories and the invariant `Sound`, clause by clause: who owns which frame and which
table, what is shared below 1 GB, and that the pointers the processor follows are those the kernel follows.
`SpaceSteps` are the elementary changes, each proved to keep the invariant, and `SpaceRuns` carries it over every run of
them, in any order. `KernelGrowth` is the growth of the kernel's half, with the tables the pages need, and `PageCreation`
the making of single pages. `Cleaning` and `Cloning` are the two large operations, and a clone may be interrupted by
growth wherever the original asks its heap for memory; `CloneSteps` says what its steps meet, `CloneRuns` that a clone is
reached whenever the frames suffice. `AddressSpaces.Kernel` is the imperative code; heap growth, page creation, cleaning,
cloning, forking, exiting and switching are shown to be runs of the elementary steps (`SpaceRuns.Reaches`). `SpaceLaws`
says what the invariant means for processes. `Boot` shows that the space boot leaves has it, and leads from there to the
first process.

**Heap and address spaces together.** `HeapSupply` joins the two models: what the allocator hands out is what page
creation and cloning ask of it, and when a fork is safe is said in terms of the heap's end. `StrayFork` is a fork that is
not.

**The process ring** (`src/process.c`). `ProcessRing` is the circular list, `Forking` what comes and goes with the
processes; fork, exit, switch and the linking of new kernel tables into all address spaces are methods of
`AddressSpaces.Kernel`.

How the sources are read:

- A failed assertion or a panic never returns. Where it can be ruled out it is proved not to fire (the balance
  assertions of the index, the used-flag assertions of the heap, the bitmap assertion of the cleaning); where a caller
  can bring it about it is an outcome (`Halted`, `None`, `false`) with the condition for it, or a precondition.
- Values that come from code outside the model are parameters: for each page table or directory the address at which
  the kernel's heap puts it and the pages by which the heap grows for it (`KernelGrowth.Supply`), and the address of a new
  process. What is assumed of them, addresses of their own that are not in use and pages that are not mapped, is proved
  of the heap (`HeapSupply.HeapSuppliesTable`, `HeapSupply.HeapSuppliesClone`).
- Ghost parameters name the segment a pointer belongs to; the code finds the header by arithmetic on the pointer.
- The index is updated after the tags where the original interleaves the two (free and growth). The two lie in
  disjoint memory, so the order cannot be observed.

Where the sources disagree with their own comments, the code is followed:

- The comment at `src/alloc/kalloc_avl.c:90` says the hole found is the smallest possible. That holds for all indexes
  of heaps and all requests exactly when the alignment is 0 or 1 (`SearchLaws.SearchIsLeastFitIffUnaligned`); with any
  larger one the search can find nothing although a hole fits (`SearchLaws.AlignedSearchMisses`).
- An aligned address comes out aligned for all 32-bit addresses exactly when the alignment is a power of two
  (`Alignment.AlignsIffPowerOfTwo`).
- An aligned allocation is refused when the hole is the first segment and would have to start later
  (`src/alloc/kalloc_heap.c:87`); `KallocHeap.Heap.Alloc` says exactly when, in terms of the hole the search finds. A
  fresh heap refuses every power of two above 4 (`Kalloc.FreshHeapRefuses`); the block kept by `kalloc_init` prevents
  the refusal (`Kalloc.FirstBlockPreventsRefusal`).
- The comment at `src/paging.c:200` asks that a new kernel table be added to all address spaces. It is, for every
  process in the ring (`src/process.c:263-275`); but a fork puts the child into the ring before it sets the child's
  directory (`src/process.c:116-134`). If the kernel needs a further table while the clone is made, the table is stored
  through the unset directory, which holds whatever was in that memory before. A fork is therefore sure to be safe, and
  succeeds in the model, exactly if the frames suffice and no further table is needed by then (`Forking.Forkable`, the
  condition of `AddressSpaces.Kernel.Fork`): that is, if the heap, from its end before the clone to its end after it,
  crosses into no table of the kernel that is missing (`HeapSupply.ForkIsSafeIff`). `StrayFork.ForkCanStray` is a state
  reached from boot, and the allocations of a clone from its heap, for which a fork is not safe with frames to spare.
  The clone itself does its part: when every process has its directory
  `AddressSpaces.Kernel.ClonePageDirectory` fails exactly if the frames do not suffice, and the new directory gets the
  tables made meanwhile, because the lower half is linked last.
- `kalloc_avl_remove` reads an uninitialised flag when the hole is missing; presence is a precondition, which the heap
  always meets.
- The bound assertions of the bitmap compare a byte index with the number of bits; the true bound is a precondition.
- An exit gives back all frames above 1 GB but those of the kernel stack (`SpaceLaws.StackFramesStay`), and keeps the
  page directory.

## Model

| member | source | states |
|---|---|---|
| Alignment.AlignBounds | src/alloc/kalloc_heap.c:52-62 | for any alignment the address used is at or after the given one, by less than the alignment |
| Alignment.AlignIsLeast | src/alloc/kalloc_heap.c:52-62 | for a power of two it is no later than any multiple at or after the address |
| Alignment.AlignsIffPowerOfTwo | src/alloc/kalloc_heap.c:52-62 | for every 32-bit alignment: all 32-bit addresses come out as multiples of it if and only if it is a power of two |
| HoleTree.RaiseRightRepairs | src/alloc/kalloc_avl.c:202-210 | the single or double left rotation chosen by the child's balance restores balance, true heights, order and content |
| HoleTree.RaiseLeftRepairs | src/alloc/kalloc_avl.c:222-230 | the mirror image for right rotations |
| KallocAvl.Avl.InsertRight | src/alloc/kalloc_avl.c:192-211 | growth of the right subtree is absorbed in place: a sound tree with exactly the new hole more, one spare cell less, and the flag set exactly when the tree became higher |
| KallocAvl.Avl.InsertLeft | src/alloc/kalloc_avl.c:212-231 | the same on the left |
| HoleTree.LastHoleIsGreatest | src/alloc/kalloc_avl.c:244-250 | the predecessor is the greatest hole of the left subtree |
| KallocAvl.Avl.RemoveRight | src/alloc/kalloc_avl.c:292-316 | loss on the right is absorbed in place: a sound tree without exactly the removed hole, one cell released, and the flag set exactly when the tree became lower |
| KallocAvl.Avl.RemoveLeft | src/alloc/kalloc_avl.c:317-341 | the same on the left |
| HoleTree.RemovedOnlyChild | src/alloc/kalloc_avl.c:266-282 | an only child is a leaf, so taking over its hole and releasing its cell removes exactly the parent's hole |
| HoleTree.PredecessorTakesOver | src/alloc/kalloc_avl.c:282-290 | with two children, moving the predecessor's hole up and removing it on the left removes exactly the deleted hole |
| HoleTree.HeightIsLogarithmic | src/alloc/kalloc_avl.c:98-352 | a balanced tree of height h has at least Fib(h + 2) - 1 nodes |
| KallocAvl.Avl.constructor | src/alloc/kalloc_avl.c:20-36 | the whole buffer is one doubly linked free list, the index is empty |
| KallocAvl.Avl.RotateLeftAt | src/alloc/kalloc_avl.c:116-126 | rewiring cells in place performs the rotation on the tree, stored heights included, and touches no other cell |
| KallocAvl.Avl.RotateRightAt | src/alloc/kalloc_avl.c:104-114 | the mirror image |
| KallocAvl.Avl.DoubleRotateLeftAt | src/alloc/kalloc_avl.c:145-160 | the double rotation in place |
| KallocAvl.Avl.DoubleRotateRightAt | src/alloc/kalloc_avl.c:128-143 | the mirror image |
| KallocAvl.Avl.GetFreeNode | src/alloc/kalloc_avl.c:38-47 | takes the head of the free list, which stays a doubly linked list with a null-left head |
| KallocAvl.Avl.PutFreeNode | src/alloc/kalloc_avl.c:49-58 | puts a cell in front of the free list |
| KallocAvl.Avl.InsertInternal | src/alloc/kalloc_avl.c:172-235 | the recursive insertion: the subtree is sound, has exactly the new hole more, one spare cell less, and the flag says exactly whether its height rose |
| KallocAvl.Avl.FindPredecessor | src/alloc/kalloc_avl.c:244-250 | the loop ends at the rightmost cell of the left subtree, which holds its greatest hole |
| KallocAvl.Avl.RemoveInternal | src/alloc/kalloc_avl.c:252-345 | the recursive removal: the subtree is sound, exactly the given hole is gone, one cell is spare again (which need not be the one whose hole was deleted), and the flag says exactly whether the height fell |
| KallocAvl.Avl.Insert | src/alloc/kalloc_avl.c:238-242 | the index gains exactly the new hole and stays valid |
| KallocAvl.Avl.Remove | src/alloc/kalloc_avl.c:348-352 | the index loses exactly the given hole and stays valid |
| KallocAvl.Avl.PoolIsPartitioned | src/alloc/kalloc_avl.c:20-58 | spare cells and holes together are as many as the cells of the buffer |
| KallocAvl.Avl.DepthIsLogarithmic | src/alloc/kalloc_avl.c:98-352 | the number of holes bounds the height of the index: by the Fibonacci numbers, and so at least 2^(h / 2) - 1 of them make a height h |
| KallocAvl.Avl.FindHole | src/alloc/kalloc_avl.c:60-96 | what is found fits once aligned; if a hole and every hole after it by size and then address fit once aligned, some hole is found and it is no later, whatever the shape of the tree; nor is it later than any hole with room for every alignment; without alignment it is the least hole that fits, by size and then by address, and none is found only if none fits |
| HoleSearch.SearchFinds | src/alloc/kalloc_avl.c:60-87 | the search on trees, by induction: what is found fits, and comes no later than any hole with room for every alignment |
| HoleSearch.SearchFindsFrom | src/alloc/kalloc_avl.c:60-87 | of the search on trees: a hole that fits once aligned, and after which all do, is never missed |
| HoleSearch.UnalignedSearchIsLeastFit | src/alloc/kalloc_avl.c:60-96 | with alignment 0 or 1 the search returns the least hole that fits, or none if none does |
| SearchLaws.SearchIsLeastFitIffUnaligned | src/alloc/kalloc_avl.c:89-96 | over the indexes of all heaps (whole pages in 32-bit memory, above the 16 pages of the index) and all sizes the search returns the least fitting hole if and only if the alignment is 0 or 1 |
| SearchLaws.AlignedSearchMisses | src/alloc/kalloc_avl.c:72-87 | for every larger alignment up to 2^31: such a heap, which starts with a used block, and a sound index of it, in which a hole fits and nothing is found |
| SearchLaws.HolesAreNotNull | src/alloc/kalloc_avl.c:72-87 | no hole of a heap has address 0, so the null result is never a hole |
| Ram.TagBytes | src/alloc/kalloc_heap.c:13-22 | header and footer byte by byte: the magic numbers, size, used flag and header address at their offsets, least significant byte first |
| SegmentTags.PadTags | src/alloc/kalloc_heap.c:89-109 | padding by any number of bytes, also fewer than the tags it overwrites, leaves the enlarged block and the moved hole correctly tagged and the block's payload untouched |
| SegmentTags.TakeTags | src/alloc/kalloc_heap.c:114-134 | taking a hole, split or whole, leaves the new tags in memory and changes nothing outside the hole |
| SegmentTags.JoinTags | src/alloc/kalloc_heap.c:182-199 | a segment that swallows its successor is tagged over both |
| SegmentOps.PaddedKeeps | src/alloc/kalloc_heap.c:80-103 | padding the previous block keeps the tiling and the separation of holes, and the index needs no change for that block |
| SegmentOps.TakenKeeps | src/alloc/kalloc_heap.c:114-134 | splitting keeps tiling and separation and changes the holes by exactly the hole taken and the rest |
| SegmentOps.ExtendedKeeps | src/alloc/kalloc_heap.c:138-162 | growth keeps tiling and separation and changes the holes by the trailing one only |
| SegmentOps.FreedKeeps | src/alloc/kalloc_heap.c:173-204 | merging both ways keeps tiling and separation: no two neighbouring holes are left |
| SegmentOps.FreedIndex | src/alloc/kalloc_heap.c:167-206 | the holes after a release are the old ones without the merged neighbours, plus the joined hole |
| SegmentOps.ExtendedIsNearer | src/alloc/kalloc_heap.c:135-164 | each growth brings the trailing hole nearer to the size that always suffices, so the retry ends |
| KallocHeap.Heap.constructor | src/alloc/kalloc_heap.c:25-50 | exactly the pages of index and heap are mapped, the heap is one indexed hole, and the index has 65536 / 20 cells |
| KallocHeap.Heap.Grow | src/alloc/kalloc_heap.c:138-162 | one more page, the run extended, the index exact, all payloads kept |
| KallocHeap.Heap.ServeFrom | src/alloc/kalloc_heap.c:67-134 | serving a request from a hole: refused exactly when the hole is the first segment and would have to start later; otherwise the run, the tags and the index are exact and all payloads kept |
| KallocHeap.Heap.Alloc | src/alloc/kalloc_heap.c:64-165 | termination, growing exactly when no hole is found, only as long as no hole has room for every alignment, and by no more pages than the trailing hole lacks of request + max(alignment, 1) - 1 + 20 bytes; the hole that serves is the one the search of the index finds, and the refusal happens exactly if that hole is at the start of the heap and not aligned; otherwise segments, tags and index agree afterwards and no payload byte of a block changes |
| KallocHeap.Heap.Free | src/alloc/kalloc_heap.c:167-206 | the run with the block merged into its neighbouring holes; tags and index agree and no other payload changes |
| AllocatorLaws.ServedIs | src/alloc/kalloc_heap.c:80-134 | segment by segment: the block has exactly the requested size and the rest is a hole, if more than 20 bytes are left over, and else it is all of the hole; the bytes skipped for the alignment go to the block before; nothing else changes |
| AllocatorLaws.AllocationIsSound | src/alloc/kalloc_heap.c:64-165 | the new block was not live, has at least the requested size and at most 20 bytes more, and is the only change to the live addresses |
| AllocatorLaws.AllocationIsAligned | src/alloc/kalloc_heap.c:75-112 | the result is a multiple of a power-of-two alignment |
| AllocatorLaws.AllocationKeepsBlocks | src/alloc/kalloc_heap.c:64-165 | every live block stays where it is and does not shrink, padding included |
| AllocatorLaws.ReleaseIsSound | src/alloc/kalloc_heap.c:167-206 | exactly the released block goes; all others are the same segments as before |
| AllocatorLaws.LiveBlocksApart | src/alloc/kalloc_heap.c:64-206 | different live blocks have disjoint payloads |
| AllocatorLaws.UnalignedIsBestFit | src/alloc/kalloc_heap.c:64-134 | an unaligned request is served at the start of the smallest hole that fits, at the lowest address if there are several |
| AllocatorLaws.FreeUndoesAlloc | src/alloc/kalloc_heap.c:64-206 | an unaligned allocation and its release restore the run, but for whole pages in the trailing hole |
| AllocatorLaws.GrowthIsTrailing | src/alloc/kalloc_heap.c:135-162 | any number of growth steps adds one trailing hole of whole pages, or widens it by them |
| AllocatorLaws.EmptyHeapIsOneHole | src/alloc/kalloc_heap.c:173-204 | without live blocks the heap is a single hole |
| AllocatorLaws.SpaceIsAccounted | src/alloc/kalloc_heap.c:25-206 | tags and payloads add up to the size of the heap |
| AllocatorRuns.RunIsSound | src/alloc/kalloc_heap.c:25-206 | at every point of every run of allocations, releases and client writes the segments tile the heap, no two holes touch, and the live addresses are those handed out and not given back |
| AllocatorRuns.NothingHandedOutTwice | src/alloc/kalloc_heap.c:64-206 | no run hands out an address that is still held |
| AllocatorRuns.BlockSurvives | src/alloc/kalloc_heap.c:64-206 | through every run a block keeps its place and never shrinks until it is released, and keeps every byte as long as its owner does not write |
| AllocatorRuns.RunEndsWhole | src/alloc/kalloc_heap.c:64-206 | a run that gives everything back ends with one hole over all pages |
| Kalloc.Init | src/alloc/kalloc.c:7-13 | after start-up the first segment is a block of one byte, the only one, and the index has 65536 / 20 cells |
| Kalloc.FirstBlockPreventsRefusal | src/alloc/kalloc.c:9-11 | while the first segment is a block no allocation is refused, and it stays a block |
| Kalloc.FreshHeapRefuses | src/alloc/kalloc_heap.c:85-88 | on a heap that is one hole a power-of-two alignment is refused if and only if it is above 4, however far the heap grows |
| Kalloc.ChoiceIsDetermined | src/alloc/kalloc_heap.c:64-88 | index and request determine the segment that serves, and whether the request is refused |
| Kalloc.SpareWhileFewBlocks | src/alloc/kalloc_avl.c:38-40 | the index cannot run out of cells while fewer blocks are live than there are cells, less one |
| Kalloc.ClientWritesAreSafe | src/alloc/kalloc_heap.c:13-22 | writes within a live block leave every tag and every other block as they are |
| Kalloc.Realloc | src/alloc/kalloc.c:27-35 | afterwards a live block of at least the new size is at the address returned; the bytes come along, the old address is free and the new one live, every other block keeps place, size and bytes; a smaller request changes nothing, and needs neither room nor a spare cell |
| Probing.ProbeIsComplete | src/hash_map.h:145-161 | a probe that ends at an empty slot has shown the key to be nowhere |
| Probing.FilledIsSound | src/hash_map.h:121-126 | filling the slot where the probe ended keeps every probe chain unbroken and the keys distinct |
| Probing.MovedIsClosing | src/hash_map.h:174-182 | moving a slot into the gap leaves chains broken at the new gap only, and none of the slots passed over reaches across it |
| Probing.PassedIsClosing | src/hash_map.h:174-184 | a slot that does not reach across the gap may stay |
| Probing.ClosedIsSound | src/hash_map.h:167-169 | at the first empty slot the gap is closed: all chains are unbroken again |
| HashMap.NormalizedIsInArc | src/hash_map.h:172-174 | the comparison of normalised indices holds exactly when the gap lies in the arc from the home of the key to its slot, across wrap-around |
| HashMap.EmptySlot | src/hash_map.h:137 | a table with fewer entries than slots has an empty slot, which bounds every probe loop |
| HashMap.PutIsAnAddition | src/hash_map.h:104-111 | while rehashing each put adds a key that is not there yet, so the new table is never more than half full and no put grows it again |
| HashMap.HashMap.constructor | src/hash_map.h:79-93 | the empty map, with at least one slot |
| HashMap.HashMap.Probe | src/hash_map.h:118-136 | terminates at the slot of the key, or at the empty slot where its probe ends |
| HashMap.HashMap.Put | src/hash_map.h:117-143 | the map with the key, in place of any equal one, bound to the value; the table at most half full again, doubled exactly when needed |
| HashMap.HashMap.Grow | src/hash_map.h:99-115 | twice the slots, the same map |
| HashMap.HashMap.Get | src/hash_map.h:145-161 | the value under the key equal to the given one, or none if there is none |
| HashMap.HashMap.Delete | src/hash_map.h:187-204 | the map without the keys equal to the given one, and whether there was one |
| HashMap.HashMap.AdjustGap | src/hash_map.h:163-185 | the gap-closing loop terminates with unbroken chains and the same entries, over any number of moves and across wrap-around |
| HashMap.HashMap.ForEachEntry | src/hash_map.h:206-215 | visits exactly the entries, each once |
| FileDescriptors.DescriptorTable.Add | src/process.c:277-281 | descriptors are handed out in order, and none handed out before changes its file |
| FileDescriptors.DescriptorTable.Lookup | src/process.c:286-291 | descriptor n is the n-th file opened, any other number is unknown |
| Bitmap.Weights | src/util/bitmap.c:57-69 | the bits of a byte are counted from the least significant |
| Bitmap.BitAfterSet | src/util/bitmap.c:57-62 | setting one bit of a byte leaves the others |
| Bitmap.BitAfterClear | src/util/bitmap.c:64-69 | clearing one bit of a byte leaves the others |
| Bitmap.Bitmap.Set | src/util/bitmap.c:57-62 | exactly the given index becomes used |
| Bitmap.Bitmap.Clear | src/util/bitmap.c:64-69 | exactly the given index becomes unused |
| Bitmap.Bitmap.Get | src/util/bitmap.c:84-89 | whether the index is used |
| Bitmap.Bitmap.GetFirstClear | src/util/bitmap.c:71-82 | the least unused index; the panic exactly when all are used |
| Bitmap.UsedCount | src/util/bitmap.c:71-82 | all indices are used exactly when the used ones are as many as the bits, and at most one is unused exactly when they are one less at least |
| PageTables.NoFrameMappedTwice | src/paging.c:155-351 | corollary of the invariant: two entries that map the same managed frame are the same entry, and the frame's bit is set |
| PageTables.TablesArePrivate | src/paging.c:200-238 | corollary of the invariant: tables above 1 GB belong to one place of one directory |
| SpaceSteps.MapFrameKeeps | src/paging.c:283-291 | mapping a free frame to an absent page outside the reserved ones keeps the invariant |
| SpaceSteps.AttachKeeps | src/paging.c:276-277 | entering a table with its physical address keeps the invariant |
| SpaceSteps.KernelTableAddedKeeps | src/paging.c:313-326 | a new kernel table, mapped, blanked and linked to all address spaces, keeps the invariant |
| SpaceSteps.UnmapKeeps | src/paging.c:164-170 | giving up a page of a process keeps the invariant, and its frame's bit was set |
| SpaceSteps.DropTableKeeps | src/paging.c:178-182 | freeing a table with nothing present keeps the invariant |
| SpaceSteps.ShareKeeps | src/paging.c:241-250 | sharing a kernel table with a new directory keeps the invariant |
| KernelGrowth.PageAndTableAreGrownBy | src/paging.c:308-351 | a kernel page whose table is missing: exactly two frames, both of the kernel's half, every pointer that was set and everything above 1 GB as before, and a run of two elementary steps |
| KernelGrowth.GrownByBoth | src/paging.c:308-351 | growth by one list of pages and then another is growth by both: the frames, the new tables and what is kept add up |
| AddressSpaces.Kernel.GrowHeap | src/alloc/kalloc_heap.c:135-139 | the pages of the heap are mapped one after another; it fails exactly if there are fewer free frames than pages and missing tables together, or a table is missing while a fork is under way |
| AddressSpaces.Kernel.CreateProcessPage | src/paging.c:267-303 | the page's entry is present and writable, has the user mode asked for and the least frame that was free, and keeps its other bits; every other page and pointer is as it was; a missing table is made, for which the kernel's heap may grow; a panic exactly when the page exists or the frames do not suffice |
| PageCreation.TablePageIsFree | src/paging.c:317-322 | the page of a missing kernel table is absent and lies under a table that exists, so the recursion goes one level deep |
| AddressSpaces.Kernel.CreateKernelPage | src/paging.c:308-351 | the page's entry is present, writable and for the kernel only, in a frame that was free; a missing table is made first, with a page of its own likewise, and entered at its address and with its frame in the directory of every process; no other page of the kernel changes; it fails exactly when the page exists, too few frames are free, or a table has to be linked to a process without a directory |
| AddressSpaces.Kernel.LinkKernelTable | src/process.c:263-275 | the loop round the ring ends having entered the table into the directory of every process, unless it meets one whose directory is not set |
| Cleaning.CleanTablesPointwise | src/paging.c:155-185 | of a cleaned directory exactly the kernel stack's pages and the tables holding them are left above 1 GB, exactly the other frames are freed, and no other directory changes |
| Cleaning.CleanTablesKeeps | src/paging.c:155-185 | cleaning keeps the invariant |
| Cleaning.TablesAreReleased | src/paging.c:178-182 | exactly the directory's tables above 1 GB without a present page of the kernel stack are released |
| AddressSpaces.Kernel.CleanNonKernelPages | src/paging.c:155-185 | the loops compute that cleaning, a run of elementary steps, and the assertion on the bitmap never fires; in numbers: above 1 GB the pages 0xEF800 to 0xF0000 stay as they are and no other is present, exactly the frames of the others are free again, exactly the tables without such a page are released and no longer entered, and all else is as it was |
| Cloning.DirectoryAfterGrowth | src/paging.c:203-212 | growth of the heap in the middle of a clone: what is copied stays copied, the source and the half-made directory are untouched, the frames in use and still needed add up, and the addresses to come stay good |
| Cloning.NeedAfterGrowth | src/paging.c:197-238 | growth before the clone leaves the total of frames the same, and no table of the kernel missing exactly if the growth made all those the clone would need |
| AddressSpaces.Kernel.ClonePageDirectory | src/paging.c:190-253 | above 1 GB a page is present in the clone exactly when it is in the source, in a frame that was free, with the same bytes and attributes and open to user mode; below 1 GB the tables are shared; everything the source, the kernel and all other directories had is untouched while the heap grows; the frames newly in use are exactly those of the copies and of the kernel's new pages, as many as counted beforehand; it fails exactly if those are more than are free, or a kernel table is missing while a fork is under way; and it is a run of elementary steps |
| Cloning.CloneHasTheKernelHalf | src/paging.c:241-250 | a clone of the kernel's or of a live process's directory agrees with the kernel below 1 GB, tables made during the clone included |
| CloneRuns.CloneCanBeMade | src/paging.c:190-253 | whatever the heap supplies, some run of elementary steps ends in a clone whenever the frames suffice, and the kernel gets no table if it has all that are needed |
| HeapSupply.AllocAligned | src/alloc/kalloc.c:23-25 | over the heap itself: an aligned allocation is never refused, and hands out its address with the consecutive pages by which the heap grew |
| HeapSupply.HeapIsRun | src/alloc/kalloc_heap.c:25-50 | the heap at its address, as such a value: exactly the pages from 5 MB to its end are mapped |
| HeapSupply.HeapSuppliesTable | src/paging.c:271-273 | what the heap hands out for a table is unused and aligned, its growth is by unmapped pages, and every page of the block is present afterwards |
| HeapSupply.StillMatches | src/alloc/kalloc_heap.c:135-139 | after the growth and with the new table or directory in place, mapped pages and live blocks agree with the space again |
| HeapSupply.HeapSuppliesClone | src/paging.c:190-238 | the allocations of a whole clone, one after another, are all that cloning asks of the heap |
| HeapSupply.ForkIsSafeIff | src/process.c:107-134 | a fork is sure to be safe if and only if the frames suffice and the heap's growth during the clone crosses into no missing table of the kernel |
| SpaceLaws.CloneReadsTheSame | src/paging.c:200-239 | page by page the clone reads what the source reads, from a fresh frame |
| SpaceLaws.PageHasItsOwnFrame | src/paging.c:203-303 | a page of a process above 1 GB shares its frame with no other page of any address space |
| SpaceLaws.WritesArePrivate | src/paging.c:187-189 | what a process writes above 1 GB is seen at that page only, and by no other process |
| SpaceLaws.KernelPagesAreShared | src/paging.c:241-250 | corollary of the invariant: below 1 GB all live processes map the same pages to the same frames as the kernel |
| SpaceLaws.ProcessorFollowsTheKernel | src/paging.c:233-237 | corollary of the invariant: a table is page-aligned, and the processor's entry for it is 4096 times the frame of its page plus 7 |
| SpaceLaws.CleanFreesExactly | src/paging.c:155-185 | a frame is freed if and only if it backs a page above 1 GB that is not numbered 0xEF800 to 0xF0000 |
| SpaceLaws.CleanLeavesTheStack | src/paging.c:147-185 | page by page, with the bounds of the kernel stack as numbers, what is present after cleaning |
| SpaceLaws.StackFramesStay | src/process.c:195-211 | the frames of the kernel stack stay in use after an exit |
| SpaceLaws.CloneThenClean | src/paging.c:155-253 | after cloning and cleaning the clone a frame is in use if and only if it was before, belongs to a page the kernel got meanwhile, or backs the clone's kernel stack |
| Boot.BootInNumbers | src/paging.c:426-465 | page by page and frame by frame, with all bounds as numbers, what boot maps and marks as used |
| Boot.BootIsSound | src/paging.c:420-465 | the space boot leaves has the invariant: the tables for stack and low memory in their reserved pages, code and data, video memory and the kernel stack, all mapped to the frames of the same number |
| Boot.FirstIsReached | src/process.c:58-72 | from boot a run leads to the first process: the heap's pages up to 8 MB, its directory a clone of the kernel's with the stack's pages, live |
| StrayFork.ForkCanStray | src/process.c:107-134 | such a process, a heap that fits its space, and the allocations of a clone from that heap: frames are free and yet the fork is not safe, because the kernel gets a table while the child has no directory |
| SpaceRuns.RunIsSound | src/paging.c:155-351 | the invariant holds after every run of elementary steps, however they interleave; creating, cleaning, cloning, forking, exiting and switching are such runs, by their contracts |
| SpaceRuns.FramesAreOwnedInEveryRun | src/paging.c:155-351 | after every run no managed frame is mapped by two entries |
| SpaceRuns.ProcessesAgreeInEveryRun | src/process.c:263-275 | after every run all live processes agree with the kernel on every table below 1 GB and on the processor's entry for it; that a forked process agrees when it goes live is part of the fork |
| SpaceRuns.KernelPagesStay | src/paging.c:308-351 | a kernel page once mapped stays mapped to the same frame through every run |
| ProcessRing.InsertedIsLast | src/process.c:115-120 | the four links of a fork make a cycle again in which the child comes last in turn, as the only one without a directory |
| ProcessRing.RemovedIsRest | src/process.c:200-204 | the two links of an exit make a cycle of the others, in the same order, starting with the successor |
| ProcessRing.RotatedIsCycle | src/process.c:253-254 | a switch only moves the start of the cycle |
| ProcessRing.TurnsAreFair | src/process.c:220-261 | with n processes, n switches activate each exactly once and return to the start |
| AddressSpaces.Kernel.constructor | src/process.c:31-68 | the first process has pid 1 and the next pid is 2; from then on no two processes share a pid and all pids are below the next one |
| AddressSpaces.Kernel.Fork | src/process.c:107-162 | the child comes last in turn, with the next pid, which no process has, and a clone of the active address space, by a run of elementary steps; it succeeds if and only if the frames suffice and no kernel table is missing for the growth during the clone, so that nothing is stored through the child's unset directory |
| AddressSpaces.Kernel.Exit | src/process.c:195-218 | of the active process's pages above 1 GB only the kernel stack's, numbered 0xEF800 to 0xF0000, are left, the frames of the others are free, and exactly the tables without such a page are released; the process leaves the ring, its successor is active, by a run of elementary steps; the halt exactly when it was alone |
| AddressSpaces.Kernel.Switch | src/process.c:220-261 | the next process is active, in the same turn order |

## Left out

- AddressSpaces.Kernel.Fork: does not model what a store through the unset directory does: the model counts it as a failure, though it is harmless if the recycled memory still names a directory; nor the second copy of the kernel stack (the same bytes again when nothing runs in between), the saved registers, or the file descriptors, which parent and child share.
- AddressSpaces.Kernel.ClonePageDirectory: the bytes of the heap's own tags are those of the heap model; a clone before the first process has its directory (`src/process.c:62-70`) has the same window as a fork and is not a method of its own.
- AddressSpaces.Kernel.CreateProcessPage: does not model the byte written to probe whether the frame is addressable; pages below 1 GB are excluded, as they would change the shared kernel tables.
- HeapSupply.HeapSuppliesClone: heap and space are joined at their contracts, step by step; `AddressSpaces.Kernel` does not itself call the allocator.
- AddressSpaces.Kernel.CreateKernelPage: pages above 1 GB are excluded, as cleaning gives upper tables back to the heap; the probing byte is modelled in the heap only.
- KallocHeap.Heap.Alloc: addresses and sizes stay below 2^32, and enough address space and one spare index cell for the growth are preconditions; the wrap-around of 32-bit sums is not modelled.
- KallocHeap.Heap.Free: a spare index cell is a precondition when no neighbour is merged; `Kalloc.SpareWhileFewBlocks` says when there is one.
- Kalloc.Realloc: for a larger size, room to grow and a bound on the number of live blocks (so that the index has a spare cell) are preconditions; the original gives no check for either.
- HashMap.HashMap.Put: the doubling of a capacity of 2^31 and more, which overflows, and a failing allocation are not modelled.
- KallocAvl.Avl.Insert: the error flag for an exhausted pool cannot be reached in the original, where an assertion comes first; a spare cell is a precondition.
- FileDescriptors.DescriptorTable.Add: fewer than 2^31 - 1 descriptors are a precondition, as the counter is signed; files are never closed, as in the original.
- The heap maps its pages with a set of page numbers; the frames behind them are the subject of the paging model only.
- The contents of page tables are kept apart from the contents of frames: a table is a value at its address, and that no process can write a table follows from the ownership of frames, not from a common memory.
- The leaked page directory of an exited process stays in the model with its kernel stack, but is no longer linked to new kernel tables.
- The code of boot is not modelled, only the space it leaves; the topmost stack page's frame, whose bit lies just past the bitmap, is one the bitmap does not know.
- The accessed and dirty bits the processor sets are among the attributes the kernel copies; the processor is not modelled.
- The rawx loader, the virtual file system, the initial ram disk, formatted output, strings, interrupts, timer, keyboard, screen and assembly code: tables, hardware and easy members.
- The physical address of a directory that a switch loads, the saved registers, the loading part of execve (its cleaning is the one modelled) and the flush of the translation cache.
- The simple heap that is compiled out, and the printing of heap, index and bitmap.
