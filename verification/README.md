# A verified model of the kernel's memory management, integer division and formatter

This project models four parts of the kernel and proves what they are for.

**The kernel heap** (`kernel/src/mem/heap.cpp`). A doubly linked list of page blocks ("majors"), each with an
address-ordered list of sections ("minors"). `KernelHeap.Heap` has the allocator's globals, the headers as records
keyed by their address, and the bytes of memory; a ghost sequence of blocks and sections says what the headers
represent. `KMalloc`, `KFree` and `KRealloc` follow the code: the start at the best bet, the restart at the root, the
placing cases, the new block, the repair of the hint, the copy in words and bytes. `HeapSteps` has what each call does
to the layout (`MallocStep`, `FreeStep`, `ReallocStep`); `HeapTheorems` has what follows for every run, and
`HeapPlacement` says in terms of the blocks alone which gap a request gets and what becomes of the best bet.
`liballoc_alloc` is a parameter: NULL, or page-aligned memory that no live block overlaps.

**Paging and frames** (`pmm.cpp`, `bitmap.hpp`, `page_table.*`, `address_space.*`). `Bitmaps.Bitmap` has the words of
the bitmap, and the sequence of bits they stand for; `FrameAllocator` builds it from the boot loader's memory map.
`PageTree` has the radix tree of tables keyed by physical frame, the place of each table in it, and the flat map from
pages to entries that it represents; `SpaceChanges` has the single changes that the operations are made of, and what
every run of them keeps (each operation is such a run: `Reaches` in its contract); `SpaceSteps` says what map, unmap and
the walk do to tree and frames together, `PageRuns`, `PageRanges` and `PageAllocation` what they mean for translations
and for runs of pages, and `FrameRuns` which frames such a run takes and gives back. `AddressSpaces.AddressSpace` is the
code, `KernelStart` its first steps at boot. Access through the higher-half map is taken as total.
A panic is an outcome (`Halted`, `ok == false`, `Failed`), not a silent precondition, except where the row says so.

**Division** (`kernel/src/cc-runtime.c`). Words are natural numbers below a power of two, and the C operators are
defined on their binary digits (`Words`), so wrap-around is explicit. The shift-subtract loops, the special cases
of the 64-bit routine, Knuth's two-digit division and the 128-bit driver are loops with the state of the division as
their invariant.

**The formatter** (`kernel/src/lib/printf.cpp`). `PrintfText.Render` is the text a format and its arguments stand for;
`Printf` has the loops that put it into a buffer of limited size; `PrintfTheorems` says what the integers mean.
`PrintfSyntax` has directives as the C standard writes them, `PrintfPieces.DirectiveText` what the code prints for
each of them, `PrintfStandard.StandardText` what the standard has an integer directive print.

Two results are about where the code does not do what its interface suggests, and say exactly when it does:

- `AddressSpace::allocate` maps the frames it gets at consecutive higher-half addresses that start at the first frame.
  A page there that already maps another frame has that frame released although it is in use. So, where no page that
  the call gets to maps the frame of a table, and the frames are enough for the pages and the tables that they miss,
  the call does what it is for exactly when each of the pages is unmapped or maps the frame it is to get; otherwise,
  if it returns a run, a frame too many is free (`PageAllocation.AllocateWorks`). A page that does map a table's frame
  leaves that frame free while the table is in use (`PageAllocation.NewMappedLoses`). Under the higher-half map, which
  `KernelStart.InitKernel` sets up for the lower 4 GiB, the condition means that the lowest free frames are
  consecutive (`KernelStart.LowRun`). `Fragmentation.NextIsLost` says for every state in which the pages of
  the lowest free frame and of the one behind it map these, and the latter is in use and holds no table, that
  allocating two pages loses it; `Fragmentation.HoldSecond` comes to such a state in three calls, and
  `Fragmentation.LoseFrame` does all of it from the boot of a machine with 16 MiB.
- An integer directive prints what section 7.21.6.1 of ISO/IEC 9899:2011 says exactly when `PrintfStandard.Faithful`
  holds. That applies to every integer directive that the formatter accepts, at any place of any format and for any
  arguments, with numbers of any length and leading zeros included (`PrintfStandard.EveryDirective`). It fails in four
  ways: a width or precision of 2^32 or more is read modulo 2^32 (`PrintfStandard.WidthWraps` has an input); with '-'
  the zeros of a precision are left out; zeros and sign beyond the conversion buffer of 32 characters are lost; and a
  negative argument for `.*` counts as precision 0, not as an omitted precision, so that 0 prints nothing and the flag
  '0' is ignored (`PrintfStandard.ZeroIsMissing` and `ZerosAreSpaces` have inputs).

Also, `__divmoddi4` divides towards zero exactly when it is not asked for MIN / -1, and a new major fits the request it
was made for exactly when the request is at most `HeapSteps.MAX_REQ`, above which 32-bit sizes wrap.

The comment `at most two` in the code of Algorithm D is proved; section 4.3.1 of The Art of Computer Programming,
Volume 2, has the theorem. The entry format is that of section 4.5 of the Intel 64 and IA-32 Architectures Software
Developer's Manual, Volume 3A.

## Model

| member | source | states |
|---|---|---|
| KernelHeap.Heap.KMalloc | kernel/src/mem/heap.cpp:308-650 | For every request up to `MAX_REQ` and every valid heap the search ends; the request goes into the first gap of the first block that has one, from the search's start on and then from the root; a new block is asked for only when no block has a gap for it; NULL leaves the layout as it is; no byte of a live payload changes. `HeapPlacement.MallocPlaces` says where the search starts, `MallocLays` what is placed, `MallocBet`, `MallocNewBet` and `MallocNullBet` what the best bet is afterwards. |
| HeapPlacement.MallocPlaces | kernel/src/mem/heap.cpp:377-634 | If the best bet has more than req + 72 bytes free, a request that is placed in a block before it means that no block from it on has a gap of req + 72 bytes, and one placed behind it that none from it up to there has; otherwise no earlier block has one. The gap is the first of its block that is large enough. A new block means that no block has one. |
| HeapPlacement.MallocLays | kernel/src/mem/heap.cpp:442-600 | The section has the request and 32 bytes more, and lies 40 bytes behind the block's start or right behind the section before it; all others are where they were; the pointer is the multiple of 16 that is 56 to 71 bytes behind the section's header. |
| HeapPlacement.NewBlockPages | kernel/src/mem/heap.cpp:186-236 | A new block has the least number of pages that hold the request and both headers, and at least 16. |
| HeapPlacement.MallocBet | kernel/src/mem/heap.cpp:377-407 | The best bet stays unless a block that was looked at, up to the one the request went into, has more free memory; then it is the first of those with the most. |
| HeapPlacement.MallocNewBet | kernel/src/mem/heap.cpp:377-442 | The same when a block is appended, which itself counts when it is the first one or when the one before it has enough free memory in pieces (CASE 5), and does not when that has too little (CASE 1). |
| HeapPlacement.MallocNullBet | kernel/src/mem/heap.cpp:377-433 | The same when there is no memory: all blocks have been looked at. |
| KernelHeap.Heap.Advance | kernel/src/mem/heap.cpp:417-437 | A block without a fit is followed by the next one, by a restart at the root, or by a new block; it ends only when every block has been ruled out and there is no memory. |
| KernelHeap.Heap.PlaceFirst | kernel/src/mem/heap.cpp:442-474 | CASE 2: the section lies right behind the block's header; headers, links and totals represent the new layout. |
| KernelHeap.Heap.PlaceFront | kernel/src/mem/heap.cpp:476-511 | CASE 3: the section goes in front of the first minor, with both links set, and the totals represent the new layout. |
| KernelHeap.Heap.PlaceBehind | kernel/src/mem/heap.cpp:521-558 | CASE 4.1: the section goes behind the last minor, with both links set. |
| KernelHeap.Heap.PlaceMiddle | kernel/src/mem/heap.cpp:560-600 | CASE 4.2: the section goes between two minors, with all four links set. |
| KernelHeap.Heap.PlaceInside | kernel/src/mem/heap.cpp:513-605 | The gaps behind each minor are tried in address order; the first that fits is taken, and none is passed over. |
| KernelHeap.Heap.Grow | kernel/src/mem/heap.cpp:607-634 | A new block is linked behind the last; without memory the list is unchanged. |
| KernelHeap.Heap.AllocateNewPage | kernel/src/mem/heap.cpp:186-236 | The new block has the page count and the 32-bit size of the source, no minors, and counts in the total. |
| KernelHeap.Heap.Align | kernel/src/mem/heap.cpp:24-38 | The user pointer is the next multiple of 16 that leaves room for the alignment byte, and every alignment byte is right afterwards. |
| KernelHeap.Heap.UnalignFinds | kernel/src/mem/heap.cpp:40-48 | For every live pointer UNALIGN finds the payload of its section, and the header there is the one kmalloc wrote. |
| KernelHeap.Heap.KFree | kernel/src/mem/heap.cpp:660-783 | A live pointer frees exactly its section; a block left empty leaves the list and the hint; NULL and a header without the magic number change nothing; no live byte changes. While the block is listed, the header of a freed section is dead: until the place is used again, freeing its pointer a second time changes nothing. `HeapPlacement.FreeDrops` and `FreeBet` say what is left and what the best bet is. |
| KernelHeap.Heap.FreeLive | kernel/src/mem/heap.cpp:735-783 | While its block is listed, the header of a freed section has the magic number 0xdeaddead, and its pointer, which is not live any more, still leads to it. |
| HeapPlacement.FreeDrops | kernel/src/mem/heap.cpp:735-763 | Exactly that section leaves its block, or the block the list when it was its only one; the rest keeps its order. |
| HeapPlacement.FreeBet | kernel/src/mem/heap.cpp:752-776 | A best bet that is released becomes NULL, and NULL stays. Otherwise the block of the freed section becomes the best bet exactly when it then has more free memory than the best bet, as ints: below 2^31 in both that is the plain comparison, and a block with 2^31 bytes or more counts as less than one with fewer. |
| KernelHeap.Heap.FreeSection | kernel/src/mem/heap.cpp:735-783 | The layout after freeing a section, and the best bet, which is compared as signed integers. |
| KernelHeap.Heap.RepairBet | kernel/src/mem/heap.cpp:764-775 | The block that gained memory becomes the best bet exactly when it has more than the best bet, as signed 32-bit integers. |
| KernelHeap.Heap.MemCpy | kernel/src/mem/heap.cpp:116-139 | Copying words and then bytes is a byte by byte copy, for ranges that do not overlap. |
| KernelHeap.Heap.KRealloc | kernel/src/mem/heap.cpp:805-894 | All outcomes, for sizes up to `MAX_REQ`: size 0 frees, NULL allocates, a smaller size is noted in place, a larger one moves; the result holds the first min(old, new) bytes; in every outcome every other block that is live before and after keeps its contents; without memory the copy to address 0 faults. |
| HeapTheorems.ReallocFaults | kernel/src/mem/heap.cpp:886-894 | The copy faults exactly when a nonempty block is to grow, liballoc_alloc returns NULL, and no block has a gap for the new size. |
| KernelHeap.Heap.UserStore | kernel/src/mem/heap.cpp:308-323 | A store anywhere in a live user range keeps the heap valid. |
| HeapSteps.NewMajorFits | kernel/src/mem/heap.cpp:186-236 | A new major holds its request exactly when the request is at most MAX_REQ; up to there no 32-bit size wraps. |
| HeapSteps.NewBlockSound | kernel/src/mem/heap.cpp:442-474 | The section that kmalloc puts into a new block lies within it, and the block's size fits 32 bits, exactly when the request is at most MAX_REQ. |
| HeapSteps.SearchEnds | kernel/src/mem/heap.cpp:377-634 | Wherever the search stops with a fit, the result is the one the specification of kmalloc names. |
| HeapSteps.MallocAdds | kernel/src/mem/heap.cpp:394-600 | A successful kmalloc adds exactly one section, of the requested size, and keeps all others; its result points to it. |
| HeapSteps.UserPointersDiffer | kernel/src/mem/heap.cpp:24-38 | Live pointers of different sections differ, in every sound layout. |
| HeapProofs.MallocNull | kernel/src/mem/heap.cpp:432-433 | NULL means that liballoc_alloc returned NULL and that no block has a gap for the request. |
| HeapLayout.SectionsDisjoint | kernel/src/mem/heap.cpp:516-600 | Two sections of a sound layout do not share a byte, headers included, also across blocks. |
| HeapLayout.GapAtMostFree | kernel/src/mem/heap.cpp:396-411 | usage never exceeds size, and no gap is larger than what usage leaves, so CASE 1 skips no block with a fit. |
| HeapLayout.FreeIsGaps | kernel/src/mem/heap.cpp:396-411 | What usage leaves of a block is exactly the sum of its gaps. |
| HeapTheorems.RunIsGood | kernel/src/mem/heap.cpp:308-894 | In every state of every run from the empty heap blocks and sections are in order and disjoint, no listed block is empty, and the best bet is NULL or listed. |
| HeapTheorems.UserRangesAreSafe | kernel/src/mem/heap.cpp:24-48 | In every run each live user range is 16-byte aligned, inside its own payload, and apart from every other live range, header and alignment byte. |
| HeapTheorems.HeadersAreDisjoint | kernel/src/mem/heap.cpp:442-600 | In every run no header overlaps another one: not two minors, not two majors, not a minor and a major. |
| HeapTheorems.FreeUndoesMalloc | kernel/src/mem/heap.cpp:394-634 | Whichever case placed the section, freeing it gives the layout back as it was. |
| HeapTheorems.MallocThenFree | kernel/src/mem/heap.cpp:735-763 | The same for the allocator: root, totals and all listed headers are back, and every live byte; only the hint may differ. |
| HeapTheorems.MinorHeader | kernel/src/mem/heap.cpp:446-455 | In every valid heap the header of a section has its neighbours, its block, the magic number 0xc001c0de, the size and the request. |
| HeapTheorems.MajorHeader | kernel/src/mem/heap.cpp:213-225 | The header of a block has its neighbours, its pages and its first section, and the root is the first block. |
| HeapTheorems.FieldsConserve | kernel/src/mem/heap.cpp:222-225 | In every valid heap usage is the header plus all sections with theirs and at most size, the two totals are the sums over all blocks, so no unsigned subtraction wraps. |
| HeapTheorems.NothingLiveNothingHeld | kernel/src/mem/heap.cpp:752-763 | When no pointer is live all memory has gone back to the system and the totals are 0. |
| ShiftSubtract.UDivXi3 | kernel/src/cc-runtime.c:3261-3287 | The quotient, for every dividend and nonzero divisor of any width up to 64 bits. |
| ShiftSubtract.UModXi3 | kernel/src/cc-runtime.c:3293-3318 | The remainder, for the same inputs. |
| ShiftSubtract.ShiftSubtractLoop | kernel/src/cc-runtime.c:3273-3285 | From a started division the loop leaves quotient and remainder in its registers. |
| ShiftSubtract.MaskIsComparison | kernel/src/cc-runtime.c:3279-3283 | The mask from the sign of d - r - 1 is all ones exactly when r >= d, for all states the loop can be in. |
| ShiftSubtract.PassKeepsDivision | kernel/src/cc-runtime.c:3276-3285 | One pass of the loop body, with wrap-around, is one step of the long division. |
| ShiftSubtract.ShiftDecides | kernel/src/cc-runtime.c:3263-3273 | What each value of the difference of leading-zero counts means: dividend below divisor, divisor 1, or the start of the loop. |
| Division64.UDivModDi4 | kernel/src/cc-runtime.c:3385-3554 | Quotient and remainder for every dividend and nonzero divisor, through every special case; the half width is a parameter, 32 in the source. |
| Division64.Prepare | kernel/src/cc-runtime.c:3395-3528 | Each special case gives the result, or starts the loop with dividend and shift cut rightly. |
| Division64.HalvesShiftLeft | kernel/src/cc-runtime.c:3534-3539 | Shifting a double word half by half is shifting it. |
| Division64.PowerOfTwoTest | kernel/src/cc-runtime.c:3437 | d & (d - 1) is 0 exactly for powers of two. |
| Division64.HighDivisor | kernel/src/cc-runtime.c:3415-3445 | A divisor whose low half is 0 only sees the dividend's high half. |
| Division64.DivModDi4 | kernel/src/cc-runtime.c:1333-1344 | Division towards zero, with the remainder's sign that of the dividend, exactly when it is not MIN / -1. |
| Division64.TowardsZeroUnique | kernel/src/cc-runtime.c:1331-1344 | Quotient and remainder towards zero are unique, so the previous row determines both. |
| Knuth.UDiv128By64To64 | kernel/src/cc-runtime.c:3596-3655 | For all u1 < v: the quotient of u1 * 2^64 + u0 by v, which fits 64 bits, and the remainder. |
| Knuth.QuotientDigit | kernel/src/cc-runtime.c:3628-3637 | The correction loop ends at the true digit after at most two corrections. |
| Knuth.EstimateBounds | kernel/src/cc-runtime.c:3628-3632 | With a normalised divisor the estimate is never too small and at most two too large. |
| Knuth.ComparisonIsExact | kernel/src/cc-runtime.c:3632 | The products in the loop condition do not wrap, and the comparison is that of the digit with the dividend. |
| Knuth.LargeRemainderStops | kernel/src/cc-runtime.c:3633-3636 | Leaving the loop when rhat reaches the base is right. |
| Knuth.PartialRemainder | kernel/src/cc-runtime.c:3639 | un21, although computed with wrap-around, is the true partial remainder and below the divisor. |
| Knuth.Normalised | kernel/src/cc-runtime.c:3607-3617 | The shifted words hold dividend and divisor times the same power of two, and the divisor's top bit is set. |
| Knuth.Unshift | kernel/src/cc-runtime.c:3653-3654 | The quotient of the shifted dividend is that of the dividend, and the remainder shifted back is its remainder. |
| Division128.UDivModTi4 | kernel/src/cc-runtime.c:3673-3729 | Quotient and remainder for all 128-bit dividends and nonzero divisors. |
| Division128.ShortDivisor | kernel/src/cc-runtime.c:3686-3705 | A 64-bit divisor: one or two steps give quotient and remainder. |
| Division128.AlignedLoop | kernel/src/cc-runtime.c:3706-3728 | The loop over the aligned divisor gives quotient and remainder, and the quotient fits its low word. |
| Division128.AlignedPass | kernel/src/cc-runtime.c:3711-3725 | In every pass the mask subtracts exactly when the dividend is at least the divisor. |
| Division128.Alignment | kernel/src/cc-runtime.c:3706-3710 | The shift is between 0 and 63, loses no bit of the divisor, and leaves the dividend below twice the divisor. |
| Bitmaps.Bitmap.FindSet | kernel/include/lib/bitmap.hpp:66-88 | The least unused number is marked used and returned; -1 exactly when all are used. |
| Bitmaps.Bitmap.Set | kernel/include/lib/bitmap.hpp:90-102 | One element changes; the assertions are preconditions. |
| Bitmaps.Bitmap.Clear | kernel/include/lib/bitmap.hpp:104-116 | One element changes; the assertions are preconditions. |
| Bitmaps.AllOnes | kernel/include/lib/bitmap.hpp:71-73 | The test for the largest word skips exactly the words whose bits are all set. |
| FrameAllocator.PhysicalMemoryManager.constructor | kernel/src/mem/pmm.cpp:9-50 | For every memory map that is as the boot loader guarantees and has room for the bitmap: afterwards a frame is free exactly when it lies in usable memory and apart from the bitmap's storage, which is in the first entry large enough. |
| FrameAllocator.PhysicalMemoryManager.FreeRegion | kernel/src/mem/pmm.cpp:72-78 | Exactly the frames of the entry are freed, and no index leaves the bitmap. |
| FrameAllocator.CarvedFrees | kernel/src/mem/pmm.cpp:33-37 | Rounding the carved entry, whose base is no longer aligned, frees exactly the frames that start behind the bitmap. |
| FrameAllocator.MaskRounds | kernel/include/types.hpp:19-27 | Rounding with the mask is rounding down to a multiple, for every power of two. |
| FrameAllocator.BitmapIsLargeEnough | kernel/src/mem/pmm.cpp:24-25 | The bitmap has whole words, and a bit for every frame below the end of memory. |
| FrameAllocator.PhysicalMemoryManager.AllocateFrame | kernel/src/mem/pmm.cpp:52-60 | The lowest free frame is handed out and marked used; null exactly when there is none. |
| FrameAllocator.PhysicalMemoryManager.ReleaseFrame | kernel/src/mem/pmm.cpp:62-70 | One frame becomes free; it panics exactly on an unaligned address, one beyond the bitmap, and a frame that is not in use, and then changes nothing. |
| FrameAllocator.NoFrameTwice | kernel/src/mem/pmm.cpp:52-70 | In every run a frame is not handed out twice unless it was released in between. |
| FreeFrames.TakeBit | kernel/src/mem/pmm.cpp:52-60 | After k allocations a frame is used exactly when it was, or is one of the k frames handed out. |
| FreeFrames.NthGrows | kernel/include/lib/bitmap.hpp:69-83 | Frames are handed out in increasing order. |
| FreeFrames.TakeCount | kernel/src/mem/pmm.cpp:52-60 | k allocations succeed exactly when there are k free frames, and take k of them. |
| PageEntry.EntryRoundTrip | kernel/include/mem/page_table.hpp:28-38 | get_frame gives back the frame that set stored, whatever the flags; the entry is present exactly when the flags say so. |
| PageEntry.EntryBit | kernel/include/mem/page_table.hpp:28-38 | Bit for bit: flags in bits 0-11 and 52-63, the frame in the others. |
| PageEntry.FrameBits | kernel/include/mem/page_table.hpp:32 | The frame of an entry is bits 12 to 51; every aligned address below 2^52 is kept. |
| PageEntry.FixFlags | kernel/src/mem/address_space.cpp:224-239 | Bit for bit: entries above the leaf get the flags with Present and without bits 7 and 63, the leaf the flags with Present. |
| PageEntry.SamePath | kernel/include/mem/address_space.hpp:14-17 | Two addresses have the same four indices exactly when bits 12 to 47 agree. |
| PageEntry.EveryPath | kernel/include/mem/address_space.hpp:14-17 | Every four indices are those of an address, so the split is a bijection. |
| PageTree.CreateKeepsTree | kernel/src/mem/page_table.cpp:21-40 | Linking a zeroed table in a frame that holds none keeps the tree, with bits 7 and 63 clear above the leaves. |
| PageTree.CreateKeepsEntries | kernel/src/mem/page_table.cpp:21-40 | It changes no page. |
| PageTree.SetChangesOne | kernel/src/mem/address_space.cpp:117-118 | Writing a leaf entry changes one page and no other. |
| PageTree.ReachedByOnePath | kernel/src/mem/page_table.cpp:7-19 | A table is reached from the root by exactly one sequence of indices. |
| PageTree.EntryIsLookup | kernel/src/mem/address_space.cpp:241-261 | The flat map is what walking the tables finds. |
| SpaceSteps.TableCreated | kernel/src/mem/page_table.cpp:21-35 | With the lowest free frame create_table keeps tree and bitmap sound. |
| SpaceSteps.BudgetSpent | kernel/src/mem/page_table.cpp:24-26 | A panic on the way down means that fewer frames were free than tables missing, and that all are taken. |
| PageTree.MissingIsUntaken | kernel/src/mem/page_table.cpp:7-19 | The tables that a walk misses are those on the path whose places no table has. |
| SpaceSteps.EntrySet | kernel/src/mem/address_space.cpp:104-119 | Setting the entry that virt2pte found, and releasing what it displaces, is what map promises; tree and bitmap stay sound if the displaced frame holds no table. |
| SpaceSteps.TableReleased | kernel/src/mem/address_space.cpp:112-115 | If the displaced frame holds a table, that table's frame is free afterwards: the condition is exact. |
| AddressSpaces.AddressSpace.constructor | kernel/src/mem/address_space.cpp:14-23 | The root table maps nothing and lies in the lowest free frame; the panic is a precondition. |
| KernelStart.InitKernel | kernel/src/mem/address_space.cpp:14-30 | Afterwards the k-th page of the higher half maps frame k for the lower 4 GiB, and no other page is mapped; bit for bit (`LowAccess`), none of these pages is executable, the page of address 0 is not writable, and all others are; it takes the lowest free frames, and panics exactly when no more are free than the tables below the root need (the panic for the root itself is a precondition). |
| KernelStart.LowTables | kernel/src/mem/address_space.cpp:25-27 | The tables for the lower 4 GiB are 2053, when the higher half starts at a multiple of 512 GiB. |
| KernelStart.LowTranslates | kernel/include/mem/address.hpp:34-35 | With that map virt2phys undoes tohh for every address below 4 GiB. |
| KernelStart.LowRun | kernel/src/mem/address_space.cpp:162-195 | With that map allocate does what it is for exactly when the lowest free frames are consecutive. |
| AddressSpaces.AddressSpace.CreateTable | kernel/src/mem/page_table.cpp:21-35 | The lowest free frame becomes a zeroed table, linked with the flags given, and nothing else in any table changes; it panics exactly when no frame is free. |
| AddressSpaces.AddressSpace.GetNextTable | kernel/src/mem/page_table.cpp:7-19 | The three outcomes, and what each leaves unchanged; a new table is linked with the flags given. |
| AddressSpaces.AddressSpace.Virt2Pte | kernel/src/mem/address_space.cpp:241-261 | Without allocation nothing changes, and null means that a table is missing; with it the missing tables, and no more, are created in the lowest free frames and linked with the flags given, no page changes, and it panics exactly when they do not suffice. |
| SpaceSteps.NewTableLinked | kernel/src/mem/address_space.cpp:241-258 | After such a walk every table that was not there before has a parent whose entry is, bit for bit, its address in bits 12 to 51 and otherwise the flags that the page asks for, with Present and without bits 7 and 63. |
| AddressSpaces.AddressSpace.Map | kernel/src/mem/address_space.cpp:104-119 | One page gets the entry, which is, bit for bit, the flags with Present and the frame in bits 12 to 51, and no other page changes; the new tables are those missing on its path, linked with the flags without bits 7 and 63; the frames are as before but for the new tables' and a displaced one; the panics are exactly a lack of frames and a displaced frame not in use. Unless the displaced frame holds a table, tree and bitmap stay sound. |
| AddressSpaces.AddressSpace.Unmap | kernel/src/mem/address_space.cpp:134-150 | A mapped page, and no other, loses its entry, and its frame is released; an unmapped page changes nothing; it panics exactly when the frame is not in use. Unless the frame holds a table, tree and bitmap stay sound. |
| AddressSpaces.AddressSpace.Virt2Phys | kernel/src/mem/address_space.cpp:210-222 | The translation of the page's entry, or null; nothing changes. |
| AddressSpaces.AddressSpace.MapRange | kernel/src/mem/address_space.cpp:121-132 | All pages of the range get their entries in sequence and no other page changes; each page takes the lowest free frames, as many as tables are missing on its path and on no earlier one, or releases the frame it displaces; it panics exactly when at some page the frames do not suffice or the displaced frame is not in use. Of the pages it is only required that none it gets to displaces a frame that holds a table or was taken for one on the way. |
| PageRanges.RangeBits | kernel/src/mem/address_space.cpp:121-132 | The k-th page of the range has, bit for bit, the flags with Present and the k-th frame from the start of the physical range. |
| AddressSpaces.AddressSpace.UnmapRange | kernel/src/mem/address_space.cpp:152-160 | All pages of the range lose their entries and no other changes; it panics exactly when the turn comes of a frame not in use. |
| AddressSpaces.AddressSpace.Allocate | kernel/src/mem/address_space.cpp:162-195 | AllocatedRun: which entries the pages get, which frames are in use afterwards, for pages and for the tables that they miss, when the run is rolled back, and when it panics. Of the pages it is only required that none it gets to displaces a frame that holds a table or was taken for one on the way. |
| PageAllocation.RunStarts | kernel/src/mem/address_space.cpp:166-174 | A run starts at the higher-half address of the lowest free frame. |
| PageAllocation.RunBits | kernel/src/mem/address_space.cpp:176-192 | Each page of a run has, bit for bit, the flags with Present and its frame. |
| AddressSpaces.AddressSpace.AllocatePage | kernel/src/mem/address_space.cpp:176-191 | One turn of the loop, whatever the page maps: it gets the lowest free frame, its missing tables the next ones; no frame, too few for the tables, or a displaced frame that is not in use ends it; if the page maps a table's frame, that frame is free afterwards. |
| AddressSpaces.AddressSpace.RollBack | kernel/src/mem/address_space.cpp:180-186 | When frames run out midway the pages mapped so far lose their entries and their frames are released, or it panics at a frame that is not in use. |
| AddressSpaces.AddressSpace.Release | kernel/src/mem/address_space.cpp:197-208 | The pages lose their entries, exactly their frames are released, and it panics exactly when the turn comes of a frame not in use. |
| AddressSpaces.AllocateThenRelease | kernel/src/mem/address_space.cpp:162-208 | Allocating a clean run and releasing it frees exactly the frames of its pages, unmaps them, and leaves every page outside the run as it was; where no table was missing the bitmap is restored. |
| PageRuns.MapTranslates | kernel/src/mem/address_space.cpp:104-119 | After map(v, p) every address that shares bits 12 to 47 with v translates to p plus its offset, and every other one as before. |
| PageRuns.UnmapTranslates | kernel/src/mem/address_space.cpp:134-150 | After unmap(v) exactly the addresses of v's page have no translation. |
| PageRuns.MapFrames | kernel/src/mem/address_space.cpp:104-119 | A frame is in use after map exactly when it is one of the lowest free frames that the missing tables take, or was in use and is not the one that the page mapped before and no longer maps. |
| PageRuns.UnmapFrames | kernel/src/mem/address_space.cpp:134-150 | A frame is in use after unmap exactly when it was and the page did not map it. |
| PageRuns.UnmapUndoesMap | kernel/src/mem/address_space.cpp:104-150 | Mapping an unmapped page and unmapping it leaves every translation as it was. |
| SpaceChanges.TreeInEveryRun | kernel/src/mem/page_table.cpp:7-35 | After every single change of every run of table creations, leaf writes, allocations and releases that spare the tables, each table is reached by one path only and its frame is marked used. |
| SpaceChanges.RunIsGood | kernel/src/mem/address_space.cpp:104-208 | In every state of such a run the tables are a tree, each in a frame of its own that the bitmap has as used, with bits 7 and 63 clear above the leaves. |
| SpaceChanges.ReachesGood | kernel/src/mem/address_space.cpp:104-208 | What an operation leads to from a sound state is sound, for its contract has it as such a run. |
| SpaceChanges.TablesAreTree | kernel/src/mem/page_table.cpp:7-35 | In every sound state each table is reached by one path only and its frame is marked used. |
| SpaceChanges.EntriesAboveLeaves | kernel/src/mem/page_table.cpp:21-35 | Every present entry above the leaves has bits 7 and 63 clear and leads to a table other than the root, in a frame in use. |
| PageRuns.JoinOffset | kernel/src/mem/address_space.cpp:221 | The frame combined with the offset is their sum. |
| PageRuns.WindowDistinct | kernel/include/mem/address_range.hpp:22-27 | The pages of a run of up to 2^36 are different ones. |
| PageRanges.NeedIsMissing | kernel/src/mem/address_space.cpp:121-132 | When the earlier pages of a range are mapped, the walk for the next one misses the tables whose places were free at the start and are on no earlier page's path. |
| PageRanges.UnmappedRange | kernel/src/mem/address_space.cpp:121-132 | Where no page displaces a frame, a range map takes the lowest free frames, one for each missing table, and panics exactly when fewer are free. |
| PageAllocation.AllocateWorks | kernel/src/mem/address_space.cpp:162-195 | With frames enough for the pages and the tables that they miss, the run maps the lowest free frames, the tables get those in between, and nothing else changes, exactly when each page was unmapped or mapped its frame already; otherwise a run that is returned leaves more frames free than it should. |
| PageAllocation.AllocateRollsBack | kernel/src/mem/address_space.cpp:180-186 | A clean run that is too long for the free frames: if they end with a page, the call returns null, its pages are unmapped, exactly their frames are free again, and no other page has changed; if they end among the tables of a page, it panics. |
| PageAllocation.NewMappedLoses | kernel/src/mem/address_space.cpp:188-191 | A page of a run that maps the frame of a table is mapped without a panic, and the frame, which still holds the table, is free. |
| FrameRuns.UncleanCount | kernel/src/mem/address_space.cpp:112-115 | Each page that displaces a frame puts one back, so after a run that is not clean more frames are free than pages and tables have left. |
| FrameRuns.OnlyTablesStay | kernel/src/mem/address_space.cpp:197-208 | When a run has been given back, what was used before is used, and of the other frames exactly as many as tables were missing. |
| PageAllocation.RunGivenBack | kernel/src/mem/address_space.cpp:197-208 | Unmapping a run of frames that were handed out frees exactly these, without a panic. |
| FrameRuns.RunIsFresh | kernel/src/mem/address_space.cpp:166-192 | The frames of a run are distinct, were free before, and are in use afterwards; in a clean run none of them is taken for a table. |
| PageAllocation.IdentityRun | kernel/src/mem/address_space.cpp:166-192 | Where the pages map the frames at their own offsets, no table is missing, and the run is clean exactly when the lowest free frames are consecutive. |
| Fragmentation.HoldSecond | kernel/src/mem/pmm.cpp:52-70 | While the lower 4 GiB are mapped, handing out two neighbouring frames and giving the first back leads to a state whose lowest free frame has a frame in use behind it. |
| Fragmentation.LoseFrame | kernel/src/mem/address_space.cpp:162-195 | The same from the boot of a machine with 4096 frames, through the bitmap, init_kernel, two frames handed out and one given back. |
| Fragmentation.NextIsLost | kernel/src/mem/address_space.cpp:162-195 | In every such state allocating two pages returns a run, and the frame that was in use is free although it has not been given back. |
| Printf.Vsnprintf | kernel/src/lib/printf.cpp:580-861 | For every well-formed format, arguments and maxlen: the text's length is returned, the buffer holds as much of the text as fits before the NUL, and nothing at or past maxlen is written; the text does not depend on maxlen. `PrintfPieces.FormatReads` says what the text is. |
| PrintfPieces.FormatReads | kernel/src/lib/printf.cpp:589-852 | At every position of a well-formed format the text goes on with the character there or, at a '%', with the text of the directive that is written there, and then with the rest of the format and of the arguments; what is no directive of the standard prints its last character. |
| PrintfPieces.DirectivePrints | kernel/src/lib/printf.cpp:603-852 | Wherever a directive is in a format, it prints its `DirectiveText`: %s the first characters of its argument, as many as the precision allows, and %c the character whose code is the argument modulo 256, each with spaces in front up to the width, or behind with '-' or a negative '*'; %b, %d, %i, %o, %u, %x, %X their value in the type of the length modifier, %p the address; any other specifier itself. The arguments of '*' come first. |
| PrintfPieces.IntegerIsLaid | kernel/src/lib/printf.cpp:203-305 | For every value, base, precision, width and flags, also where the buffer is too small: the last 32 characters of the numeral, zeros in front up to the precision and, with '0', up to the width, in 32 characters at most, the sign unless there are 32 digits, and spaces on the side that the flags say. |
| PrintfPieces.PlainPointer | kernel/src/lib/printf.cpp:826-842 | %p prints the 16 hexadecimal digits of the address in upper case, zeros included. |
| PrintfPieces.PlainBinary | kernel/src/lib/printf.cpp:285-305 | %lb prints the last 32 binary digits: the numeral exactly when the value is below 2^32. |
| PrintfPieces.PlainString | kernel/src/lib/printf.cpp:800-824 | "%5s", "%-5s" and "%.1s" of "ab". |
| Printf.NtoaLong | kernel/src/lib/printf.cpp:285-305 | The integer's field, which `PrintfPieces.IntegerIsLaid` describes, is put out, whatever part of it fits. |
| Printf.NtoaFormat | kernel/src/lib/printf.cpp:231-280 | Zeros, sign and padding within the 32-byte buffer. |
| Printf.OutRev | kernel/src/lib/printf.cpp:203-227 | The buffer is put out in reverse, padded on the side the flags say. |
| Printf.Out | kernel/src/lib/printf.cpp:137-142 | A character is stored exactly below maxlen. |
| Printf.Atoi | kernel/src/lib/printf.cpp:192-199 | The value of the digits in 32-bit arithmetic, and the position of the first other character. |
| PrintfSyntax.ScanReads | kernel/src/lib/printf.cpp:603-686 | The parser undoes the printing of directives: wherever a directive of any flags, width and precision (digits of any length, leading zeros included, or an argument) and length stands in a format, these values are read, the numbers modulo 2^32, with the position of the specifier and the number of arguments taken. |
| PrintfSyntax.DirectiveIsWritten | kernel/src/lib/printf.cpp:603-686 | Every directive that the parser reads to a specifier is the text of such a specification, so the previous row leaves none out. |
| PrintfTheorems.ConvertedDenotes | kernel/src/lib/printf.cpp:285-305 | The digits of a 64-bit value denote it exactly when the base is not 2 or the value is below 2^32. |
| PrintfTheorems.DigitsDenote | kernel/src/lib/printf.cpp:297-302 | n digits denote the value exactly when it is below base^n. |
| PrintfTheorems.ParserUndoesPrinter | kernel/src/lib/printf.cpp:192-227 | _atoi gives back every printed decimal number, modulo 2^32. |
| PrintfTheorems.PrintThenParse | kernel/src/lib/printf.cpp:192-227 | Printing with %u into a buffer and parsing it gives every 32-bit value back. |
| PrintfTheorems.ParsedIsDenoted | kernel/src/lib/printf.cpp:192-199 | _atoi computes the number its digits denote, modulo 2^32. |
| PrintfNumerals.NumeralIsNumeral | kernel/src/lib/printf.cpp:297-302 | The numeral of a value denotes it, has no leading zero, and has digits of the base in the letter case asked for. |
| PrintfNumerals.NumeralUnique | kernel/src/lib/printf.cpp:297-302 | There is no other such string. |
| PrintfNumerals.DigitsAreNumeral | kernel/src/lib/printf.cpp:297-302 | The digits that are converted, turned around, are the numeral, whenever there is room for it. |
| PrintfFields.FieldIsStandard | kernel/src/lib/printf.cpp:231-280 | For every precision and width, the field of up to 22 digits is the standard's exactly when a left-justified number needs no zeros, and otherwise number and sign fit the buffer of 32 characters (or what is lost is a space behind a space). |
| PrintfFields.WordFits | kernel/src/lib/printf.cpp:285-305 | In bases 8, 10 and 16 a 64-bit value has at most 22 digits. |
| PrintfStandard.ValueRead | kernel/src/lib/printf.cpp:725-757 | The value that is converted is the argument in the type that the length modifier names. |
| PrintfStandard.DirectiveIsStandard | kernel/src/lib/printf.cpp:591-779 | Wherever a directive d, i, u, o, x or X is in a format, the text is the standard's exactly when it is Faithful, which includes that its numbers are below 2^32; and the format goes on behind it with the next argument. |
| PrintfStandard.EveryDirective | kernel/src/lib/printf.cpp:591-779 | Every such directive that the formatter accepts, however it is written, has a specification for which the previous row holds. |
| PrintfStandard.WidthWraps | kernel/src/lib/printf.cpp:192-199 | "%4294967301d" with 7 prints 5 characters, where the standard has as many as the width says. |
| PrintfStandard.ZeroIsMissing | kernel/src/lib/printf.cpp:635-648 | "%.*d" with -1 and 0 prints nothing, where the standard has "0". |
| PrintfStandard.ZerosAreSpaces | kernel/src/lib/printf.cpp:635-648 | "%05.*d" with -1 and 42 prints spaces, where the standard has zeros. |
| PrintfTheorems.SizeOnlyCuts | kernel/src/lib/printf.cpp:853-861 | Buffers of different sizes hold the same characters, and a large enough one holds all of them. |

## Left out

- The logging, warning and error counters of liballoc, its debugging dump and the self-test; `kcalloc`.
- KernelHeap.Heap.KMalloc: requests above `MAX_REQ`, for which the 32-bit sizes wrap and the section in the new block
  reaches beyond it (`HeapSteps.NewBlockSound` says that the limit is exact).
- KernelHeap.Heap.KRealloc: sizes above `MAX_REQ`, for the same reason.
- The layout of header fields in memory: headers are records at addresses, and storing one changes its 40 bytes in an
  unknown way. Headers at odd addresses are not faulted.
- KernelHeap.Heap.KFree: a pointer that kmalloc did not return is covered only when its header does not carry the magic
  number. A repeated free is detected while nothing else has been placed there and the block is listed; after that the
  header may be in use again, or gone.
- What `liballoc_free` does with the pages of a block that has left the list.
- `l_inuse` and `l_allocated` are unbounded numbers; a sum of all blocks above 2^64 does not exist.
- Locks, which are empty in the source, and interrupts.
- TLB flushes, the load of CR3, caching, and access rights over the four levels. An existing table keeps the flags it
  was created with, so nothing is said about a leaf's Writable bit being effective (the flags of the leaf and of new
  tables are there bit for bit).
- The mappings that `init_kernel` makes of the kernel's sections and of the framebuffer, which are calls of the range
  map with linker symbols; CR3 is loaded behind them.
- AddressSpaces.AddressSpace.Map: what the kernel does after a displaced frame that held a table has been released.
- AddressSpaces.AddressSpace.MapRange: what follows a page that displaces a frame that holds a table.
- AddressSpaces.AddressSpace.Allocate: what follows such a page (`AllocatePage` covers the page itself).
- `find_physical_entry` with a predicate of the caller's, and a memory map without room for the bitmap, which panics.
- The 128-bit instantiations of the parametric loops, which are unused, and the multiply, shift, compare and
  population-count helpers of the runtime.
- On x86 `udiv128by64to64` is the `divq` instruction; it is taken to meet the contract of the portable routine.
- PrintfPieces.FormatReads: where the parser stops at a directive that the standard does not have, such as "%l5"; what it
  prints is its last character.
- Floating-point conversions, the '#' flag, formats that end inside a directive, and negating the lowest signed value.
- The output functions other than the buffer's: they get the same characters in the same order.
