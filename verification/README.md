# Memory management and boot-time transformations of svm_kernel, in Dafny

svm_kernel is a small x86-64 kernel with its own bootloader.  Almost everything it does with physical memory
goes through a handful of small stateful components, and this project models those components and proves what
the rest of the kernel relies on.

- **Range set** (`Ranges`, `RangeSum`, `RangeChoice`, `RangeBlocks`, `RangeSets`, `RangeSetRuns`): a 256-slot array of
  inclusive `u64` ranges with merging insertion, splitting removal, a sum and an aligned best-fit allocator.
  Every run refines a plain set of addresses.
- **Kernel heap** (`HeapCells`, `Heap`, `HeapRuns`): 64000 cells of 16 bytes with a skip scan.  Every run agrees
  with a ledger of live pointers.
- **Boot memory map** (`MemoryTable`, `MemoryMaps`, `MemoryRuns`, `MemoryClaims`, `MemoryInversions`) and the
  **frame allocator** on top of it (`FrameAllocators`): a table of regions seen as a function from frames to types, retyped by partition
  requests, and the enumeration of what is left.
- **Bitmap frame allocator** (`BitmapWords`, `Bitmap`, `BitmapSearch`, `BitmapRuns`, `BitmapPlans`, `BitmapEmpty`): the
  answer to any request on any bitmap, and whole runs of equal requests.
- **Kernel file padding** (`Splicing`, `ElfPadding`, `ElfLayout`, `ElfKernel`): zeros are spliced into an ELF file so
  that file offsets follow addresses; which bytes survive, and where.  The layout rules are those of the System V
  ABI, chapter 5, "Program Header".
- **Identity page tables** (`PageEntries`, `IdentityMap`, `Paging`): the four-level walk of the AMD64 Architecture
  Programmer's Manual, volume 2, section 5.3, over the tables the bootloader writes.
- **ACPI walks** (`AcpiTables`, `Madt`, `MadtMeaning`, `Srat`, `SratMeaning`): the two independent readers of the MADT
  (ACPI 6.3, section 5.2.12) agree, and both it and the SRAT (section 5.2.16) are read back from their bytes.

`Machine` and `Bits` hold fixed-width integers and bit arithmetic.  Machine integers are subset types of `int`, so
every addition that could overflow carries a proof obligation.  A panic, a failed `unwrap` and a process exit are
results (`ok == false`, `None`, an outcome value), and contracts say exactly when they happen.  Each component has
the same three layers: specification functions on values, a class or method that refines them in place, and lemmas
about whole runs of the specified steps.

Physical memory, the firmware tables, the memory map given by the firmware and the ELF file are parameters.  The
`usize` of the kernel has 64 bits.

## Where the code does not meet the obvious property

Each of these is a theorem: the failing input or family, and the exact condition under which the property holds.

- `allocate_prefer` gives up with `None` as soon as it looks at a range where the rounded-up block would pass the
  top of the address space, although a later range fits: `AbortLosesFit`, `ChooseNoneIff`.
- `partition_memory_region` accepts `start > end` and then leaves overlapping regions (`TidyIff`), so that a frame
  can be claimed twice: `InvertedRequestClaimsTwice`, `GrantedTwice`, and exactly then: `ExclusiveIff`.  Inverted by a
  single page, the second claim needs a sort that orders two equal ranges one particular way, which an unstable sort
  may do.  What inverted requests cannot break is in `FramesConserved`, `ClaimedWasUsable` and `UnclaimedKeepType`.
- A growing `realloc` frees before it allocates.  On failure the block is lost, and the original then also copies
  its bytes to the null pointer: `FailedGrowthLosesBlock`, `ResizeKeepsBlockIff`.  On success the source and the
  destination of the copy, which is one for disjoint memory, can overlap: `OverlappingRun`, `CopyOverlapsIff`.
- Zeros are inserted one byte behind the end of a segment.  A segment that starts right there loses its first byte:
  `AbuttingLosesByte`, `FirstByteLeftBehind`, `IntactIff`.  Bytes of the gap between segments end up in
  zero-initialised memory: `GapByteShowsThrough`, `ZeroFilledIff`.
- Padding adds to the memory size of a header what it adds to its file size, so the header of a segment with a
  zero-initialised part can claim memory of the next segment: `HeadersOverlap`, `HeaderStaysClearIff`.
- `addr_to_seg_map` compares file offsets with memory sizes and can take a header for that of an earlier segment, in a
  file that passes every check: `AcceptedAndNotPreserved`, and exactly when: `PaddingPreservesKernelIff`.
- Bitmap requests of fewer than 64 units that do not divide 64 overlap unless memory is used up in time:
  `IrregularRunOverlaps`, `RunDisjointIff`.
- A bitmap request of zero bytes reports that memory is used up, and marks the rest of a word without counting it:
  `EmptyRequestWastesWord`, and exactly when it does no harm: `EmptyRequestHarmlessIff`.
- Both readers of the MADT read an x2APIC entry with the layout of the local APIC entry, so they take its id for its
  flags: an enabled processor is missing and a disabled one listed, as processor 0, in `X2ProcessorMisread`, and a
  processor is listed if and only if its id is no multiple of four, whatever its flags: `X2ProcessorListedIff`.
- `PageTableAllocator` also hands out a table that starts at its end address: `TablesInsideIff`.

Two names and comments say something else than the code, which the model follows:

- `num_bytes_allocated` counts cells of 16 bytes, not bytes: `NumBytesAllocated`.
- Comments in `mmu.rs` speak of an unmapped first page and a guard page; the code maps every page, and so does the
  model.

## Model

| member | source | states |
|---|---|---|
| Ranges.Overlaps | crates/rangeset/src/lib.rs:335-355 | the result is exactly the set of common addresses, inverted arguments included |
| Ranges.OverlapsIffMeet | crates/rangeset/src/lib.rs:335-355 | two ranges overlap if and only if they share an address |
| Ranges.ContainsIffSubset | crates/rangeset/src/lib.rs:359-372 | containment of ranges is inclusion of the sets they stand for |
| Ranges.TouchesIffNotApart | crates/rangeset/src/lib.rs:87-104 | the saturating merge test is exact adjacency or overlap, also at the top of the address space |
| Ranges.InsertedCanonical | crates/rangeset/src/lib.rs:78-129 | insertion keeps entries well-formed, disjoint and non-touching |
| Ranges.InsertedCovers | crates/rangeset/src/lib.rs:78-129 | insertion is set union |
| Ranges.MergeStep | crates/rangeset/src/lib.rs:83-119 | merging with any touched entry and restarting reaches the same list, whichever entry is met first |
| Ranges.RemovedCanonical | crates/rangeset/src/lib.rs:137-193 | removal keeps entries well-formed, disjoint and non-touching |
| Ranges.RemovedCovers | crates/rangeset/src/lib.rs:137-193 | removal is set difference |
| Ranges.DeleteStep | crates/rangeset/src/lib.rs:150-155 | deleting a covered entry keeps the outcome and lowers the number of entries met |
| Ranges.TrimStep | crates/rangeset/src/lib.rs:162-171 | trimming an entry keeps the outcome and lowers the number of entries met |
| Ranges.SplitStep | crates/rangeset/src/lib.rs:172-188 | a split finishes the removal: one entry more, nothing left to meet, hence at most one split per call |
| Ranges.SubtractedCovers | crates/rangeset/src/lib.rs:196-200 | subtracting a list is set difference with all it covers and keeps the canonical form |
| RangeSum.TotalIsCardinality | crates/rangeset/src/lib.rs:203-207 | over a canonical list the lengths add up to the number of covered addresses |
| RangeSum.TotalBound | crates/rangeset/src/lib.rs:203-207 | the total needs 65 bits only for the one-entry list that is the whole address space |
| RangeSum.EntriesAreRuns | crates/rangeset/src/lib.rs:81-128 | a canonical list has one entry per maximal run of addresses, so the 256 slots are a bound on runs |
| RangeChoice.AlignFixIsPad | crates/rangeset/src/lib.rs:236-244 | the masked alignment fix is the distance to the next multiple |
| RangeChoice.RoundUpGuard | crates/rangeset/src/lib.rs:267-274 | the wrap-around guard on the rounded-up start is exact, and behind it rounding is the next multiple |
| RangeChoice.ChoiceIsFree | crates/rangeset/src/lib.rs:220-321 | a chosen block is aligned, of the right size, inside one free range, with less than `align` bytes lost in front |
| RangeChoice.ChoicePrefersRegion | crates/rangeset/src/lib.rs:241-309 | if any free range has aligned room in a preferred region, the block lies in a preferred region and loses no padding |
| RangeChoice.ChoiceWastesLeast | crates/rangeset/src/lib.rs:241-309 | otherwise the range with the least alignment padding is chosen, the earliest on ties |
| RangeChoice.ChooseNoneIff | crates/rangeset/src/lib.rs:220-321 | a valid request is refused exactly when nothing fits or a range that would overflow is looked at first |
| RangeChoice.AbortLosesFit | crates/rangeset/src/lib.rs:246-249 | a concrete set with a fitting range for which the search returns `None` |
| RangeBlocks.PreferredChoiceIsLowest | crates/rangeset/src/lib.rs:241-309 | if some entry has an aligned block inside a preferred region, the choice is the lowest such block, in the first entry that has one and its first region that has one |
| RangeBlocks.PlainChoiceWastesLeast | crates/rangeset/src/lib.rs:241-309 | otherwise no aligned block of any entry lies closer to the start of its entry, and none of an earlier entry as close |
| RangeBlocks.RefusedIff | crates/rangeset/src/lib.rs:220-249 | refused exactly when the size is zero, the alignment no power of two, no entry holds an aligned block, or an entry at the top of the address space is looked at before one with a preferred block |
| RangeSets.RangeSet.constructor | crates/rangeset/src/lib.rs:48-53 | a new set is valid and empty |
| RangeSets.RangeSet.DeleteAt | crates/rangeset/src/lib.rs:61-71 | the copy loop deletes one entry and moves the others up in order |
| RangeSets.RangeSet.Insert | crates/rangeset/src/lib.rs:78-129 | the restarting loop unions the range in, and fails exactly for an inverted range or a 257th entry |
| RangeSets.RangeSet.Carve | crates/rangeset/src/lib.rs:142-188 | one look at an entry keeps the outcome of the removal; a restart has made progress; it panics exactly when a split finds the array full |
| RangeSets.RangeSet.Remove | crates/rangeset/src/lib.rs:137-193 | the restarting loop takes the range out, and fails exactly for an inverted range or a 257th entry |
| RangeSets.RangeSet.Subtract | crates/rangeset/src/lib.rs:196-200 | set difference with another set, failing exactly when some intermediate list outgrows the array |
| RangeSets.RangeSet.Sum | crates/rangeset/src/lib.rs:203-207 | the exact number of addresses, `None` exactly for the full address space, without overflow on the way |
| RangeSets.RangeSet.FindPreferred | crates/rangeset/src/lib.rs:262-300 | the inner loop finds the first preferred region with aligned room in the range, or none exists |
| RangeSets.RangeSet.Search | crates/rangeset/src/lib.rs:241-309 | the search loop with its early exits computes the specified choice |
| RangeSets.RangeSet.AllocatePrefer | crates/rangeset/src/lib.rs:220-321 | the chosen block is removed and returned; a refusal changes nothing; it panics only where a split finds the array full |
| RangeSets.RangeSet.Allocate | crates/rangeset/src/lib.rs:210-213 | without preferred regions allocation never panics |
| RangeSets.PlainNeverSplits | crates/rangeset/src/lib.rs:210-213 | a block at the front of a range never needs a new slot |
| RangeSetRuns.StepRefines | crates/rangeset/src/lib.rs:78-321 | every call keeps the invariant and acts on the covered set as its set operation |
| RangeSetRuns.ReachableCanonical | crates/rangeset/src/lib.rs:78-321 | in every run all states are canonical and within 256 entries |
| RangeSetRuns.RunRefinesSets | crates/rangeset/src/lib.rs:78-321 | every run of the array is a run of a machine on plain sets |
| RangeSetRuns.ReachableSum | crates/rangeset/src/lib.rs:203-207 | in every reachable state the sum is the cardinality and fits unless the set is everything |
| RangeSetRuns.NoDoubleAllocation | crates/rangeset/src/lib.rs:220-321 | two blocks allocated in one run are disjoint unless the first was inserted again in between |
| HeapCells.SkipBlock | kernel/src/allocator/fixed_size_block.rs:93-139 | skipping a whole block misses no free run |
| HeapCells.PlaceBlock | kernel/src/allocator/fixed_size_block.rs:118-131 | placing a block in a free run occupies exactly its cells and keeps blocks disjoint |
| HeapCells.FreeBlock | kernel/src/allocator/fixed_size_block.rs:75-91 | freeing a block frees exactly its cells |
| HeapCells.ShrinkBlock | kernel/src/allocator/fixed_size_block.rs:169-213 | shrinking frees exactly the tail cells |
| HeapCells.TotalIsUsed | kernel/src/allocator/fixed_size_block.rs:64-72 | the sum of stored lengths is the number of occupied cells |
| Heap.FixedSizeBlockAllocator.constructor | kernel/src/allocator/fixed_size_block.rs:33-38 | a new heap has no blocks |
| Heap.FixedSizeBlockAllocator.Alloc | kernel/src/allocator/fixed_size_block.rs:93-139 | complete first fit: the lowest large enough free run, null exactly when there is none |
| Heap.FixedSizeBlockAllocator.Dealloc | kernel/src/allocator/fixed_size_block.rs:75-91 | succeeds exactly on the head of a block in the heap and erases it |
| Heap.FixedSizeBlockAllocator.Realloc | kernel/src/allocator/fixed_size_block.rs:169-213 | shrinks in place, or acts as first fit on the heap without the old block |
| Heap.FixedSizeBlockAllocator.NumBytesAllocated | kernel/src/allocator/fixed_size_block.rs:64-72 | the number of occupied cells |
| HeapRuns.LedgerAgrees | kernel/src/allocator/fixed_size_block.rs:75-213 | over every run the array is well-formed and agrees exactly with the ledger of live pointers |
| HeapRuns.LiveBlocksDisjoint | kernel/src/allocator/fixed_size_block.rs:75-213 | live blocks are aligned, inside the heap and pairwise disjoint |
| HeapRuns.TotalFollowsLedger | kernel/src/allocator/fixed_size_block.rs:64-72 | each call changes the total by exactly its difference in cells |
| HeapRuns.ResizeKeepsBlockIff | kernel/src/allocator/fixed_size_block.rs:187-212 | a failing realloc leaves the heap alone exactly when failure is impossible: it shrinks or there is room |
| HeapRuns.FailedGrowthLosesBlock | kernel/src/allocator/fixed_size_block.rs:200-211 | a concrete heap whose block is gone after a failed realloc |
| HeapRuns.CopyOverlapsIff | kernel/src/allocator/fixed_size_block.rs:200-211 | told from the heap before the call: a growing block is copied onto itself exactly when the free cells in front of it are some but fewer than its own, the grown block fits with them, and nothing earlier is long enough |
| HeapRuns.OverlappingRun | kernel/src/allocator/fixed_size_block.rs:93-211 | a concrete run of four calls that ends in an overlapping copy |
| MemoryTable.LookupIn | crates/bootloader/src/bootinfo/memory_map.rs:46-53 | lookup gives the first region that holds the address, `None` exactly when none does |
| MemoryTable.SortedUnique | crates/bootloader/src/bootinfo/memory_map.rs:165-190 | a sorted table with distinct starts is determined by its contents, so an unstable sort is deterministic |
| MemoryTable.GrantedFacts | crates/bootloader/src/bootinfo/memory_map.rs:61-87 | a granted request is page-aligned and both its ends lie in one usable region of the table |
| MemoryTable.JudgeByHolders | crates/bootloader/src/bootinfo/memory_map.rs:73-87 | on a tidy map every verdict on an aligned request follows from which regions hold its first and its last frame, with the two grantable types written out |
| MemoryTable.JudgeMalformed | crates/bootloader/src/bootinfo/memory_map.rs:61-75 | the verdicts on an empty type, on unaligned addresses and on end address zero, in this order, on every map |
| MemoryTable.GrantedIff | crates/bootloader/src/bootinfo/memory_map.rs:61-87 | on a tidy map a request of any length is granted if and only if one usable or dangerous-but-usable region encloses it |
| MemoryTable.PiecesInFrames | crates/bootloader/src/bootinfo/memory_map.rs:89-118 | the three pieces, computed in bytes, are the frames before, in and after the request |
| MemoryMaps.MemoryMap.constructor | crates/bootloader/src/bootinfo/memory_map.rs:38-44 | a new map is empty |
| MemoryMaps.MemoryMap.GetRegionByAddr | crates/bootloader/src/bootinfo/memory_map.rs:46-53 | the loop computes the lookup |
| MemoryMaps.SortUnstable | crates/bootloader/src/bootinfo/memory_map.rs:165-185 | a permutation with the regions ascending and the empty ones last |
| MemoryMaps.MemoryMap.Sort | crates/bootloader/src/bootinfo/memory_map.rs:165-190 | afterwards the table holds exactly the non-empty entries and the entry count is right |
| MemoryMaps.MemoryMap.RemoveRegion | crates/bootloader/src/bootinfo/memory_map.rs:134-152 | removes one equal entry, or reports that there is none |
| MemoryMaps.MemoryMap.AddRegion | crates/bootloader/src/bootinfo/memory_map.rs:155-163 | adds the region, failing exactly when the table is full |
| MemoryMaps.MemoryMap.Examine | crates/bootloader/src/bootinfo/memory_map.rs:61-87 | the checks in their order give the verdict that `JudgeByHolders`, `JudgeMalformed` and `GrantedIff` are about |
| MemoryMaps.MemoryMap.PartitionMemoryRegion | crates/bootloader/src/bootinfo/memory_map.rs:55-131 | one removal and up to three additions, with a sort each, amount to one partition step; an error changes nothing |
| MemoryRuns.PartitionIsSplice | crates/bootloader/src/bootinfo/memory_map.rs:55-190 | on a tidy table the removals, additions and sorts replace one region by its pieces in place |
| MemoryRuns.RoomIff | crates/bootloader/src/bootinfo/memory_map.rs:120-163 | a granted request does not run out of table space exactly when the resulting table fits |
| MemoryRuns.PartitionRetypes | crates/bootloader/src/bootinfo/memory_map.rs:55-190 | exactly the frames of the request change type, all of them were usable, the table stays tidy and grows by at most two |
| MemoryRuns.TidyIff | crates/bootloader/src/bootinfo/memory_map.rs:55-131 | a granted request keeps the table tidy if and only if it is not inverted |
| MemoryRuns.RunTidy | crates/bootloader/src/bootinfo/memory_map.rs:55-131 | over every run of ordered requests the table stays sorted, disjoint and free of empty regions |
| MemoryRuns.RunRetypes | crates/bootloader/src/bootinfo/memory_map.rs:55-131 | every run of ordered requests is a run of a machine that retypes frames |
| MemoryRuns.ClaimsAreExclusive | crates/bootloader/src/bootinfo/memory_map.rs:73-131 | over every run of ordered requests a frame is claimed once and keeps its type for good |
| MemoryClaims.FramesConserved | crates/bootloader/src/bootinfo/memory_map.rs:73-131 | no run adds or loses a frame, whatever addresses are asked for |
| MemoryClaims.ClaimedWasUsable | crates/bootloader/src/bootinfo/memory_map.rs:73-131 | every frame any run claims was usable in the initial map |
| MemoryClaims.UnclaimedKeepType | crates/bootloader/src/bootinfo/memory_map.rs:73-131 | a frame no request of a run claims keeps its type |
| MemoryClaims.RunGrows | crates/bootloader/src/bootinfo/memory_map.rs:89-131 | each request makes the table longer by at most two regions |
| MemoryInversions.GrantedTwice | crates/bootloader/src/bootinfo/memory_map.rs:73-131 | on any tidy map, after a request inverted by two pages or more the last frame of the overlap is granted twice, whatever the sort does |
| MemoryInversions.SomeResult | crates/bootloader/src/bootinfo/memory_map.rs:120-190 | every granted request has a sorted result if the table has two entries to spare |
| MemoryInversions.ExclusiveIff | crates/bootloader/src/bootinfo/memory_map.rs:55-190 | a granted request leaves all later runs of ordered requests without double claims if and only if it is not inverted, the second half for tables with eight entries to spare |
| MemoryInversions.InvertedRequestClaimsTwice | crates/bootloader/src/bootinfo/memory_map.rs:55-131 | a concrete map and inverted request from which a run claims one frame twice |
| FrameAllocators.BootInfoFrameAllocator.AllocateFrame | kernel/src/memory.rs:231-238 | each call returns the next element of the recomputed pipeline, nothing behind its end, or an underflow if an inverted usable region is reached first |
| FrameAllocators.PipelineAtPageSize | kernel/src/memory.rs:179-227 | at 4 KiB both adjustments and the size filter leave every region alone, and the pipeline is the list of the frames of the usable regions |
| FrameAllocators.ListedIffUsable | kernel/src/memory.rs:179-227 | a frame is listed if and only if it is usable |
| FrameAllocators.FramesAscend | kernel/src/memory.rs:179-227 | the list is strictly ascending |
| FrameAllocators.CallsEnumerateUsable | kernel/src/memory.rs:179-238 | any run of calls gives every usable frame once, in order, then `None` for ever |
| FrameAllocators.ClaimedNeverAllocated | kernel/src/memory.rs:179-238 | a frame the bootloader has claimed in any run of ordered requests is never handed out by the kernel |
| Bitmap.FrameAllocator.constructor | crates/dyn_frame_alloc/src/lib.rs:29-41 | a new allocator has no bit set |
| Bitmap.FrameAllocator.Find | crates/dyn_frame_alloc/src/lib.rs:64-109 | the search over words, with its carried run, computes the specified scan |
| BitmapWords.FirstFitIsLowest | crates/dyn_frame_alloc/src/lib.rs:87-98 | the search stops at the lowest bit where the run meets no set bit, and finds nothing only if there is none |
| BitmapSearch.FitsAtIff | crates/dyn_frame_alloc/src/lib.rs:87-98 | a shifted run meets no set bit exactly when the bits from there on, as far as the word goes, are clear |
| BitmapSearch.ScanFindsLowest | crates/dyn_frame_alloc/src/lib.rs:64-109 | on every bitmap the search finds the lowest place: clear words, or for a remainder a clear run in a word behind that many clear words; and nothing only if there is no place |
| Bitmap.FrameAllocator.ShiftUntilClear | crates/dyn_frame_alloc/src/lib.rs:87-98 | the shifting loop finds that lowest bit |
| Bitmap.FrameAllocator.Mark | crates/dyn_frame_alloc/src/lib.rs:111-134 | the marking loop sets the bits of the request word by word, losing what is shifted out |
| BitmapSearch.MarkedBits | crates/dyn_frame_alloc/src/lib.rs:111-134 | a bit of a marked word is set exactly if it was, or lies at or behind the start offset among the bits the request has left for that word |
| Bitmap.FrameAllocator.Alloc | crates/dyn_frame_alloc/src/lib.rs:53-137 | each answer, errors included, and the new state are those of the specified request |
| BitmapSearch.AnswerIs | crates/dyn_frame_alloc/src/lib.rs:53-137 | on every bitmap and count: refused exactly when all units are counted as used or there is no place; otherwise the lowest place is granted, or the loop leaves the bitmap exactly when the block ends in no word |
| Bitmap.FrameAllocator.TakeNothing | crates/dyn_frame_alloc/src/lib.rs:64-136 | what both loops do for a request of zero units, whose masks wrap to all ones |
| BitmapEmpty.EmptyRequestWastesWord | crates/dyn_frame_alloc/src/lib.rs:64-136 | on a packed bitmap a request of zero bytes is refused and still takes the rest of a word out of use |
| BitmapEmpty.EmptyRequestHarmlessIff | crates/dyn_frame_alloc/src/lib.rs:53-136 | on every bitmap such a request changes nothing if and only if all units are counted as used or every word has its top bit set |
| BitmapRuns.RegularRun | crates/dyn_frame_alloc/src/lib.rs:53-137 | equal requests that divide 64 or are multiples of it, and divide the units, get consecutive blocks until memory is used up, then an error for ever, with exactly the handed-out bits set |
| BitmapRuns.RegularResponses | crates/dyn_frame_alloc/src/lib.rs:53-137 | in addresses: request `k` of such a run gets the block `k` times its size behind the start address, or an error |
| BitmapRuns.IrregularRunOverlaps | crates/dyn_frame_alloc/src/lib.rs:53-137 | for every other size below 64 the block after the word boundary, if there is one, overlaps the block before it |
| BitmapPlans.FindStriped | crates/dyn_frame_alloc/src/lib.rs:64-109 | for a size above 64 that is no multiple of it, the next block is found as many words behind the last as a block fills |
| BitmapPlans.RunFollowsPlan | crates/dyn_frame_alloc/src/lib.rs:53-137 | in every run of equal requests of any other size each request is refused or gets the next planned place, with exactly the planned bits set |
| BitmapPlans.RunDisjointIff | crates/dyn_frame_alloc/src/lib.rs:53-137 | for every size and every number of units, the blocks of a run are disjoint if and only if the size is at least 64, divides 64, or uses up memory before the second word is reached |
| Splicing.ByteKept | crates/bootloader/build.rs:464-519 | after any ascending insertions each byte is found at its offset plus the zeros inserted before it |
| Splicing.ZerosKept | crates/bootloader/build.rs:464-519 | the inserted zeros stay where later insertions move them |
| ElfPadding.PadLoadSegments | crates/bootloader/build.rs:464-519 | the loop fails exactly when a pad would be negative or out of the buffer, and otherwise gives all insertions at their original places |
| ElfPadding.PadBetweenIs | crates/bootloader/build.rs:472-488 | the padding behind a segment makes up the address difference together with its file size and the gap, and there is none exactly when those exceed it |
| ElfPadding.AddrToSegMap | crates/bootloader/build.rs:326-347 | the first segment whose offset and memory size span the address |
| ElfPadding.UpdateHeaders | crates/bootloader/build.rs:521-541 | the pass fails exactly when some load header lies in no segment; load headers are updated in place and all others stay as they are |
| ElfPadding.UpdatedHeaderIs | crates/bootloader/build.rs:526-540 | a load header that starts the first segment it lies in moves by the padding in front of that segment and grows by its own; every other header stays as it is |
| ElfLayout.OffsetsFollowAddresses | crates/bootloader/build.rs:464-502 | new offsets differ as the virtual addresses do |
| ElfLayout.ByteKeptAt | crates/bootloader/build.rs:464-519 | each byte of a segment is found at the new offset of the segment |
| ElfLayout.FirstByteLeftBehind | crates/bootloader/build.rs:490-498 | without a gap byte a zero takes the place of the next segment's first byte |
| ElfLayout.IntactIff | crates/bootloader/build.rs:490-498 | a segment survives if and only if nothing is inserted before it, a gap byte is there, or its first byte is zero |
| ElfLayout.AbuttingLosesByte | crates/bootloader/build.rs:490-498 | a concrete layout whose second segment does not survive |
| ElfLayout.ImageIsMemory | crates/bootloader/build.rs:464-519 | the padded file, from the first segment on, is the memory image, the first byte of a segment without a gap byte apart |
| ElfLayout.FillerShown | crates/bootloader/build.rs:464-502 | which byte fills each address between two segments, with or without a gap byte |
| ElfLayout.ZeroFilledIff | crates/bootloader/build.rs:464-502 | memory behind a segment's file bytes is zero if and only if the bytes that land there, of the gap or of the next segment, are |
| ElfLayout.GapByteShowsThrough | crates/bootloader/build.rs:464-502 | a concrete layout in which a gap byte ends up in zero-filled memory |
| ElfLayout.LastZeroFilled | crates/bootloader/build.rs:504-519 | the last segment is zero-filled to its memory size |
| ElfLayout.TailKept | crates/bootloader/build.rs:543-563 | everything behind the last segment, the section header table included, is intact at its shifted offset |
| ElfLayout.HeaderFoundIff | crates/bootloader/build.rs:326-347 | a header finds its own segment if and only if it spans a byte and no earlier segment's memory size reaches over its file offset, and finds none if and only if neither holds |
| ElfLayout.HeaderNamesBytesIff | crates/bootloader/build.rs:521-541 | exactly when an updated header names the offset its bytes were moved to |
| ElfLayout.HeaderFollowsBytes | crates/bootloader/build.rs:521-541 | a recognised header names the offset its bytes were moved to, and grows by its padding |
| ElfLayout.HeaderStaysClearIff | crates/bootloader/build.rs:521-541 | exactly when the memory of an updated header stays clear of the next segment |
| ElfLayout.HeadersOverlap | crates/bootloader/build.rs:521-541 | a concrete layout whose first header reaches into the second segment |
| ElfKernel.Check | crates/bootloader/build.rs:426-461 | exactly the files with matching orders, early program headers and base 2 MiB are accepted |
| ElfKernel.PadKernel | crates/bootloader/build.rs:410-563 | the whole pass: when it fails, by load segments and load headers alone, and image, headers and section header offset when it does not; headers of other types stay as they are |
| ElfKernel.PaddingPreservesKernelIff | crates/bootloader/build.rs:464-541 | for every file that passes the checks: a header's new offset follows its address and its file bytes are there, if and only if the bytes survive and the header is found and not shadowed by an earlier segment behind inserted zeros |
| ElfKernel.AcceptedAndNotPreserved | crates/bootloader/build.rs:326-541 | a concrete file that passes every check and whose second header does not follow its bytes |
| PageEntries.AddrOfEntry | crates/bootloader/src/pagetable.rs:35-44 | masking gives back the address an entry was written with |
| PageEntries.FlagOfEntry | crates/bootloader/src/pagetable.rs:29-44 | every flag bit is readable from the entry as it was written |
| PageEntries.EntryIsSum | crates/bootloader/src/pagetable.rs:41-44 | an entry is the sum of its address and its flag word |
| IdentityMap.Indices | crates/x86_64/src/addr.rs:181-202 | the indices of an address below 4 GiB name its gigabyte and its 2 MiB page |
| IdentityMap.HugeEntryFacts | crates/bootloader/src/mmu.rs:56-87 | each 2 MiB entry as a number, and which of its bits are set: cached, writable and executable exactly in usable memory |
| IdentityMap.SmallEntryFacts | crates/bootloader/src/mmu.rs:114-163 | each 4 KiB entry as a number, and its write, cache and execute bits by the type of the page, the screen page included |
| IdentityMap.WalkIsIdentity | crates/bootloader/src/mmu.rs:13-98 | below 4 GiB the walk is the identity, writable, cached and executable exactly where the page starts in usable memory |
| IdentityMap.WalkStopsAtFourGig | crates/bootloader/src/mmu.rs:13-98 | from 4 GiB to the end of the lower half nothing is mapped |
| IdentityMap.RemapKeepsHigh | crates/bootloader/src/mmu.rs:102-164 | the remap changes nothing from 2 MiB up |
| IdentityMap.RemapKeepsLow | crates/bootloader/src/mmu.rs:102-164 | below 2 MiB the walk is still the identity, with write, cache and execute rights by the type of each small page |
| Paging.Zero | crates/bootloader/src/pagetable.rs:161-165 | every entry of the table is unused |
| Paging.FillP2 | crates/bootloader/src/mmu.rs:54-87 | the inner loop writes 512 consecutive 2 MiB pages with their rights |
| Paging.FillP1 | crates/bootloader/src/mmu.rs:114-163 | the loop writes 512 small pages with rights by type, the screen page apart |
| Paging.PageTableAllocator.Next | crates/bootloader/src/pagetable.rs:361-374 | consecutive tables until one would start behind the end address |
| Paging.TablesInsideIff | crates/bootloader/src/pagetable.rs:361-374 | a run of `n` calls hands out `n` tables exactly when the last starts by the end address, and all lie inside exactly when there is room for one page more |
| Paging.GeneratePageTable | crates/bootloader/src/mmu.rs:13-98 | the loops leave exactly the specified tables, or fail exactly when the fourth table is refused |
| Paging.RemapFirst2Mb | crates/bootloader/src/mmu.rs:102-164 | in place, only the first entry of the first table and the new table change |
| AcpiTables.RecordsOfEncoding | kernel/src/acpi.rs:234-330 | walking the bytes of a list of records, behind any header, gives the list back |
| AcpiTables.RecordsOfTable | kernel/src/acpi.rs:242-258 | the same with any bytes behind the end of the table; a rest too short for the record it announces is passed over, and a length below two is a panic |
| AcpiTables.LeRoundTrip | kernel/src/acpi.rs:383-385 | little-endian bytes read back to the number |
| AcpiTables.FromLeFour | kernel/src/acpi.rs:383-385 | the weights of the four bytes |
| AcpiTables.FromLeEight | kernel/src/acpi.rs:402-403 | eight bytes are two such words, the low one first |
| Madt.ParsedIsRecords | kernel/src/acpi.rs:234-330 | the kernel accepts exactly unbroken tables of well-formed records and reads each record once, in order |
| Madt.ParseMadt | kernel/src/acpi.rs:206-331 | the loop with its four growing lists computes the specified parse |
| Madt.LapicIter.Next | crates/bootloader/src/acpi.rs:143-212 | each call moves to the next usable processor, to the end, or panics |
| Madt.DrainedIsRecords | crates/bootloader/src/acpi.rs:143-212 | draining the iterator gives the usable processors of the records, in order |
| Madt.ReadersAgree | kernel/src/acpi.rs:234-330 | on every table the kernel accepts, the bootloader's iterator yields the same processors in the same order |
| Madt.KernelIsStricter | crates/bootloader/src/acpi.rs:143-212 | which tables only the bootloader accepts |
| Madt.WrongShapeIff | kernel/src/acpi.rs:260-311 | which record types with which lengths make either reader panic |
| MadtMeaning.LapicFields | kernel/src/acpi_regs.rs:64-72 | the fields of a local APIC entry byte by byte; it is usable exactly if bit 0 or bit 1 of its flags is set |
| MadtMeaning.EntryMeans | kernel/src/acpi.rs:260-325 | what each kind of entry, laid out as ACPI says with any flags and reserved bytes, adds to which list; an override is dropped exactly if its interrupt number is its source |
| MadtMeaning.ReadersOfEncoding | crates/bootloader/src/acpi.rs:143-212 | from the bytes of any list of such entries, the kernel reads what the entries mean and the drained iterator its processors |
| MadtMeaning.X2ProcessorListedIff | kernel/src/acpi.rs:306-321 | an x2APIC processor is listed if and only if its id is no multiple of four |
| MadtMeaning.X2ProcessorMisread | crates/bootloader/src/acpi.rs:143-212 | a concrete table of an enabled and a disabled x2APIC processor, of which both readers list only the disabled one, as processor 0 |
| Srat.ParseSrat | kernel/src/acpi.rs:333-449 | the loop accepts exactly the tables it can walk and interpret, and returns the interpretation |
| Srat.DecodeEncode | kernel/src/acpi.rs:370-444 | every entry, laid out as ACPI says, decodes to itself |
| Srat.DecodeApic | kernel/src/acpi.rs:371-393 | a processor entry with any flags and reserved bytes gives its domain, split over four bytes, its id, and whether bit 0 of the flags is set |
| Srat.DecodeX2Apic | kernel/src/acpi.rs:424-442 | the same for an x2APIC entry |
| Srat.DecodeMemory | kernel/src/acpi.rs:394-422 | the same for a memory entry with its base and length |
| Srat.DecodeFailsIff | kernel/src/acpi.rs:371-428 | exactly which record types with which lengths are rejected, and that other types are passed over |
| SratMeaning.ApicsAreThePlaced | kernel/src/acpi.rs:387-392 | an accepted table maps exactly the enabled processors to the domains their entries name |
| SratMeaning.MemoryIsTheProvided | kernel/src/acpi.rs:406-422 | each domain covers exactly the union of its enabled, non-empty ranges, in canonical form |
| SratMeaning.DomainsAreTheFed | kernel/src/acpi.rs:406-422 | exactly the domains with an enabled, non-empty range appear |
| SratMeaning.AcceptedIff | kernel/src/acpi.rs:347-447 | a table is accepted if and only if no enabled processor repeats, no range leaves the address space and no domain ever has more than 256 runs |
| SratMeaning.InterpretIsSummary | kernel/src/acpi.rs:347-447 | every table, whatever its unread bytes, means the summary of its decoded entries, and is rejected if one does not decode |
| SratMeaning.ParseOfEncoding | kernel/src/acpi.rs:333-449 | reading the bytes of any list of entries gives the summary of that list |

## Left out

- Port, MSR, APIC, PIC, serial and PCI access, timers, VGA output, logging and interrupt tables: device behaviour is not part of the repository.
- cpuid decoding and Multiboot2 tags: fixed field access that would only add easy members.
- Raw byte movement in the heap: blocks are placed and freed, their contents are not modelled; `CopyOverlapsIff` says where the copied ranges lie.
- Heap layouts with alignment above 16 or size zero: the cell array does not encode them.
- The 2 MiB `allocate_frame` and `usable_xsize_frames`: what they guarantee depends on region alignment the code does not establish.
- The overlap fix-up passes over the firmware's memory map in the bootloader's `main.rs`: runs start from a sorted, disjoint table.
- MemoryMaps.SortUnstable: stands for the library sort and is used only through its contract; the order of empty regions among themselves is left open.
- Bitmap.FrameAllocator.Alloc: results are not checked against address overflow, and the truncation to 32 bits of the number of units left, which needs a request of 2^32 units, is not modelled.
- BitmapPlans.RunDisjointIff: equal requests only; runs of mixed sizes are not covered.
- MemoryInversions.ExclusiveIff: for a table with fewer than eight entries to spare the second half is not stated, because the run that claims twice may then panic on the way.
- ElfKernel.PadKernel: program headers are decoded records next to the buffer, so the model does not show that the updated program headers and `e_shoff` overwrite part of the first segment's file bytes, in which they lie; the load segments are given sorted by address, and the checks of the ELF header, reading and writing files, section offsets and `.bss` are not part of this model.
- Madt.ParseMadt: the table header, its checksum and the flag for masking the PICs are not read.
- Madt.LapicIter.Next: addresses do not wrap at 32 bits.
- Srat.ParseSrat: range sets are lists of ranges updated by the function that `RangeSets.RangeSet.Insert` is proved to compute, not objects; the two maps are values.
