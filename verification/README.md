# A verified model of the ubiquitous-goggles core

This project models the three parts of the superoptimizer that its results depend on, and proves what each of them is for.

**The allocator** (`malloc.c`) linked into the program under test, in the build the Makefile selects: 64-bit words,
alignment 16, no footers, no locks, `HAVE_MMAP` 0, page and granularity 4096, trim threshold 2 MB. `MallocState` has the
fields of `struct malloc_state` and a memory of 8-byte words; heads, feet, fd/bk, child/parent and segment words are
overwritten in place by methods named after the functions and macros they model. Ghost fields give the view they refine:
the chunks that tile the segments (`L`), the binned chunks (`D`), one ring for each small bin and one trie for each
treebin. `Valid()` says that all of these agree: boundary tags, bins, both bit maps, designated victim, top, the segment
list and the footprint. Every operation keeps it, from an empty state, for any answers of `MORECORE`, and says exactly
what became of the live blocks (`Blocks`) and that no word of another block's payload changed (`PayloadKept`). The system is
an arbitrary function from the sizes asked so far to answers; what is asked of it, and what follows from its answers, is
stated as well (`Asking`).

**The search** (`transform.cpp`, `search.cpp`): the instruction list with its one-step undo, the opcode classes, and the
accept/reject loops. `Undone()` is what `Undo` will make of the block; every proposal establishes that it is what the
block said before.

**The test oracle** (`server.c`, `mf_instrument.cpp`, `replay_cli.cpp`): the distances the search trusts, the register
layout under them, and the protocol of parent, workers, forked children and client as a state machine over all
interleavings.

## Reading order

- `Words`, `Sequences`, `Sizes`, `TreeIndex`, `BinMaps`: words, padding, heads, bin indices and bit maps.
- `Memory`, `Rings`, `Tries`, `TrieLinks`, `TrieUnlink`, `Bins`, `BinOps`, `FreeLists`, `TreeLists`, `BestFit`: the bins,
  from sequences and trees down to the words in memory, and the best-fit search over them.
- `Layouts`, `Retile`, `State`, `HeapSteps`, `Chunks`, `Carve`, `Binning`, `Runs`, `Release`: boundary tags, the invariant,
  and how it survives each way of rewriting a run of chunks.
- `Segments`, `Prepend`, `AddSegment`, `MoreCore`, `Asking`, `SegmentList`, `Obtain`, `SystemMemory`: memory from the system.
- `Allocate`, `Free`, `Payload`, `Calloc`, `Realloc`, `Memalign`, `Ialloc`, `BulkFree`: the public operations.
- `Determined`, `Checks`, `Statistics`, `Clients`, `Session`: what follows for whole heaps and whole runs.
- `OpcodeClasses`, `Transform`, `Search`; `Distances`, `RegLayout`, `Protocol`.

Many proofs begin with `hide *` and unfold a definition through a lemma of its own (`XIs`, `XParts`), which keeps each
proof small.

## Assumptions about the surroundings

- `MORECORE` fails or grants a word-aligned region of user memory (below 2^47) that touches no segment; the second call of
  the partial-failure path continues the first (`MoreCore.CoveredIffContiguous` says why it must); what lies between the
  answers of the noncontiguous path is granted; after a release the break has not moved down by more than was offered.
  Other answers count as failure, or as nothing released.
- Callers pass pointers they hold, and store only inside their blocks. `bulk_free` gets no pointer twice.
- Alignments for memalign are at most 2^63 and the sizes for `ialloc` add up below 2^64: the source checks neither
  (`Memalign.DoublingReaches`, `Ialloc.RoomUnlessWrapped`).
- `getNextNode()`, which `Move` stores and excludes from its choice, gives for the last instruction of a block the end of
  the block, as the incremented iterator in `Delete` does; `Undo` compares both with the end of the block.
- A child of the test server either writes one whole response and then exits with zero, or writes none and exits otherwise.
- A test is a function of what the block says. In the instruction table a tied opcode has at least two operands, the
  register class of an operand of a usable opcode has a register besides the instruction pointers, which are never drawn,
  and a register class has one size.

## Where the code falls short of what it is meant to do

Each of these comes with the exact condition under which the code does what it should, and with an input for which it does not.

- The gcc form of `compute_tree_index` files sizes from 2^40 on in a wrong bin unless the narrowed quotient happens to be
  large (`TreeIndex.GccAgreesExactly`, `TreeIndex.GccMisfilesTerabyte`).
- The cost of a rewrite is summed in 32 bits. A rewrite with wrong bytes costs nothing when its distances add up to a
  multiple of 2^32, and one that signals passes when the sum wraps below the penalty (`Search.TestsHoldUnlessWrapped`,
  `Search.WrappedCosts`); neither can happen exactly as long as the workers compare less than 2^32 bits in all, 16 megabytes
  each for 32 workers (`Search.TrustedUpToSize`).
- `optimize` copies the best rewrite after undoing it when its cost ties with the drawn bound
  (`Search.CopyIsRightUnlessTied`, `Search.OptimizeExactly`, `Search.TieKeepsWrongCopy`).
- The noncontiguous call of `sys_alloc` accepts a region that exceeds the request and the foot without asking for the rest
  of the padding. That is nearly always enough; the region joins the heap and the request still fails exactly when the region is
  88 bytes more than the request, begins at 8 modulo 16, and neither continues the segment of top nor ends where a segment
  begins (`SystemMemory.Install`, `SystemMemory.SomeRegionFallsShort`).
- The same call is not held to the footprint limit when it yields more than was asked for
  (`SystemMemory.SysAlloc`, `Obtain.LimitHoldsUnlessMore`, `Obtain.MoreThanAskedPassesLimit`).
- `ialloc` does not notice that its sizes overflow, and then asks for a chunk without room for them
  (`Ialloc.RoomUnlessWrapped`, `Ialloc.TwoHalvesWrap`).
- `MutateOpcode` can part two registers that the new opcode ties, when a class has opcodes with and without the tie
  (`Transform.OpcodesKeepTies`).
- `MutateOpcode` leaves the marks of definitions as they were, which is wrong when opcodes of a class define different
  operands (`Transform.OpcodesKeepDefs`).
- `MutateOperand` copies a register into the operand tied to it, which takes it out of the class of that operand when the
  two classes differ (`Transform.DrawingKeepsPools`).

## Model

| member | source | states |
|---|---|---|
| `TreeIndex.IndexBounds` | malloc.c:2876-2907 | Every size from 256 on lies in its bin: at least the bin's smallest size and, but for the last bin, below the next bin's |
| `TreeIndex.IndexUnique` | malloc.c:2900-2907 | The computed index is the only bin whose range holds the size |
| `TreeIndex.IndexMonotone` | malloc.c:2876-2892 | Larger sizes never get a smaller index |
| `TreeIndex.SizeBitsStart` | malloc.c:2895-2902 | The left shift leaves exactly the offset of the size in its bin, its highest bit at the sign position |
| `TreeIndex.SignBitSplits` | malloc.c:3662-3665 | The sign bit says in which half of the remaining range a size lies, and shifting by one consumes it |
| `TreeIndex.SizeBitsTellApart` | malloc.c:2895-2902 | Two sizes in one bin are equal exactly when the bits still to be consumed are |
| `TreeIndex.BranchFreeIsFloorLog2` | malloc.c:2884-2889 | The subtract-and-shift steps of the portable form compute the floor of the base-2 logarithm |
| `TreeIndex.PortableIsIndex` | malloc.c:2876-2892 | The portable form is the floor-log2 bin index for every size |
| `TreeIndex.GccAgreesExactly` | malloc.c:2832-2845 | The gcc form, which first narrows the shifted size to 32 bits, gives the same index exactly when the size is below 2^40 or the narrowed quotient is at least 0xC000 |
| `TreeIndex.GccMisfilesTerabyte` | malloc.c:2835-2837 | A size of one terabyte gets index 0 from the gcc form and 31 from the portable one |
| `BinMaps.MarkBit` | malloc.c:2916-2920 | Marking sets the bit of that bin and no other |
| `BinMaps.ClearBit` | malloc.c:2917-2921 | Clearing unsets the bit of that bin and no other |
| `BinMaps.TestBit` | malloc.c:2918-2922 | The mask test is nonzero exactly when the bin is marked |
| `BinMaps.LeastBitIsLowest` | malloc.c:2924-2925 | x & -x isolates the lowest set bit |
| `BinMaps.LeftBitsAbove` | malloc.c:2927-2928 | left_bits of a single bit is the mask of all bits above it |
| `BinMaps.NextMarkedIsScan` | malloc.c:2924-2974 | left_bits, least_bit and bit2idx together find the first marked bin above a given one, as a scan would |
| `BinMaps.FirstMarkedIsScan` | malloc.c:4504-4505 | least_bit and bit2idx on a nonzero map find its first marked bin |
| `Sizes.Request2SizeFits` | malloc.c:2222-2231 | The padded size is aligned, holds the request and its overhead, and wastes less than a minimal chunk; it is small exactly up to the largest small request |
| `Sizes.CallocDetectsOverflow` | malloc.c:4787-4794 | The division test notices every overflow of the product, and only those |
| `Sizes.HeadDecodes` | malloc.c:2247-2271 | Size, cinuse and pinuse come back from the packed head, and setting or clearing pinuse changes nothing else |
| `Rings.InsertAfterHead` | malloc.c:3576-3579 | The four stores of an insertion turn the image of a ring into the image of the ring with the chunk after the header |
| `Rings.RemoveAt` | malloc.c:3597-3598 | The two stores of an unlinking turn the image of a ring into the image of the ring without the chunk |
| `Tries.InsertSpec` | malloc.c:3658-3704 | Inserting keeps the trie's ordering by size bits and its unique sizes, and adds exactly the chunk |
| `Tries.RemoveRootSpec` | malloc.c:3696-3743 | Replacing a node by its rightmost leaf keeps the trie and takes away exactly that chunk |
| `Tries.RemoveMembers` | malloc.c:3711-3780 | Unlinking takes exactly the chunk out of the tree's chunks |
| `Tries.RemoveKeepsShape` | malloc.c:3711-3780 | Unlinking keeps the trie's ordering by size bits and its unique sizes, and adds no size |
| `TrieLinks.PlaceSpec` | malloc.c:3643-3708 | The stores of insert_large_chunk turn the memory image of a trie into the image of the trie with the chunk, touching only links of its nodes |
| `TrieUnlink.UnlinkSpec` | malloc.c:3711-3780 | The stores of unlink_large_chunk turn the memory image of a trie into the image of the trie without the chunk, touching only links of its nodes |
| `TrieUnlink.LocateSpec` | malloc.c:3711-3712 | The parent and slot words of the chunk lead to the subtree of its size |
| `FreeLists.InsertSmallChunk` | malloc.c:3565-3580 | The chunk becomes the first of the small bin of its size, all bins stay good, and only link words inside binned chunks and bin headers are written |
| `FreeLists.UnlinkSmallChunk` | malloc.c:3584-3607 | The chunk leaves its bin, whose other chunks keep their order, the map bit goes with the last one, and the corruption action is not reached |
| `FreeLists.UnlinkFirstSmallChunk` | malloc.c:3610-3625 | The first chunk of a marked small bin, of exactly the bin's size, leaves it |
| `TreeLists.InsertBelow` | malloc.c:3660-3706 | The descent stores the chunk in the slot that the trie ordering selects, or chains it behind the node of its size; it ends because every level consumes one size bit |
| `TreeLists.InsertLargeChunk` | malloc.c:3643-3708 | The chunk joins the treebin of its size where the insertion into the trie puts it, all bins stay good, and only link words inside binned chunks and bin roots are written |
| `TreeLists.UnlinkLargeChunk` | malloc.c:3711-3780 | The chunk leaves its treebin, which becomes what the removal makes of the trie, all bins stay good, and the corruption actions are not reached |
| `BestFit.SearchBin` | malloc.c:4434-4460 | The descent by size bits leaves a best candidate seen and a subtree that covers everything better in the bin |
| `BestFit.SmallestFrom` | malloc.c:4471-4478 | Following leftmost children finds the smallest sufficient size of the subtree |
| `BestFit.PickLarge` | malloc.c:4429-4478 | The choice of tmalloc_large is a chunk of the least sufficient size over all treebins, or none when no large chunk suffices |
| `BestFit.PickSmallest` | malloc.c:4500-4516 | The choice of tmalloc_small is a smallest chunk of all treebins |
| `Retile.OneOK` | malloc.c:3072-3083 | Rewriting the heads and foot of a run of chunks as one chunk keeps all boundary tags in agreement |
| `Retile.TwoOK` | malloc.c:2281-2288 | Rewriting a run of chunks as two chunks keeps all boundary tags in agreement |
| `HeapSteps.BinStep` | malloc.c:3784-3790 | Bin operations keep the whole invariant and every live payload; only which free chunks are binned changes |
| `HeapSteps.OneStep` | malloc.c:3418-3476 | Making one chunk of a run keeps the whole invariant and every payload outside the run |
| `HeapSteps.TwoStep` | malloc.c:3418-3476 | Making two chunks of a run keeps the whole invariant and every payload outside the run |
| `HeapSteps.TopOneStep` | malloc.c:4723-4729 | A run that ends at top joins it, the whole invariant and all other payloads kept |
| `HeapSteps.TopTwoStep` | malloc.c:4639-4645 | Top starts later and a block takes the room, the whole invariant and all other payloads kept |
| `Carve.TakeWhole` | malloc.c:3077-3079 | A free chunk goes to the user whole: one new block, no other payload touched |
| `Carve.TakePart` | malloc.c:4608-4612 | The first bytes of a free chunk go to the user and the rest stays free, no other payload touched |
| `Carve.SplitRun` | malloc.c:4819-4821 | One run is cut into two blocks, their contents kept but for the new head |
| `Carve.SplitLead` | malloc.c:4932-4933 | The same with the second block marked first |
| `Carve.GrowPart` | malloc.c:4843-4850 | A block grows into the free chunk after it and what is left stays free, the block's contents kept |
| `Carve.GrowIntoTop` | malloc.c:4826-4836 | A block grows into top, every payload kept |
| `Carve.FreeRun` | malloc.c:2286-2288 | A run becomes a free chunk that the chunk after it reports |
| `Carve.TakeTop` | malloc.c:4639-4645 | The first bytes of top go to the user, every payload kept |
| `Carve.JoinTop` | malloc.c:4382-4390 | A run that ends at top joins it |
| `Binning.InsertChunk` | malloc.c:3784-3786 | A free chunk goes to its bin with the invariant of the whole heap |
| `Binning.UnlinkChunk` | malloc.c:3788-3790 | A free chunk leaves its bin with the invariant of the whole heap |
| `Binning.ReplaceDv` | malloc.c:3627-3638 | The old designated victim, known to be small, goes to a small bin and the new one takes its place |
| `Release.IntoTop` | malloc.c:4382-4390 | A chunk given back joins top, and the designated victim is cleared when it was part of it |
| `Release.IntoDv` | malloc.c:4391-4397 | A chunk given back joins the designated victim after it |
| `Release.IntoNext` | malloc.c:4398-4408 | A chunk given back joins the free chunk after it and is binned, or stays the designated victim |
| `Release.Alone` | malloc.c:4410-4413 | A chunk given back before a chunk in use becomes a free chunk and is binned |
| `Segments.ResizeTop` | malloc.c:4202-4203 | Top gains or loses room at its end with its segment, the whole invariant and every payload kept |
| `Segments.FirstSegment` | malloc.c:4172-4193 | The first region becomes a segment that is all top |
| `Prepend.PrependStep` | malloc.c:4215-4218 | A region that ends where a segment begins becomes its lower part, whatever segment that is, the invariant and every payload kept |
| `AddSegment.RecordFits` | malloc.c:3982-3992 | The segment record and at least two fenceposts fit in the reserved foot of the old top |
| `AddSegment.AddSegmentStep` | malloc.c:3977-4027 | Top moves to a new segment and the old top leaves a record, fenceposts and perhaps a free chunk, the invariant and every payload kept |
| `MoreCore.CoveredIffContiguous` | malloc.c:4121-4131 | What the partial-failure path takes for its own is covered by the two regions it obtained exactly when the second continues the first |
| `SegmentList.SegmentHolding` | malloc.c:2696-2704 | The walk finds the record of the segment that holds an address, or says that there is none |
| `SegmentList.SegmentEndingAt` | malloc.c:4197-4199 | The walk finds the first segment that ends at the new region, if any |
| `SegmentList.SegmentStartingAt` | malloc.c:4208-4210 | The walk finds the segment that begins where the new region ends, if any |
| `Obtain.AsizeFits` | malloc.c:4048-4050 | The rounded size passes the wrap-around test exactly when nothing wrapped, and then includes the whole padding |
| `Obtain.TwoPartTotal` | malloc.c:4107-4125 | Asking for what top lacks and then for the rest comes to the same total as asking once |
| `Obtain.LimitTestIs` | malloc.c:4051-4055 | The 64-bit test of the footprint limit is the comparison of the true sum |
| `Obtain.AskContiguous` | malloc.c:4081-4138 | The contiguous calls: first a whole region that ends on a page boundary, later what top lacks and, when that comes from elsewhere, the rest, or it goes back |
| `Obtain.AskSystem` | malloc.c:4078-4162 | The system is asked for exactly the sizes of the specification in Asking, in its order, and the region is exactly the one that its answers give; for any answers it is ours, and unless a noncontiguous call yielded less or more than was asked for, it covers the padded request and respects the footprint limit |
| `Obtain.LimitHoldsUnlessMore` | malloc.c:4054-4162 | What a noncontiguous call yields respects every limit that passed the test exactly when it is no more than was asked for |
| `Obtain.MoreThanAskedPassesLimit` | malloc.c:4148-4164 | A noncontiguous call that yields more than was asked for is accepted past the footprint limit |
| `Asking.NothingExactly` | malloc.c:4078-4162 | No region comes exactly when the contiguous calls fail, as first calls, as calls for what top lacks or as calls for the rest, and the noncontiguous one is not made, fails, or yields no more than the request and the foot |
| `Asking.SbrkExtends` | malloc.c:4086-4105 | With an sbrk that never refuses and that nobody else uses, the contiguous calls always obtain a region, it continues the segment of top, it covers the request, and the break is where it ends |
| `SystemMemory.Fenceposts` | malloc.c:4010-4019 | The fencepost loop writes at least two fenceposts and nothing outside the foot |
| `SystemMemory.FirstTime` | malloc.c:4172-4193 | The first region initializes a valid heap without blocks |
| `SystemMemory.AppendToTop` | malloc.c:4200-4204 | A region that continues the segment of top enlarges top |
| `SystemMemory.AddSegmentAt` | malloc.c:3977-4027 | add_segment keeps the heap valid, all blocks and all payloads, and top is in the new segment |
| `SystemMemory.PrependAlloc` | malloc.c:3935-3974 | prepend_alloc serves the request from the new region and consolidates the remainder with the first chunk of the old base |
| `SystemMemory.Place` | malloc.c:4164-4227 | The region becomes the first segment, continues top, serves the request below a segment that begins where it ends, or becomes a segment of its own, and top has exactly what is left of it |
| `SystemMemory.Install` | malloc.c:4164-4239 | The region serves the request except exactly when it is 88 bytes more than the request at an address that is 8 modulo 16 and neither continues the segment of top nor ends where a segment begins |
| `SystemMemory.SomeRegionFallsShort` | malloc.c:4155-4160 | There is such a region that passes the tests of the noncontiguous call: 120 bytes for a request of 32 |
| `SystemMemory.SysAlloc` | malloc.c:4032-4243 | Null exactly when the padding overflows, the limit forbids it, every way of asking fails, or the region falls short; what is asked and by how much the footprint grows is determined; the heap stays valid, one closely fitting block is served, and growth passes a nonzero limit only when a noncontiguous call yields more than was asked for |
| `SystemMemory.SbrkServes` | malloc.c:4031-4243 | With such an sbrk sys_alloc never gives null before the address space or the limit is used up |
| `Allocate.SmallBits` | malloc.c:4574-4600 | The shift and mask tests find the exact or next small bin, else the first later one, and nothing only when no later bin is marked |
| `Allocate.TmallocLarge` | malloc.c:4429-4497 | A best fit over all treebins, and null exactly when none suffices or the designated victim fits at least as well |
| `Allocate.TmallocSmall` | malloc.c:4500-4535 | The smallest tree chunk serves a small request, whole when less than a chunk would be left, and else its remainder becomes the designated victim |
| `Allocate.UseDv` | malloc.c:4620-4637 | The designated victim is split, or used up when less than a chunk would be left |
| `Allocate.SmallFromBins` | malloc.c:4570-4621 | A small request takes the smallest binned chunk that suffices, and is turned down exactly when there is none, or none that fits exactly while the victim suffices; the remainder becomes the victim |
| `Allocate.Malloc` | malloc.c:4539-4668 | Null exactly when nothing in the heap fits and sys_alloc gives null; the system is asked exactly when nothing fits; else one new block with all other payloads kept, from a binned chunk of least sufficient size, the first of its bin if small, from the designated victim, or from top, in the order of the source, exactly the padded size or the whole chunk when less than a chunk would be left, and the remainder becomes the victim where the source says so |
| `Free.MergeBack` | malloc.c:4359-4380 | Consolidation backward, after which the chunk waits for the next step or has joined the designated victim |
| `Free.MergeForward` | malloc.c:4381-4413 | Consolidation forward with top, the designated victim, a free chunk, or nothing |
| `Free.DisposeChunk` | malloc.c:4358-4424 | Exactly the block is gone from the live blocks, the heap is valid, all other payloads are kept, and the designated victim stays, grows or goes into top |
| `Free.TrimExtraIs` | malloc.c:4298-4300 | The size offered is the most whole granules that leave something of top beyond the pad |
| `Free.SysTrim` | malloc.c:4290-4353 | The system is asked exactly when top exceeds the pad and its foot, and offered the whole granules beyond them exactly when the break is where top ends; the first segment, top and the footprint shrink by what it took back, and the trim check is set accordingly; blocks and payloads stay |
| `Asking.SbrkTrims` | malloc.c:4295-4333 | With such an sbrk all that is offered goes back, and the break is then where top ends |
| `Free.FreeMem` | malloc.c:4677-4784 | free takes exactly the block out of the live blocks and keeps all other payloads; memory goes back exactly when the block joined top and top is then past the threshold, by as much as sys_trim says; the designated victim stays, grows or goes into top |
| `Payload.StoreStep` | malloc.c:2062-2111 | Writing anywhere in a block's payload, the next chunk's prev_foot word included, disturbs neither the invariant nor another payload |
| `Payload.Store` | malloc.c:2100-2111 | A caller's store into its block keeps the heap valid and all other payloads |
| `Payload.CopyBytes` | malloc.c:5213-5215 | The bytes asked for are copied and nothing else is written |
| `Calloc.CallocMem` | malloc.c:4786-4799 | A product that overflows gives null; otherwise a block for the product, cleared as far as asked for, or null exactly when malloc gives null for the product |
| `Realloc.TryReallocChunk` | malloc.c:4806-4883 | In place the block gets exactly the padded size, or all there is when less than a chunk would be left, with its contents up to the smaller size and all other payloads kept; null, with nothing changed, exactly when the block is too small and what follows it has no room |
| `Realloc.ReallocMem` | malloc.c:5180-5223 | The same block exactly when it has room; else a new block with the first min(old usable, requested) bytes, or null with the old block live and unchanged, exactly when the request is too large or malloc gives null for it; every other block as it was |
| `Memalign.ClearLowest` | malloc.c:4889 | The mask test recognises exactly the powers of two |
| `Memalign.HighMask` | malloc.c:4920-4922 | Masking with the negated alignment rounds down to a multiple |
| `Memalign.DoublingReaches` | malloc.c:4889-4892 | The doubling loop can reach the alignment, before it wraps to zero, exactly up to 2^63 |
| `Memalign.RoundedIsLeast` | malloc.c:4887-4892 | The alignment used is the least power of two, from the minimal chunk on, that reaches the one asked for |
| `Memalign.RoundAlignment` | malloc.c:4887-4892 | The loop computes that alignment |
| `Memalign.SpotFits` | malloc.c:4909-4924 | The chosen spot is aligned, the piece before it is at least a minimal chunk, and the padding leaves room for the request behind it |
| `Memalign.GiveBackLead` | malloc.c:4925-4936 | The leading piece is given back and the aligned block remains, all other payloads kept |
| `Memalign.GiveBackTail` | malloc.c:4938-4948 | Spare room at the end is given back when it exceeds a minimal chunk |
| `Memalign.MemalignMem` | malloc.c:4885-4957 | A new block at a multiple of the rounded alignment with at least the padded size, or null exactly when the request is too large or malloc gives null for the request with its padding; the heap is valid and every other payload kept |
| `Ialloc.ContentsSize` | malloc.c:5000-5010 | The total of the padded element sizes, in 64-bit arithmetic |
| `Ialloc.RoomUnlessWrapped` | malloc.c:4998-5020 | A chunk of any size that malloc may give for the bytes asked holds the elements and the pointer array exactly when their true sum is below 2^64 |
| `Ialloc.TwoHalvesWrap` | malloc.c:5006-5012 | For two elements of 2^63 bytes ialloc asks for the least chunk |
| `Ialloc.CutStep` | malloc.c:5051-5060 | Cutting one element off the rest of the aggregate keeps the invariant of the whole heap |
| `Ialloc.CutAll` | malloc.c:5049-5066 | The loop turns one chunk into adjacent blocks of the element sizes, the last taking what is left, and stores their addresses |
| `Ialloc.CutChunk` | malloc.c:5038-5066 | With our own pointer array split off first, the elements and the array make up the whole chunk |
| `Ialloc.IallocMem` | malloc.c:4966-5083 | Adjacent disjoint new blocks of the element sizes whose sizes add up to the aggregate, cleared if asked for, all other payloads kept; or failure, exactly when malloc gives null for the aggregate |
| `BulkFree.JoinTwo` | malloc.c:5111-5116 | Two adjacent blocks become one |
| `BulkFree.FreeOne` | malloc.c:5096-5125 | One turn of the loop gives up the first pointer, or hands it on joined with its neighbour |
| `BulkFree.BulkFreeMem` | malloc.c:5092-5132 | Exactly the blocks named in the array are gone, the array is cleared, all other payloads are kept, and memory goes back exactly when top is past the threshold at the end, by as much as sys_trim says |
| `BulkFree.FreeEach` | malloc.c:4677-4784 | Freeing the pointers one at a time takes exactly their blocks out of the live blocks |
| `BulkFree.BulkIsOneByOne` | malloc.c:5085-5132 | bulk_free leaves the same chunks as freeing the pointers one at a time in any order, but for the end of top, which is where the system left it |
| `Determined.LiveBlocksDetermineHeap` | malloc.c:4358-4424 | The live blocks and the segments determine every chunk, and the end of the first segment only the size of top: so free chunks are fully coalesced and the order of freeing does not matter |
| `Determined.AllFreedIsAllTop` | malloc.c:4677-4784 | In a one-segment heap with no live block both maps are zero, the designated victim is empty, and top spans the segment |
| `Statistics.WalkSegment` | malloc.c:3494-3508 | The walk of a segment passes each of its chunks once and stops at top or the fenceposts |
| `Statistics.InternalMallinfo` | malloc.c:3482-3519 | All zero before the first request; then uordblks and fordblks add up to the footprint, usmblks is the greatest footprint so far, and what the walk finds, each chunk once, with top and its foot never exceeds the footprint |
| `Checks.CheckInuseChunk` | malloc.c:3248-3256 | The assertions on chunks in use hold of every live block and every segment record |
| `Checks.CheckFreeChunk` | malloc.c:3259-3281 | The assertions on free chunks hold of every free chunk, the designated victim included: boundary tags and neighbours of all, and the links both ways of every chunk but the victim, which is in no bin |
| `Checks.CheckVictim` | malloc.c:3459-3463 | The assertions on the designated victim hold: its head agrees with dvsize, and it is in no bin |
| `Checks.CheckTopChunk` | malloc.c:3220-3232 | The assertions on top hold |
| `Checks.CheckTree` | malloc.c:3296-3344 | The assertions on the tree of every treebin hold, all the way down: index and size range, the chain with its links both ways, exactly one chunk of a chain with a parent, parents and children that name each other, and the smaller size to the left |
| `Checks.CheckSmallBin` | malloc.c:3357-3378 | The walk back from the header of a small bin meets free chunks of the bin's size only, ends at the header, and starts at the last chunk |
| `Checks.MapsTellBins` | malloc.c:3346-3363 | A bin's bit is set exactly when some chunk belongs in it |
| `Checks.KeptInOnePlace` | malloc.c:3382-3447 | A free chunk is in exactly one place, its bin or the designated victim, and a chunk in use in none |
| `Session.BlocksApart` | malloc.c:2062-2111 | Live blocks are 16-aligned, inside a segment, and their payloads do not overlap |
| `Session.Step` | malloc.c:4539-5223 | Any one call does what it should to the blocks held and the words known: allocation gives a block not held before, and null exactly when nothing fits and the system gives nothing that does, calloc zeros, realloc carries words over, ialloc gives adjacent blocks, frees give up exactly the blocks named, and a store changes one word |
| `Session.LastStoreReads` | malloc.c:2062-2111 | At every later moment of a run the last word stored in a slot of a block that is still held is what memory holds there, wherever reallocs of every outcome have moved the block, as long as each of them left the slot within the size asked for |
| `Session.StoredWordMoves` | malloc.c:5204-5220 | A word known before realloc is known, and in memory, at its place in the resized block when it lies within both sizes |
| `Session.ClearedReadsZero` | malloc.c:4786-4799 | Every whole word of a block from calloc is known to be zero and is zero in memory |
| `Session.AggregateKnown` | malloc.c:4966-5083 | After ialloc every element is held, its whole words are known to be zero if it was cleared, and the array, if part of the chunk, is known to hold its address |
| `Session.RunAll` | malloc.c:3418-3476 | Any sequence of malloc, calloc, memalign, realloc, ialloc, free, bulk_free and stores, on a heap that grows and shrinks with any system, is a run of such calls with the invariant at every moment, and every word reads back as it was last stored, at the place to which reallocs have taken its block |
| `OpcodeClasses.IsExchangeable` | transform.cpp:12-28 | The loop decides whether two opcodes take operands of the same number, types and register classes |
| `OpcodeClasses.FindUnknown` | transform.cpp:158-166 | The loop finds whether some operand is of unknown or memory type |
| `OpcodeClasses.JoinClass` | transform.cpp:177-184 | Joining a new opcode to the class of an exchangeable leader, or leaving it alone when there is none, keeps classes and exchangeability the same thing |
| `OpcodeClasses.BuildOpcodeClasses` | transform.cpp:168-187 | The classes built one opcode at a time are exactly the equivalence classes of exchangeability on the usable opcodes |
| `OpcodeClasses.ClassmatesFit` | transform.cpp:215-226 | A well-formed instruction's opcode is classed, and any opcode of its class fits its operands |
| `Transform.Transformation.constructor` | transform.h:93-105 | A new transformation has the block as it is, its length, and the opcode classes |
| `Transform.Transformation.ReplaceInst` | transform.h:81-87 | The new instruction takes the place of the old one, which is erased if asked |
| `Transform.Transformation.RandInstr` | transform.cpp:302-358 | A random instruction has a usable opcode, operands that match its descriptor in number and kind, registers marked as definitions exactly where the descriptor defines them, equal registers where two are tied, and, unless tied operands have different classes, every register from the class of its operand and every immediate from the pool |
| `Transform.Transformation.MutateOpcode` | transform.cpp:206-233 | One instruction gets an opcode of its class, the lookup never fails, every register stays in the class of its operand and, unless classes mix definitions, rightly marked, and undoing would restore the block |
| `Transform.Transformation.MutateOperand` | transform.cpp:235-272 | One operand of one instruction gets another value of its kind, with it the register tied to it and nothing else, every instruction stays well formed with registers from the classes of their operands unless tied operands have different classes, and undoing would restore the block; without operands nothing changes |
| `Transform.OpcodesKeepTies` | transform.cpp:215-229 | Changing opcodes within classes keeps tied registers equal exactly when no class mixes opcodes that tie their first two registers with opcodes that do not |
| `Transform.OpcodesKeepDefs` | transform.cpp:215-229 | Changing opcodes within classes keeps definitions rightly marked, on all instructions, exactly when opcodes of a class define the same register operands |
| `Transform.DrawingKeepsPools` | transform.cpp:235-285 | Redrawing an operand and its tied partner keeps every register in the class of its operand, on all instructions, exactly when tied operands of every usable opcode have the same registers to choose from |
| `Transform.Transformation.Replace` | transform.cpp:360-372 | One instruction of any block is replaced by a random one as randInstr makes it, and undoing would restore the block |
| `Transform.Transformation.InsertInstr` | transform.cpp:405-421 | A random instruction as randInstr makes it is added to any block, never behind the last, and undoing would restore the block and its count |
| `Transform.Transformation.DeleteInstr` | transform.cpp:423-439 | One instruction of any block goes, and undoing would restore the block and its count |
| `Transform.Transformation.Move` | transform.cpp:374-403 | One instruction of any block goes to a different place, and undoing would restore the block |
| `Transform.Transformation.DoSwap` | transform.cpp:144-156 | Clones of two instructions take each other's places and the iterators follow |
| `Transform.Transformation.Swap` | transform.cpp:189-204 | Two different instructions of any block change places, and undoing would restore the block |
| `Transform.Transformation.Undo` | transform.cpp:82-126 | The block says what it said before the last change, and the count is its length |
| `Transform.Transformation.Accept` | transform.cpp:62-80 | The block stays, and exactly the instruction that was replaced or deleted goes out of existence |
| `Search.CalculateCost` | search.cpp:16-32 | None when a worker failed, else the sum of penalties and distances in 32 bits |
| `Search.TestsHoldUnlessWrapped` | search.cpp:16-32 | A cost is zero for exactly the perfect answers unless the sum wraps to zero, and at least the penalty for every signal unless it wraps below the penalty: in both cases if and only if |
| `Search.WrappedCosts` | search.cpp:24-28 | One worker whose heap differs in 2^32 bits costs nothing, and so do a signal and a distance that complements the penalty |
| `Search.TrustedUpToSize` | search.cpp:16-32 | With n of at most 32 workers both tests can be trusted, whatever the answers, exactly when less than 2^32 bits are compared in all |
| `Search.ReportMeans` | server.c:272-298 | A child's report is bounded by the bits it compares, and is all zero exactly when output registers, stack and heap agree |
| `Search.TransformRewrite` | search.cpp:36-75 | The proposal is one instruction with another opcode of its class, with another operand, or made anew, one added, removed or moved, or two exchanged, an addition to an empty block; undoing would restore the block, and its instructions stay well formed |
| `Search.OneRound` | search.cpp:81-98 | After a round that ran, block and cost are those of the proposal when it is below the penalty and no worse, or worse by chance, and otherwise the old ones; so it takes the search from one state to the next |
| `Search.TakenRanClean` | search.cpp:88-94 | No rewrite that signalled on any worker is taken unless the sum wrapped |
| `Search.CostIsTested` | search.cpp:78-115 | Over every sequence of rounds the cost is the tested cost of the current rewrite, below the penalty, from the first acceptance on, and nothing has changed before |
| `Search.CostNeverRises` | search.cpp:86-101 | While no worse rewrite is taken by chance the cost of the current rewrite never rises |
| `Search.ZeroEnds` | search.cpp:78-115 | A proposal tested at cost zero is the last, and is what the search ends with; and it ends with cost zero only so |
| `Search.Synthesize` | search.cpp:78-115 | The search goes through rounds that may follow one another and ends exactly with the first proposal tested at cost zero, which the block then is, or when a test fails to run; below 2^32 cost zero means no distance on any worker |
| `Search.FoundIsRight` | search.cpp:112 | A rewrite tested at cost zero has all distances zero and no signal on every worker exactly when the true sum is below 2^32 |
| `Search.CopyIsRightUnlessTied` | search.cpp:149-183 | A new best copy is of the tested rewrite, at distance zero, exactly when its cost does not tie with the drawn bound above the current cost; at a tie it is of the undone block, which is not at distance zero |
| `Search.OptimizeExactly` | search.cpp:136-194 | Over every possible run from a correct start, the result is correct exactly when the last copy was not taken at a tie after some rewrite had been accepted |
| `Search.RunLengths` | search.cpp:131-139 | No best copy is longer than the starting block, ties included |
| `Search.CostStaysWithinBounds` | search.cpp:142-184 | The cost of the current rewrite rises only within the bounds that are drawn |
| `Search.TieKeepsWrongCopy` | search.cpp:149-183 | A correct block of three instructions and a possible run of two deletions and an insertion that ends with a copy of a rewrite three bits off |
| `Search.OneTrial` | search.cpp:142-184 | One iteration leaves block and cost as the distance, the cost and the drawn bound say, and the best copy as the distance and its cost say; so it takes the run from one state to the next |
| `Search.Optimize` | search.cpp:136-194 | The result is that of a possible run; from a correct start it is correct exactly when the last copy was not taken at such a tie, and it is never longer than the start |
| `Distances.PopOfXor` | server.c:99-101 | Counting the ones of the exclusive or counts the differing bits |
| `Distances.ByteDistCounts` | server.c:99-101 | The byte distance is the number of bits in which the two bytes differ |
| `Distances.ByteMetric` | server.c:99-101 | The byte distance is a metric with values up to eight |
| `Distances.MemDist` | server.c:103-113 | The loop counts the places, byte and bit, in which the two stretches of memory differ |
| `Distances.DistCounts` | server.c:103-113 | The sum of byte distances is the number of places, byte and bit, in which the two differ |
| `Distances.MemMetric` | server.c:103-113 | The memory distance is a metric and at most eight per byte |
| `Distances.GetRegDist` | server.c:118-135 | The loop adds up the byte distances of two register slots of one size |
| `Distances.LookElsewhere` | server.c:285-294 | A value found in another register of the class costs one |
| `Distances.MisplacedCostsOne` | server.c:276-297 | An output register counts the bits in which it differs, or one when it differs in more and another dumped register of its class holds its value |
| `Distances.RelaxedBelowStrict` | server.c:278-297 | The relaxed distance never exceeds the bitwise one and vanishes exactly when all output registers agree |
| `Distances.StrictAtMost` | server.c:278-297 | Over slots that follow one another the bitwise distance of all output registers is at most the bits of the buffer |
| `Distances.RegDistance` | server.c:276-297 | The loops compute the relaxed distance, which vanishes exactly when all output registers agree |
| `RegLayout.Align` | mf_instrument.cpp:45-49 | The least multiple of the alignment not below the address |
| `RegLayout.EquivalentRegs` | mf_instrument.cpp:56-68 | The registers of the output registers' classes that are not outputs, in ascending order |
| `RegLayout.CalculateRegBufferLayout` | mf_instrument.cpp:51-98 | Output registers first; each slot at the first aligned offset behind the one before it, in a buffer that ends with the last |
| `RegLayout.LayoutServesDistances` | server.c:179-182 | Every slot lies in the buffer whose size the server computes, slots follow one another, and one class has one size, so the size assertion cannot fail |
| `Protocol.StepKeepsInv` | server.c:213-345 | Every step of parent, worker, child or client keeps the protocol's invariant |
| `Protocol.RunInv` | server.c:213-345 | The invariant holds at every point of every run |
| `Protocol.ComparesAfterSnapshot` | server.c:215-216 | Whenever a child exists the target has run and its stack, heap and registers are in the shared memory of its worker |
| `Protocol.OneAnswerEach` | server.c:299-319 | Each path sent gets at most one answer, and exactly one by the time its call returns: from the child when it exits with zero and from the worker otherwise |
| `Protocol.ResultsInOrder` | replay_cli.cpp:79-91 | Entry j of a call's result is worker j's answer to the path of that call |
| `Protocol.CallNearsEnd` | replay_cli.cpp:79-91 | While a call is under way, every step of any process but the one that returns its result leaves strictly less to do |
| `Protocol.CallGoesOn` | server.c:299-319 | While a call is under way there is always a step other than quitting, one that leaves less to do or returns the result |
| `Protocol.CallEnds` | replay_cli.cpp:79-91 | In every run a call that is under way has returned, with an answer from every worker, or the client has quit, after a number of steps bounded by what was left to do |
| `Protocol.EveryStepNearsEnd` | replay_cli.cpp:156-166 | Once the kill messages are sent every step leaves less to do |
| `Protocol.KillEndsWorkers` | server.c:242-245 | As long as a worker lives after the kill messages there is a step to take: the message ends every worker |

## Left out

- mmap, mremap, direct-mmapped chunks and `release_unused_segments`: not in this build.
- Locks, footers, mspaces, `PROCEED_ON_ERROR` and the corruption and usage actions: not in this build, or shown unreachable where the code tests for them.
- `malloc_stats`, `mallopt`, `malloc_inspect_all`, `realloc_in_place`, `valloc` and parameter initialization: configuration, output, or thin wrappers of what is modelled.
- Memory is one map of 8-byte words by byte address, so overlapping accesses at other offsets are not modelled; copying and clearing treat a last partial word bytewise, in little-endian order.
- The static bin headers and tree roots are given fixed addresses below all chunks, and the address of `m->seg` a fixed number.
- `TreeIndex.Index` is the portable form of the bin index; the gcc form is compared with it but not used by the operations.
- `dlfree` and `dispose_chunk` repeat the same consolidation code; `Free.MergeBack` and `Free.MergeForward` model it once, and `tmalloc_large` unlinks through `unlink_chunk`.
- SystemMemory.PrependAlloc: writes the head of the remainder once more than the source, before the consolidation that overwrites it.
- The retry loops of `select`, `Move`, `randReg` and `chooseNonBranchOpcode` are represented by the values they leave with; probabilities, `exp` and `log` by nondeterministic choice.
- Search.Synthesize: bounded by a number of rounds given by its caller, because the loop of the source need not end; the claims hold for every such number.
- Transform.Transformation.Accept: the instruction that an operand mutation without operands leaves detached is never deleted, as in the source; it stays in existence outside the block.
- Operand types that the instruction table calls neither unknown, immediate, register, memory, pc-relative nor first-target are not represented; the source treats them as unreachable.
- RegLayout.CalculateRegBufferLayout: offsets are unbounded, where the source uses 32-bit unsigned numbers.
- Emission of instructions, compilation and linking of rewrites, and the contents of messages: thin use of foreign libraries.
- Failure to connect, signal handlers, partial reads and `mprotect` in the server: foreign calls.
- Nested invocations of the target while a snapshot is being taken are not modelled; each worker has one parent.
