# CustomMemoryAllocator in Dafny

A model of the allocator engine of CustomMemoryAllocator: a user-space heap
manager that serves `allocate`/`deallocate` requests from one arena obtained
with `malloc`. The arena holds blocks. Each block is an 8-byte header
followed by its payload, and the first header byte holds the payload size.
Two singly linked lists record the blocks: the free list and the allocated
list. Allocation picks a free block by first fit, best fit or worst fit and
splits it when more than a header's worth is left over. Deallocation
coalesces with a free right neighbour. `is_fragmented` reports fragmentation
and merges one adjacent free pair as a side effect. `compact_allocation`
slides allocated blocks down over the leftmost free block and reports the
addresses that changed.

Files:

- `header_codec.dfy` (module `HeaderCodec`): the header byte.
  - A size is written through `char*`, so only its low byte is kept.
  - It is read back as an x86 signed char, usually through `abs`.
  - The full 8-byte little-endian codec is defined next to it.
- `list.dfy` (module `List`): the linked list of `myalloc/list.c`.
  - The class `BlockList` holds the block addresses as a sequence, head
    first. A node is named by its position.
  - The sequence functions (`IndexOf`, `Remove`, `InsertedAtHead`,
    `FirstMinIndex`) specify its methods.
- `heap_spec.dfy` (module `HeapSpec`): each public operation of
  `myalloc/myalloc.c` as a function on a value `Heap(free, alloc, hdr)`.
  - This covers the placement strategies, `allocate`, `deallocate`,
    `is_fragmented` and one round of compaction.
  - The lemmas state what the code promises about these functions.
- `myalloc.dfy` (module `Myalloc`): the global `struct Myalloc` as the
  class `Allocator`.
  - Its methods update the two lists and the headers in place, with the
    loops of the source.
  - Each method is proved to leave `State()` equal to the corresponding
    `HeapSpec` function of the old state.
  - A successful `allocate`, a `deallocate` with a non-empty free list,
    and a compaction that runs its loop to the end are proved to leave the
    cached statistics equal to the sums over the lists. The merge of
    `is_fragmented`, a single compaction round, a failed `allocate`, a
    `deallocate` with an empty free list and the early exits of
    `compact_allocation` leave them as they were, as the source does, so
    they can be stale. Initialisation caches the rounded
    size, which the one-byte header reads back differently above 128.
- `accounting.dfy` (module `Accounting`): the byte accounting of the arena.
  - The registered blocks, headers included, cover the `size + 8` bytes
    obtained at initialisation.
  - `allocate`, `deallocate` without a right neighbour, and the merge of
    `is_fragmented` keep that total.
- `findings.dfy` (module `Findings`): the defects listed under Findings.
  - Each has a lemma that exhibits it on the as-written functions.
  - Each also has a corrected definition with the intended property proved.
- `wrappers.dfy`: the `Option` type.

Addresses are offsets from the start of the chunk that `malloc` returns, so
the first payload (`myalloc.memory`) is at 8. A header is stored as its
first byte, in a map keyed by the payload address; a header never written
reads 0. Sizes written into headers survive a round trip only in 0..128, so
the lemmas about sizes are stated under that bound. The best-fit and
worst-fit lemmas need a narrower bound: every free header byte below 128
(see Left out).

Where the code falls short of what its own comments and descriptions
promise, the model follows the code, and each gap is listed under
Findings with a corrected version:

- `deallocate` is described as returning the block to the allocator
  (myalloc/myalloc.c:192-194). Its right merge (:217-230) returns before
  the block leaves the allocated list.
- The comments at :233-241 describe a merge with a free left neighbour.
  That loop starts where the first loop ended, at the end of the list, so
  it never runs.
- Compaction is described as grouping the allocated blocks at the start of
  the arena and the free memory at its end (:369-370). The code examines
  only the head of the allocated list (:426-436), and the loop can run
  forever.
- The comment at :444 says the whole source block is copied. The new free
  entry is put at `dest + size_src + 8` (:447), which is 8 bytes below
  where the next block's payload belongs (its header starts there).

## Model

| member | source | states |
|---|---|---|
| HeaderCodec.Encode | myalloc/myalloc.c:168 | the stored byte agrees with the size modulo 256 (only the low byte of the `char` write survives) |
| HeaderCodec.Signed | myalloc/myalloc.c:118 | a stored byte read as a signed char lies in -128..127 and agrees with the byte modulo 256 |
| HeaderCodec.Decode | myalloc/myalloc.c:102 | a size read through `abs` lies in 0..128 |
| HeaderCodec.DecodeIsAbsSigned | myalloc/myalloc.c:102 | the `abs` read is the absolute value of the signed-char read |
| HeaderCodec.Size | myalloc/myalloc.c:207 | the size of a block as read through `abs` lies in 0..128 |
| HeaderCodec.Raw | myalloc/list.c:195-200 | the header byte read without `abs` lies in -128..127 |
| HeaderCodec.DecodeEncode | myalloc/myalloc.c:168-174 | a size of 0..128 written into a header reads back unchanged through `abs` |
| HeaderCodec.SignedEncode | myalloc/myalloc.c:118 | a size of 0..127 also reads back unchanged without `abs` |
| HeaderCodec.RawIsSize | myalloc/myalloc.c:118 | for a stored byte below 128, the raw read equals the `abs` read |
| HeaderCodec.EncodeWide | myalloc/myalloc.c:68 | the 8-byte size_t write has 8 bytes, the first being the low byte of the size |
| HeaderCodec.DecodeEncodeLE | myalloc/myalloc.c:68 | k little-endian bytes hold every value below 256^k, read back unchanged |
| HeaderCodec.DecodeEncodeWide | myalloc/myalloc.c:68 | every size_t value survives the full 8-byte header write and read |
| List.IndexOf | myalloc/list.c:92-102 | the position of the first node holding x; none exactly when x is absent |
| List.InsertedAtHead | myalloc/list.c:30-43 | after inserting at the head, x is in the list and the list grew by at most one node |
| List.InsertedAtHeadMultiset | myalloc/list.c:30-43 | head insertion adds x once when absent and otherwise changes nothing |
| List.Remove | myalloc/list.c:114-135 | deleting the node at position i drops that node and keeps all the others in order |
| List.RemoveMembers | myalloc/list.c:114-135 | in a list without repeats, x remains after the delete exactly when it was there and was not the deleted node |
| List.RemoveDistinct | myalloc/list.c:114-135 | deleting a node keeps a list free of repeats |
| List.FirstMinIndex | myalloc/list.c:162-180 | the position of the first least address of the sub-list |
| List.FirstMinUnique | myalloc/list.c:162-180 | a sub-list has exactly one first-minimum position |
| List.LowerBoundPermutation | myalloc/list.c:141-157 | a lower bound of a list bounds every permutation of it |
| List.RestSortedKeepsHead | myalloc/list.c:149-150 | sorting the tail in place keeps the head node, the prefix and the multiset |
| List.SortedAfterRest | myalloc/list.c:152-155 | a minimum head followed by a sorted permutation of the rest is a sorted permutation |
| List.BlockList.constructor | myalloc/list.c:15-25 | a list holding exactly the given addresses (NULL head or one created node) |
| List.BlockList.FindNode | myalloc/list.c:92-102 | returns the position of the first node holding x, NULL exactly when x is absent |
| List.BlockList.CountNodes | myalloc/list.c:72-87 | returns the number of nodes, 0 exactly for the empty list |
| List.BlockList.InsertHead | myalloc/list.c:30-43 | an address already present leaves the list unchanged; otherwise it becomes the new head |
| List.BlockList.InsertTail | myalloc/list.c:48-66 | an address already present leaves the list unchanged; otherwise it is appended |
| List.BlockList.DeleteNode | myalloc/list.c:114-135 | removes exactly the given node and keeps the others in order; a one-node list becomes empty |
| List.BlockList.SetBlock | myalloc/myalloc.c:173 | overwrites the address of one node and nothing else |
| List.BlockList.MinIndex | myalloc/list.c:162-180 | the scan finds the first node of least address from the given position on |
| List.BlockList.MinNodePrev | myalloc/list.c:162-180 | returns the predecessor of the first minimum, or NULL when the head is the minimum |
| List.BlockList.SwapNode | myalloc/list.c:235-254 | exchanges the head with the successor of prev, keeping the prefix and the multiset of addresses |
| List.BlockList.Sort | myalloc/list.c:141-157 | the list ends up in ascending address order, a permutation of the input, with the prefix untouched |
| List.BlockList.SmallestChunk | myalloc/list.c:185-205 | 0 for an empty list, otherwise a header value of the list no larger than any other (signed reads) |
| List.BlockList.LargestChunk | myalloc/list.c:210-230 | 0 for an empty list, otherwise a header value of the list no smaller than any other (signed reads) |
| HeapSpec.SumSizes | myalloc/myalloc.c:268-293 | the summed sizes lie between 0 and 128 per node |
| HeapSpec.SumSizesAppend | myalloc/myalloc.c:268-293 | the sum over two lists joined is the sum of the two sums |
| HeapSpec.SumSizesFrame | myalloc/myalloc.c:268-293 | header writes outside the list leave its sum unchanged |
| HeapSpec.SumSizesRemove | myalloc/myalloc.c:268-293 | deleting a node subtracts its size from the sum |
| HeapSpec.SumSizesReplace | myalloc/myalloc.c:172-173 | changing a node's address swaps its size for the new address's size in the sum |
| HeapSpec.RoundUp64 | myalloc/myalloc.c:51 | the rounded size is a multiple of 64, at least n and less than n + 64 |
| HeapSpec.InitialHeap | myalloc/myalloc.c:63-68 | one free block at the arena start, no allocated block, header reading `size` when it fits |
| HeapSpec.FirstFitFrom | myalloc/myalloc.c:100-110 | the first entry of at least n bytes, none exactly when no entry is large enough |
| HeapSpec.BestFitUpTo | myalloc/myalloc.c:112-125 | none exactly when no scanned entry is large enough; otherwise a large-enough scanned entry |
| HeapSpec.WorstFitUpTo | myalloc/myalloc.c:127-140 | none exactly when no scanned entry is large enough; otherwise a large-enough scanned entry |
| HeapSpec.Choose | myalloc/myalloc.c:98-147 | the strategy picks an entry of at least n bytes, none exactly when no entry is large enough |
| HeapSpec.BestFitIsBest | myalloc/myalloc.c:112-125 | best fit picks a least-size qualifying entry; every earlier qualifying entry is strictly larger |
| HeapSpec.WorstFitIsWorst | myalloc/myalloc.c:127-140 | worst fit picks a greatest-size qualifying entry; every earlier qualifying entry is strictly smaller |
| HeapSpec.Allocate | myalloc/myalloc.c:80-189 | NULL exactly when no free entry is large enough, and then the state is unchanged; otherwise a large-enough free address, now in the allocated list, at its head when it was not there before |
| HeapSpec.AllocateSplit | myalloc/myalloc.c:163-174 | a split moves the free entry to p + n + 8, sets p's header to n, and n + 8 + remainder equals the old size |
| HeapSpec.AllocateConsume | myalloc/myalloc.c:175-179 | with 8 bytes or fewer left over, the entry leaves the free list and no header changes |
| HeapSpec.Deallocate | myalloc/myalloc.c:196-263 | with an empty free list, deallocate changes nothing (the other paths are stated by DeallocateMergeRight, DeallocateMergeRightSize and DeallocateNoNeighbour) |
| HeapSpec.DeallocateMergeRight | myalloc/myalloc.c:217-223 | the neighbour leaves the free list, p heads it, and the allocated list is unchanged |
| HeapSpec.DeallocateMergeRightSize | myalloc/myalloc.c:221 | p's header reads size + 8 + neighbour size when that fits the header |
| HeapSpec.DeallocateNoNeighbour | myalloc/myalloc.c:254-256 | p leaves the allocated list and heads the free list, and no header changes |
| HeapSpec.LastAdjacent | myalloc/myalloc.c:317-332 | the last later entry adjacent to entry i, none exactly when no later entry is adjacent |
| HeapSpec.FindPair | myalloc/myalloc.c:314-334 | a found pair (i, j) has i < j and j is the last partner of i |
| HeapSpec.FindPairFirst | myalloc/myalloc.c:314-334 | the scan finds nothing exactly when no two entries are adjacent; what it finds is the first entry with a partner |
| HeapSpec.Merge | myalloc/myalloc.c:335-352 | a merge shortens the free list by one and leaves the allocated list alone |
| HeapSpec.IsFragmented | myalloc/myalloc.c:299-365 | false with no free entry; with one entry, true exactly when an allocated address lies above it; true with more than one, merging at most one pair |
| HeapSpec.MergeJoins | myalloc/myalloc.c:337-352 | the lower block stays, the upper one leaves the list, and the survivor's header reads a + 8 + b when that fits |
| HeapSpec.HeadCandidate | myalloc/myalloc.c:425-436 | only the head of the allocated list can be the candidate: none exactly when the list is empty or its head is not above the leftmost free block, otherwise the head |
| HeapSpec.Relocated | myalloc/myalloc.c:438-455 | a relocation does not touch the allocated list |
| HeapSpec.RelocatedFree | myalloc/myalloc.c:447-453 | after a relocation the leftmost free entry is gone (unless the new entry coincides with it), the entry size_src bytes above it is listed, every other free entry stays, and nothing else joins |
| HeapSpec.RelocatedHeaders | myalloc/myalloc.c:442-453 | the moved block's header byte lands on the leftmost free block when a byte is copied, an added free entry carries the leftmost block's old size, an entry already listed there keeps its header, and no other header changes |
| HeapSpec.CompactStep | myalloc/myalloc.c:407-456 | a compaction round does not touch the allocated list |
| HeapSpec.CompactStepEffect | myalloc/myalloc.c:408-455 | a round works on the lowest free address; it changes nothing and keeps dest when the allocated head is not above it, otherwise it returns that block's header address, copies the head's header byte there and lists the free entry size_src bytes above |
| HeapSpec.CompactLoop | myalloc/myalloc.c:407-456 | the compaction loop does not touch the allocated list |
| HeapSpec.CompactLoopFinishes | myalloc/myalloc.c:299-365 | when the loop leaves, at most one free block remains and no allocated block lies above it |
| HeapSpec.CompactLoopFromStart | myalloc/myalloc.c:407 | from its first is_fragmented test on, a loop that ends leaves at most one free block with no allocated block above it |
| HeapSpec.Moved | myalloc/myalloc.c:458-467 | the reported entries are allocated addresses that differ from the target, at most one per entry |
| HeapSpec.MovedSnoc | myalloc/myalloc.c:463-465 | one more entry is reported exactly when it differs from the target |
| HeapSpec.AllAt | myalloc/myalloc.c:458-462 | n entries, each equal to the target address |
| Accounting.InitialFootprint | myalloc/myalloc.c:51-68 | right after initialisation the registered blocks cover size + 8 bytes, the whole chunk |
| Accounting.SplitSums | myalloc/myalloc.c:163-174 | the list bookkeeping of a split keeps the covered bytes |
| Accounting.AllocateSplitConserves | myalloc/myalloc.c:163-174 | a split keeps the covered bytes: n + 8 + remainder replaces the old block |
| Accounting.AllocateWholeConserves | myalloc/myalloc.c:175-179 | a whole-block hand-out keeps the covered bytes |
| Accounting.DeallocateNoNeighbourConserves | myalloc/myalloc.c:254-256 | releasing a block without a right neighbour keeps the covered bytes |
| Accounting.AbsorbSums | myalloc/myalloc.c:335-352 | the list bookkeeping of one entry absorbing another keeps the covered bytes |
| Accounting.MergeConserves | myalloc/myalloc.c:335-352 | the merge of is_fragmented keeps the covered bytes |
| Myalloc.Allocator.Initialize | myalloc/myalloc.c:43-73 | size rounded up to a multiple of 64, free list [arena start] with header `size`, empty allocated list, statistics size and 0 |
| Myalloc.Allocator.SumOver | myalloc/myalloc.c:272-276 | the loop returns the sum of the sizes over the list |
| Myalloc.Allocator.AvailableMemory | myalloc/myalloc.c:268-278 | returns the sum of the free blocks' sizes |
| Myalloc.Allocator.UsedMemory | myalloc/myalloc.c:283-293 | returns the sum of the allocated blocks' sizes |
| Myalloc.Allocator.FirstFitScan | myalloc/myalloc.c:100-110 | the loop returns the first fit |
| Myalloc.Allocator.BestFitScan | myalloc/myalloc.c:112-125 | the loop returns the best fit |
| Myalloc.Allocator.WorstFitScan | myalloc/myalloc.c:127-140 | the loop returns the worst fit |
| Myalloc.Allocator.Pick | myalloc/myalloc.c:98-147 | the strategy switch returns the configured strategy's choice |
| Myalloc.Allocator.Split | myalloc/myalloc.c:165-174 | writes header n at p and the remainder's header, and moves p's free node to the remainder |
| Myalloc.Allocator.TakeWhole | myalloc/myalloc.c:175-179 | removes p's node from the free list |
| Myalloc.Allocator.RefreshStatistics | myalloc/myalloc.c:184-185 | the cached statistics equal the sums over the lists |
| Myalloc.Allocator.Allocate | myalloc/myalloc.c:80-189 | the new state and the result are those of HeapSpec.Allocate; after a success the statistics equal the sums |
| Myalloc.Allocator.HandOut | myalloc/myalloc.c:156-188 | after the strategy's pick, the state and the result are HeapSpec.Allocate's and the statistics equal the sums |
| Myalloc.Allocator.AbsorbRight | myalloc/myalloc.c:217-224 | the right merge leaves HeapSpec.Deallocate's state |
| Myalloc.Allocator.Release | myalloc/myalloc.c:254-256 | the plain release leaves HeapSpec.Deallocate's state |
| Myalloc.Allocator.Deallocate | myalloc/myalloc.c:196-263 | the new state is HeapSpec.Deallocate's; statistics equal the sums unless the free list was empty |
| Myalloc.Allocator.MergePair | myalloc/myalloc.c:335-352 | the merge leaves HeapSpec.Merge's state and the cached statistics alone |
| Myalloc.Allocator.IsFragmented | myalloc/myalloc.c:299-365 | the answer and the new state are HeapSpec.IsFragmented's; the allocated list and the statistics do not change |
| Myalloc.Allocator.CompactRound | myalloc/myalloc.c:408-455 | one round leaves HeapSpec.CompactStep's state and header address |
| Myalloc.Allocator.Relocate | myalloc/myalloc.c:438-455 | the header copy and free-list update leave HeapSpec.Relocated's state |
| Myalloc.Allocator.Relabel | myalloc/myalloc.c:458-467 | every allocated entry becomes the target; the count is at most the list length and counts only differing pairs, which are exactly the entries that moved; array slots beyond the count keep their old values |
| Myalloc.Allocator.CompactAllocation | myalloc/myalloc.c:373-473 | returns 0 and changes nothing on the early exits; otherwise follows HeapSpec.CompactLoop and reports what Relabel reports, with array slots beyond the count unchanged and statistics equal to the sums |
| Myalloc.PartnerScan | myalloc/myalloc.c:315-332 | the inner loop finds the last entry adjacent to entry i, and how it is adjacent |
| Myalloc.PairScan | myalloc/myalloc.c:314-334 | the outer loop finds the pair HeapSpec.FindPair finds, and how it is adjacent |
| Findings.InitialSizeTruncated | myalloc/myalloc.c:68 | a 192-byte arena's header reads back as 64 |
| Findings.RightMergeDoubleBooks | myalloc/myalloc.c:217-230 | after a right merge the block is both free and allocated, and the covered bytes grow from 32 to 64 |
| Findings.NoLeftMerge | myalloc/myalloc.c:233-252 | a block released right after a free block stays a separate free entry |
| Findings.EmptyFreeListLosesBlock | myalloc/myalloc.c:209-213 | with no free block, deallocate leaves the block allocated |
| Findings.LeftNeighbour | myalloc/myalloc.c:233-237 | the first free entry ending right before p, none exactly when there is none |
| Findings.DeallocateFixed | myalloc/myalloc.c:196-263 | the corrected deallocate always removes one entry from the allocated list |
| Findings.ReleasedSum | myalloc/myalloc.c:255 | removing p from the allocated list removes it entirely and subtracts its size |
| Findings.MergeReleaseSums | myalloc/myalloc.c:217-244 | the list bookkeeping of a corrected merge keeps the covered bytes |
| Findings.DeallocateFixedRight | myalloc/myalloc.c:217-230 | corrected right merge: p is free and no longer allocated, the neighbour is gone, the sizes add up, and no byte is gained or lost |
| Findings.DeallocateFixedLeft | myalloc/myalloc.c:233-252 | corrected left merge: the neighbour absorbs p, which leaves both lists |
| Findings.DeallocateFixedLeftConserves | myalloc/myalloc.c:233-252 | the corrected left merge gains and loses no byte |
| Findings.DeallocateFixedAlone | myalloc/myalloc.c:209-213 | with no free neighbour, even with an empty free list, p moves to the free list and no byte is gained or lost |
| Findings.HeadOnlyMissesCandidate | myalloc/myalloc.c:427-436 | with [8, 72] allocated and leftmost free block 40, no candidate is found though 72 qualifies |
| Findings.LowestAbove | myalloc/myalloc.c:427-436 | the lowest allocated address above x, none exactly when none lies above |
| Findings.FixedStep | myalloc/myalloc.c:438-455 | a corrected round keeps the number of allocated entries |
| Findings.FixedStepMovesOne | myalloc/myalloc.c:458-462 | a corrected round moves exactly one allocated entry down to the leftmost free block, keeping its size and the list free of repeats |
| Findings.FixedStepFreesAfter | myalloc/myalloc.c:447-453 | after a corrected round the free list holds the payload address of the block that follows the moved one, whose header starts right after it |
| Findings.MoveKeepsDistinct | myalloc/myalloc.c:461 | moving one entry to an unlisted address keeps the list free of repeats |
| Findings.AllAtCollapses | myalloc/myalloc.c:458-462 | with two or more allocated blocks, the final loop gives two of them the same address |
| Findings.RelocatedFreeOffByEight | myalloc/myalloc.c:447 | after moving a 16-byte block to 8, its payload is 8..23 and the next block's payload belongs at 32, but the new free entry is 24 |
| Findings.CompactionSpins | myalloc/myalloc.c:407-456 | from one concrete state, is_fragmented keeps answering true and no round changes anything, for any number of rounds |
| Findings.ExcessReplace | myalloc/myalloc.c:461 | moving one allocated entry changes the summed distance from the arena start by the move |
| Findings.IsFragmentedKeepsBounds | myalloc/myalloc.c:342-351 | is_fragmented keeps every free address inside the arena |
| Findings.FixedStepDescends | myalloc/myalloc.c:438-455 | a corrected round keeps addresses in the arena and strictly lowers the summed distance of the allocated blocks |
| Findings.FitScansMisreadFullByte | myalloc/myalloc.c:118 | with free blocks of 128 and 40 bytes and a request of 16, best fit picks the 128-byte block and worst fit picks the 40-byte one |
| Findings.BestFitFixed | myalloc/myalloc.c:112-125 | the corrected best fit finds nothing exactly when no entry is large enough; otherwise it returns a large-enough entry |
| Findings.WorstFitFixed | myalloc/myalloc.c:127-140 | the corrected worst fit finds nothing exactly when no entry is large enough; otherwise it returns a large-enough entry |
| Findings.BestFitFixedIsBest | myalloc/myalloc.c:112-125 | for any header bytes, the corrected best fit picks the earliest entry of least size among those that fit |
| Findings.WorstFitFixedIsWorst | myalloc/myalloc.c:127-140 | for any header bytes, the corrected worst fit picks the earliest entry of greatest size among those that fit |
| Findings.BestFitFixedAgrees | myalloc/myalloc.c:112-125 | when every header byte is below 128, the corrected best fit chooses exactly what best fit as written chooses |
| Findings.WorstFitFixedAgrees | myalloc/myalloc.c:127-140 | when every header byte is below 128, the corrected worst fit chooses exactly what worst fit as written chooses |
| Findings.CompactFixed | myalloc/myalloc.c:407-456 | corrected compaction terminates, and when it ends no allocated block lies above the lowest free block |

## Left out

- Locking: the `pthread_mutex_t` field and every lock and unlock are left out. Each operation is modelled as running alone.
- Output: `print_statistics`, `List_display` and every `printf` diagnostic are left out, because they only print.
- Raw memory: `malloc` and `memset` of the arena, `exit` on failure, `free` of list nodes, and `destroy_allocator` are left out. Node creation is modelled as inserting a value.
- Payload bytes: `memmove` (myalloc/myalloc.c:446) is modelled only through the header byte it copies to `dest`. Its destination range `[dest, dest + size_src)` can cover other headers, such as a free block's header lying between the leftmost free block and the moved block. The model keeps those headers' old bytes, and it does not model payload contents.
- Headers: only the first byte of each header is modelled. The other seven bytes are written once at initialisation and never read again.
- The `default` strategy arm: it cannot be reached with the three-valued `Algorithm`.
- Integer width: `int` arithmetic is unbounded here, and 32-bit overflow is not modelled. `initialize_allocator` accepts any positive `int`, so `_size + 63` (myalloc/myalloc.c:51) overflows when `_size > INT_MAX - 63`, and `rounded_size + HEADER_SIZE` (:53) overflows near `INT_MAX`. HeapSpec.RoundUp64 and Myalloc.Allocator.Initialize accept every n > 0 without that bound. The other sums add header sizes, which are at most 128 each.
- Pointers are offsets from the start of the arena. Pointer comparisons are integer comparisons.
- `myalloc/main.c` is not part of this model.
- Myalloc.Allocator.CompactAllocation: `while (is_fragmented())` is cut off after `fuel` rounds. A run that has not ended by then is reported as unfinished. The uninitialised `dest` is a parameter. The spin that makes the fuel necessary is exhibited by Findings.CompactionSpins.
- Accounting.AllocateSplitConserves: it assumes that the lists hold no repeats, that no address is both free and allocated, and that the remainder address is not registered. All three follow from the tiling of the arena, which the model does not carry as an invariant of the class.
- HeapSpec.FindPair: its own contract states only the shape of a found pair. That the pair is the first one is stated by HeapSpec.FindPairFirst.
- HeapSpec.BestFitIsBest and HeapSpec.WorstFitIsWorst: proved only when every free header byte is below 128 (`Exact`). A byte of 128, or a truncated byte such as 192 read as 64, reads differently with and without `abs`, and the scans then need not pick the least or greatest size. Findings.FitScansMisreadFullByte shows this, and Findings.BestFitFixedIsBest and Findings.WorstFitFixedIsWorst prove the corrected scans for all bytes. In an arena holding only sizes up to 128, a 128-byte block covers the whole arena, so it is the only free block.
- List.InsertedAtHead: its own contract states membership and length. The exact effect is stated by List.InsertedAtHeadMultiset and by List.BlockList.InsertHead.

## Findings

| source | as written | input that shows it | evidently intended | confidence | as-written member | corrected member |
|---|---|---|---|---|---|---|
| myalloc/myalloc.c:68 | sizes are stored in one byte and read as `abs` of a signed char | `initialize_allocator(150)`: size 192, header reads 64 | the full 8-byte size is stored and read | not executed | Findings.InitialSizeTruncated | HeaderCodec.DecodeEncodeWide |
| myalloc/myalloc.c:217-230 | the right merge returns without removing the block from the allocated list | free [24], allocated [8], both of size 8, `deallocate(8)` | the block leaves the allocated list and no byte is counted twice | not executed | Findings.RightMergeDoubleBooks | Findings.DeallocateFixedRight |
| myalloc/myalloc.c:233-252 | the left-merge loop starts at the end of the list and never runs | free [8], allocated [24], both of size 8, `deallocate(24)` leaves free [24, 8] | a free left neighbour absorbs the block | not executed | Findings.NoLeftMerge | Findings.DeallocateFixedLeft |
| myalloc/myalloc.c:209-213 | with an empty free list deallocate returns at once | free [], allocated [8], `deallocate(8)` | the block becomes the free list | not executed | Findings.EmptyFreeListLosesBlock | Findings.DeallocateFixedAlone |
| myalloc/myalloc.c:427-436 | only the head of the allocated list is examined (`if`, not a loop) | allocated [8, 72], leftmost free block 40 | the lowest allocated block above the leftmost free block | not executed | Findings.HeadOnlyMissesCandidate | Findings.LowestAbove |
| myalloc/myalloc.c:458-462 | every allocated entry is set to `dest + 8` | any two allocated blocks at the end of a compaction | only the moved block's entry changes | not executed | Findings.AllAtCollapses | Findings.FixedStepMovesOne |
| myalloc/myalloc.c:447 | the new free entry is `dest + size_src + 8`, 8 bytes below where the block after the moved one has its payload | free [8] of size 24, allocated [40] of size 16: the moved payload is 8..23, the next payload belongs at 32, the new free entry is 24 | the new free entry is the payload address of the block that follows the moved one, 8 bytes past its end | not executed | Findings.RelocatedFreeOffByEight | Findings.FixedStepFreesAfter |
| myalloc/myalloc.c:407-456 | `while (is_fragmented())` never ends when no round moves a block | free [40] of size 24, allocated [8, 72] of sizes 24 and 56 | the loop ends with no allocated block above the lowest free block | not executed | Findings.CompactionSpins | Findings.CompactFixed |
| myalloc/myalloc.c:118-133 | best and worst fit read the current candidate's size without `abs` | free [8, 200] with header bytes 128 and 40, request 16: best fit picks 8, worst fit picks 200 | every size is read through `abs` | not executed | Findings.FitScansMisreadFullByte | Findings.BestFitFixedIsBest |
