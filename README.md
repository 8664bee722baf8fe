# A variable-size allocator, a binary search tree and a fixed-capacity stack

This project models three small C components and proves properties of the
models in Dafny.

- **The variable-size allocator** (`vsa/vsa.c`) manages one region that the
  caller supplies. `VsaInit` word-aligns the start and puts an 8-byte handle
  there. After the handle it puts one free header that covers the rest of the
  region. Each header holds a free flag, a link to the next header, the
  block's total size (header included) and an integrity cookie. Headers are
  32 bytes and words are 8 bytes.
  - `VsaAlloc` rounds the request up to whole words and adds a header. It then
    defragments and hands out the first free block that fits. It splits that
    block only when the leftover can hold a header plus a word.
  - `VsaFree` marks the header just before the payload as free.
  - `VsaLargestChunk` defragments, then scans the free blocks.
- **The binary search tree** (`ds_bst/bst.c`) holds integer keys. The
  comparator returns -1, 0 or 1. Equal keys go left. The tree offers insert,
  find, remove (a node with two children takes the largest key of its left
  subtree), size, height, an emptiness test and three traversal orders that
  stop at the first failing action.
- **The stack** (`ds_stack/stack.c`) is a byte buffer of
  `capacity * elem_size` bytes with a moving `top`. It offers push, pop, peek,
  size, capacity and an emptiness test. The emptiness test returns 0 for an
  empty stack and 1 otherwise.

The allocator is modelled as a class (`Vsa.Allocator`), and its state is real
state:
- `mem` maps each header address to the header's contents. It also keeps the
  headers that coalescing absorbed, with their cookie cleared.
- The ghost sequence `blocks` is the live chain in address order.
- `Laid` ties the two: each block's header sits at the first header's address
  plus the sum of the sizes before it, and links to the next one.

The loops of `Defragmentation`, `VsaAlloc` and `VsaLargestChunk` are `while`
loops over `mem` (`DefragWalk`, `FirstFitWalk`, `ScanWalk`). Each is proved
against functions on the block sequence (`Coalesce`, `FirstFit`,
`LargestScan`) in module `VsaBlocks`, and the lemmas there state what those
functions guarantee. The stack is a class over an `array` of bytes whose `top`
moves. The tree is a datatype, and its management structure is a class whose
`root` is reassigned.

Addresses are absolute, so the alignment arithmetic follows the code. Sizes
are unbounded naturals below 2^64. The two places where the C size
arithmetic wraps modulo 2^64 are modelled separately, under "Findings".

## Model

| member | source | states |
|---|---|---|
| VsaBlocks.OffsetNext | vsa/vsa.c:100-102 | The header after block `i` sits exactly block `i`'s size further on. |
| VsaBlocks.PayloadsAligned | vsa/vsa.c:273 | In a well-formed chain with a word-aligned first header, every payload address (header plus 32) is a multiple of the word size. |
| VsaBlocks.PayloadsDisjoint | vsa/vsa.c:100-105 | The payload of block `i` lies inside block `i`. It ends before the header of any later block begins, so payloads never overlap. |
| VsaBlocks.CoalesceMaximal | vsa/vsa.c:64-78 | After a defragmentation pass, no two neighbouring blocks are both free. |
| VsaBlocks.CoalesceFixpoint | vsa/vsa.c:64-78 | A chain with no two adjacent free blocks is left unchanged by the pass. |
| VsaBlocks.CoalesceIdempotent | vsa/vsa.c:54-79 | Running the pass twice is the same as running it once. |
| VsaBlocks.CoalesceSum | vsa/vsa.c:68 | The pass keeps the chain's total size and never adds blocks. |
| VsaBlocks.CoalesceKeepsAllocations | vsa/vsa.c:66-77 | Every allocated block keeps its header address and its header. Live payloads neither move nor change. |
| VsaBlocks.CoalesceWellFormed | vsa/vsa.c:54-79 | The pass keeps the chain invariant: at least one block, each at least a header long, all stamped, all but the last a whole number of words. |
| VsaBlocks.CoalesceAbsorbs | vsa/vsa.c:66-72 | One merge of a free block with its free successor does not change the result of the pass. The loop's merge branch follows the pass. |
| VsaBlocks.CoalesceFromAdvance | vsa/vsa.c:73-77 | When the two blocks are not both free, moving on by one block does not change the result of the pass. |
| VsaBlocks.HeaderAddressesMerge | vsa/vsa.c:68-70 | A merge removes exactly the absorbed header from the live header addresses. |
| VsaBlocks.HeaderAddressesSplit | vsa/vsa.c:100-106 | A split adds exactly one live header, at the block's address plus the needed size. |
| VsaBlocks.RoundUp | vsa/vsa.c:246-259 | The request rounded up is a multiple of the word size, at least `n` and less than `n` plus a word. |
| VsaBlocks.NeededSize | vsa/vsa.c:246-260 | The needed size is a whole number of words, at least one header, and between `n + 32` and `n + 40`. A request of 0 needs exactly one header. |
| VsaBlocks.FirstFit | vsa/vsa.c:264-280 | The index found is the first free block, in address order, of at least the needed size. There is none exactly when no block fits. |
| VsaBlocks.CarveBlock | vsa/vsa.c:96-116 | The split rule. The chosen block stays at its address, allocated and stamped. If `size - need >= 40`, it shrinks to `need` and a free stamped block of `size - need` follows it. Otherwise it keeps its whole size and the chain length is unchanged. |
| VsaBlocks.CarveSum | vsa/vsa.c:100-105 | Handing out a block keeps the chain's total size. |
| VsaBlocks.CarveWellFormed | vsa/vsa.c:96-116 | Handing out a block for a word-multiple need keeps the chain invariant. |
| VsaBlocks.CarveAllocations | vsa/vsa.c:268-275 | Handing out a block adds exactly that block to the allocated blocks. Every other allocation is untouched. |
| VsaBlocks.CarveIsMarkThenSplit | vsa/vsa.c:268-275 | Handing out the block is marking it allocated and stamped, then applying ManageBlockRemainder's split. |
| VsaBlocks.CarveOutcome | vsa/vsa.c:268-277 | The payload handed out from a fitting block is live, word-aligned and at least `n` bytes long. The chain stays well formed with the same total size. |
| VsaBlocks.TakeFirstOutcome | vsa/vsa.c:264-281 | For every request on a well-formed chain, exactly one of two outcomes holds. If no block fits, the result is NULL and the chain is unchanged. Otherwise the payload is live, word-aligned and at least `n` bytes long, and the allocations are the old ones plus the new block. The chain stays well formed with the same total size in both cases. |
| VsaBlocks.CarvedBlockOf | vsa/vsa.c:273 | The payload address handed out from block `k` leads back to block `k` of the new chain. |
| VsaBlocks.LaidSetBlock | vsa/vsa.c:271-272 | Rewriting one header's flag and cookie in place keeps the headers laid out as the updated chain. |
| VsaBlocks.LaidMerge | vsa/vsa.c:68-70 | The merge's writes (sizes added, link copied, cookie cleared) keep the headers laid out as the merged chain. |
| VsaBlocks.LaidSplit | vsa/vsa.c:100-115 | The split's writes (shrink and relink, then a new free header linked to the old successor) keep the headers laid out as the split chain. |
| VsaBlocks.BlockOf | vsa/vsa.c:184 | Stepping back one header from a live payload gives an allocated block whose payload starts there. |
| VsaBlocks.BlockOfUnique | vsa/vsa.c:184 | Payload addresses identify their block: the payload of block `k` leads back to `k`. |
| VsaBlocks.CarveFreeRestores | vsa/vsa.c:178-191 | Freeing a block just handed out, then defragmenting, gives back exactly the chain the allocation started from. |
| VsaBlocks.AllocFreeRestores | vsa/vsa.c:242-282 | On a coalesced chain, allocating and then freeing whatever was granted gives back the same chain after the next pass. |
| VsaBlocks.LargestScanIsFreePayload | vsa/vsa.c:215-222 | With no free block the scan gives 0. Otherwise it gives the payload size of some free block, so never more than the largest free payload. |
| VsaBlocks.LargestScanSingleFree | vsa/vsa.c:215-222 | With exactly one free block the scan gives that block's payload size. |
| VsaBlocks.LargestScanUnderReports | vsa/vsa.c:217-219 | On free blocks of 104 and 96 bytes around an allocated one, the scan reports 64 although a 72-byte payload is free. The scan compares a total size against a payload maximum. |
| Vsa.AlignShift | vsa/vsa.c:144-151 | The shift to the next word boundary is below a word, lands on a multiple of the word size, and is 0 exactly for an aligned address. |
| Vsa.DefragMergeStep | vsa/vsa.c:66-71 | The merge branch keeps the defragmentation loop invariant. |
| Vsa.DefragAdvanceStep | vsa/vsa.c:73-77 | The advance branch keeps the loop invariant and moves both cursors one block on. |
| Vsa.AbsorbNext | vsa/vsa.c:66-72 | The merge writes: the current header gains the next one's size and link, and the absorbed header's cookie is cleared. The walk then sees the merged chain. |
| Vsa.DefragWalk | vsa/vsa.c:61-78 | The defragmentation loop over header memory produces the coalesced chain. Only the headers it absorbed change outside the live chain, and each keeps its contents with a cleared cookie. |
| Vsa.FirstFitWalk | vsa/vsa.c:264-280 | The search loop returns the address and size of first fit's block, or NULL at the end of the chain. |
| Vsa.ScanWalk | vsa/vsa.c:215-222 | The scan loop returns the value of the scan function over the chain. |
| Vsa.Allocator.Init | vsa/vsa.c:135-166 | VsaInit. The handle sits at the aligned start and the first header right after it. The first header is one free, stamped block with no successor, covering the region minus the shift and the handle, and it ends where the region ends. |
| Vsa.Allocator.Defragmentation | vsa/vsa.c:54-79 | The chain becomes the coalesced chain and the invariant holds. Headers outside the chain are untouched; each absorbed header keeps its contents but loses its cookie. |
| Vsa.Allocator.ManageBlockRemainder | vsa/vsa.c:96-117 | With at least a header and a word left over, the block shrinks to the need and a new free stamped header after it links to the saved successor. Otherwise nothing changes. |
| Vsa.Allocator.Alloc | vsa/vsa.c:242-282 | The payload address and new chain are those of first fit on the defragmented chain with the rounded size, and the invariant holds. TakeFirstOutcome and CoalesceKeepsAllocations give the all-inputs properties. |
| Vsa.Allocator.TakeFirstFit | vsa/vsa.c:264-281 | The walk after defragmentation either claims the first fitting block or changes nothing and returns NULL. |
| Vsa.Allocator.Claim | vsa/vsa.c:268-277 | The hit branch marks the block allocated and stamped, splits off the leftover, and returns the address just past the header. |
| Vsa.Allocator.Free | vsa/vsa.c:178-191 | VsaFree changes exactly one record, the header one header-size before `p`, and sets only its free flag. All other headers, sizes and links stay as they are. In the checked build the cookie is stamped. |
| Vsa.Allocator.LargestChunk | vsa/vsa.c:204-225 | VsaLargestChunk defragments, then returns the scan over the coalesced chain. |
| VsaFindings.NeededSizeAsWritten | vsa/vsa.c:246-260 | VsaAlloc's size computation in 64-bit arithmetic, both additions wrapping. |
| VsaFindings.NeededSizeWrapsToHeader | vsa/vsa.c:256-260 | As written, a request of 2^64 - 1 bytes needs just one header. |
| VsaFindings.NeededSizeWrapsToZero | vsa/vsa.c:256-260 | As written, a request of 2^64 - 32 bytes needs 0 bytes. |
| VsaFindings.NeededSizeAgrees | vsa/vsa.c:246-260 | Below the wrap, the code's size is exactly the unbounded needed size. |
| VsaFindings.OversizedRequestFails | vsa/vsa.c:264-281 | With the unbounded needed size, any request larger than the whole chain finds no block. |
| VsaFindings.AlignedSizeAsWritten | vsa/vsa.c:147-151 | The aligned size in 64-bit arithmetic: the subtraction wraps. |
| VsaFindings.FirstBlockSizeAsWritten | vsa/vsa.c:162 | The first header's size as written, below 2^64. |
| VsaFindings.InitCheckWraps | vsa/vsa.c:147-162 | A 4-byte region 3 bytes past a word boundary passes VsaInit's size assertion. Its first block claims 2^64 - 9 bytes. |
| VsaFindings.InitCheckAgrees | vsa/vsa.c:147-162 | Where the subtraction does not wrap, the assertion as written is exactly the requirement of `Allocator.Init`, and the first block ends at the region's end. |
| VsaScenarios.AllocThenRead | vsa/vsa_test.c:39-49 | On a coalesced chain where a request lands in block `k`, Alloc returns that block's payload, and the following reading scans the new chain. |
| VsaScenarios.FreeThenRead | vsa/vsa_test.c:61-66 | Freeing block `k`'s payload, then reading, scans the coalesced chain with block `k` free. |
| VsaScenarios.FailThenRead | vsa/vsa_test.c:77-79 | A request nothing fits returns NULL and leaves the chain as it was. |
| VsaScenarios.InitThenRead | vsa/vsa.c:135-225 | For every region that VsaInit accepts, the largest-chunk reading right after Init is the size minus the alignment shift, the 8-byte handle and one 32-byte header. |
| VsaScenarios.AllocFreeRoundTrip | vsa/vsa.c:178-225 | For every valid allocator and request, allocating and then freeing what was granted leaves the largest-chunk reading unchanged. |
| VsaScenarios.PickedBlock | vsa/vsa.c:262-277 | On a chain with no adjacent free blocks, the pass changes nothing, and a request lands in the first block that fits. |
| VsaScenarios.NothingFits | vsa/vsa.c:262-281 | On such a chain, where no block fits, the pass changes nothing and the search finds no block. |
| VsaScenarios.OneFree | vsa/vsa.c:204-225 | On such a chain with exactly one free block, the reading is that block's payload size. |
| VsaScenarios.AlignedAlloc10 | vsa/vsa_test.c:39-40 | Step facts of the aligned test: 10 bytes taken from a 192-byte block leave a 112-byte chunk. |
| VsaScenarios.AlignedAlloc20 | vsa/vsa_test.c:42-43 | 20 more bytes leave 56. |
| VsaScenarios.AlignedAlloc5 | vsa/vsa_test.c:45-46 | 5 more bytes leave 16. |
| VsaScenarios.AlignedAlloc7 | vsa/vsa_test.c:48-49 | 7 more bytes take the whole 48-byte remainder without a split, leaving 0. |
| VsaScenarios.AlignedFree2 | vsa/vsa_test.c:61-62 | Freeing the 20-byte allocation gives a 24-byte chunk. |
| VsaScenarios.AlignedFree3 | vsa/vsa_test.c:65-66 | Freeing its neighbour merges the two into a 64-byte chunk. |
| VsaScenarios.AlignedRealloc20 | vsa/vsa_test.c:72-79 | 20 bytes again leave 8, and a 9-byte request then fits nowhere. |
| VsaScenarios.AlignedRun | vsa/vsa_test.c:32-79 | The aligned test sequence gives the readings 160, 112, 56, 16, 0, 24, 64, 8, 8 and a failed last request. |
| VsaScenarios.MisalignedAlloc7 | vsa/vsa_test.c:98-104 | On the 87-byte block, 7 bytes leave 15, and a 9-byte request fits nowhere. |
| VsaScenarios.MisalignedFree | vsa/vsa_test.c:114-115 | Freeing merges the region back into one 87-byte block, reading 55. |
| VsaScenarios.MisalignedAlloc15 | vsa/vsa_test.c:120-126 | 15 bytes leave 39 bytes over, too few to split, so the whole block is taken. |
| VsaScenarios.MisalignedRun | vsa/vsa_test.c:91-126 | The misaligned test sequence (100 bytes, 3 past a boundary) gives the readings 55, 15, 15, 55, 0, 0 and two failed requests. |
| VsaScenarios.QuirkAlloc72 | vsa/vsa.c:268-277 | In a 240-byte block, a 72-byte request takes 104 bytes and leaves a free 136-byte block. |
| VsaScenarios.QuirkAlloc8 | vsa/vsa.c:268-277 | An 8-byte request then takes 40 bytes and leaves a free 96-byte block. |
| VsaScenarios.QuirkFree | vsa/vsa.c:215-222 | Freeing the first block gives free 104- and 96-byte blocks. The reading is 64, yet a 72-byte request fits the first block. |
| VsaScenarios.QuirkRun | vsa/vsa.c:217-219 | Free payloads of 72 and 64 bytes read as 64, yet a 72-byte request still succeeds. |
| BinarySearchTree.Compare | ds_bst/bst_test.c:6-20 | The integer comparator returns -1, 0 or 1, with 0 exactly on equality and a negative value exactly when the first argument is smaller. |
| BinarySearchTree.InsertHelper | ds_bst/bst.c:85-120 | The new tree is non-empty and holds the old keys plus one copy of `x`. It is ordered when the old tree was. |
| BinarySearchTree.FindHelper | ds_bst/bst.c:399-424 | Only a key equal to the sought one is returned. On an ordered tree it is returned whenever present. |
| BinarySearchTree.HeightHelper | ds_bst/bst.c:455-473 | The height is 0 exactly for the empty tree and never exceeds the number of keys. |
| BinarySearchTree.PathShorterThanHeight | ds_bst/bst.c:455-473 | Every downward path has fewer steps than the height, so the height counts nodes, not edges. |
| BinarySearchTree.LongestPath | ds_bst/bst.c:455-473 | Some downward path has exactly height - 1 steps. |
| BinarySearchTree.Rightmost | ds_bst/bst.c:504-514 | GetMaxValNode's node has no right child and holds a key of the tree. In an ordered tree that key is the largest. |
| BinarySearchTree.GetMaxValNode | ds_bst/bst.c:504-514 | The loop that follows right links stops at Rightmost's node. |
| BinarySearchTree.RemovedAbsent | ds_bst/bst.c:529-573 | Removing a key the tree does not hold leaves the tree unchanged (the corrected NULL test). |
| BinarySearchTree.RemovedPresent | ds_bst/bst.c:529-573 | Removing a present key takes away exactly one occurrence of it. |
| BinarySearchTree.RemovedElements | ds_bst/bst.c:529-573 | Removal leaves the tree's keys minus one copy of the key. |
| BinarySearchTree.RemovedOrdered | ds_bst/bst.c:529-573 | Removal keeps the search-tree ordering. |
| BinarySearchTree.TwoChildRemoval | ds_bst/bst.c:567-569 | A node with two children takes the largest key of its left subtree and keeps its right subtree. That key is removed once from the left. |
| BinarySearchTree.AbsentKeyReachesNull | ds_bst/bst.c:532-537 | As written, the removal descent reaches a NULL node, where the comparison dereferences it, exactly when the key is absent. |
| BinarySearchTree.RemoveAbsentFromSingleton | ds_bst/bst.c:532-537 | Removing 4 from the tree holding only 3 reaches NULL as written, while the corrected removal leaves the tree as it is. |
| BinarySearchTree.RemoveHelper | ds_bst/bst.c:529-573 | The recursive removal, with GetMaxValNode's loop in the two-child case, rebuilds the removed tree. It takes away one copy of the key and keeps the ordering. |
| BinarySearchTree.InOrderStops | ds_bst/bst.c:182-197 | The in-order walk calls the action on a prefix of the in-order keys, in order, and stops right after the first non-zero result. It returns 1 after a stop and 0 after the full pass. |
| BinarySearchTree.PreOrderStops | ds_bst/bst.c:213-228 | The pre-order walk has the same property over the pre-order keys. |
| BinarySearchTree.PostOrderStops | ds_bst/bst.c:244-259 | The same holds over the post-order keys, except that the status after reaching the root is the root's action result. |
| BinarySearchTree.PostOrderStatus | ds_bst/bst.c:252-258 | PostOrder returns 1 when a subtree stops, and otherwise the root's own action result, whatever non-zero value it is. |
| BinarySearchTree.OrdersHoldElements | ds_bst/bst.c:182-259 | Each of the three orders lists exactly the tree's keys, with multiplicity. |
| BinarySearchTree.InOrderSorted | ds_bst/bst.c:182-197 | On an ordered tree the in-order keys are non-decreasing. |
| BinarySearchTree.NeverStops | ds_bst/bst.c:182-259 | With an action that always returns 0, each walk returns 0 and visits every key exactly once. |
| BinarySearchTree.ForEach | ds_bst/bst.c:276-299 | An unknown mode returns -1 without any visit. In-order and pre-order return 0 or 1. In every valid mode the walk stops right after the first non-zero action, and its visits are a prefix of that order's keys. |
| BinarySearchTree.ForEachNeverStops | ds_bst/bst.c:276-299 | In any valid mode, an action that never fails sees every key once, and BstForEach returns 0. |
| BinarySearchTree.Size | ds_bst/bst.c:312-339 | BstSize, an in-order walk with a counting action, equals the number of keys. |
| BinarySearchTree.CountingWalk | ds_bst/bst_test.c:28-34 | A counting action sees the tree's size in each of the three modes. |
| BinarySearchTree.Bst.constructor | ds_bst/bst.c:52-68 | BstCreate: an empty tree. |
| BinarySearchTree.Bst.Insert | ds_bst/bst.c:136-149 | BstInsert returns 0 and adds one copy of the key, keeping the ordering. |
| BinarySearchTree.Bst.Remove | ds_bst/bst.c:587-590 | BstRemove takes away one copy of the key and keeps the ordering. An absent key changes nothing. |
| BinarySearchTree.Bst.Find | ds_bst/bst.c:437-443 | BstFind returns the key when the tree holds it, and NULL otherwise. |
| BinarySearchTree.Bst.IsEmpty | ds_bst/bst.c:161-166 | BstIsEmpty returns 1 exactly when the root is NULL, which is exactly when the size is 0, and 0 otherwise. |
| BinarySearchTree.Bst.Height | ds_bst/bst.c:486-491 | BstHeight is 0 exactly for the empty tree and at most the size. |
| BinarySearchTree.Bst.Count | ds_bst/bst.c:330-339 | BstSize is the number of keys. |
| BinarySearchTree.Bst.ForEachNode | ds_bst/bst.c:276-299 | BstForEach returns -1 for an unknown mode. Otherwise it walks until the first failure. |
| BinarySearchTree.GrowThree | ds_bst/bst_test.c:99-106 | Inserting 3, 5, 2 gives a tree of height 2 and size 3. |
| BinarySearchTree.GrowSeven | ds_bst/bst_test.c:108-111 | Inserting 9, 4, 6, 1 then gives the seven-key tree. |
| BinarySearchTree.SevenShape | ds_bst/bst_test.c:114-116 | That tree has height 4 and size 7. |
| BinarySearchTree.CutSix | ds_bst/bst_test.c:146 | Removing the leaf 6. |
| BinarySearchTree.CutTwo | ds_bst/bst_test.c:147 | Removing 2, whose only child takes its place. |
| BinarySearchTree.FiveShape | ds_bst/bst_test.c:150-152 | The remaining tree has height 3 and size 5. |
| BinarySearchTree.CutFive | ds_bst/bst_test.c:154 | Removing 5, which has two children: 4 takes its place. |
| BinarySearchTree.CutOne | ds_bst/bst_test.c:155 | Removing the leaf 1. |
| BinarySearchTree.CutFour | ds_bst/bst_test.c:156 | Removing 4, whose right child takes its place. |
| BinarySearchTree.CutNine | ds_bst/bst_test.c:157 | Removing 9 leaves the single key 3. |
| BinarySearchTree.GrowAgain | ds_bst/bst_test.c:179-186 | Inserting 3 next to an equal key goes left. After 5 and 2 the tree has height 3 and size 4. |
| BinarySearchTree.GrowPhase | ds_bst/bst_test.c:99-106 | Inserting 3, 5, 2 reads as not empty, height 2, size 3. |
| BinarySearchTree.FullPhase | ds_bst/bst_test.c:108-140 | Four more inserts, then the readings of FullReadings. |
| BinarySearchTree.FullReadings | ds_bst/bst_test.c:114-140 | Height 4 and size 7. Finds of 3, 4, 1 succeed and 100 is not found. Each mode's counting walk returns 0 after 7 visits. |
| BinarySearchTree.RemovePhase | ds_bst/bst_test.c:146-152 | Removing 6 and 2 reads as not empty, height 3, size 5. |
| BinarySearchTree.SinglePhase | ds_bst/bst_test.c:154-174 | Removing 5, 1, 4, 9 leaves one node: height 1, size 1, and one visit per mode. |
| BinarySearchTree.SingleReadings | ds_bst/bst_test.c:160-174 | The readings on the one-node tree. |
| BinarySearchTree.RegrowPhase | ds_bst/bst_test.c:179-186 | Three inserts return 0 and give height 3, size 4. |
| BinarySearchTree.BstRun | ds_bst/bst_test.c:87-186 | The integer test sequence of the tree gives all its expected readings. |
| Stack.CopyInto | ds_stack/stack.c:111 | The element copy writes the element at the top and changes no other byte. |
| Stack.Stack.Empty | ds_stack/stack.c:55-64 | A fresh buffer of `capacity * elemSize` bytes with the top at its base: no elements. |
| Stack.Stack.Size | ds_stack/stack.c:199-204 | `(top - base) / elem_size` is the number of live elements and at most the capacity. |
| Stack.Stack.Capacity | ds_stack/stack.c:216-221 | The capacity is positive and never below the size. |
| Stack.Stack.IsStackEmpty | ds_stack/stack.c:179-184 | The result is 0 exactly when the stack is empty, and 1 otherwise. |
| Stack.Stack.Push | ds_stack/stack.c:102-115 | On a full stack it returns -1 with the top and buffer unchanged. Otherwise it returns 0 and the contents become the old contents plus the element. |
| Stack.Stack.Peek | ds_stack/stack.c:127-137 | NULL on an empty stack, otherwise the most recent element. Nothing changes. |
| Stack.Stack.Pop | ds_stack/stack.c:153-164 | On an empty stack it returns -1. Otherwise it returns 0 and drops the top element. Either way the buffer is untouched and the lower elements stay. |
| Stack.Create | ds_stack/stack.c:40-67 | No stack exactly when the capacity or the element size is 0. Otherwise an empty stack with the given capacity and element size. |
| Stack.PushThenPop | ds_stack/stack.c:102-164 | A push on a non-full stack followed by a pop gives back the previous contents and size (last in, first out). |
| Stack.StackRun | ds_stack/stack_test.c:15-43 | The stack's test sequence gives 0, 2, -1, 0, 5, 0, 10, 1, 2, -1, 0, 1, 0, 0, -1. |

## Left out

- The VPN client and server are not part of this model. They need network sockets, a TUN device, shell commands and TLS.
- `StackDestroy`, `BstDestroy` and `DestroyHelper` are not modelled; they only release memory.
- Allocation failure of `malloc` is not modelled. `BstCreate`, `StackCreate` and a new tree node are always created.
- BinarySearchTree.Bst.Insert: BstInsert's result 1, returned when the new node cannot be allocated, is not modelled. Allocation cannot fail here, so the model always returns 0.
- BinarySearchTree: keys are integers compared with the test program's `CompareInt`. A comparator that returns other negative or positive values (the test program's `strcmp` one) is not modelled. RemoveHelper tests exactly for -1 and 1, so such a comparator would send it to the "equal" branch.
- BinarySearchTree.RemoveHelper and BinarySearchTree.InsertHelper: the in-place relinking of `node->left` and `node->right`, the `malloc` of the new node in InsertHelper and the `free` calls in RemoveHelper are modelled as rebuilding the subtree as a value. Node identity and aliasing are not captured.
- BinarySearchTree.Bst.Remove: for a key the tree does not hold, the model follows the corrected NULL test. It does not model the undefined behaviour of the order as written (see Findings).
- BinarySearchTree.ForEach: the action's `void *param` state is modelled as the sequence of keys visited before the current one. The print actions of the test program are not modelled.
- Stack.Stack.Peek returns the element's bytes rather than a pointer into the buffer. Writes through that pointer are not modelled.
- Stack.Create: the `capacity * elem_size` product is unbounded; its `size_t` wrap-around is not modelled.
- Vsa.Allocator.Free: `assert(block)`, the DEBUG cookie check and undefined frees are handled by the precondition that `p` is the payload of a live allocated block. A double free or wild pointer is therefore excluded rather than modelled. The DEBUG build is a `debug` flag.
- Vsa.Allocator.Init: the `assert(alloc_dest)` and size assertion of VsaInit are preconditions. The wrapped variant of the size assertion is under Findings.
- Vsa.Allocator.Alloc and Vsa.Allocator.Init: sizes are unbounded naturals below 2^64; the 64-bit wrap-around of VsaAlloc's size computation is modelled only under Findings.
- Bytes of payloads are not modelled, and neither are the bytes of the handle (`vsa_t`) other than its position. The handle's `first_header` is the constant `firstHeader`.
- The allocator's class methods split VsaAlloc into `TakeFirstFit` and `Claim`, and each loop into a module-level method. This is only a proof structure; the order of reads and writes is kept.
- The largest-chunk scan is modelled as written. It compares a block's total size with a running payload maximum. The reading is therefore not an exact test for whether a request fits. No block has room for a payload larger than the largest free payload, but the reading can sit below that maximum. QuirkRun shows this: it reads 64, yet a 72-byte request is granted. (The weaker statement "a reading below the request plus a header means failure" does not hold even for an exact scan: a lone free 104-byte block reads 72, and a 72-byte request needs 104 bytes and fits.)
- The post-order walk follows the code rather than its comment. The comment at ds_bst/bst.c:242 says PostOrder returns 1 when the walk stops early, but line 257 returns the root action's own value (PostOrderStatus). So BstForEach in post-order can return whatever non-zero value the action returned, -1 included.
- Integrity cookies are a two-valued tag (stamped or cleared) instead of `0xDEADBEEF` and 0.

## Findings

| source | as written | input that shows it | evidently intended | confidence | as-written member | corrected member |
|---|---|---|---|---|---|---|
| vsa/vsa.c:246-260 | The needed size `roundup(n) + 32` is computed in `size_t` and wraps modulo 2^64. | `VsaAlloc(vsa, 2^64 - 1)` needs, as written, just one header (32 bytes), and a request of 2^64 - 32 bytes needs 0, so either is granted a block with no room for the payload. | A request larger than the region fails. | not executed | VsaFindings.NeededSizeWrapsToHeader | VsaFindings.OversizedRequestFails |
| vsa/vsa.c:147-154 | The aligned size `size - (8 - addr % 8)` is computed in `size_t` before the size assertion, so a tiny region wraps to a huge size and passes it. | `VsaInit(addr, 4)` with `addr % 8 == 3`: the aligned size wraps to 2^64 - 1 and the first block claims 2^64 - 9 bytes of a 4-byte region. | The region must hold the shift, the handle and one header. | not executed | VsaFindings.InitCheckWraps | VsaFindings.InitCheckAgrees |
| ds_bst/bst.c:532-537 | RemoveHelper calls the comparator on `node->data` before testing `node` for NULL. Any descent that reaches a missing child dereferences NULL. | Removing 4 from the tree that holds only 3; likewise any remove on an empty tree. | A missing node returns NULL, so an absent key leaves the tree unchanged. | not executed | BinarySearchTree.AbsentKeyReachesNull | BinarySearchTree.RemovedAbsent |
