# Verified model of a dynamic binary translator

The program translates I0 code to x86-64 while it runs. This project models its data structures and the
deciding parts of its code generator in Dafny and proves what they promise.

- **Red-black tree** (`RbShape`, `RbFixup`, `RbMemory`, `RbTree`, `RbUnlink`, `RbErase`, `RbOps`, `RbTraverse`, with
  `Powers` for the height): linked nodes with parent pointers, rotated and recoloured in place. A ghost tree and a
  ghost zipper say what the nodes hold; pure lemmas about both carry the invariants. The two mirrored halves of each
  C function are one method with a `Side`. The fields of the tree's nodes are compared through snapshots (`Mem`).
- **Block index and reference sets** (`Blocks`, `BlockList`, `BlockIndex`, `RefSets`, `RefTables`): translated blocks
  in a red-black tree that is threaded by a doubly linked list, the back-reference set of a block on the same tree, and
  a table with one such set for each block.
- **Link graph** (`LinkGraph`, `LinkFacts`, `TransCache`): blocks chained by patched jumps. `LinkGraph` states each step
  as a function on values and proves the link invariant over every run; `TransCache` carries the steps out with the
  loops of the C code on the block index and the reference sets, up to the whole lookup; `LinkFacts` has the lemmas in
  between.
- **Partition index** and **temporary relocations** (`PartitionIndex`, `TempRelocs`).
- **Quicksort** (`SortFacts`, `ElementRows`, `Quicksort`) on rows of bytes of any width, and the **three-way sort**
  (`ThreeWaySort`), in place on arrays.
- **Native code pool** (`CodePool`, `PoolClasses`, `PoolLock`): summary bitmaps, the eight size classes and their
  addresses, and every interleaving of threads through the xchg locks, one access to a lock or a bitmap at a time.
- **Code generation** (`Machine`, `AluCode`, `AluEmitter`, `AluProof`): integer arithmetic on abstract x86-64
  instructions. Each emitter branches on the mode: writing, it advances byte by byte; not writing, it adds the length
  the code gives. What the code means is proved for a memory of any kind, and then for a memory of bytes.
- **Two passes** (`I0Instrs`, `TwoPass`, `NativeAddress`): jumps and comparisons in both modes, the waiting list, the
  block table, the agreement of the two passes, and the table over all segments translated so far, from the bytes of a
  segment to the entries.
- **Decoder of the translator** (`HeaderBits`, `SegmentDecoder`, `Segments`): bit fields out of one byte or two,
  operands behind them, and the instructions that a segment of memory holds.
- **Decoder of the block translator** (`I0Decoder`): bit fields of a working word, operand size tables, length checks.

`Words` has the word size. `Seals` has a key that keeps a predicate closed in a proof until the proof names the key.

## Where the code and its intent part

The model follows the code, except at these points, where it follows what the code evidently means:

- `AddToRefSet` treats a tree node as if it were a block (`src/NativeCodeBlock.c:285`); the model compares the node's
  block, as `DeleteFromRefSet` does.
- The inner loop of `DeleteNativeCodeBlock` looks at the next relocation before it tests for the end of the list
  (`src/NativeCodeBlock.c:616-623`); the model tests first.
- The second recursive call of the three-way sort omits `n` in its start (`src/NativeCodeBlocktmp.c:649`); the model
  starts at `n + l - ge`.
- The loops over a relocation list start at index 1 and only stop at equality with the length
  (`src/NativeCodeBlock.c:574-629`); a relocation list always has its header entry, which `Shaped` states.
- `RebaseNativeCodeBlock` leaves `NativeCode := newbase` to its caller; the model does it at the end of the step.
- `FakeStepI0` passes arguments of an older decoder (`src/NativeCodeBlock.c:544-547`); the model has a step that moves
  the I0 address and the native address past one instruction.
- `within_32bit` shifts an `int` into its sign bit (`src/bin_translator.c:4881-4897`); the model uses the signed 32-bit
  range that two's complement arithmetic gives.

Findings that the proofs settle:

- `opt_translate2x86_64_add` has no case for two operands in memory and a result that is not (`AddMemMemStops`): the
  translator stops on such an instruction, though the default path handles it. `TranslationMeans` says exactly when
  the translator stops, and that it is right whenever it does not.
- The two passes can come to different lengths when a trampoline is at the edge of the jump range (`FarDiffers`).
  `PassesAgree` says exactly when they stay together, by lengths of the pass that writes nothing. The input lies
  outside the program's address layout: inside it every trampoline is in range (`LayoutNear`), and
  `GetNativeCodeAddress` only translates inside it. The macro for the upper limit of the range groups as
  `1 << (31 - 1)` (`src/bin_translator.h:11`), so the limit is 2^30, and the model uses that.

## Model

| member | source | states |
|---|---|---|
| RbTree.RotateLeft | src/rbtree.c:26-47 | the fields of the node, its child, the inner grandchild, the parent slot or root change as a left rotation says, no other field does |
| RbTree.RotateRight | src/rbtree.c:49-70 | the mirror image of the left rotation |
| RbMemory.TurnRep | src/rbtree.c:26-70 | after those field changes memory represents the rotated tree in the same context, parent links included |
| RbTree.Rotate | src/rbtree.c:26-70 | the linked nodes represent the rotated tree at any place in any tree |
| RbTree.LinkNode | src/rbtree.h:151-158 | the new red leaf is linked at the empty slot, in parent and root |
| RbFixup.InsertStepBalance | src/rbtree.c:76-132 | one recolouring step keeps all invariants except one red-red edge two levels up, with equal black heights |
| RbFixup.InsertStepSeq | src/rbtree.c:76-132 | one step keeps the in-order sequence |
| RbTree.InsertStep | src/rbtree.c:76-132 | the step on linked nodes is the step on trees; the red node climbs two levels |
| RbTree.InsertColor | src/rbtree.c:72-135 | terminates with a valid red-black tree: black root, no red-red edge, equal black heights, right parent links; the in-order sequence has the node at its link position |
| RbFixup.RaiseSibKeeps | src/rbtree.c:147-153 | the red-sibling case keeps the lack of one black level, and gives a black sibling |
| RbFixup.TurnSibKeeps | src/rbtree.c:163-169 | the inner-nephew case keeps the invariant and makes the outer nephew red |
| RbFixup.RefillKeeps | src/rbtree.c:170-175 | the outer-nephew case restores equal black heights everywhere |
| RbFixup.ReddenSibKeeps | src/rbtree.c:154-160 | reddening the sibling moves the lack of one black level to the parent |
| RbErase.EraseStep | src/rbtree.c:142-212 | one round on linked nodes either finishes with a valid tree or moves the hole one level up, same sequence, same nodes |
| RbErase.EraseColor | src/rbtree.c:137-215 | terminates with a valid red-black tree on the same nodes in the same order |
| RbErase.EraseThin | src/rbtree.c:222-282 | a node with at most one child is unlinked from its parent, child and root |
| RbErase.Successor | src/rbtree.c:228-232 | the leftmost node of the right subtree, its place, and that everything else of that subtree comes after it |
| RbUnlink.TookPlaceRep | src/rbtree.c:234-259 | the successor's links make it stand where the erased node stood, whether or not it was its right child |
| RbErase.EraseFull | src/rbtree.c:226-282 | a node with two children is replaced by its successor and the tree rebalanced |
| RbErase.Erase | src/rbtree.c:217-282 | on any valid tree: a valid tree results, its sequence is the old one without exactly the node, its nodes are the others |
| RbOps.Insert | src/rbtree.h:151-158 | on a root: valid stays valid, the new node stands at the slot's position |
| RbOps.Remove | src/rbtree.c:217-282 | on a root: valid stays valid, what preceded the node and what followed it are now adjacent |
| RbOps.Next | src/rbtree.c:311-337 | the node after the given one in the order, null for the last and for cleared nodes |
| RbOps.Prev | src/rbtree.c:339-361 | the node before the given one in the order, null for the first and for cleared nodes |
| RbTraverse.HeightBound | src/rbtree.c:72-282 | a valid tree of n nodes has height at most 2 log2(n + 1) |
| RbTraverse.SlotsSuffice | src/NativeCodeBlock.c:370-399 | below 2^32 nodes the 64 slots of the traversal stack suffice |
| RbTraverse.VisitsEachOnce | src/NativeCodeBlock.c:370-399 | the traversal order has every node of the tree exactly once |
| RbTraverse.Traverse | src/NativeCodeBlock.c:370-399 | the loop with its explicit stack visits the nodes in that order and never overflows the stack |
| BlockList.PutLinked | src/NativeCodeBlock.c:446-486 | setting the links of a block and its neighbours puts it into the doubly linked list at the place between them |
| BlockList.TakeLinked | src/NativeCodeBlock.c:632-647 | unlinking a block leaves the doubly linked list of the others |
| BlockIndex.NeighboursDecide | src/NativeCodeBlock.c:490-498 | among disjoint blocks a new one is disjoint from all others iff it is from its two neighbours |
| BlockIndex.Index.InsertNativeCodeBlock | src/NativeCodeBlock.c:433-500 | tree and list stay the same sequence sorted by base, with the block put in; the assertions at the end hold iff all ranges are disjoint |
| BlockIndex.Index.FindTargetBlock | src/NativeCodeBlock.c:502-542 | the block with the greatest base not above the address, null iff there is none |
| BlockIndex.TargetCovers | src/NativeCodeBlock.c:502-542 | when ranges are disjoint an address lies in some block iff it lies in the one found |
| BlockIndex.TakeKeepsDisjoint | src/NativeCodeBlock.c:632-648 | taking a block out keeps the other ranges disjoint |
| BlockIndex.Index.Unlink | src/NativeCodeBlock.c:632-648 | list, list ends and tree lose exactly the block and stay consistent |
| RefSets.RefSet.AddToRefSet | src/NativeCodeBlock.c:279-304 | the set gains the block, nothing else changes, adding twice is adding once |
| RefSets.RefSet.DeleteFromRefSet | src/NativeCodeBlock.c:250-277 | the set loses the block; the failing assertion is reached iff it was not a member |
| RefSets.CountIsSize | src/NativeCodeBlock.c:250-304 | the counter kept beside the tree is the size of the set |
| RefSets.RefSet.Walk | src/NativeCodeBlock.c:370-399 | the walk with the explicit stack meets every member of the set exactly once |
| RefTables.RefTable.Delete | src/NativeCodeBlock.c:250-277 | of all the tree-backed sets in memory exactly one changes: it loses the block; the failing assertion is reached iff it was not a member |
| RefTables.RefTable.Add | src/NativeCodeBlock.c:279-304 | of all the tree-backed sets in memory exactly one changes: it gains the block |
| RefTables.RefTable.Order | src/NativeCodeBlock.c:370-399 | one block's set is walked in its tree order, each member once, with the sets of the others beside it |
| LinkGraph.OneTarget | src/NativeCodeBlock.c:306-336 | a patched jump leads into the only block that holds its source address, never into its own |
| LinkGraph.DeletedInv | src/NativeCodeBlock.c:550-650 | deleting a block keeps the link invariant on exactly the other blocks |
| LinkGraph.DeletedNobody | src/NativeCodeBlock.c:550-650 | after a deletion no surviving block jumps to the deleted one or refers to it |
| LinkGraph.PatchedInv | src/NativeCodeBlock.c:721-728 | patching a relocation and adding the back-reference keep the link invariant |
| LinkGraph.OffsetMoves | src/NativeCodeBlock.c:338-360 | adding the wrapping 64-bit distance of two bases keeps the offset inside the block |
| LinkGraph.RebasedPoint | src/NativeCodeBlock.c:338-368 | a rebase keeps the offset of every jump into the block, leaves every other jump and stub call as it was, and all points sound |
| LinkGraph.RebasedInv | src/NativeCodeBlock.c:997-1012 | a rebase re-establishes the link invariant at the new base |
| LinkGraph.AddedInv | src/NativeCodeBlock.c:433-500 | a freshly translated block that overlaps no other keeps the link invariant |
| LinkGraph.RecordedInv | src/NativeCodeBlock.c:553-571 | a table entry for an address of a block keeps the link invariant: an entry is listed by exactly one block and leads into it |
| LinkGraph.RecordThenDelete | src/NativeCodeBlock.c:553-571 | deleting the block of a table entry takes the entry out again, and nothing else is left of it |
| LinkGraph.LinkThenDelete | src/NativeCodeBlock.c:721-728 | deleting the target of a link takes the link back completely |
| LinkGraph.RebaseBack | src/NativeCodeBlock.c:997-1012 | moving a block there and back changes nothing at all |
| LinkGraph.RunKeeps | src/NativeCodeBlock.c:550-650 | over every run of insertions, links, table entries, deletions and rebases a block is in another's reference set iff it has a patched jump into it, every unpatched relocation calls its own stub, and every listed table entry leads into its block |
| TransCache.FindFirstRelocEntryBySpc | src/NativeCodeBlock.c:966-992 | the first relocation after the header that is not below the address, 0 for no list |
| TransCache.Cache.ResolveExternalDeleting | src/NativeCodeBlock.c:306-336 | exactly the patched relocations into the block's range call their stubs again; all assertions hold |
| TransCache.Cache.ResolveExternalRebasing | src/NativeCodeBlock.c:338-368 | exactly the patched relocations into the block's range have the offset added; all assertions hold |
| TransCache.Cache.TraverRefBlockPrepDel | src/NativeCodeBlock.c:370-399 | the walk through the tree of referring blocks, with its stack, unpatches every jump to the block there is |
| TransCache.Cache.TraverRefBlockRebase | src/NativeCodeBlock.c:401-429 | the walk through the tree of referring blocks, with its stack, moves every jump to the block there is, once |
| TransCache.Cache.RebaseEntries | src/NativeCodeBlock.c:1006-1010 | each listed table entry has the offset added once, the others are left alone |
| TransCache.Cache.RebaseNativeCodeBlock | src/NativeCodeBlock.c:997-1012 | the whole rebase is the step on values, also when the offset is zero, and the cache stays valid |
| LinkFacts.RebaseNothing | src/NativeCodeBlock.c:1000-1001 | leaving out everything when the offset is zero is right |
| TransCache.Cache.DeleteFromRefSet | src/NativeCodeBlock.c:250-277 | the tree of one block loses the member it must have, so the failing assertion is unreachable, and the trees in memory are again the reference sets of the link graph |
| TransCache.Cache.AddToRefSet | src/NativeCodeBlock.c:279-304 | the tree of one block gains a member, new memory apart from the index, and the trees in memory are again the reference sets of the link graph |
| TransCache.Cache.TargetOf | src/NativeCodeBlock.c:600-602 | the lookup finds the block a patched relocation leads into; the assertions on it hold |
| TransCache.Cache.LeaveRound | src/NativeCodeBlock.c:600-624 | one round: the target of a patched relocation, not met before, forgets the block, and all relocations into it are passed |
| TransCache.SkipTarget | src/NativeCodeBlock.c:604-624 | the inner loop passes all relocations into the target, so the target is not met again |
| TransCache.Cache.LeaveTargets | src/NativeCodeBlock.c:574-629 | after the loops no block refers back to the deleted one |
| TransCache.Cache.DropEntries | src/NativeCodeBlock.c:553-571 | the table loses exactly the entries the block lists |
| TransCache.Cache.Disconnect | src/NativeCodeBlock.c:550-631 | all that deletion does to the other blocks is the step on values |
| TransCache.Cache.DeleteNativeCodeBlock | src/NativeCodeBlock.c:550-650 | graph, index and reference trees lose exactly the block, for every block in the cache, and the cache stays valid |
| TransCache.Cache.LinkTo | src/NativeCodeBlock.c:721-728 | patching the reloc point and adding the reference is the step on values, and the cache stays valid |
| TransCache.Cache.FindInBlock | src/NativeCodeBlock.c:697-708 | the native address of an instruction inside a block is found through its partition list, and it lies in the block's native code |
| TransCache.Cache.Kill | src/NativeCodeBlock.c:708-719 | a block that holds the address with no instruction there is deleted, and the address then lies between its neighbours |
| TransCache.Cache.Lookup | src/NativeCodeBlock.c:689-745 | the lookup: native code of the instruction at the address if a block has one, with the relocation linked to it; a block that holds the address otherwise is deleted; else the neighbours of the place where no block holds it. The assertion fails iff a block would be linked to itself, and the cache stays valid |
| TransCache.Cache.Add | src/NativeCodeBlock.c:433-500 | a new block enters index and graph; the assertions hold iff it overlaps no block, and then the cache stays valid |
| PartitionIndex.FindNCPartitionBySpc | src/NativeCodeBlock.c:931-964 | the last entry not beyond the offset, the start of the block when there is none |
| PartitionIndex.StepFromBoundary | src/NativeCodeBlock.c:698-707 | stepping from any instruction not beyond the address arrives where stepping from the start does |
| PartitionIndex.ReachesExactly | src/NativeCodeBlock.c:703-707 | stepping reaches the address itself iff an instruction starts there, and always ends at an instruction |
| PartitionIndex.FindNative | src/NativeCodeBlock.c:698-707 | lookup through the index gives what stepping from the start of the block gives, and says whether the address is an instruction |
| TempRelocs.TempRelocList.InsertTempReloc | src/NativeCodeBlock.c:170-232 | the previous and next links, head and tail form the in-order sequence of the tree, sorted by I0 and native address; the new entry goes after all equal ones |
| TempRelocs.TempRelocList.Thread | src/NativeCodeBlock.c:184-228 | linking next to the parent of the empty slot puts the entry at its place in the doubly linked list |
| TempRelocs.SlotPlace | src/NativeCodeBlock.c:184-228 | the parent of the empty slot is beside the slot's place in the list, and exactly the entries from there on are above the new one |
| Quicksort.MedianOfThree | src/qsort_mod.c:138-148 | the three elements end up in order, the segment is permuted |
| Quicksort.ScanRight | src/qsort_mod.c:158-159 | the unguarded scan to the right stops inside the segment |
| Quicksort.ScanLeft | src/qsort_mod.c:161-162 | the unguarded scan to the left stops inside the segment |
| SortFacts.ScansMeet | src/qsort_mod.c:158-181 | the scans never leave a gap between them |
| Quicksort.Collapse | src/qsort_mod.c:150-181 | the segment is permuted and split around the pivot, both parts non-empty, at most the pivot between them |
| SortFacts.SegmentsNext | src/qsort_mod.c:188-211 | going on with the parts of more than five elements leaves every pair more than four apart ordered or inside a pending segment |
| Quicksort.Choose | src/qsort_mod.c:188-211 | what is pushed, popped and taken next are the large parts, the larger one pushed |
| SortFacts.PartsHalve | src/qsort_mod.c:200-211 | with k entries on the stack the current segment times 2^k never exceeds the number of elements |
| SortFacts.Room | src/qsort_mod.c:71-75 | below 2^64 elements a push never overflows the 64 slots |
| SortFacts.PartsWork | src/qsort_mod.c:127-212 | every round leaves less work, so the loop ends |
| Quicksort.SortSegments | src/qsort_mod.c:118-213 | ends exactly when the null entry is popped, with a permutation in which elements more than four apart are in order |
| Quicksort.PlaceSentinel | src/qsort_mod.c:225-238 | the least of the first five elements, placed first, is the least of all |
| Quicksort.FindPlace | src/qsort_mod.c:245-249 | the unguarded insertion scan stops in the array at the element's place |
| Quicksort.InsertElement | src/qsort_mod.c:243-265 | the sorted prefix grows by one element, the array is permuted |
| Quicksort.QuicksortMod | src/qsort_mod.c:107-267 | for every comparator that is a total preorder on elements, every element size in bytes and every number of elements below 2^64, the elements end up as a sorted permutation, moved byte by byte |
| ElementRows.SwapBytes | src/qsort_mod.c:33-44 | swapping byte by byte swaps two elements of any size |
| ElementRows.RotateBytes | src/qsort_mod.c:254-263 | rotating byte by byte rotates whole elements of any size |
| SortFacts.RotatedAt | src/qsort_mod.c:254-263 | the rotation of elements takes each from the place the byte rotation takes it from |
| ThreeWaySort.ScanUp | src/NativeCodeBlocktmp.c:621-625 | keeps the zones equal, less, unseen, greater, equal while moving up |
| ThreeWaySort.ScanDown | src/NativeCodeBlocktmp.c:626-630 | keeps the zones while moving down |
| ThreeWaySort.Gather | src/NativeCodeBlocktmp.c:620-635 | ends with equal, less, greater, equal and no gap |
| ThreeWaySort.Mirror | src/NativeCodeBlocktmp.c:636-647 | an exchange loop mirrors its places about a centre and changes no other |
| ThreeWaySort.Partition | src/NativeCodeBlocktmp.c:610-647 | a permutation laid out less, equal, greater around the pivot, which is among the equal ones |
| ThreeWaySort.Sort | src/NativeCodeBlocktmp.c:610-651 | a sorted permutation for every choice of pivots |
| CodePool.ScanDown | src/NativeCodeBlocktmp.c:68-72 | the scan of the next level never sees a zero word and finds the lowest bit of the level |
| CodePool.BuiltSound | src/NativeCodeBlocktmp.c:52-118 | in every reachable state the free blocks determine all bitmaps: a bit is set iff the word below is not zero |
| CodePool.BuiltStaysSound | src/NativeCodeBlocktmp.c:52-118 | the converse: any set of blocks of the pool is the free set of consistent bitmaps |
| CodePool.FreeBelow | src/NativeCodeBlocktmp.c:52-118 | every set bit is inside the pool |
| CodePool.FullSound | src/NativeCodeBlocktmp.c:15-50 | the initial all-ones bitmaps are consistent and all blocks are free |
| CodePool.EmptyLevels | src/NativeCodeBlocktmp.c:60 | the top word is zero iff no block is free |
| CodePool.Pool.Alloc | src/NativeCodeBlocktmp.c:52-90 | finds a block iff one is free, the lowest; the bitmaps are those of the free blocks without it |
| CodePool.Pool.Release | src/NativeCodeBlocktmp.c:92-118 | the bitmaps are those of the free blocks with the block |
| PoolClasses.ClassFilled | src/NativeCodeBlocktmp.c:15-50 | in each of the eight classes the blocks fill exactly 2^28 bytes |
| PoolClasses.AddressDecodes | src/NativeCodeBlocktmp.c:578-582 | an address decodes to the class and block it was computed from |
| PoolClasses.BlocksApart | src/NativeCodeBlocktmp.c:85 | different blocks of one class or of two have no byte in common |
| PoolClasses.NativeCodePools.AllocThenRelease | src/NativeCodeBlocktmp.c:569-582 | an allocation and then a deallocation at the address it returned leave every bitmap of every class as it was |
| PoolClasses.NativeCodePools.Alloc | src/NativeCodeBlocktmp.c:569-576 | the address of the lowest free block of the class and the bitmaps without it, nothing for a class out of range; other classes unchanged |
| PoolClasses.NativeCodePools.Release | src/NativeCodeBlocktmp.c:578-582 | the bitmaps have the block the address decodes to; other classes unchanged |
| PoolLock.ExclusiveNext | src/NativeCodeBlocktmp.c:55-84 | a step that enters only an open lock and opens only its own keeps at most one thread inside |
| PoolLock.ResetInv | src/NativeCodeBlocktmp.c:73-80 | resetting a bit keeps the invariant: the first one takes the block out of the free ones, the levels above may stay behind |
| PoolLock.TestInv | src/NativeCodeBlocktmp.c:75-78 | the test of a word leads to the reset above exactly when the level above is stale, and otherwise all levels agree |
| PoolLock.SetInv | src/NativeCodeBlocktmp.c:111-113 | setting a bit keeps the invariant, and after the last one all levels agree |
| PoolLock.WorkingNext | src/NativeCodeBlocktmp.c:52-118 | what a thread has done so far stays as it left it while other threads take steps |
| PoolLock.ScansFind | src/NativeCodeBlocktmp.c:68-72 | in every interleaving a bit scan meets a word that is not zero and finds the lowest bit of its level |
| PoolLock.TakesLowest | src/NativeCodeBlocktmp.c:73 | in every interleaving an allocation takes the lowest block that is free when its bit is reset |
| PoolLock.SteadyBuilt | src/NativeCodeBlocktmp.c:52-118 | while no thread is changing the bitmaps of a class they are those of its free blocks, as `Pool.Alloc` and `Pool.Release` leave them |
| PoolLock.CanStep | src/NativeCodeBlocktmp.c:52-118 | in every reachable state a thread in a call has a next step |
| PoolLock.RunInv | src/NativeCodeBlocktmp.c:52-118 | every interleaving keeps the invariant |
| PoolLock.MutualExclusion | src/NativeCodeBlocktmp.c:54-58 | at most one thread is inside a pool, and only while its lock is taken |
| PoolLock.AllocatedApart | src/NativeCodeBlocktmp.c:84-85 | the block an allocation returns overlaps no live block and none in another thread's hands |
| PoolLock.LiveApart | src/NativeCodeBlocktmp.c:85-117 | blocks live at the same time never overlap |
| PoolLock.Conserved | src/NativeCodeBlocktmp.c:52-118 | in every state of every interleaving the free blocks of a class, its live blocks and the threads that have one on its way add up to the blocks of the class |
| PoolLock.QuietConserves | src/NativeCodeBlocktmp.c:52-118 | when no call is under way every block is either free or live, and the free and the live blocks add up |
| Machine.ExtendLow32 | src/bin_translator.c:4881-4897 | the encoded 32-bit immediate means the operand iff it fits |
| AluProof.AddSets | src/bin_translator.c:6590-6668 | for all operand classes, with any aliasing, the optimised ADD sets C to A + B and nothing else, or stops exactly in the stated cases |
| AluProof.AddFromMemSets | src/bin_translator.c:6637-6650 | moving one operand to C first is right because it is declined when C is the base of the other |
| AluProof.SubSets | src/bin_translator.c:6543-6586 | the optimised SUB sets C to A - B for all operand classes, with C aliasing A, B or a base register |
| AluProof.MulMeans | src/bin_translator.c:6673-6738 | multiplication by 1, 2, 4 or 8 by a move or a shift is multiplication |
| AluProof.DefaultMeans | src/bin_translator.c:6866-7026 | the read-read-operate-write path sets C to A op B for every operand, and stops only for a constant C |
| AluProof.TranslationMeans | src/bin_translator.c:6850-7029 | the translator stops iff `Stops`, and otherwise the code leaves an I0 program what the meaning of the instruction does, for a memory of any kind |
| AluProof.ByteMemoryMeans | src/bin_translator.c:6850-7029 | on a memory of bytes a register C is A op B and no other register and no byte changes; a memory C reads back as A op B at the address it had before, and no register and no byte outside that word changes |
| AluProof.OptimisedAgrees | src/bin_translator.c:6742-6785 | wherever the optimisation emits code, the default path does the same |
| AluProof.AddMemMemStops | src/bin_translator.c:6613-6665 | an ADD of two memory operands to a register stops the translator, the default path would be right |
| AluEmitter.InTurn | src/bin_translator.c:6590-6668 | emitters in a row emit their code in a row and add up their lengths, in both modes |
| AluEmitter.Emitter.Encode | src/bin_translator.c:5930-6090 | the bytes written one by one are as many as the other mode adds at once; stops iff neither operand is a register |
| AluEmitter.Emitter.Leaq | src/bin_translator.c:6092-6243 | the same for leaq, with constants added when the sum fits, and one more byte for r13 |
| AluEmitter.Emitter.OptTranslateAdd | src/bin_translator.c:6590-6668 | emits the code whose meaning is proved, or declines, in both modes |
| AluEmitter.Emitter.OptTranslateSub | src/bin_translator.c:6543-6586 | emits the code whose meaning is proved, in both modes |
| AluEmitter.Emitter.Read | src/bin_translator.c:2422-2783 | the bytes of the read written one by one are as many as the other mode adds, for each kind of operand |
| AluEmitter.Emitter.Write | src/bin_translator.c:3845-4192 | the bytes of the write written one by one are as many as the other mode adds, stopping for a constant |
| AluEmitter.Emitter.TranslateAlu | src/bin_translator.c:6850-7029 | writing, exactly the bytes of the translation are emitted, one by one; not writing, exactly its length is added |
| TwoPass.PassesAgree | src/bin_translator.c:4302-4758 | the passes have equal lengths after every instruction iff no jump has its trampoline on the other side of the range from where the trampolines begin, measured by the pass that writes nothing |
| TwoPass.LayoutNear | src/bin_translator.c:7949-7966 | with native code and trampolines inside their parts of the address space every jump reaches its trampoline |
| TwoPass.NearLength | src/bin_translator.c:4302-4758 | with all trampolines in range both passes have the same length |
| TwoPass.FarDiffers | src/bin_translator.c:838-851 | an input outside the address layout on which the second pass comes to another length |
| TwoPass.TranslateJump | src/bin_translator.c:4310-4363 | a jump: the bytes written one by one are as many as the other mode adds, whether the trampoline is near or far |
| TwoPass.ComparePhase | src/bin_translator.c:4372-4433 | the comparison before a conditional jump: the bytes written one by one are as many as the other mode adds, for registers, memory and the byte-wise comparison |
| TwoPass.ZeroPhase | src/bin_translator.c:4583-4614 | the comparison with zero: the bytes written one by one are as many as the other mode adds |
| TwoPass.JccPhase | src/bin_translator.c:4434-4582 | the conditional jump: the bytes written one by one are as many as the other mode adds, near or around a far jump |
| TwoPass.TranslateIndirectJump | src/bin_translator.c:4728-4752 | the indirect jump: the bytes written one by one are as many as the other mode adds |
| TwoPass.Translate | src/bin_translator.c:7307-7357 | every instruction adds the same size in both modes when its trampoline is near, arithmetic through the proved emitters; only writing adds a trampoline |
| TwoPass.Translator.InWaitingList | src/bin_translator.c:304-318 | a place of an entry not yet found, -1 iff there is none |
| TwoPass.FoundKeeps | src/bin_translator.c:7764-7777 | reaching an instruction records it if it was awaited and forgets nothing else |
| TwoPass.Translator.Step | src/bin_translator.c:7726-7800 | one instruction forgets nothing pending, records what was awaited here, and adds only entries for here and for the next instruction |
| HeaderBits.Bit2Uint | src/bin_translator.c:525-583 | up to eight bits out of one byte or two are the field at that position in the four bytes of a header |
| SegmentDecoder.DecodeOpcode | src/bin_translator.c:7490-7495 | two bits and eight bits give the opcode field of ten bits |
| SegmentDecoder.DecodeHeader | src/bin_translator.c:7502-7706 | the switch yields the fields at their bit positions and the padded size, or stops |
| SegmentDecoder.DecodeInstr | src/bin_translator.c:7361-7706 | the step-by-step decoder equals the specification from bit positions and operands to the instruction |
| Segments.CodeDecodes | src/bin_translator.c:7480-7706 | what a segment decodes to begins inside it, tiles it without a gap, and ends after it or where the decoder stops |
| TwoPass.Translator.TranslatePass | src/bin_translator.c:7450-7810 | a pass over the bytes of a segment has the stated lengths in either mode, adds only right entries, and records every instruction awaited when it began |
| TwoPass.EntriesAgree | src/bin_translator.c:274-280 | right entries for one I0 address have the same native address |
| TwoPass.Translator.TranslateI0Code | src/bin_translator.c:7812-7832 | after both passes over the bytes of a segment every branch target that is an instruction, forward or backward, has an entry with its right native address, and all new entries are right |
| NativeAddress.NativeCode.GetNativeCodeAddress | src/bin_translator.c:7857-7982 | from bytes to entries: the address given is that of the target's native code in the segment it was translated with, from the table if it is there; otherwise the bytes at the target are decoded and translated, every branch target among them gets its entry, and over all calls every entry of the table stays right |
| I0Decoder.DecodedLength | src/testdecode2.c:1016-1346 | success moves the cursor by header and operand sizes and stays within the limit, failure leaves it |
| I0Decoder.DecodeLocal | src/testdecode2.c:1016-1346 | what is decoded depends on the bytes of the instruction only, not on later bytes or the limit |
| I0Decoder.AluBits | src/testdecode2.c:1048-1052 | shifting the working word yields the fields at their bit positions, whatever its lower half held |
| I0Decoder.ZeroBits | src/testdecode2.c:1136-1139 | the same for the branches on zero |
| I0Decoder.SpawnBits | src/testdecode2.c:1223-1227 | the same for SPAWN |
| I0Decoder.ShiftBits | src/testdecode2.c:1260-1265 | the same for SHIFT |
| I0Decoder.StrCompareBits | src/testdecode2.c:1293-1298 | the same for SCMP |
| I0Decoder.DecodeOpr | src/testdecode2.c:947-1013 | the macros move the cursor by exactly the size the tables give, and read the operand |
| I0Decoder.SelectForm | src/testdecode2.c:1016-1346 | the opcode and the branch option from the working word select the case that the first two bytes of the instruction define |
| I0Decoder.DecodeInstr | src/testdecode2.c:1016-1346 | the step-by-step decoder equals the specification, whatever the register held before, and reads no byte past the limit |
| I0Decoder.DecodeSegment | src/testdecode2.c:1016-1346 | repeated decoding ends and tiles the segment from its start to the first failure |
| I0Decoder.TilesAgree | src/testdecode2.c:1016-1346 | two decodings from one place agree as far as both go, whatever their limits |

## Left out

- Encoding of x86-64 instructions into bytes: instructions are abstract, only their lengths are modelled. A plain
  indirect operand through register file 4 (r13) is encoded with mod 00 by movq, addq and subq, which the processor
  reads as another address; the model's instruction means what the translator intends.
- Patch sites: each relocation has its own point in the native code. That two relocations of a block never share bytes
  is not part of this model, nor is the choice between the two layouts in `CvtRelocPoint`.
- Reuse of `malloc`ed memory and freeing: blocks, reference nodes and lists are simply no longer used.
- RbTraverse.Traverse: the stack is a sequence of fixed length, written in place of the C array of 64 pointers.
- CodePool.Pool: the eight copies of the allocator are one loop over the levels, and a level is the set of its bits.
- PoolLock: memory is sequentially consistent; fences and weak memory are not modelled.
- Arithmetic with an operand that is standard input or output, floating point, bytes and 32-bit operands, and the other
  instructions of the translator. Branches may read standard input.
- Division, shifts other than the one multiplication uses, moves between operands the optimisation does not support.
- TwoPass.Translate: instructions other than jumps, comparisons and the arithmetic of `AluCode` have a native length
  that does not depend on the mode, or stop the translator: the parameter `others` of the segment says which. That
  their emitters keep to that is not proved. The size of the block table is not limited.
- The calls that read the operands in each case of the decoder's switch are one loop over what the header announces,
  and every address can be read.
- TransCache.Cache.DeleteNativeCodeBlock: fewer than 2^32 blocks, the bound under which the traversal stack suffices.
- The rest of `Translate` after the lookup, `MergeBlocks`, `JmpFromNativeBlock`, `INC_LIST_ENTRY`, `DeleteTempReloc`:
  unfinished code.
- `AddIndirJmpTabEntry`: its walk along a chain does not advance. Table entries are a map here.
- The AVL tree of `src/NativeCodeBlocktmp.c`: unfinished code.
- `src/oldtrans.c`, `src/DecodeI0.c`: older copies. That the two decoders agree is not claimed; their shift options
  differ.
- Quicksort: the custom swap function, which may do anything.
- I0Decoder: what happens after decoding (`TranslateALU` and the like); profiling, logging, files, mmap, mprotect,
  networking.
