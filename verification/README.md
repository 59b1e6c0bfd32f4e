# MemorySpace: a first-fit memory allocator's bookkeeping, in Dafny

`MemorySpace` manages the address range `[0, maxSize)` with two ordered lists of
blocks, each a base address and a length:

- the free list holds the blocks available for allocation;
- the allocated list holds the blocks handed out by `malloc`.

There are four operations:

- The constructor seeds the free list with one block covering the whole space.
- `malloc(length)` scans the free list first-fit. An exact fit moves the block to
  the end of the allocated list. A longer block is split: its first `length` words
  are appended to the allocated list and the rest stays at the block's place in
  the free list. It returns the base address, or -1 when no block is long enough.
- `free(address)` moves the first allocated block with that base to the end of the
  free list. It fails when nothing is allocated and does nothing when no block matches.
- `defrag()` merges each free block with later free blocks that start where it ends.
  It fails on an empty free list.

The project has five files:

- `wrappers.dfy` holds `Option`, `Result` and `Outcome`.
- `blocks.dfy` (module `Blocks`) holds the `Block` datatype and the list operations
  the source uses: `addLast` is `s + [b]`, `add(i, b)` is `Insert`, `remove(i)` is
  `Remove` and `remove(block)` is `RemoveValue`, which drops the first equal element.
  It also holds the facts about lengths and disjointness those operations need.
- `memory_model.dfy` (module `MemoryModel`) describes the two lists as a value
  (`Space`). It states the class invariant `Partitioned`: the blocks of both lists
  are non-empty, lie inside `[0, maxSize)`, do not overlap and add up to `maxSize`.
  It defines what each operation does as a function and proves the properties of
  those functions.
- `memory_space.dfy` (module `Allocator`) is the class `MemorySpace`. Its two `seq`
  fields are changed in place by methods that walk the lists with loops as the
  source does. `Malloc`, `Free` and `Defrag` are proved to leave exactly the
  lists of `MemoryModel.Malloc`, `MemoryModel.Free` and `MemoryModel.Defrag`,
  and to keep `Valid()`. The helpers `Allocate`, `TakeWhole`, `SplitAt` and
  `JoinFree` state what their list operations do.
- `defrag_cursors.dfy` (module `DefragCursors`) follows `defrag` as its node
  cursors actually move. It shows that this scan throws or corrupts the free list
  on some inputs (see "## Findings"). `MemoryModel` and the class therefore model
  the scan over `checkedIndex` and `runningIndex` that the code evidently intends.

## Model

| member | source | states |
|---|---|---|
| Allocator.MemorySpace.constructor | MemorySpace.java:20-28 | the allocated list is empty, the free list is exactly `[(0, maxSize)]`, and the invariant holds |
| MemoryModel.Partitioned | MemorySpace.java:8-12 | the class invariant over the two fields: the blocks of both lists are non-empty, lie inside `[0, maxSize)`, do not overlap and add up to `maxSize` |
| MemoryModel.Init | MemorySpace.java:20-28 | a new space, with its single free block `(0, maxSize)` and no allocated block, is a partition of `[0, maxSize)` when `maxSize > 0` |
| MemoryModel.Malloc | MemorySpace.java:60-121 | malloc returns -1 if and only if no free block is long enough, and then both lists are unchanged; otherwise the allocated list gains exactly one block at its end, `(address, n)` |
| Allocator.MemorySpace.Malloc | MemorySpace.java:60-121 | the returned address and the new lists are exactly those of `MemoryModel.Malloc` (first fit; exact fit moves the block, otherwise a split; -1 and no change when nothing fits), and the invariant is kept |
| Allocator.MemorySpace.Allocate | MemorySpace.java:69-88 | allocating from the first block long enough gives the address and lists of `MemoryModel.Malloc` |
| Allocator.MemorySpace.TakeWhole | MemorySpace.java:100-106 | exact fit: returns the block's base, the block leaves the free list at its index and is appended unchanged to the allocated list |
| Allocator.MemorySpace.SplitAt | MemorySpace.java:109-119 | split: returns the block's base, `(base, length)` is appended to the allocated list and the free block at the same index becomes `(base + length, len - length)`; every other free block is unchanged |
| MemoryModel.FirstFit | MemorySpace.java:91-98 | the index found is the first in list order whose block is at least `n` long; none is found exactly when every block is shorter |
| MemoryModel.FirstFitAt | MemorySpace.java:91-94 | a block at least `n` long with only shorter blocks before it is the one first fit finds |
| MemoryModel.MallocFirstFit | MemorySpace.java:65-120 | malloc returns the base of the first block long enough; on an exact fit the free list loses that block and the allocated list gains it unchanged at its end; otherwise the allocated list gains `(base, n)`, the free list keeps its length, holds `(base + n, len - n)` at that index and is unchanged elsewhere |
| MemoryModel.MallocSplitExample | MemorySpace.java:44-49 | request 17 from the free block `(250, 20)` returns 250, allocates `(250, 17)` and leaves `(267, 3)` free |
| MemoryModel.ExactFitKeepsPartition | MemorySpace.java:69-75 | moving a free block whole to the end of the allocated list keeps the partition |
| MemoryModel.SplitKeepsPartition | MemorySpace.java:77-87 | splitting a free block between the two lists keeps the partition |
| MemoryModel.MallocPreservesPartition | MemorySpace.java:60-121 | malloc keeps the two lists a partition of `[0, maxSize)` |
| Blocks.Insert | MemorySpace.java:84 | `add(i, b)`: the list grows by one, `b` is at `i`, earlier elements stay, later ones move up one place |
| Blocks.Remove | MemorySpace.java:85 | `remove(i)`: the list shrinks by one, earlier elements stay, later ones move down one place |
| Blocks.RemoveValue | MemorySpace.java:73 | `remove(block)`: a list without the block is unchanged; otherwise it shrinks by one |
| Blocks.RemoveValueAt | MemorySpace.java:104 | removing a block by value is removing it at the index where it first occurs |
| MemoryModel.FindBase | MemorySpace.java:136-146 | the index found is the first whose block has the given base; none is found exactly when no block has it |
| Allocator.MemorySpace.Free | MemorySpace.java:131-154 | the outcome and new lists are exactly those of `MemoryModel.Free`: an error and no change when nothing is allocated, otherwise the first allocated block with that base moves unchanged to the end of the free list, and no change when none has it; the invariant is kept |
| MemoryModel.Free | MemorySpace.java:131-154 | free fails, with `AllocatedListEmpty`, exactly when nothing is allocated. Otherwise the number of blocks is kept. The lists are unchanged if and only if no allocated block has the base. When one has it, the old free list is followed by one block from the allocated list, whose base is the address |
| MemoryModel.FreeFirstMatch | MemorySpace.java:136-151 | when allocated block `j` is the first with the given base, free appends exactly that block to the free list and removes it at `j` from the allocated list, all other blocks keeping their order |
| MemoryModel.FreePreservesPartition | MemorySpace.java:131-154 | free keeps the two lists a partition of `[0, maxSize)` |
| MemoryModel.AllocatedToFreeKeepsPartition | MemorySpace.java:149-150 | moving an allocated block to the end of the free list keeps the partition |
| MemoryModel.MallocThenFree | MemorySpace.java:60-154 | freeing the address a successful malloc returned moves the block malloc appended to the end of the free list and restores the allocated list to what it was before the malloc |
| MemoryModel.Merge | MemorySpace.java:181-185 | one merge: the list shrinks by one, the outer block's place holds `(base, l1 + l2)`, and every other block keeps its order |
| MemoryModel.MergeSum | MemorySpace.java:182-185 | a merge keeps the total length of the free list |
| MemoryModel.MergeByListOperations | MemorySpace.java:182-185 | adding the joined block at the outer index, then removing at `runningIndex + 1` and `checkedIndex + 1`, is exactly one merge |
| Allocator.MemorySpace.JoinFree | MemorySpace.java:182-185 | the three list operations of a merge leave the free list equal to `Merge` of the old one |
| MemoryModel.Inner | MemorySpace.java:180-198 | the inner scan never adds a block; the blocks before the outer index are untouched and the block at the outer index keeps its base (it is never removed) |
| MemoryModel.Outer | MemorySpace.java:179-202 | the outer scan from index `c` never adds a block; the blocks before `c` are untouched and block `c` keeps its base |
| MemoryModel.Coalesce | MemorySpace.java:174-202 | the coalesced free list has at least one block, no more than before, and its first block starts where the first block did |
| MemoryModel.Defrag | MemorySpace.java:169-204 | defrag fails, with `FreeListEmpty`, exactly when the free list is empty; otherwise the allocated list is unchanged and the free list keeps between one block and as many as it had |
| Allocator.MemorySpace.Defrag | MemorySpace.java:169-204 | the outcome and new lists are exactly those of `MemoryModel.Defrag`: an error and no change on an empty free list, otherwise the free list is coalesced; the invariant is kept |
| MemoryModel.DefragPreservesPartition | MemorySpace.java:169-202 | defrag keeps the two lists a partition of `[0, maxSize)` |
| MemoryModel.CoalesceSum | MemorySpace.java:179-202 | defrag keeps the number of free words |
| MemoryModel.InnerCompletes | MemorySpace.java:180-198 | after the inner scan for an outer index no later block starts where the outer block ends |
| MemoryModel.CoalesceNoForwardAdjacency | MemorySpace.java:179-202 | after defrag no free block starts where an earlier free block in list order ends |
| MemoryModel.CoalesceExample | MemorySpace.java:181 | free blocks `(0,10), (10,5), (20,5)` become `(0,15), (20,5)` |
| MemoryModel.CoalesceMissesBackwardAdjacency | MemorySpace.java:181 | free blocks `(10,5), (0,10)` stay as they are: a right neighbour earlier in the list is not merged |
| MemoryModel.ScenarioRun | MemorySpace.java:20-204 | on a space of 100 words, malloc(30), malloc(20), free(0), defrag (the index scan) and malloc(30) return 0, 30 and 50 and leave the free list `(80,20), (0,30)` and the allocated list `(30,20), (50,30)` |
| DefragCursors.Inner | MemorySpace.java:180-198 | the inner loop as the cursor moves: it joins the block under the cursor but removes the block at `runningIndex`, and it never adds a block |
| DefragCursors.Outer | MemorySpace.java:179-202 | the outer loop as written never adds a block |
| DefragCursors.Defrag | MemorySpace.java:169-204 | defrag as written never adds a block |
| DefragCursors.TwoBlocksThrow | MemorySpace.java:180-195 | on every free list of two blocks, defrag as written dereferences null |
| DefragCursors.NoMergeAlwaysThrows | MemorySpace.java:179-195 | on every free list of two or more blocks in which no block starts where an earlier one ends, defrag as written dereferences null |
| DefragCursors.CursorScanCorrupts | MemorySpace.java:180-201 | on `(0,10), (50,5), (70,5), (10,5)` defrag as written leaves the overlapping list `(0,15), (50,5), (10,5)` and dereferences null. The index scan gives `(0,15), (50,5), (70,5)` |
| DefragCursors.CursorScanAgreesOnExample | MemorySpace.java:180-201 | on `(0,10), (10,5), (20,5)` defrag as written finishes with the same list as the index scan |

## Left out

- `toString` (MemorySpace.java:160-162) is not modelled: it only joins the text of the two lists for debugging.
- `LinkedList`, `Node` and `MemoryBlock` are not part of this model. A block is the value `Block(base, len)` and a list is a `seq<Block>`, so node identity and aliasing between the two lists are not modelled.
- Allocator.MemorySpace.Defrag follows the index variables `checkedIndex` and `runningIndex`, not the node cursors. The `for` header at line 180 advances `curRunning` once more after lines 191 and 195. So the cursor skips blocks and drifts from `runningIndex`, and the header dereferences null whenever the body has just stepped past the last block. `DefragCursors` models that behaviour (see "## Findings"). The class compares the blocks at the two indices, merges at the outer index, restarts the inner scan right after it, and ends the outer scan when no block follows the outer index.
- MemoryModel.DefragPreservesPartition is about the index scan. defrag as written does not keep the partition: on `(0,10), (50,5), (70,5), (10,5)` it loses a block and leaves two overlapping ones (DefragCursors.CursorScanCorrupts).
- MemoryModel.ScenarioRun and Allocator.Scenario describe defrag as the index scan. defrag as written throws a NullPointerException on the two-block free list `(50,50), (0,30)` of that run (DefragCursors.TwoBlocksThrow).
- MemoryModel.CoalesceMissesBackwardAdjacency describes the index scan. defrag as written throws a NullPointerException on its two-block list `(10,5), (0,10)` (DefragCursors.TwoBlocksThrow).
- MemoryModel.CoalesceNoForwardAdjacency is weaker than "no two free blocks touch": line 181 only checks a later block against an earlier one, so touching blocks whose right neighbour comes first in the list stay apart (MemoryModel.CoalesceMissesBackwardAdjacency).
- Allocator.MemorySpace.Malloc requires `length > 0` and the constructor requires `maxSize > 0`. The source checks neither, and would create blocks of zero or negative length.
- Allocator.MemorySpace.Malloc tests the first free block and then walks the successors of a cursor with one shared allocation step. The source writes that step out twice, at lines 69-88 and 100-120; the two branches do the same thing.
- `IllegalArgumentException("List is empty")` at lines 133 and 171 is the error value `AllocatedListEmpty` or `FreeListEmpty`, carried by an `Outcome` or `Result` rather than thrown.
- Java `int` overflow is not modelled. Under the invariant every base plus length is at most `maxSize`, itself an `int`, so no sum in the code can wrap.
- `maxSize` is a ghost field of the class. The source does not store it; the model keeps it only to state the invariant.

## Findings

| source | as written | input that shows it | evidently intended | confidence | as-written member | corrected member |
|---|---|---|---|---|---|---|
| MemorySpace.java:180-195 | the `for` header dereferences `curRunning` after the body has moved it to the next node, or, after a merge, to the node after the outer block | any free list of two blocks, e.g. `(50,50), (0,30)`, any list of two or more blocks with nothing to merge, e.g. `(0,1), (5,1), (10,1)`, and any list whose last outer pass starts with `curRunning` on the last block: the body leaves `curRunning` null and line 180 throws a NullPointerException (DefragCursors.NoMergeAlwaysThrows shows the second) | the inner scan ends at the end of the list, and defrag returns normally on every non-empty free list | high; not executed | DefragCursors.TwoBlocksThrow | MemoryModel.Defrag |
| MemorySpace.java:180-184 | the cursor advances twice per non-matching block while `runningIndex` advances once, so line 184 removes the block at `runningIndex`, not the one joined at line 182 | `(0,10), (50,5), (70,5), (10,5)`: `(10,5)` is joined but `(70,5)` is removed, leaving `(0,15), (50,5), (10,5)` before a NullPointerException | the block joined is the block removed, so the free list stays a partition | high; not executed | DefragCursors.CursorScanCorrupts | MemoryModel.DefragPreservesPartition |
