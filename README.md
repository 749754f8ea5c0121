# First-fit memory space, modelled in Dafny

The system is a small teaching model of a memory allocator. A `MemorySpace`
keeps two singly linked lists of `MemoryBlock` objects: the blocks that are
allocated, and the blocks that are free. Each block is a base address and a
length in words. `malloc(n)` takes n words from the first free block that is
long enough. `free(addr)` moves the allocated block at that base address to
the end of the free list. `defrag()` merges the first few free blocks.

The model keeps the source's form. Both Java classes are imperative, so both
are Dafny classes whose methods update fields in place:

- `linked_list.dfy`, module `LinkedLists`:
  - `MemoryBlock` is a class with `const` fields, so `==` is object identity, as in Java.
  - `Node` has a mutable `block` and `next`.
  - `LinkedList` has the fields `first`, `last` and `size`. Its ghost state is:
    - `Contents`, the blocks in list order;
    - `Nodes`, the chain of nodes;
    - `Repr`, the objects the list owns.
  - `Valid()` is the class invariant. `size` counts the chain, the chain
    ends in null, and `last` is null exactly when the list is empty and
    otherwise the final node.
- `memory_space.dfy`, module `Memory`:
  - `MemorySpace` owns the two lists.
  - Its invariant says the lists are valid, own disjoint nodes, and that
    no block object is in both lists or twice in one.
  - `AllocatedSpans()` and `FreeSpans()` view each list as a sequence of
    `(base, length)` values.
- `allocation_policy.dfy`, module `AllocationPolicy`:
  - The allocation policy stated on those values: first fit, the free list
    after malloc, the free list after defrag, and the total free words.
  - Lemmas about that policy.
- `sequences.dfy`, module `Sequences`:
  - Removal of the first occurrence of an element by identity.
  - Distinctness facts behind the lists' identity-based removal.

Error handling:
- Every `IllegalArgumentException` the source throws is an error result
  (`Outcome.IllegalArgument`, `Result.Failure`). The list is unchanged on
  that path.
- A path on which the Java code would dereference null is a precondition:
  - `getBlock(size)` on a non-empty list;
  - `remove(int)` with `index == size` on a non-empty list;
  - `remove(Node)` with a block that is not in the list.

The iterator loops of `malloc` and `free` are pointer walks over the list
nodes.

The two quirks of `MemorySpace.java` are modelled as written:
- On an exact fit, `malloc` inserts a zero-length leftover at the found
  position and then removes list position 0.
- The three-block branch of `defrag` merges without checking adjacency.

Helper methods such as `LinkAfter`, `Unlink`, `ResetLast`, `FindFit`,
`TakeFit`, `SplitFreeBlock` and `MergeHead` are pieces of one Java method, split out
so that each proof stays small. Each helper's rows cite the lines it
performs.

## Model

| member | source | states |
|---|---|---|
| `LinkedLists.LinkedList.constructor` | LinkedList.java:13-17 | a new list is valid and empty: `first` and `last` null, size 0 |
| `LinkedLists.LinkedList.Valid` | LinkedList.java:6-8 | the list invariant: `size` counts the blocks, `first` is the head of a null-terminated chain of distinct nodes holding the blocks in order, and `last` is null for an empty list and otherwise the final node |
| `LinkedLists.LinkedList.GetFirst` | LinkedList.java:23-25 | returns the head node, null exactly when the list is empty, holding the first block |
| `LinkedLists.LinkedList.GetLast` | LinkedList.java:31-33 | returns the tail node, null exactly when the list is empty, whose `next` is null and which holds the last block |
| `LinkedLists.LinkedList.GetSize` | LinkedList.java:39-41 | returns the number of blocks in the list |
| `LinkedLists.LinkedList.GetNode` | LinkedList.java:52-67 | throws unless 0 <= index <= size; otherwise returns the node at that position, which is null exactly when index == size |
| `LinkedLists.LinkedList.Add` | LinkedList.java:88-117 | throws, changing nothing, unless 0 <= index <= size; otherwise the contents become `old[..index] + [block] + old[index..]`, size grows by one and the invariant holds |
| `LinkedLists.LinkedList.LinkAfter` | LinkedList.java:110-116 | splicing a new node after the node at index - 1 inserts its block at position index |
| `LinkedLists.LinkedList.AddLast` | LinkedList.java:126-140 | the contents become `old + [block]` and `last` holds the block |
| `LinkedLists.LinkedList.AddFirst` | LinkedList.java:149-159 | the contents become `[block] + old` and `first` holds the block |
| `LinkedLists.LinkedList.GetBlock` | LinkedList.java:170-182 | returns `Contents[index]` exactly when 0 <= index < size; throws when index < 0, index > size or the list is empty |
| `LinkedLists.LinkedList.IndexOf` | LinkedList.java:191-202 | returns the least position holding this very block object, or -1 exactly when the block is not in the list |
| `LinkedLists.LinkedList.RemoveNode` | LinkedList.java:210-244 | deletes the first occurrence (by identity) of the node's block, keeps everything else in order, and leaves the invariant holding (including the recomputed `last`) |
| `LinkedLists.LinkedList.Unlink` | LinkedList.java:222-229 | bypassing the node at position k deletes exactly position k and lowers size by one |
| `LinkedLists.LinkedList.ResetLast` | LinkedList.java:230-243 | after the walk from the head, `last` is null for an empty list and the final node otherwise |
| `LinkedLists.LinkedList.RemoveAt` | LinkedList.java:253-260 | throws, changing nothing, unless 0 <= index < size; otherwise deletes the first occurrence of the block stored at index |
| `LinkedLists.LinkedList.RemoveBlock` | LinkedList.java:269-285 | throws, changing nothing, exactly when the block object is absent; otherwise deletes its first occurrence and keeps the order of the rest |
| `Sequences.FirstIndex` | LinkedList.java:215-218 | the scan stops at a position holding the element, with no earlier occurrence |
| `Sequences.RemoveFirst` | LinkedList.java:210-229 | removal by identity is one element shorter and removes exactly one copy of the element (multiset) |
| `Sequences.RemoveFirstAt` | LinkedList.java:215-229 | when no earlier element is the same object, removal deletes position i |
| `Sequences.RemoveFirstDistinct` | LinkedList.java:253-260 | in a list without repeats, `remove(int i)` is `old[..i] + old[i+1..]` |
| `Sequences.RemoveFirstInserted` | LinkedList.java:269-285 | round trip with `add`: removing a block just inserted, absent before, gives the list back |
| `Memory.MemorySpace.constructor` | MemorySpace.java:20-28 | the allocated list is empty and the free list is the one block `(0, maxSize)` |
| `Memory.MemorySpace.Valid` | MemorySpace.java:8-12 | the space invariant: both lists are valid, they share no node, and no block object is in both lists or twice in one |
| `Memory.MemorySpace.Malloc` | MemorySpace.java:60-86 | returns -1, changing neither list, exactly when no free block is long enough; otherwise returns the fit's base, appends a fresh block `(base, n)` to the allocated list, and leaves the free list as `MallocFree` says |
| `Memory.MemorySpace.FindFit` | MemorySpace.java:61-69 | the scan stops at `FirstFit` of the free list, or finds nothing exactly when `FirstFit` is -1 |
| `Memory.MemorySpace.TakeFit` | MemorySpace.java:70-80 | at the first fit, a fresh block `(base, n)` is appended to the allocated list and the free list becomes `MallocFree` of the old one |
| `Memory.MemorySpace.TakeFree` | MemorySpace.java:75-80 | at the first fit, the free list becomes `MallocFree` of the old one and the allocated list is untouched |
| `Memory.MemorySpace.AppendAllocated` | MemorySpace.java:70-72 | the new block goes to the end of the allocated list and the free list is untouched |
| `Memory.MemorySpace.SplitFreeBlock` | MemorySpace.java:75-80 | the found block is replaced in place by a fresh block of the remaining words; when none remain, position 0 is removed |
| `Memory.MemorySpace.UnlinkFree` | MemorySpace.java:75 | `freeList.remove(newBlock)` deletes the found block's position |
| `Memory.MemorySpace.InsertFree` | MemorySpace.java:76-77 | `freeList.add(index, b)` puts the leftover at the found position |
| `Memory.MemorySpace.Free` | MemorySpace.java:96-118 | throws exactly when nothing is allocated; otherwise moves the first allocated block with that base address to the end of the free list, or changes nothing when there is none |
| `Memory.MemorySpace.MoveToFree` | MemorySpace.java:114-117 | the same block object leaves the allocated list and is appended to the free list |
| `Memory.MemorySpace.Defrag` | MemorySpace.java:133-152 | the allocated list is unchanged and the free list becomes `DefragSpans` of the old one |
| `Memory.MemorySpace.MergeHead` | MemorySpace.java:141-150 | the head takes the merged block and the next one or two entries are removed |
| `Memory.MemorySpace.DropFree` | MemorySpace.java:149-150 | `freeList.remove(k)` deletes position k |
| `Memory.MemorySpace.ReplaceHead` | MemorySpace.java:142 | the head node now holds the merged block and nothing else changes |
| `AllocationPolicy.FirstFit` | MemorySpace.java:64-69 | the first position whose block is at least n words long; -1 exactly when every block is shorter |
| `AllocationPolicy.AddressIndex` | MemorySpace.java:104-112 | the first position whose base address is addr; -1 exactly when there is none |
| `AllocationPolicy.MallocFree` | MemorySpace.java:75-80 | the code's free list after malloc(n) is one entry shorter exactly when the first fit is exact; its entries are given by `MallocSplitsInPlace` and `MallocExactFit` |
| `AllocationPolicy.TakeAt` | MemorySpace.java:75-80 | taking n words at position i: entry i becomes `(base + n, length - n)`, then position 0 is dropped if nothing remains; its total is given by `TakeAtTotal` |
| `AllocationPolicy.Replace` | MemorySpace.java:75-77 | unlinking entry i and adding a block at i keeps the length of the list |
| `AllocationPolicy.ReplaceAt` | MemorySpace.java:75-77 | after the replacement, entry i is the new block and every other entry is unchanged |
| `AllocationPolicy.TotalReplaceAt` | MemorySpace.java:75-77 | the replacement changes the total free words by the difference of the two lengths |
| `AllocationPolicy.TakeAtTotal` | MemorySpace.java:75-80 | taking n words at i lowers the total by n, and by the head's words as well when an exact fit at i > 0 drops the head |
| `AllocationPolicy.MallocSplitsInPlace` | MemorySpace.java:75-77 | a strict fit at i makes position i `(base + n, length - n)` and leaves every other free entry untouched |
| `AllocationPolicy.MallocDocExample` | MemorySpace.java:45-49 | 17 words from the block (250, 20) leave the free block (267, 3) |
| `AllocationPolicy.MallocExactFit` | MemorySpace.java:76-80 | an exact fit at the head drops it; an exact fit at i > 0 drops the head and leaves `(base + n, 0)` at position i - 1 |
| `AllocationPolicy.TakeAtExact` | MemorySpace.java:76-80 | an exact take at any position i: at the head it drops the block; further down it drops the head and leaves `(base + n, 0)` at position i - 1 |
| `AllocationPolicy.MallocTotal` | MemorySpace.java:70-80 | malloc takes n free words, plus the head's words on an exact fit past the head |
| `AllocationPolicy.MallocIntendedTotal` | MemorySpace.java:53-54 | the documented malloc takes exactly n free words |
| `AllocationPolicy.MallocFreeIntended` | MemorySpace.java:53-54 | the documented free list after malloc(n) is one entry shorter exactly when the first fit is exact; its total is given by `MallocIntendedTotal` |
| `AllocationPolicy.TotalRemoveAt` | MemorySpace.java:53-54 | removing the found block lowers the total free words by its length |
| `AllocationPolicy.MallocAgreesUnlessExactPastHead` | MemorySpace.java:76-80 | the code's free list equals the documented one except on an exact fit past the head, where it holds the head's words fewer |
| `AllocationPolicy.MallocExactFitLosesHead` | MemorySpace.java:76-80 | from (0, 2), (10, 5), malloc(5) leaves [(15, 0)] where the documentation leaves [(0, 2)], and two words are lost |
| `Memory.MemorySpace.MallocIntended` | MemorySpace.java:53-54 | like `Malloc`, but the free list becomes `MallocFreeIntended`: an exact fit removes the found block |
| `Memory.MemorySpace.TakeFitIntended` | MemorySpace.java:53-54 | at the first fit, `(base, n)` is appended to the allocated list and the free list becomes `MallocFreeIntended` of the old one |
| `Memory.MemorySpace.TakeFreeIntended` | MemorySpace.java:53-54 | at the first fit, the free list becomes `MallocFreeIntended` of the old one: the found block is unlinked on an exact fit and split in place otherwise |
| `AllocationPolicy.DefragPreserves` | MemorySpace.java:133-152 | defrag keeps the total free words and the first base address, and keeps entries from the fourth on in order |
| `AllocationPolicy.DefragSpans` | MemorySpace.java:133-152 | defrag never lengthens the free list, and a non-empty free list keeps a first entry with the same base address |
| `AllocationPolicy.DefragMergesApartBlocks` | MemorySpace.java:145-151 | with three entries, blocks that do not touch are merged: (0, 1), (10, 1), (20, 1) become (0, 3) |
| `AllocationPolicy.FreeFindsLastAllocated` | MemorySpace.java:104-112 | after malloc appends `(addr, n)` to an allocated list holding no block at addr, the scan of free(addr) stops at the appended position |
| `Memory.FreeUndoesAppend` | MemorySpace.java:104-117 | in that case removing the found position gives the old allocated list back, and moving the block appends `(addr, n)` to the free list |
| `Memory.MallocThenFree` | MemorySpace.java:60-118 | round trip: when a block fits and no allocated block starts at its base, malloc(n) then free of the returned address restores the allocated list and leaves the free list as malloc left it plus `(base, n)` at its end; the space stays valid across both calls |
| `Memory.ScenarioTwoAllocations` | MemorySpace.java:60-86 | in a space of 100 words, malloc(20) returns 0 and malloc(30) returns 20, leaving allocated (0, 20), (20, 30) and free (50, 50) |
| `Memory.ScenarioExactHalves` | MemorySpace.java:60-86 | in a space of 10 words, two malloc(5) calls return 0 and 5; the second is an exact fit at the head and empties the free list |
| `Memory.ScenarioListOrder` | MemorySpace.java:60-118 | after those two allocations, free(0) appends (0, 20) behind (50, 50), so malloc(10) takes the first fit in list order, (50, 50), not the lowest address, and returns 50 |
| `Sequences.RemoveThenInsert` | MemorySpace.java:75-77 | unlinking position i and then adding a block at i replaces entry i by that block |
| `Sequences.ReplaceHeadThenDrop` | MemorySpace.java:142-150 | setting the head block and then removing position 2 (three-way merge) and position 1 leaves the merged block followed by the entries from the merge count on |

## Left out

- `toString` of both classes: string formatting that depends on `MemoryBlock.toString`, which is not part of this model.
- `ListIterator`: it is not part of this model. The loops that use it are pointer walks over the nodes.
- Exception message texts: each throw is an error value.
- Java's 32-bit `int`: integers are unbounded. Overflow of `baseAddress + length` or of `size` is not modelled.
- `Memory.MemorySpace.Malloc`: -1 is both "no fit" and a possible base address, as in the source. The contract tells the cases apart by `FirstFit`, not by the returned value.
- Malloc's unused second iterator over the allocated list: it has no effect.
- Null `MemoryBlock` references: the model's block type is non-null, so the list never stores null. The Java `add`, `addFirst` and `addLast` accept a null block (LinkedList.java:88, 126, 149), and `indexOf(null)` would find such an entry (LinkedList.java:191); this model has no such entries.
- `LinkedLists.LinkedList.RemoveNode`: the `findLast == null` test inside the tail walk can never be true. The walk is modelled without it.

## Findings

| source | as written | input that shows it | evidently intended | confidence | as-written member | corrected member |
|---|---|---|---|---|---|---|
| MemorySpace.java:76-80 | on an exact fit, the zero-length leftover is inserted at the found position and then list position 0 is removed | free list (0, 2), (10, 5) and malloc(5): the free list becomes [(15, 0)], so the free block (0, 2) is lost | the found block is removed from the free list (lines 53-54), leaving [(0, 2)] | not executed | `AllocationPolicy.MallocExactFitLosesHead` | `Memory.MemorySpace.MallocIntended` |
