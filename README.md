# eduEngine core containers in Dafny

This project models three sequential data structures from the eduEngine
engine and proves their invariants.

**VecTree** (`VecTree<Payload>`). A forest flattened into one node vector in
pre-order. Each node records:
- its number of children (`m_nbr_children`);
- the size of its branch, itself included (`m_branch_stride`);
- the distance back to its parent (`m_parent_ofs`, 0 for a root).

The branch of node `i` occupies `[i, i + stride)`. Children follow their
parent directly.

The model is the class `VecTrees.VecTree`. Its `nodes` field is a sequence
that the editing methods reassign.

The well-formedness invariant (`TreeForest.WellFormed`) is stated index by
index:
- every branch stays inside the vector;
- branches nest or are disjoint;
- `parentOfs` points at the nearest enclosing node, and is 0 exactly when
  nothing encloses the node;
- `nbrChildren` is the length of the child chain (the children reached by
  stepping from child to child by stride).

Each editing operation is specified by a function on node sequences. Insert
is specified by `TreeInsert.Inserted` and erase by `TreeErase.Erased`. Their
lemmas prove that:
- the invariant is kept;
- the payload set changes as expected;
- the parent of every surviving payload is unchanged.

The reparent and unparent moves are proved at the level of payloads and
their parents (module `TreeMove`). The traversals return the sequence of
visits the source's callback would receive (module `TreeWalk` holds their
loop invariants).

**PoolAllocatorFH and PoolAllocatorTFH.** Two pools of fixed-size slots
with a free list threaded through the slots themselves.
- `PoolAllocatorFH` checks the element type at run time against a
  registered `TypeInfo`.
- `PoolAllocatorTFH` is a template over the element type.

A slot is modelled as `Free(next)`, holding the byte offset of the next free
slot, or as `Live(value)`. The TFH pool's `get_free_diff` and `set_free_diff`
helpers, which read and write that link in the slot's raw bytes, become a read
of a `Free` slot's `next` and a write of `Free(next)` to the slot array. The
pool state is:
- an `array` of slots;
- the byte capacity;
- the byte offsets of the first and last free slots;
- a ghost sequence `free` listing the free slot numbers in list order.

`FreeList.Threaded` ties these together. Each free slot links to the next
one's offset, the last links to the null index, every other slot is live,
and first and last are null exactly when the list is empty.

Create, destroy, growth and the visitors are methods proved against this
invariant and against the pure `FreeList.Pop`/`FreeList.Push` step functions.

**Handle.** A byte offset plus a version. The model is the `Handles` module.
The offset ranges over the values of a 64-bit size_t (`Handles.SizeT`) and the
version over those of a uint16_t (`Handles.U16`).

## Model

| member | source | states |
|---|---|---|
| Handles.NullHandle | src/Handle.h:19-28 | the default handle has offset `handle_ofs_null` (the largest size_t) and version 0, and is not valid |
| Handles.Reset | src/Handle.h:30-34 | resetting yields the null handle, which is invalid |
| Handles.Equals | src/Handle.h:36-41 | two handles are equal exactly when offset and version both match, i.e. exactly when they are the same value |
| Handles.ValidIgnoresVersion | src/Handle.h:43-46 | validity depends only on the offset: changing the version never changes it, and a handle is valid iff it is not the null offset |
| FreeList.PopHead | src/util/PoolAllocatorFH.h:168-185 | taking the head of a threaded list: the head is the offset of the first listed slot, the list becomes empty exactly when head == last, the slot becomes live and the rest of the list stays threaded |
| FreeList.PushHead | src/util/PoolAllocatorFH.h:198-209 | linking a live slot in front of the head keeps the list threaded with that slot first |
| FreeList.PushUndoesPop | src/util/PoolAllocatorFH.h:168-209 | destroying the slot that create just handed out restores the pool state exactly |
| FreeList.PopUndoesPush | src/util/PoolAllocatorFH.h:168-209 | create right after destroy reuses the destroyed slot (LIFO), and the only change is that slot's new value |
| FreeList.Pop | src/util/PoolAllocatorFH.h:168-185 | the unlink step keeps the slot count, makes the head slot live with the new value and changes no other slot |
| FreeList.Push | src/util/PoolAllocatorFH.h:198-209 | the link step makes the given offset the new head, marks its slot free and changes no other slot |
| FreeList.ThreadedPartition | src/util/PoolAllocatorFH.h:282-298 | under the invariant, a slot is on the free list exactly when it is a free slot; otherwise it is live |
| FreeList.ThreadedEmpty | src/util/PoolAllocatorFH.h:165-176 | the head is null iff the list is empty iff the last index is null |
| FreeList.ThreadedCount | src/util/PoolAllocatorFH.h:231-240 | free-list length plus the number of live slots is the slot count |
| FreeList.LiveFreeCount | src/util/PoolAllocatorFH.h:282-298 | every slot is either live or free: the two counts add up to the number of slots |
| FreeList.WalkChain | src/util/PoolAllocatorFH.h:408-416 | walking the chain from the head visits exactly the listed offsets, in list order, and stops at the null index |
| FreeList.MarkUsed | src/util/PoolAllocatorFH.h:380-383 | the bitmap built from the free list marks exactly the live slots |
| FreeList.VisitUsed | src/util/PoolAllocatorFH.h:291-297 | scanning the bitmap yields the live values in ascending slot order |
| FreeList.CopySlots | src/util/PoolAllocatorFH.h:385-397 | copying into the new buffer keeps every live value at its slot and copies every free link verbatim; slots past the old count are untouched |
| FreeList.LinkNewSlots | src/util/PoolAllocatorFH.h:317-344 | the new slots are appended in ascending order after the existing free slots, the last links to null, and no slot off the list changes |
| FreeList.LinkRange | src/util/PoolAllocatorFH.h:334-341 | the linking loop keeps the partial-chain invariant from the old slot count up to the new one |
| FreeList.LinkSlot | src/util/PoolAllocatorFH.h:338-340 | one loop step: the previous last slot links to the new slot, which becomes the last |
| FreeList.LinkStep | src/util/PoolAllocatorFH.h:338-340 | the partial-chain invariant survives appending one slot |
| FreeList.CloseChain | src/util/PoolAllocatorFH.h:342-343 | writing the null link into the last slot turns a partial chain into a threaded list |
| FreeList.SlotRange | src/util/PoolAllocatorFH.h:334-341 | the slot numbers from a to b, ascending |
| FreeList.NextPowerOfTwo | src/util/PoolAllocatorFH.h:308 | the growth count is at least the requested count and at least one |
| FreeList.NextPowerOfTwoIsLeast | src/util/PoolAllocatorFH.h:308 | the growth count is a power of two, and the least one not below the request |
| FreeList.GrowthStep | src/util/PoolAllocatorFH.h:307-311 | the grown capacity is a whole number of elements, strictly larger than the old one |
| PoolFH.PoolAllocatorFH.constructor | src/util/PoolAllocatorFH.h:102-118 | requires the element size to hold an index; a new pool has capacity 0 and an empty free list |
| PoolFH.PoolAllocatorFH.Capacity | src/util/PoolAllocatorFH.h:153-156 | the byte capacity is the slot count times the element size |
| PoolFH.PoolAllocatorFH.Create | src/util/PoolAllocatorFH.h:159-186 | requires the registered type; with a non-empty free list hands out the head offset and pops it; with an empty list first grows to `next_power_of_two(slots+1)` slots and hands out the first new slot; every old slot is kept and the handle holds the value |
| PoolFH.PoolAllocatorFH.ExpandAndTake | src/util/PoolAllocatorFH.h:165-185 | the empty-list path of create: the handle is the old capacity, the new free list is the remaining new slots in order, and old slots are kept |
| PoolFH.PoolAllocatorFH.TakeHead | src/util/PoolAllocatorFH.h:168-185 | the unlink step of create matches `Pop`, and the handle is the old head |
| PoolFH.PoolAllocatorFH.Destroy | src/util/PoolAllocatorFH.h:189-210 | requires the registered type and a live slot; the slot goes to the front of the free list, matching `Push` |
| PoolFH.PoolAllocatorFH.Get | src/util/PoolAllocatorFH.h:213-229 | returns the value stored at the handle's slot |
| PoolFH.PoolAllocatorFH.CountFree | src/util/PoolAllocatorFH.h:231-240 | the count is the free-list length, and with the live count it adds up to the slot count |
| PoolFH.PoolAllocatorFH.UsedVisitor | src/util/PoolAllocatorFH.h:282-298 | visits exactly the live values, in ascending slot order |
| PoolFH.PoolAllocatorFH.FreelistVisitor | src/util/PoolAllocatorFH.h:408-416 | visits the offsets of the free list in list order |
| PoolFH.PoolAllocatorFH.Expand | src/util/PoolAllocatorFH.h:303-314 | grows to `next_power_of_two(slots+1)` slots, keeps every old slot and lists exactly the new slots, head first at the old capacity |
| PoolFH.PoolAllocatorFH.ExpandFreelist | src/util/PoolAllocatorFH.h:317-344 | appends the new slots in order behind the existing free slots; slots not on the list are unchanged |
| PoolFH.PoolAllocatorFH.Resize | src/util/PoolAllocatorFH.h:353-403 | never shrinks; moves every old slot to the same offset in the new buffer, and the new slots are not yet linked (the list is still empty) |
| PoolTFH.PoolAllocatorTFH.constructor | src/util/PoolAllocatorTFH.h:84-99 | requires the element to hold an index (the template requirement at line 36); the pool starts with `count` slots, all free in ascending order |
| PoolTFH.PoolAllocatorTFH.Capacity | src/util/PoolAllocatorTFH.h:114-117 | the byte capacity is the slot count times the element size |
| PoolTFH.PoolAllocatorTFH.Create | src/util/PoolAllocatorTFH.h:130-164 | as for the FH pool, with the slot count passed through the 32-bit cast of line 138 |
| PoolTFH.PoolAllocatorTFH.ResizeAndTake | src/util/PoolAllocatorTFH.h:136-154 | the empty-list path of create: the handle is the old capacity and the remaining new slots form the free list |
| PoolTFH.PoolAllocatorTFH.Grow | src/util/PoolAllocatorTFH.h:136-140 | the growth step of create: `next_power_of_two(slots+1)` slots, old slots kept, only the new slots listed, head at the old capacity |
| PoolTFH.PoolAllocatorTFH.TakeHead | src/util/PoolAllocatorTFH.h:147-163 | the unlink step of create matches `Pop`, and the handle is the old head |
| PoolTFH.PoolAllocatorTFH.Destroy | src/util/PoolAllocatorTFH.h:166-189 | the live slot goes to the front of the free list, matching `Push` |
| PoolTFH.PoolAllocatorTFH.Get | src/util/PoolAllocatorTFH.h:191-205 | returns the value stored at the handle's slot |
| PoolTFH.PoolAllocatorTFH.CountFree | src/util/PoolAllocatorTFH.h:207-216 | the count is the free-list length, and with the live count it adds up to the slot count |
| PoolTFH.PoolAllocatorTFH.UsedVisitor | src/util/PoolAllocatorTFH.h:247-265 | visits exactly the live values, in ascending slot order |
| PoolTFH.PoolAllocatorTFH.FreelistVisitor | src/util/PoolAllocatorTFH.h:406-415 | visits the offsets of the free list in list order |
| PoolTFH.PoolAllocatorTFH.ExpandFreelist | src/util/PoolAllocatorTFH.h:286-322 | appends the new slots in order behind the existing free slots (which may be non-empty here); slots not on the list are unchanged |
| PoolTFH.PoolAllocatorTFH.Reallocate | src/util/PoolAllocatorTFH.h:360-383 | the new buffer holds every old slot at its offset, live values and free links alike |
| PoolTFH.PoolAllocatorTFH.Resize | src/util/PoolAllocatorTFH.h:325-404 | does nothing for an unchanged size; otherwise keeps every live value, appends the new slots to the free list and sets the capacity |
| TreeForest.FirstIndexFrom | src/VecTree.h:43-52 | the lowest matching index at or after the start, or none when no node matches |
| TreeForest.InTreePayloads | src/VecTree.h:59-62 | a payload is in the tree iff it is in the payload set |
| TreeForest.FirstNodeIsRoot | src/VecTree.h:114-118 | in a well-formed forest the first node is a root |
| TreeForest.RootFollowsRoot | src/VecTree.h:162-166 | the node right after a root's branch is again a root |
| TreeForest.AscentPathIsAncestors | src/VecTree.h:895-921 | the nodes met by ascending from i are exactly the nodes whose branch contains i |
| TreeForest.AscentPathEndsAtRoot | src/VecTree.h:895-921 | ascent ends at a node with parent offset 0 |
| TreeForest.DepthOfChild | src/VecTree.h:575-611 | a child is one level deeper than its parent |
| TreeForest.ChildrenAreChain | src/VecTree.h:593-611 | stepping by stride from the first child visits exactly the children |
| TreeForest.LastSiblingByEnd | src/VecTree.h:156-176 | no later sibling exists iff the branch end reaches the parent's branch end (for a root: the end of the vector) |
| TreeForest.LeafByCount | src/VecTree.h:120-124 | a zero child count means the node has no children |
| TreeInsert.Inserted | src/VecTree.h:252-308 | the vector after insert under parent p: one longer, with the new node at p+1 with stride 1 and parent offset 1 |
| TreeInsert.InsertedWellFormed | src/VecTree.h:275-305 | insert keeps the forest well formed |
| TreeInsert.InsertedPayloads | src/VecTree.h:300-305 | insert adds exactly the new payload |
| TreeInsert.InsertedUnique | src/VecTree.h:300-305 | inserting a fresh payload keeps payloads distinct |
| TreeInsert.InsertedParentOf | src/VecTree.h:252-308 | the new payload's parent is the given parent; every other payload keeps its parent |
| TreeInsert.AppendRootWellFormed | src/VecTree.h:243-246 | appending a root keeps the forest well formed |
| TreeInsert.AppendRootParentOf | src/VecTree.h:243-246 | the appended payload is a root; every other payload keeps its parent |
| TreeInsert.StrideWalkLifts | src/VecTree.h:275-284 | the ancestor walk grows exactly the strides of the branches that span the parent |
| TreeInsert.OffsetWalkLifts | src/VecTree.h:289-297 | the trailing walk grows exactly the offsets that reach back to the parent or before |
| TreeInsert.LiftedSplice | src/VecTree.h:300-305 | the fixed-up vector with the parent's count raised and the node inserted at p+1 is the specified result |
| TreeErase.UnsignedSub | src/VecTree.h:18-20 | subtraction on the unsigned 32-bit node fields, wrapping below zero |
| TreeErase.Erased | src/VecTree.h:314-349 | the vector after erasing the branch at i: shorter by its stride, the survivors in their old order |
| TreeErase.ErasedWellFormed | src/VecTree.h:314-349 | erase keeps the forest well formed |
| TreeErase.ErasedPayloads | src/VecTree.h:345-347 | erase removes exactly the branch's payloads |
| TreeErase.ErasedUnique | src/VecTree.h:345-347 | erase keeps payloads distinct |
| TreeErase.ErasedParentOf | src/VecTree.h:314-349 | every surviving payload keeps its parent |
| TreeErase.TrimStrideStep | src/VecTree.h:324-330 | one step of the ancestor walk of erase |
| TreeErase.TrimOffsetStep | src/VecTree.h:333-341 | one step of the trailing walk of erase |
| TreeErase.TrimStrideWalkTrims | src/VecTree.h:324-330 | the ancestor walk shrinks exactly the strides that reach the parent |
| TreeErase.TrimOffsetWalkTrims | src/VecTree.h:333-341 | the trailing walk shrinks exactly the offsets that reach back to the parent or before |
| TreeErase.TrimmedSplice | src/VecTree.h:345-347 | the count decrement plus the range erase yield the specified result |
| TreeMove.DescendsFromBranch | src/VecTree.h:146-154 | a is a strict descendant of b iff a lies in b's branch and differs from b |
| TreeMove.MoveFirstUnder | src/VecTree.h:201-205 | erasing the branch and inserting its head under the new parent starts a valid move |
| TreeMove.MoveNext | src/VecTree.h:206-212 | reinserting the next branch node under its recorded parent keeps the move invariant |
| TreeMove.ReinsertDone | src/VecTree.h:186-241 | after the whole branch is reinserted, the payload set and size are unchanged, the head has its new parent and every other payload its old parent |
| TreeMove.LostFirst | src/VecTree.h:201-205 | when the new parent is absent or is the moved node itself, the head cannot be reinserted |
| TreeMove.LostNext | src/VecTree.h:206-212 | in that case no later branch node can be reinserted either |
| TreeWalk.BranchIsDescendants | src/VecTree.h:426-441 | the index range of a branch is exactly the nodes that ascend to its root |
| TreeWalk.PendingPop | src/VecTree.h:593-611 | popping the top of the level stack and pushing its children keeps the pending-stack invariant |
| TreeWalk.LevelsStep | src/VecTree.h:593-611 | one step of the level walk visits the next index at its depth |
| TreeWalk.ChainCovers | src/VecTree.h:757-797 | the breadth-first expansion of a chain of siblings covers their remaining range |
| TreeWalk.QueueStep | src/VecTree.h:757-797 | one dequeue plus enqueue of children keeps the multiset of nodes still to be visited |
| TreeWalk.ParentedMembers | src/VecTree.h:369-394 | the progressive visit of a node's children pairs each child with that node as parent |
| VecTrees.VecTree.constructor | src/VecTree.h:38 | a new tree is empty and well formed |
| VecTrees.VecTree.FindNodeIndex | src/VecTree.h:43-52 | the lowest index holding the payload, or none exactly when the payload is absent |
| VecTrees.VecTree.Contains | src/VecTree.h:59-62 | true exactly when the payload is in the tree |
| VecTrees.VecTree.IsRoot | src/VecTree.h:114-118 | true iff the payload has no parent, iff no branch encloses it |
| VecTrees.VecTree.IsLeaf | src/VecTree.h:120-124 | true iff the node has no children |
| VecTrees.VecTree.GetParentIndex | src/VecTree.h:126-134 | for a non-root, the index of its parent: the nearest enclosing node |
| VecTrees.VecTree.IsLastSiblingAsWritten | src/VecTree.h:156-176 | the code as written: every root is reported as the last sibling when the next node is a root |
| VecTrees.VecTree.IsLastSibling | src/VecTree.h:156-176 | true iff no later node is a sibling |
| VecTrees.LastSiblingAsWrittenDiffers | src/VecTree.h:162-166 | for a root that has a following root, the code as written says last although a sibling follows |
| VecTrees.TwoRootsCounterexample | src/VecTree.h:162-166 | the forest of two single-node roots shows the discrepancy at index 0 |
| VecTrees.VecTree.Ascend | src/VecTree.h:895-921 | visits the start first and ends at a root; visits exactly the nodes whose branch contains the start |
| VecTrees.VecTree.IsDescendantOf | src/VecTree.h:146-154 | true iff b is a strict ancestor of a |
| VecTrees.VecTree.TraverseDepthFirst | src/VecTree.h:426-441 | visits start, start+1, ... up to the branch end: exactly the descendants of start, in index order |
| VecTrees.VecTree.TraverseDepthFirstForest | src/VecTree.h:458-471 | visits every index once, in increasing order |
| VecTrees.VecTree.TraverseDepthFirstLevels | src/VecTree.h:575-614 | the same index order, each paired with its depth below start |
| VecTrees.VecTree.TraverseDepthFirstLevelsForest | src/VecTree.h:629-642 | every index once, in order, with its depth in the forest |
| VecTrees.VecTree.TraverseBreadthFirst | src/VecTree.h:740-798 | visits each node of the branch exactly once |
| VecTrees.VecTree.TraverseBreadthFirstForest | src/VecTree.h:740-798 | visits each node of the forest exactly once |
| VecTrees.VecTree.TraverseProgressive | src/VecTree.h:369-391 | the visits are, node by node through the branch of start, the node without a parent when it is a root and then each of its children in chain order with the node as parent (`TreeWalk.Progressive`); so exactly the parent-child pairs inside the branch and the roots in it without a parent are reported |
| TreeWalk.VisitsAtMembers | src/VecTree.h:380-388 | the reports made at one node are the node itself when it is a root and the members of its child chain paired with it, and nothing else |
| TreeWalk.ProgressiveOwned | src/VecTree.h:376-389 | a report belongs to the walk over a range of nodes exactly when its owner (the parent named, or the root itself) lies in the range and the report is among those made at the owner |
| TreeWalk.ProgressiveSplit | src/VecTree.h:412-416 | the walk over a range is the walk over a prefix followed by the walk over the rest, so walking the roots' branches one after another is walking the whole vector |
| TreeWalk.ProgressiveVisits | src/VecTree.h:369-391 | in a forest, the walk over a range reports every child of a node in the range with that node as parent, every root in the range without a parent, and nothing else |
| VecTrees.VecTree.TraverseProgressiveForest | src/VecTree.h:407-419 | the visits are the walk of every node of the vector in order (`TreeWalk.Progressive` over the whole vector); so exactly the parent-child pairs of the forest and every root without a parent are reported |
| VecTrees.VecTree.InsertAsRoot | src/VecTree.h:243-246 | appends a root with no children and stride 1, leaving every other node unchanged |
| VecTrees.VecTree.Insert | src/VecTree.h:252-308 | returns false and changes nothing when the parent is absent; otherwise the result is `Inserted` at the parent's first index, still well formed |
| VecTrees.VecTree.EraseBranchAtIndex | src/VecTree.h:314-349 | the result is `Erased` at that index, still well formed |
| VecTrees.VecTree.EraseBranch | src/VecTree.h:353-359 | returns false and changes nothing when the payload is absent; otherwise erases its branch |
| VecTrees.VecTree.Reparent | src/VecTree.h:186-213 | requires the new parent to be in the tree and not below x; when it is not x, size and payloads are kept, x's parent becomes the new parent and every other parent is unchanged; when it is x itself, the branch is lost (only erased) |
| VecTrees.VecTree.ReinsertRest | src/VecTree.h:206-212 | the reinsertion loop keeps the move invariant from the second branch node to the last |
| VecTrees.VecTree.Unparent | src/VecTree.h:215-241 | size and payloads are kept, x becomes a root and every other payload keeps its parent |
| VecTrees.ChildIndices | src/VecTree.h:596-610 | the children of a node, found by stepping by stride from the first child |
| VecTrees.GrowStrides | src/VecTree.h:275-284 | the ancestor loop of insert computes the lifted strides |
| VecTrees.GrowOffsets | src/VecTree.h:289-297 | the trailing loop of insert computes the lifted offsets |
| VecTrees.ShrinkStrides | src/VecTree.h:324-330 | the ancestor loop of erase computes the trimmed strides |
| VecTrees.ShrinkOffsets | src/VecTree.h:333-341 | the trailing loop of erase computes the trimmed offsets |

## Left out

- Mutexes: the recursive mutexes of both pools are left out. Every operation is modelled as one single-threaded call.
- Aligned allocation, `align_up`, `posix_memalign`/`_aligned_malloc` and `std::bad_alloc`: allocation always succeeds. memaux.h is not part of this model.
- Fresh memory: newly allocated memory is modelled as free slots holding the null link until the free list is threaded through them.
- Object lifetime: in-place construction (aggregate or constructor), move construction and destructor calls are left out. A slot simply holds a value.
- Pool destructors and `free`: not modelled.
- Printing: `to_string`, `dump_pool` and every `std::cout` are left out.
- `std::hash<Handle>`: not modelled, because `hash_combine` is not part of this model.
- `TypeInfo`: `std::type_index` is an integer tag, and only the size of the registered type is used.
- `next_power_of_two` (from memaux.h): modelled as the least power of two not below its argument, with 1 for 0.
- Backing array of both pools: it is an array of slots indexed by slot number, and every byte offset is a slot number times the element size.
- Index type of the TFH pool: modelled only as size_t, whose maximum is the null index.
- Pool arithmetic: the size_t arithmetic does not wrap. Create, Resize and the constructor require the grown capacity to fit below the null index.
- PoolTFH.PoolAllocatorTFH.Create: requires the slot count plus one to be below 2^32, so the `(unsigned)` cast at line 138 never truncates. With a truncated count the new capacity would be smaller and the resize would fail its assertion.
- PoolFH.PoolAllocatorFH.Resize: modelled only in the state in which `expand` calls it, with an empty free list. The general copy with a non-empty list is modelled for the TFH pool (PoolTFH.PoolAllocatorTFH.Resize).
- PoolFH.PoolAllocatorFH.Get, PoolFH.PoolAllocatorFH.Destroy and their TFH counterparts: require the handle to name a live slot. The source asserts only the offset range and alignment; using a free slot as an object is undefined behaviour in C++.
- Visitors: the callbacks of `used_visitor`, `freelist_visitor`, `ascend` and the traversals are modelled by returning the sequence of arguments the callback would get, in call order.
- Traversal callback overloads: the overloads that take a payload, or that also pass the parent payload, differ only in what they hand to the callback and are left out.
- VecTree fix-up loops: they run on a working copy of `nodes` that is then stored back. The source edits the vector in place.
- VecTrees.VecTree.Reparent and VecTrees.VecTree.Unparent: prove that size, the payload set and every payload's parent are as intended. They do not state sibling order. The source reinserts each node as the first child of its parent, so the order of siblings inside the moved branch is reversed.
- VecTrees.VecTree.Reparent, VecTrees.VecTree.Unparent and the lemmas of module TreeMove: require payloads to be distinct. The source looks nodes up by payload and always takes the first match.
- VecTrees.VecTree.TraverseBreadthFirst: its ensures states the multiset of visits and the membership of the branch. It does not state the level-by-level order of the visits.
- Accessors: `size`, `get_payload_at`, `get_node_info`, `get_node_info_at`, `get_branch_size`, `get_nbr_children`, `get_parent_ofs` and `get_parent` are plain field reads of `nodes` and are not separate members.
- Payload overload of `is_last_sibling` (lines 179-184): it composes FindNodeIndex with the index form and is not a separate member.
- Node counters: increments of the unsigned node fields are not reduced modulo 2^32. They would need more than 2^32 nodes to wrap. Decrements use UnsignedSub, because erasing a root decrements the child count of the erased node itself.
- Tests: the traversal-order tests disabled with `#if 0` expect insertion order. The model follows the code, which puts the newest child first.

## Findings

| source | as written | input that shows it | evidently intended | confidence | as-written member | corrected member |
|---|---|---|---|---|---|---|
| src/VecTree.h:162-166 | a root is reported as the last sibling when the node after its branch is another root, which is always the case when any node follows | forest of two single-node roots, index 0: the second root follows, yet `is_last_sibling(0)` is true | a root is last only when its branch reaches the end of the vector (no later root) | not executed | VecTrees.VecTree.IsLastSiblingAsWritten (shown by VecTrees.TwoRootsCounterexample and VecTrees.LastSiblingAsWrittenDiffers) | VecTrees.VecTree.IsLastSibling |
