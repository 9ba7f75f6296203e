/** PoolAllocatorTFH: a pool for elements of one type fixed at compile time. The
    element size is at least the size of a link (the template's requirement), so
    every slot can hold either a value or the offset of the next free slot.
    create hands out a handle holding the byte offset of a slot, destroy gives the
    slot back to the embedded free list, and the buffer grows when the list runs
    out. */
module PoolTFH {
  import opened FreeList
  import opened Handles

  /** The largest unsigned int plus one: create casts the slot count to unsigned. */
  const UIntRange: nat := 0x1_0000_0000

  class PoolAllocatorTFH<V> {
    /** element_size: max(sizeof(T), sizeof(index_type)), which is sizeof(T). */
    const elementSize: nat
    /** The buffer, one slot per element; its byte size is capacity. */
    var pool: array<Slot<V>>
    var capacity: nat
    var freeFirst: nat
    var freeLast: nat
    /** The slot numbers on the free list, from freeFirst to freeLast. */
    ghost var free: seq<nat>

    /** Every slot of the buffer is either live or on the free list, and capacity
        is the byte size of the buffer. */
    ghost predicate Valid()
      reads this, pool
    {
      && elementSize >= IndexSize
      && capacity == Offset(elementSize, pool.Length)
      && Threaded(pool[..], elementSize, pool.Length, free, freeFirst, freeLast)
    }

    /** The buffer with the two ends of the free list. */
    ghost function State(): Chain<V>
      reads this, pool
    {
      Chain(pool[..], freeFirst, freeLast)
    }

    /** h is set and names a live element: the checks of assert_index, and the
        slot holds an object. */
    ghost predicate Holds(h: Handle)
      reads this, pool
    {
      0 < elementSize && IsValid(h) && h.ofs % elementSize == 0
      && h.ofs / elementSize < pool.Length && pool[h.ofs / elementSize].Live?
    }

    /** A pool of count elements: count free slots, linked in increasing order. */
    constructor(elementSize: nat, count: nat)
      requires elementSize >= IndexSize && Offset(elementSize, count) <= IndexNull
      ensures Valid() && this.elementSize == elementSize
      ensures pool.Length == count && capacity == Offset(elementSize, count)
      ensures free == SlotRange(0, count)
    {
      this.elementSize := elementSize;
      pool := new Slot<V>[0](_ => Free(IndexNull));
      capacity := 0;
      freeFirst := IndexNull;
      freeLast := IndexNull;
      free := [];
      new;
      Resize(Offset(elementSize, count), count);
      assert SlotRange(0, 0) == [];
    }

    /** capacity: the byte size of the buffer, a whole number of elements. */
    function Capacity(): (c: nat)
      reads this, pool
      requires Valid()
      ensures c == Offset(elementSize, pool.Length)
      ensures c % elementSize == 0 && c / elementSize == pool.Length
    {
      OffsetSlot(elementSize, pool.Length);
      capacity
    }

    /** create: the buffer grows when the free list is empty, then the head of the
        free list takes the value and its offset is returned with version 0. */
    method Create(v: V) returns (h: Handle)
      requires Valid()
      requires freeFirst == IndexNull ==>
        pool.Length + 1 < UIntRange && Offset(elementSize, NextPowerOfTwo(pool.Length + 1)) <= IndexNull
      modifies this, pool
      ensures Valid() && h.version == 0 && Holds(h) && pool[h.ofs / elementSize] == Live(v)
      ensures old(freeFirst) != IndexNull ==>
        && h.ofs == old(freeFirst) && pool == old(pool) && free == old(free)[1..]
        && CanPop(old(State()), elementSize) && State() == Pop(old(State()), elementSize, v)
      ensures old(freeFirst) == IndexNull ==>
        && h.ofs == old(capacity) && pool.Length == NextPowerOfTwo(old(pool.Length) + 1)
        && free == SlotRange(old(pool.Length) + 1, pool.Length)
        && pool[..old(pool.Length)] == old(pool[..])
    {
      ThreadedEmpty(pool[..], elementSize, pool.Length, free, freeFirst, freeLast);
      if freeFirst == IndexNull {
        h := ResizeAndTake(v);
      } else {
        h := TakeHead(v);
      }
    }

    /** create on an empty free list: resize to the next power of two above the
        current number of elements, counted as an unsigned int, then the first new
        slot takes the value. */
    method ResizeAndTake(v: V) returns (h: Handle)
      requires Valid() && freeFirst == IndexNull && pool.Length + 1 < UIntRange
      requires Offset(elementSize, NextPowerOfTwo(pool.Length + 1)) <= IndexNull
      modifies this
      ensures Valid() && h.ofs == old(capacity) && h.version == 0 && Holds(h) && h.ofs / elementSize == old(pool.Length)
      ensures pool.Length == NextPowerOfTwo(old(pool.Length) + 1) && pool[old(pool.Length)] == Live(v)
      ensures free == SlotRange(old(pool.Length) + 1, pool.Length)
      ensures pool[..old(pool.Length)] == old(pool[..])
    {
      ghost var n := pool.Length;
      Grow();
      ghost var mid := pool[..];
      ghost var listed := free;
      h := TakeHead(v);
      UpdatePastPrefix(mid, pool[..], n, n, Live(v));
      RangeAfterPop(listed, free, n, pool.Length);
    }

    /** The resize step of create: the buffer grows to the next power of two above
        the current number of elements, counted as an unsigned int, and the new
        slots make up the free list. */
    method Grow()
      requires Valid() && freeFirst == IndexNull && pool.Length + 1 < UIntRange
      requires Offset(elementSize, NextPowerOfTwo(pool.Length + 1)) <= IndexNull
      modifies this
      ensures Valid() && pool.Length == NextPowerOfTwo(old(pool.Length) + 1)
      ensures free == SlotRange(old(pool.Length), pool.Length) && freeFirst == old(capacity) != IndexNull
      ensures pool[..old(pool.Length)] == old(pool[..]) && fresh(pool)
    {
      ghost var n := pool.Length;
      ThreadedEmpty(pool[..], elementSize, pool.Length, free, freeFirst, freeLast);
      OffsetSlot(elementSize, n);
      var slots := capacity / elementSize;
      assert slots == n;
      var unsignedSlots := (slots + 1) % UIntRange;
      assert unsignedSlots == n + 1;
      var count := NextPowerOfTwo(unsignedSlots);
      GrowthStep(elementSize, n, count);
      ghost var before := free;
      Resize(Offset(elementSize, count), count);
      assert before == [] && free == before + SlotRange(n, pool.Length);
      EmptyPrefix(before, SlotRange(n, pool.Length));
      ThreadedHead(pool[..], elementSize, pool.Length, free, freeFirst, freeLast, n);
      ListedNotNull(elementSize, pool.Length, n);
    }

    /** The unlink and construct steps of create: the head slot leaves the free list
        and takes the value. */
    method TakeHead(v: V) returns (h: Handle)
      requires Valid() && free != []
      modifies this`freeFirst, this`freeLast, this`free, pool
      ensures Valid() && pool == old(pool) && h.ofs == old(freeFirst) && h.version == 0 && free == old(free)[1..]
      ensures CanPop(old(State()), elementSize) && State() == Pop(old(State()), elementSize, v)
      ensures Holds(h) && h.ofs / elementSize == old(free[0])
      ensures pool[..] == old(pool[..])[old(free[0]) := Live(v)]
    {
      PopHead(State(), elementSize, pool.Length, free, v);
      OffsetSlot(elementSize, free[0]);
      var index := freeFirst;
      if freeFirst == freeLast {
        freeFirst, freeLast := IndexNull, IndexNull;
      } else {
        freeFirst := pool[freeFirst / elementSize].next;
      }
      pool[index / elementSize] := Live(v);
      free := free[1..];
      h := Handle(index, 0);
    }

    /** destroy: the slot of h goes in front of the free list. */
    method Destroy(h: Handle)
      requires Valid() && Holds(h)
      modifies this`freeFirst, this`freeLast, this`free, pool
      ensures Valid() && free == [h.ofs / elementSize] + old(free)
      ensures State() == Push(old(State()), elementSize, h.ofs)
    {
      var k := h.ofs / elementSize;
      SlotOffset(elementSize, h.ofs);
      PushHead(State(), elementSize, pool.Length, free, k);
      if freeFirst == IndexNull {
        pool[k] := Free(IndexNull);
        freeFirst, freeLast := h.ofs, h.ofs;
      } else {
        pool[k] := Free(freeFirst);
        freeFirst := h.ofs;
      }
      free := [k] + free;
    }

    /** get: the value held by the live slot of h. */
    function Get(h: Handle): (v: V)
      reads this, pool
      requires Valid() && Holds(h)
      ensures pool[h.ofs / elementSize] == Live(v)
    {
      pool[h.ofs / elementSize].value
    }

    /** count_free: the length of the free list, which is the number of slots that
        hold no value. */
    method CountFree() returns (r: nat)
      requires Valid()
      ensures r == |free| && r + |LiveValues(pool[..])| == pool.Length
    {
      var visits := FreelistVisitor();
      r := |visits|;
      ThreadedCount(pool[..], elementSize, pool.Length, free, freeFirst, freeLast);
      assert pool[..][..pool.Length] == pool[..];
    }

    /** used_visitor: the values of the live slots, by increasing offset. */
    method UsedVisitor() returns (visits: seq<V>)
      requires Valid()
      ensures visits == LiveValues(pool[..])
    {
      var used := MarkUsed(pool, elementSize, pool.Length, freeFirst, freeLast, free);
      visits := VisitUsed(pool, elementSize, pool.Length, used);
      assert pool[..pool.Length] == pool[..];
    }

    /** freelist_visitor: the offsets of the free list, from the head. */
    method FreelistVisitor() returns (visits: seq<nat>)
      requires Valid()
      ensures |visits| == |free|
      ensures forall m :: 0 <= m < |free| ==> visits[m] == Offset(elementSize, free[m])
    {
      visits := WalkChain(pool, elementSize, pool.Length, freeFirst, freeLast, free);
    }

    /** expand_freelist, called by resize before capacity is updated: the slots
        from old_capacity up to the end of the new buffer are linked onto the tail
        of the free list in increasing order. */
    method ExpandFreelist(oldCapacity: nat, newCapacity: nat, ghost oldN: nat)
      requires elementSize >= IndexSize && oldCapacity == Offset(elementSize, oldN)
      requires newCapacity == Offset(elementSize, pool.Length) <= IndexNull
      requires newCapacity > oldCapacity && newCapacity >= elementSize
      requires Threaded(pool[..], elementSize, oldN, free, freeFirst, freeLast)
      modifies this`freeFirst, this`freeLast, this`free, pool
      ensures Threaded(pool[..], elementSize, pool.Length, free, freeFirst, freeLast)
      ensures free == old(free) + SlotRange(oldN, pool.Length)
      ensures forall k :: 0 <= k < pool.Length && k !in free ==> pool[k] == old(pool[k])
      ensures old(free) == [] ==> pool[..oldN] == old(pool[..oldN])
    {
      OffsetSlot(elementSize, oldN);
      OffsetBelow(elementSize, oldN, pool.Length);
      var n := oldCapacity / elementSize;
      ghost var prev := free;
      freeFirst, freeLast, free := LinkNewSlots(pool, elementSize, n, pool.Length, freeFirst, freeLast, free);
      if prev == [] {
        forall k | 0 <= k < oldN
          ensures k !in free
        {
          SlotRangeBelow(oldN, pool.Length, k);
        }
      }
    }

    /** The allocation and copy steps of resize: a new buffer of n slots whose first
        slots hold what the old ones hold (a live element is moved, a free slot
        keeps its link) and whose other slots are fresh memory, modelled as
        unlinked free slots. */
    method Reallocate(n: nat) returns (next: array<Slot<V>>)
      requires Valid() && pool.Length <= n
      ensures fresh(next) && next.Length == n
      ensures next[..pool.Length] == pool[..]
      ensures forall k :: pool.Length <= k < n ==> next[k] == Free(IndexNull)
    {
      next := new Slot<V>[n](_ => Free(IndexNull));
      if pool.Length > 0 {
        var used := MarkUsed(pool, elementSize, pool.Length, freeFirst, freeLast, free);
        CopySlots(pool, next, elementSize, pool.Length, used);
      }
      assert next[..pool.Length] == pool[..pool.Length];
    }

    /** resize to a larger byte size: a new buffer takes every live element at the
        same offset and the link of every free slot, and the new slots are linked
        onto the tail of the free list. Resizing to the current size changes nothing. */
    method Resize(size: nat, ghost n: nat)
      requires Valid() && n >= pool.Length && size == Offset(elementSize, n) <= IndexNull
      modifies this
      ensures Valid() && capacity == size && pool.Length == n
      ensures free == old(free) + SlotRange(old(pool.Length), pool.Length)
      ensures forall k :: 0 <= k < old(pool.Length) && old(pool[k]).Live? ==> pool[k] == old(pool[k])
      ensures old(free) == [] ==> pool[..old(pool.Length)] == old(pool[..])
      ensures size == old(capacity) ==> pool == old(pool) && freeFirst == old(freeFirst) && freeLast == old(freeLast)
      ensures size != old(capacity) ==> fresh(pool)
    {
      OffsetBelow(elementSize, pool.Length, n);
      if size == capacity {
        assert SlotRange(pool.Length, pool.Length) == [];
        assert free + [] == free;
        return;
      }
      var prevPool := pool;
      OffsetSlot(elementSize, n);
      var next := Reallocate(size / elementSize);
      ghost var copied := next[..];
      pool := next;
      ThreadedPrefix(prevPool[..], pool[..], elementSize, prevPool.Length, free, freeFirst, freeLast);
      ghost var prevFree := free;
      ExpandFreelist(capacity, size, prevPool.Length);
      forall k | 0 <= k < prevPool.Length && prevPool[k].Live?
        ensures pool[k] == prevPool[k]
      {
        ThreadedPartition(prevPool[..], elementSize, prevPool.Length, prevFree, old(freeFirst), old(freeLast), k);
        SlotRangeBelow(prevPool.Length, pool.Length, k);
        assert copied[k] == prevPool[k];
      }
      capacity := size;
    }
  }
}
