/** PoolAllocatorFH: a pool for elements of one type chosen at run time, described
    by a type tag and a size. Elements live in a growable buffer of slots; create
    hands out a handle holding the byte offset of the slot, destroy gives the slot
    back to the embedded free list. */
module PoolFH {
  import opened FreeList
  import opened Handles

  /** TypeInfo: the element type's type_index (as a tag) and its size in bytes. */
  datatype TypeInfo = TypeInfo(index: nat, size: nat)

  class PoolAllocatorFH<V> {
    const typeInfo: TypeInfo
    /** The buffer, one slot per element; its byte size is capacity. */
    var pool: array<Slot<V>>
    var capacity: nat
    var freeFirst: nat
    var freeLast: nat
    /** The slot numbers on the free list, from freeFirst to freeLast. */
    ghost var free: seq<nat>

    /** Every slot of the buffer is either live or on the free list, and capacity
        is the byte size of the buffer. */
    ghost predicate Valid()
      reads this, pool
    {
      && typeInfo.size >= IndexSize
      && capacity == Offset(typeInfo.size, pool.Length)
      && Threaded(pool[..], typeInfo.size, pool.Length, free, freeFirst, freeLast)
    }

    /** The buffer with the two ends of the free list. */
    ghost function State(): Chain<V>
      reads this, pool
    {
      Chain(pool[..], freeFirst, freeLast)
    }

    /** h is set and names a live element: the checks of assert_index, and the
        slot holds an object. */
    ghost predicate Holds(h: Handle)
      reads this, pool
    {
      0 < typeInfo.size && IsValid(h) && h.ofs % typeInfo.size == 0
      && h.ofs / typeInfo.size < pool.Length && pool[h.ofs / typeInfo.size].Live?
    }

    /** A pool starts with no buffer and an empty free list. */
    constructor(typeInfo: TypeInfo)
      requires typeInfo.size >= IndexSize
      ensures Valid() && this.typeInfo == typeInfo
      ensures capacity == 0 && pool.Length == 0 && free == []
    {
      this.typeInfo := typeInfo;
      pool := new Slot<V>[0](_ => Free(IndexNull));
      capacity := 0;
      freeFirst := IndexNull;
      freeLast := IndexNull;
      free := [];
    }

    /** capacity: the byte size of the buffer, a whole number of elements. */
    function Capacity(): (c: nat)
      reads this, pool
      requires Valid()
      ensures c == Offset(typeInfo.size, pool.Length)
      ensures c % typeInfo.size == 0 && c / typeInfo.size == pool.Length
    {
      OffsetSlot(typeInfo.size, pool.Length);
      capacity
    }

    /** create: the buffer grows when the free list is empty, then the head of the
        free list takes the value and its offset is returned with version 0. */
    method Create(typeIndex: nat, v: V) returns (h: Handle)
      requires Valid() && typeIndex == typeInfo.index
      requires freeFirst == IndexNull ==> Offset(typeInfo.size, NextPowerOfTwo(pool.Length + 1)) <= IndexNull
      modifies this, pool
      ensures Valid() && h.version == 0 && Holds(h) && pool[h.ofs / typeInfo.size] == Live(v)
      ensures old(freeFirst) != IndexNull ==>
        && h.ofs == old(freeFirst) && pool == old(pool) && free == old(free)[1..]
        && CanPop(old(State()), typeInfo.size) && State() == Pop(old(State()), typeInfo.size, v)
      ensures old(freeFirst) == IndexNull ==>
        && h.ofs == old(capacity) && pool.Length == NextPowerOfTwo(old(pool.Length) + 1)
        && free == SlotRange(old(pool.Length) + 1, pool.Length)
        && pool[..old(pool.Length)] == old(pool[..])
    {
      ThreadedEmpty(pool[..], typeInfo.size, pool.Length, free, freeFirst, freeLast);
      if freeFirst == IndexNull {
        h := ExpandAndTake(v);
      } else {
        h := TakeHead(v);
      }
    }

    /** create on an empty free list: the buffer grows, and the first new slot takes
        the value. */
    method ExpandAndTake(v: V) returns (h: Handle)
      requires Valid() && freeFirst == IndexNull
      requires Offset(typeInfo.size, NextPowerOfTwo(pool.Length + 1)) <= IndexNull
      modifies this
      ensures Valid() && h.ofs == old(capacity) && h.version == 0 && Holds(h) && h.ofs / typeInfo.size == old(pool.Length)
      ensures pool.Length == NextPowerOfTwo(old(pool.Length) + 1) && pool[old(pool.Length)] == Live(v)
      ensures free == SlotRange(old(pool.Length) + 1, pool.Length)
      ensures pool[..old(pool.Length)] == old(pool[..])
    {
      ghost var n := pool.Length;
      Expand();
      ghost var mid := pool[..];
      ghost var listed := free;
      h := TakeHead(v);
      UpdatePastPrefix(mid, pool[..], n, n, Live(v));
      RangeAfterPop(listed, free, n, pool.Length);
    }

    /** The unlink and construct steps of create: the head slot leaves the free list
        and takes the value. */
    method TakeHead(v: V) returns (h: Handle)
      requires Valid() && free != []
      modifies this`freeFirst, this`freeLast, this`free, pool
      ensures Valid() && pool == old(pool) && h.ofs == old(freeFirst) && h.version == 0 && free == old(free)[1..]
      ensures CanPop(old(State()), typeInfo.size) && State() == Pop(old(State()), typeInfo.size, v)
      ensures Holds(h) && h.ofs / typeInfo.size == old(free[0])
      ensures pool[..] == old(pool[..])[old(free[0]) := Live(v)]
    {
      PopHead(State(), typeInfo.size, pool.Length, free, v);
      OffsetSlot(typeInfo.size, free[0]);
      var index := freeFirst;
      if freeFirst == freeLast {
        freeFirst, freeLast := IndexNull, IndexNull;
      } else {
        freeFirst := pool[freeFirst / typeInfo.size].next;
      }
      pool[index / typeInfo.size] := Live(v);
      free := free[1..];
      h := Handle(index, 0);
    }

    /** destroy: the slot of h goes in front of the free list. */
    method Destroy(typeIndex: nat, h: Handle)
      requires Valid() && typeIndex == typeInfo.index && Holds(h)
      modifies this`freeFirst, this`freeLast, this`free, pool
      ensures Valid() && free == [h.ofs / typeInfo.size] + old(free)
      ensures State() == Push(old(State()), typeInfo.size, h.ofs)
    {
      var k := h.ofs / typeInfo.size;
      SlotOffset(typeInfo.size, h.ofs);
      PushHead(State(), typeInfo.size, pool.Length, free, k);
      if freeFirst == IndexNull {
        pool[k] := Free(IndexNull);
        freeFirst, freeLast := h.ofs, h.ofs;
      } else {
        pool[k] := Free(freeFirst);
        freeFirst := h.ofs;
      }
      free := [k] + free;
    }

    /** get: the value held by the live slot of h. */
    function Get(typeIndex: nat, h: Handle): (v: V)
      reads this, pool
      requires Valid() && typeIndex == typeInfo.index && Holds(h)
      ensures pool[h.ofs / typeInfo.size] == Live(v)
    {
      pool[h.ofs / typeInfo.size].value
    }

    /** count_free: the length of the free list, which is the number of slots that
        hold no value. */
    method CountFree() returns (r: nat)
      requires Valid()
      ensures r == |free| && r + |LiveValues(pool[..])| == pool.Length
    {
      var visits := FreelistVisitor();
      r := |visits|;
      ThreadedCount(pool[..], typeInfo.size, pool.Length, free, freeFirst, freeLast);
      assert pool[..][..pool.Length] == pool[..];
    }

    /** used_visitor: the values of the live slots, by increasing offset. */
    method UsedVisitor() returns (visits: seq<V>)
      requires Valid()
      ensures visits == LiveValues(pool[..])
    {
      var used := MarkUsed(pool, typeInfo.size, pool.Length, freeFirst, freeLast, free);
      visits := VisitUsed(pool, typeInfo.size, pool.Length, used);
      assert pool[..pool.Length] == pool[..];
    }

    /** freelist_visitor: the offsets of the free list, from the head. */
    method FreelistVisitor() returns (visits: seq<nat>)
      requires Valid()
      ensures |visits| == |free|
      ensures forall m :: 0 <= m < |free| ==> visits[m] == Offset(typeInfo.size, free[m])
    {
      visits := WalkChain(pool, typeInfo.size, pool.Length, freeFirst, freeLast, free);
    }

    /** expand: the buffer grows to the next power of two above the current number
        of elements, and the new slots are linked onto the free list. */
    method Expand()
      requires Valid() && freeFirst == IndexNull
      requires Offset(typeInfo.size, NextPowerOfTwo(pool.Length + 1)) <= IndexNull
      modifies this
      ensures Valid() && pool.Length == NextPowerOfTwo(old(pool.Length) + 1)
      ensures free == SlotRange(old(pool.Length), pool.Length) && freeFirst == old(capacity) != IndexNull
      ensures pool[..old(pool.Length)] == old(pool[..])
      ensures fresh(pool)
    {
      var prevCapacity := capacity;
      ghost var n := pool.Length;
      OffsetSlot(typeInfo.size, n);
      var count := NextPowerOfTwo(capacity / typeInfo.size + 1);
      GrowthStep(typeInfo.size, n, count);
      var newCapacity := Offset(typeInfo.size, count);
      Resize(newCapacity);
      OffsetSlot(typeInfo.size, pool.Length);
      assert pool.Length == count && fresh(pool);
      ghost var grown := pool;
      ghost var resized := pool[..];
      ExpandFreelist(prevCapacity, capacity);
      assert pool == grown && free[0] == n && pool[..n] == resized[..n];
      ListedNotNull(typeInfo.size, pool.Length, n);
    }

    /** expand_freelist: the slots from old_capacity up to new_capacity are linked
        onto the tail of the free list in increasing order. */
    method ExpandFreelist(oldCapacity: nat, newCapacity: nat)
      requires typeInfo.size >= IndexSize && newCapacity == capacity == Offset(typeInfo.size, pool.Length) <= IndexNull
      requires newCapacity > oldCapacity && newCapacity >= typeInfo.size && oldCapacity % typeInfo.size == 0
      requires Threaded(pool[..], typeInfo.size, oldCapacity / typeInfo.size, free, freeFirst, freeLast)
      modifies this`freeFirst, this`freeLast, this`free, pool
      ensures Valid() && pool == old(pool)
      ensures free == old(free) + SlotRange(oldCapacity / typeInfo.size, pool.Length)
      ensures forall k :: 0 <= k < pool.Length && k !in free ==> pool[k] == old(pool[k])
      ensures old(free) == [] ==> pool[..oldCapacity / typeInfo.size] == old(pool[..oldCapacity / typeInfo.size])
    {
      var oldN := oldCapacity / typeInfo.size;
      ghost var prev := free;
      SlotOffset(typeInfo.size, oldCapacity);
      OffsetBelow(typeInfo.size, oldN, pool.Length);
      freeFirst, freeLast, free := LinkNewSlots(pool, typeInfo.size, oldN, pool.Length, freeFirst, freeLast, free);
      if prev == [] {
        forall k | 0 <= k < oldN
          ensures k !in free
        {
          SlotRangeBelow(oldN, pool.Length, k);
        }
      }
    }

    /** resize, in the state expand calls it in (an empty free list): a new buffer
        of the given byte size takes the values of the old one; the free list is
        left as it was. The slots past the old ones are fresh memory, modelled as
        unlinked free slots. */
    method Resize(size: nat)
      requires Valid() && freeFirst == IndexNull
      requires size >= capacity && size % typeInfo.size == 0 && size <= IndexNull
      modifies this
      ensures typeInfo.size >= IndexSize && capacity == size == Offset(typeInfo.size, pool.Length)
      ensures free == [] && freeFirst == IndexNull && freeLast == IndexNull
      ensures Threaded(pool[..], typeInfo.size, old(pool.Length), [], IndexNull, IndexNull)
      ensures pool[..old(pool.Length)] == old(pool[..])
      ensures forall k :: old(pool.Length) <= k < pool.Length ==> pool[k] == Free(IndexNull)
      ensures size != old(capacity) ==> fresh(pool)
    {
      ThreadedEmpty(pool[..], typeInfo.size, pool.Length, free, freeFirst, freeLast);
      if size == capacity {
        return;
      }
      var prevPool := pool;
      var n := size / typeInfo.size;
      SlotOffset(typeInfo.size, size);
      OffsetSlot(typeInfo.size, prevPool.Length);
      OffsetBelow(typeInfo.size, n, prevPool.Length);
      pool := new Slot<V>[n](_ => Free(IndexNull));
      capacity := size;
      if prevPool.Length > 0 && n > 0 {
        // The walk starts from the null head, so no link of either buffer is read.
        var used := MarkUsed(prevPool, typeInfo.size, prevPool.Length, freeFirst, freeLast, free);
        CopySlots(prevPool, pool, typeInfo.size, prevPool.Length, used);
      }
      ThreadedPrefix(prevPool[..], pool[..], typeInfo.size, prevPool.Length, free, freeFirst, freeLast);
    }
  }
}
