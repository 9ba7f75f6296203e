/** What both pool allocators share: a buffer of fixed-size slots, each holding a
    value or the byte offset of the next free slot, with the free slots threaded
    into a singly linked list from a first to a last offset. Offsets are in bytes;
    slot k starts at byte k * size. */
module FreeList {
  /** index_null: the largest size_t, used as the null offset. */
  const IndexNull: nat := 0xFFFF_FFFF_FFFF_FFFF

  /** sizeof(size_t): an element must be large enough to hold a link. */
  const IndexSize: nat := 8

  /** A slot of the buffer: a free slot holds the offset of the next free slot (or
      IndexNull), a live slot holds a value. */
  datatype Slot<V> = Free(next: nat) | Live(value: V)

  /** The byte offset of slot k (k * size, written as a sum). */
  function Offset(size: nat, k: nat): nat
  {
    if k == 0 then 0 else Offset(size, k - 1) + size
  }

  // ---------------------------------------------------------------------------
  // Offsets and slot numbers

  lemma OffsetIsProduct(size: nat, k: nat)
    ensures Offset(size, k) == k * size
  {
    if k > 0 {
      OffsetIsProduct(size, k - 1);
    }
  }

  lemma MulAtLeast(e: nat, size: nat)
    requires e >= 1
    ensures e * size >= size
  {
    if e > 1 {
      MulAtLeast(e - 1, size);
      assert e * size == (e - 1) * size + size;
    }
  }

  /** Euclidean division is unique. */
  lemma DivUnique(a: int, size: int, q: int, r: int)
    requires size > 0 && a == q * size + r && 0 <= r < size
    ensures a / size == q && a % size == r
  {
    var q' := a / size;
    var r' := a % size;
    assert a == q' * size + r';
    if q > q' {
      assert (q - q') * size == r' - r;
      MulAtLeast(q - q', size);
    } else if q < q' {
      assert (q' - q) * size == r - r';
      MulAtLeast(q' - q, size);
    }
  }

  lemma OffsetSlot(size: nat, k: nat)
    requires 0 < size
    ensures Offset(size, k) / size == k && Offset(size, k) % size == 0
  {
    OffsetIsProduct(size, k);
    DivUnique(k * size, size, k, 0);
  }

  lemma SlotOffset(size: nat, ofs: nat)
    requires 0 < size && ofs % size == 0
    ensures Offset(size, ofs / size) == ofs
  {
    OffsetIsProduct(size, ofs / size);
    assert ofs == (ofs / size) * size + ofs % size;
  }

  lemma OffsetNext(size: nat, k: nat)
    ensures Offset(size, k + 1) == Offset(size, k) + size
  {
  }

  lemma OffsetBelow(size: nat, k: nat, n: nat)
    requires 0 < size
    ensures k < n <==> Offset(size, k) < Offset(size, n)
  {
    OffsetIsProduct(size, k);
    OffsetIsProduct(size, n);
    if k < n {
      assert n * size == k * size + (n - k) * size;
      MulAtLeast(n - k, size);
    } else {
      assert k * size == n * size + (k - n) * size;
      assert (k - n) * size >= 0;
    }
  }

  // ---------------------------------------------------------------------------
  // The embedded list

  /** Without its last link: free lists distinct slots below n, first and last are
      the offsets of its ends, each slot links to the next one, and every free slot
      below n is on the list. */
  ghost predicate Chained<V>(slots: seq<Slot<V>>, size: nat, n: nat, free: seq<nat>, first: nat, last: nat)
  {
    && 0 < size && n <= |slots| && Offset(size, n) <= IndexNull
    && (|free| == 0 ==> first == IndexNull && last == IndexNull)
    && (|free| > 0 ==> first == Offset(size, free[0]) && last == Offset(size, free[|free| - 1]))
    && (forall m :: 0 <= m < |free| ==> free[m] < n)
    && (forall m :: 0 <= m < |free| - 1 ==> slots[free[m]] == Free(Offset(size, free[m + 1])))
    && (forall a, b :: 0 <= a < b < |free| ==> free[a] != free[b])
    && (forall k :: 0 <= k < n && slots[k].Free? ==> k in free)
  }

  /** The list threads the free slots below n and its last slot links to null. */
  ghost predicate Threaded<V>(slots: seq<Slot<V>>, size: nat, n: nat, free: seq<nat>, first: nat, last: nat)
  {
    && Chained(slots, size, n, free, first, last)
    && (|free| > 0 ==> slots[free[|free| - 1]] == Free(IndexNull))
  }

  /** What the link of the m-th listed slot holds. */
  function LinkAfter(size: nat, free: seq<nat>, m: nat): nat
  {
    if m + 1 < |free| then Offset(size, free[m + 1]) else IndexNull
  }

  /** Every listed slot is free and links to the next listed slot, or to null. */
  lemma ThreadedLinks<V>(slots: seq<Slot<V>>, size: nat, n: nat, free: seq<nat>, first: nat, last: nat, m: nat)
    requires Threaded(slots, size, n, free, first, last) && m < |free|
    ensures free[m] < n && slots[free[m]] == Free(LinkAfter(size, free, m))
  {
  }

  /** Live and free slots partition the first n slots: a slot is on the list exactly
      when it is free. */
  lemma ThreadedPartition<V>(slots: seq<Slot<V>>, size: nat, n: nat, free: seq<nat>, first: nat, last: nat, k: nat)
    requires Threaded(slots, size, n, free, first, last) && k < n
    ensures k in free <==> slots[k].Free?
  {
    if k in free {
      var m :| 0 <= m < |free| && free[m] == k;
      ThreadedLinks(slots, size, n, free, first, last, m);
    }
  }

  /** The head of a non-empty list is the offset of its first slot. */
  lemma ThreadedHead<V>(slots: seq<Slot<V>>, size: nat, n: nat, free: seq<nat>, first: nat, last: nat, k: nat)
    requires Threaded(slots, size, n, free, first, last) && |free| > 0 && free[0] == k
    ensures first == Offset(size, k) && k < n
  {
  }

  /** No listed offset is the null offset. */
  lemma ListedNotNull(size: nat, n: nat, k: nat)
    requires 0 < size && k < n && Offset(size, n) <= IndexNull
    ensures Offset(size, k) < IndexNull && Offset(size, k) / size == k
  {
    OffsetBelow(size, k, n);
    OffsetSlot(size, k);
  }

  /** The list is empty exactly when its head is the null offset. */
  lemma ThreadedEmpty<V>(slots: seq<Slot<V>>, size: nat, n: nat, free: seq<nat>, first: nat, last: nat)
    requires Threaded(slots, size, n, free, first, last)
    ensures first == IndexNull <==> free == []
    ensures first == IndexNull <==> last == IndexNull
  {
    if |free| > 0 {
      ListedNotNull(size, n, free[0]);
      ListedNotNull(size, n, free[|free| - 1]);
    }
  }

  /** Whether a list is threaded depends only on the first n slots. */
  lemma ThreadedPrefix<V>(a: seq<Slot<V>>, b: seq<Slot<V>>, size: nat, n: nat, free: seq<nat>, first: nat, last: nat)
    requires Threaded(a, size, n, free, first, last) && n <= |b| && b[..n] == a[..n]
    ensures Threaded(b, size, n, free, first, last)
  {
    forall k | 0 <= k < n
      ensures b[k] == a[k]
    {
      assert b[..n][k] == a[..n][k];
    }
  }

  /** The slot numbers a, a + 1, ..., b - 1. */
  function SlotRange(a: nat, b: nat): (r: seq<nat>)
    ensures |r| == if a <= b then b - a else 0
    ensures forall m :: 0 <= m < |r| ==> r[m] == a + m
  {
    seq(if a <= b then b - a else 0, m requires 0 <= m => a + m)
  }

  /** A range without its first number. */
  lemma SlotRangeTail(a: nat, b: nat)
    requires a < b
    ensures SlotRange(a, b)[0] == a && SlotRange(a, b)[1..] == SlotRange(a + 1, b)
  {
  }

  /** Writing at or past n leaves the first n slots as they were. */
  lemma UpdatePastPrefix<T>(a: seq<T>, b: seq<T>, n: nat, i: nat, x: T)
    requires n <= i < |a| && b == a[i := x]
    ensures b[..n] == a[..n]
  {
  }

  /** Appending to the empty list. */
  lemma EmptyPrefix(e: seq<nat>, r: seq<nat>)
    requires e == []
    ensures e + r == r
  {
  }

  /** Popping the head of the list a, ..., b - 1 leaves a + 1, ..., b - 1. */
  lemma RangeAfterPop(listed: seq<nat>, rest: seq<nat>, a: nat, b: nat)
    requires a < b && listed == SlotRange(a, b) && |listed| > 0 && rest == listed[1..]
    ensures rest == SlotRange(a + 1, b)
  {
    SlotRangeTail(a, b);
  }

  /** No slot below a is in a range that starts at a. */
  lemma SlotRangeBelow(a: nat, b: nat, k: nat)
    requires k < a
    ensures k !in SlotRange(a, b)
  {
  }

  // ---------------------------------------------------------------------------
  // Pop and push at the head

  /** The buffer with the two ends of its free list. */
  datatype Chain<V> = Chain(slots: seq<Slot<V>>, first: nat, last: nat)

  /** The head of the list is a free slot of the buffer. */
  predicate CanPop<V>(c: Chain<V>, size: nat)
  {
    0 < size && c.first != IndexNull && c.first / size < |c.slots| && c.slots[c.first / size].Free?
  }

  /** The unlink of create: the head slot leaves the list (both ends become null
      when it was the only one) and takes the value v. */
  function Pop<V>(c: Chain<V>, size: nat, v: V): (r: Chain<V>)
    requires CanPop(c, size)
    ensures |r.slots| == |c.slots| && r.slots[c.first / size] == Live(v)
    ensures forall k :: 0 <= k < |c.slots| && k != c.first / size ==> r.slots[k] == c.slots[k]
  {
    var k := c.first / size;
    if c.first == c.last then Chain(c.slots[k := Live(v)], IndexNull, IndexNull)
    else Chain(c.slots[k := Live(v)], c.slots[k].next, c.last)
  }

  /** The link of destroy: the slot at offset ofs goes in front of the list, and
      becomes both ends when the list was empty. */
  function Push<V>(c: Chain<V>, size: nat, ofs: nat): (r: Chain<V>)
    requires 0 < size && ofs / size < |c.slots|
    ensures |r.slots| == |c.slots| && r.first == ofs && r.slots[ofs / size].Free?
    ensures forall k :: 0 <= k < |c.slots| && k != ofs / size ==> r.slots[k] == c.slots[k]
  {
    var k := ofs / size;
    if c.first == IndexNull then Chain(c.slots[k := Free(IndexNull)], ofs, ofs)
    else Chain(c.slots[k := Free(c.first)], ofs, c.last)
  }

  /** Popping a threaded list takes its first slot, leaves the rest threaded, and the
      ends meet exactly when one slot was listed. */
  lemma PopHead<V>(c: Chain<V>, size: nat, n: nat, free: seq<nat>, v: V)
    requires Threaded(c.slots, size, n, free, c.first, c.last) && |free| > 0
    ensures CanPop(c, size) && c.first == Offset(size, free[0]) < IndexNull && c.first / size == free[0]
    ensures (c.first == c.last) == (|free| == 1)
    ensures var r := Pop(c, size, v);
      r.slots == c.slots[free[0] := Live(v)] && Threaded(r.slots, size, n, free[1..], r.first, r.last)
  {
    var h := free[0];
    var slots' := c.slots[h := Live(v)];
    var rest := free[1..];
    ListedNotNull(size, n, h);
    ThreadedLinks(c.slots, size, n, free, c.first, c.last, 0);
    if |free| > 1 {
      ListedNotNull(size, n, free[|free| - 1]);
      assert h != free[|free| - 1];
    }
    forall k | 0 <= k < n && slots'[k].Free?
      ensures k in rest
    {
      assert k != h && k in free;
    }
    forall m | 0 <= m < |rest| - 1
      ensures slots'[rest[m]] == Free(Offset(size, rest[m + 1]))
    {
      assert rest[m] == free[m + 1] && rest[m + 1] == free[m + 2];
    }
    var r := Pop(c, size, v);
    assert r.first == (if |free| == 1 then IndexNull else Offset(size, free[1]));
  }

  /** Pushing a live slot k keeps the list threaded, with k in front. */
  lemma PushHead<V>(c: Chain<V>, size: nat, n: nat, free: seq<nat>, k: nat)
    requires Threaded(c.slots, size, n, free, c.first, c.last) && k < n && c.slots[k].Live?
    ensures Offset(size, k) / size == k
    ensures var r := Push(c, size, Offset(size, k));
      Threaded(r.slots, size, n, [k] + free, r.first, r.last)
  {
    ListedNotNull(size, n, k);
    var free' := [k] + free;
    var slots' := c.slots[k := Free(c.first)];
    ThreadedPartition(c.slots, size, n, free, c.first, c.last, k);
    if |free| > 0 {
      ListedNotNull(size, n, free[0]);
    }
    assert k !in free;
    forall m | 0 <= m < |free'| - 1
      ensures slots'[free'[m]] == Free(Offset(size, free'[m + 1]))
    {
      if m > 0 {
        assert free'[m] == free[m - 1] && free'[m + 1] == free[m];
      }
    }
    forall a, b | 0 <= a < b < |free'|
      ensures free'[a] != free'[b]
    {
      assert free'[b] == free[b - 1];
      if a > 0 {
        assert free'[a] == free[a - 1];
      }
    }
    forall j | 0 <= j < n && slots'[j].Free?
      ensures j in free'
    {
      if j != k {
        assert c.slots[j] == slots'[j];
      }
    }
    if |free| > 0 {
      assert free'[|free'| - 1] == free[|free| - 1];
      assert slots'[free[|free| - 1]] == c.slots[free[|free| - 1]];
    }
    assert Chained(slots', size, n, free', Offset(size, k), if c.first == IndexNull then Offset(size, k) else c.last);
  }

  /** destroy undoes create: pushing back the slot just popped restores the buffer
      and both ends. */
  lemma PushUndoesPop<V>(c: Chain<V>, size: nat, n: nat, free: seq<nat>, v: V)
    requires Threaded(c.slots, size, n, free, c.first, c.last) && |free| > 0
    ensures CanPop(c, size) && Push(Pop(c, size, v), size, c.first) == c
  {
    PopHead(c, size, n, free, v);
    ThreadedLinks(c.slots, size, n, free, c.first, c.last, 0);
    var r := Pop(c, size, v);
    var k := free[0];
    if |free| > 1 {
      ListedNotNull(size, n, free[1]);
    }
    assert r.first == LinkAfter(size, free, 0);
    assert Push(r, size, c.first).slots == c.slots[k := Live(v)][k := Free(LinkAfter(size, free, 0))];
  }

  /** create after destroy hands out the destroyed slot again, and the list is as
      it was before the destroy. */
  lemma PopUndoesPush<V>(c: Chain<V>, size: nat, n: nat, free: seq<nat>, k: nat, v: V)
    requires Threaded(c.slots, size, n, free, c.first, c.last) && k < n && c.slots[k].Live?
    ensures Offset(size, k) / size == k
    ensures var r := Push(c, size, Offset(size, k));
      CanPop(r, size) && Pop(r, size, v) == Chain(c.slots[k := Live(v)], c.first, c.last)
  {
    ListedNotNull(size, n, k);
    if |free| > 0 {
      ListedNotNull(size, n, free[0]);
    }
    var ofs := Offset(size, k);
    var r := Push(c, size, ofs);
    if c.first == IndexNull {
      assert r == Chain(c.slots[k := Free(IndexNull)], ofs, ofs);
      assert Pop(r, size, v) == Chain(c.slots[k := Free(IndexNull)][k := Live(v)], IndexNull, IndexNull);
    } else {
      assert ofs != c.last by {
        ThreadedPartition(c.slots, size, n, free, c.first, c.last, k);
        ListedNotNull(size, n, free[|free| - 1]);
      }
      assert r == Chain(c.slots[k := Free(c.first)], ofs, c.last);
      assert Pop(r, size, v) == Chain(c.slots[k := Free(c.first)][k := Live(v)], c.first, c.last);
    }
    assert c.slots[k := Free(c.first)][k := Live(v)] == c.slots[k := Live(v)];
    assert c.slots[k := Free(IndexNull)][k := Live(v)] == c.slots[k := Live(v)];
  }

  // ---------------------------------------------------------------------------
  // Loops shared by both pools

  /** freelist_visitor: the offsets met following the links from first, in order. */
  method WalkChain<V>(pool: array<Slot<V>>, size: nat, ghost n: nat, first: nat, ghost last: nat, ghost free: seq<nat>)
    returns (visits: seq<nat>)
    requires Threaded(pool[..], size, n, free, first, last)
    ensures |visits| == |free|
    ensures forall m :: 0 <= m < |free| ==> visits[m] == Offset(size, free[m])
  {
    forall j | 0 <= j < |free|
      ensures Offset(size, free[j]) < IndexNull
    {
      ListedNotNull(size, n, free[j]);
    }
    visits := [];
    var cur := first;
    ghost var m := 0;
    while cur != IndexNull
      invariant m <= |free| && |visits| == m
      invariant forall j :: 0 <= j < m ==> visits[j] == Offset(size, free[j])
      invariant cur == if m < |free| then Offset(size, free[m]) else IndexNull
      decreases |free| - m
    {
      ThreadedLinks(pool[..], size, n, free, first, last, m);
      ListedNotNull(size, n, free[m]);
      visits := visits + [cur];
      cur := pool[cur / size].next;
      m := m + 1;
    }
  }

  /** The used bitmap of used_visitor and resize: true for the first n slots, then
      false for each slot the walk along the list meets. */
  method MarkUsed<V>(pool: array<Slot<V>>, size: nat, n: nat, first: nat, ghost last: nat, ghost free: seq<nat>)
    returns (used: array<bool>)
    requires Threaded(pool[..], size, n, free, first, last)
    ensures fresh(used) && used.Length == n
    ensures forall k :: 0 <= k < n ==> (used[k] <==> pool[k].Live?)
  {
    used := new bool[n](_ => true);
    var visits := WalkChain(pool, size, n, first, last, free);
    var m := 0;
    while m < |visits|
      invariant m <= |visits| && used.Length == n
      invariant forall k :: 0 <= k < n ==> (used[k] <==> k !in free[..m])
    {
      ListedNotNull(size, n, free[m]);
      used[visits[m] / size] := false;
      assert free[..m + 1] == free[..m] + [free[m]];
      m := m + 1;
    }
    assert free[..m] == free;
    forall k | 0 <= k < n
      ensures used[k] <==> pool[k].Live?
    {
      ThreadedPartition(pool[..], size, n, free, first, last, k);
    }
  }

  /** The values of the live slots, in slot order. */
  function LiveValues<V>(slots: seq<Slot<V>>): seq<V>
  {
    if |slots| == 0 then []
    else LiveValues(slots[..|slots| - 1]) + (if slots[|slots| - 1].Live? then [slots[|slots| - 1].value] else [])
  }

  /** The numbers of the free slots. */
  ghost function FreeSlots<V>(s: seq<Slot<V>>): set<nat>
  {
    set k: nat | k < |s| && s[k].Free?
  }

  /** Each slot holds a value or is free. */
  lemma {:induction false} LiveFreeCount<V>(s: seq<Slot<V>>)
    ensures |LiveValues(s)| + |FreeSlots(s)| == |s|
  {
    if |s| > 0 {
      var last := |s| - 1;
      var s' := s[..last];
      LiveFreeCount(s');
      forall k: nat
        ensures k in FreeSlots(s) <==> k in FreeSlots(s') || (k == last && s[last].Free?)
      {
        if k < last {
          assert s'[k] == s[k];
        }
      }
      if s[last].Free? {
        assert last !in FreeSlots(s');
        assert FreeSlots(s) == FreeSlots(s') + {last};
      } else {
        assert FreeSlots(s) == FreeSlots(s');
      }
    }
  }

  /** The elements of a list. */
  ghost function Elems(xs: seq<nat>): set<nat>
  {
    set x | x in xs
  }

  /** A list without repeats has as many elements as its set. */
  lemma {:induction false} DistinctCard(xs: seq<nat>)
    requires forall a, b :: 0 <= a < b < |xs| ==> xs[a] != xs[b]
    ensures |Elems(xs)| == |xs|
  {
    if |xs| > 0 {
      var xs' := xs[..|xs| - 1];
      var y := xs[|xs| - 1];
      DistinctCard(xs');
      assert y !in xs' by {
        forall i | 0 <= i < |xs'|
          ensures xs'[i] != y
        {
          assert xs'[i] == xs[i];
        }
      }
      assert xs == xs' + [y];
      assert Elems(xs) == Elems(xs') + {y};
    } else {
      assert Elems(xs) == {};
    }
  }

  /** The free list and the live values share out the first n slots. */
  lemma ThreadedCount<V>(slots: seq<Slot<V>>, size: nat, n: nat, free: seq<nat>, first: nat, last: nat)
    requires Threaded(slots, size, n, free, first, last)
    ensures |free| + |LiveValues(slots[..n])| == n
  {
    DistinctCard(free);
    LiveFreeCount(slots[..n]);
    forall k: nat | k in free
      ensures k in FreeSlots(slots[..n])
    {
      ThreadedPartition(slots, size, n, free, first, last, k);
    }
    forall k: nat | k in FreeSlots(slots[..n])
      ensures k in free
    {
      assert slots[..n][k] == slots[k];
    }
    assert Elems(free) == FreeSlots(slots[..n]);
  }

  /** The loop of used_visitor: the values of the slots the bitmap marks used, by
      increasing offset. */
  method VisitUsed<V>(pool: array<Slot<V>>, size: nat, n: nat, used: array<bool>)
    returns (visits: seq<V>)
    requires 0 < size && n == used.Length <= pool.Length
    requires forall k :: 0 <= k < n ==> (used[k] <==> pool[k].Live?)
    ensures visits == LiveValues(pool[..n])
  {
    visits := [];
    var index := 0;
    ghost var k := 0;
    while index < Offset(size, n)
      invariant k <= n && index == Offset(size, k)
      invariant visits == LiveValues(pool[..k])
      decreases n - k
    {
      OffsetBelow(size, k, n);
      OffsetSlot(size, k);
      if used[index / size] {
        visits := visits + [pool[index / size].value];
      }
      assert pool[..k + 1][..k] == pool[..k];
      OffsetNext(size, k);
      index := index + size;
      k := k + 1;
    }
    OffsetBelow(size, k, n);
  }

  /** The copy loop of resize: a slot the bitmap marks used has its value moved, any
      other has its link copied, so the first n slots arrive unchanged. */
  method CopySlots<V>(prev: array<Slot<V>>, next: array<Slot<V>>, size: nat, n: nat, used: array<bool>)
    requires prev != next && 0 < size && n == used.Length <= prev.Length && n <= next.Length
    requires forall k :: 0 <= k < n ==> (used[k] <==> prev[k].Live?)
    modifies next
    ensures next[..n] == prev[..n]
    ensures forall k :: n <= k < next.Length ==> next[k] == old(next[k])
  {
    var index := 0;
    ghost var k := 0;
    while index < Offset(size, n)
      invariant k <= n && index == Offset(size, k)
      invariant forall j :: 0 <= j < k ==> next[j] == prev[j]
      invariant forall j :: n <= j < next.Length ==> next[j] == old(next[j])
      decreases n - k
    {
      OffsetBelow(size, k, n);
      OffsetSlot(size, k);
      if used[index / size] {
        next[index / size] := prev[index / size];
      } else {
        next[index / size] := Free(prev[index / size].next);
      }
      OffsetNext(size, k);
      index := index + size;
      k := k + 1;
    }
    OffsetBelow(size, k, n);
  }

  /** The loop of expand_freelist: the slots from oldN up to newN go onto the tail
      of the list in increasing order, and the last of them links to null. Only the
      listed slots change. */
  method LinkNewSlots<V>(pool: array<Slot<V>>, size: nat, oldN: nat, newN: nat, first: nat, last: nat, ghost free: seq<nat>)
    returns (first': nat, last': nat, ghost free': seq<nat>)
    requires Threaded(pool[..], size, oldN, free, first, last) && oldN < newN <= pool.Length
    requires Offset(size, newN) <= IndexNull
    modifies pool
    ensures free' == free + SlotRange(oldN, newN)
    ensures Threaded(pool[..], size, newN, free', first', last')
    ensures forall k :: 0 <= k < pool.Length && k !in free' ==> pool[k] == old(pool[k])
  {
    ghost var orig := pool[..];
    if |free| > 0 {
      ListedNotNull(size, oldN, free[0]);
    }
    first' := first;
    if first' == IndexNull {
      first' := Offset(size, oldN);
    }
    last' := last;
    free' := free;
    OffsetBelow(size, oldN, newN);
    assert Linking(orig, pool[..], size, oldN, oldN, free, free', first', last');
    last', free' := LinkRange(pool, size, oldN, newN, first', last', orig, free);
    ghost var t := free'[|free'| - 1];
    ListedNotNull(size, newN, t);
    ghost var before := pool[..];
    pool[last' / size] := Free(IndexNull);
    CloseChain(before, pool[..], size, newN, free', first', last');
  }

  /** The while loop of expand_freelist, from slot oldN up to slot newN. */
  method LinkRange<V>(pool: array<Slot<V>>, size: nat, oldN: nat, newN: nat, first: nat, last: nat,
                      ghost orig: seq<Slot<V>>, ghost free0: seq<nat>)
    returns (last': nat, ghost free': seq<nat>)
    requires Linking(orig, pool[..], size, oldN, oldN, free0, free0, first, last)
    requires oldN <= newN <= pool.Length && Offset(size, newN) <= IndexNull
    modifies pool
    ensures Linking(orig, pool[..], size, oldN, newN, free0, free', first, last')
  {
    last' := last;
    free' := free0;
    var i := Offset(size, oldN);
    var end := Offset(size, newN);
    ghost var j: nat := oldN;
    OffsetBelow(size, oldN, newN);
    while i < end
      invariant oldN <= j <= newN && i == Offset(size, j)
      invariant Linking(orig, pool[..], size, oldN, j, free0, free', first, last')
      decreases newN - j
    {
      LinkSlot(pool, size, oldN, j, newN, i, first, last', orig, free0, free');
      last' := i;
      free' := free' + [j];
      OffsetNext(size, j);
      i := i + size;
      j := j + 1;
    }
    OffsetBelow(size, j, newN);
  }

  /** One pass of expand_freelist's loop: the tail slot, if any, links to slot j,
      which becomes the new tail. */
  method LinkSlot<V>(pool: array<Slot<V>>, size: nat, oldN: nat, ghost j: nat, newN: nat, i: nat, first: nat, last: nat,
                     ghost orig: seq<Slot<V>>, ghost free0: seq<nat>, ghost free: seq<nat>)
    requires Linking(orig, pool[..], size, oldN, j, free0, free, first, last)
    requires j < newN <= pool.Length && Offset(size, newN) <= IndexNull && i == Offset(size, j)
    modifies pool
    ensures Linking(orig, pool[..], size, oldN, j + 1, free0, free + [j], first, i)
  {
    OffsetBelow(size, j, newN);
    ghost var before := pool[..];
    if |free| > 0 {
      ListedNotNull(size, j, free[|free| - 1]);
    }
    if last != IndexNull {
      pool[last / size] := Free(i);
    }
    LinkStep(orig, before, pool[..], size, oldN, j, newN, free0, free, first, last);
  }

  /** The state of expand_freelist's loop once slot j is next: the slots from oldN
      up to j are on the tail of the list, all but the tail linked, and only listed
      slots differ from orig. Until one slot is listed, first already names slot
      oldN. */
  ghost predicate Linking<V>(orig: seq<Slot<V>>, slots: seq<Slot<V>>, size: nat, oldN: nat, j: nat,
                            free0: seq<nat>, free: seq<nat>, first: nat, last: nat)
  {
    && oldN <= j && |slots| == |orig|
    && free == free0 + SlotRange(oldN, j)
    && Chained(slots, size, j, free, if |free| == 0 then IndexNull else first, last)
    && (|free| == 0 ==> first == Offset(size, oldN) && j == oldN)
    && (forall k :: 0 <= k < |slots| && k !in free ==> slots[k] == orig[k])
  }

  /** One step of expand_freelist: after the old tail is pointed at slot j, slot j
      joins the tail of the list. */
  lemma LinkStep<V>(orig: seq<Slot<V>>, before: seq<Slot<V>>, after: seq<Slot<V>>, size: nat, oldN: nat, j: nat, newN: nat,
                    free0: seq<nat>, free: seq<nat>, first: nat, last: nat)
    requires Linking(orig, before, size, oldN, j, free0, free, first, last)
    requires j < newN <= |before| && Offset(size, newN) <= IndexNull
    requires |free| == 0 ==> after == before
    requires |free| > 0 ==> after == before[free[|free| - 1] := Free(Offset(size, j))]
    ensures Linking(orig, after, size, oldN, j + 1, free0, free + [j], first, Offset(size, j))
  {
    OffsetBelow(size, j + 1, newN);
    ExtendChain(before, after, size, j, free, first, last);
    assert free0 + SlotRange(oldN, j + 1) == free + [j];
  }

  /** The chain part of LinkStep. */
  lemma ExtendChain<V>(before: seq<Slot<V>>, after: seq<Slot<V>>, size: nat, j: nat, free: seq<nat>, first: nat, last: nat)
    requires Chained(before, size, j, free, if |free| == 0 then IndexNull else first, last)
    requires |free| == 0 ==> first == Offset(size, j)
    requires j < |before| && Offset(size, j + 1) <= IndexNull
    requires |free| == 0 ==> after == before
    requires |free| > 0 ==> after == before[free[|free| - 1] := Free(Offset(size, j))]
    ensures Chained(after, size, j + 1, free + [j], first, Offset(size, j))
  {
    var free' := free + [j];
    forall m | 0 <= m < |free'|
      ensures free'[m] < j + 1
    {
    }
    forall m | 0 <= m < |free'| - 1
      ensures after[free'[m]] == Free(Offset(size, free'[m + 1]))
    {
      assert free'[m] == free[m];
      if m < |free| - 1 {
        assert free[m] != free[|free| - 1];
      }
    }
    forall k | 0 <= k < j + 1 && after[k].Free?
      ensures k in free'
    {
      if k < j {
        assert (|free| > 0 && k == free[|free| - 1]) || before[k] == after[k];
      }
    }
  }

  /** The last write of expand_freelist: the tail links to null. */
  lemma CloseChain<V>(before: seq<Slot<V>>, after: seq<Slot<V>>, size: nat, n: nat, free: seq<nat>, first: nat, last: nat)
    requires Chained(before, size, n, free, first, last) && |free| > 0
    requires after == before[free[|free| - 1] := Free(IndexNull)]
    ensures Threaded(after, size, n, free, first, last)
  {
    forall m | 0 <= m < |free| - 1
      ensures after[free[m]] == Free(Offset(size, free[m + 1]))
    {
      assert free[m] != free[|free| - 1];
    }
    forall k | 0 <= k < n && after[k].Free?
      ensures k in free
    {
      if k != free[|free| - 1] {
        assert before[k] == after[k];
      }
    }
  }

  // ---------------------------------------------------------------------------
  // Growth

  /** next_power_of_two: the smallest power of two that is at least n (1 for n =
      0); see NextPowerOfTwoIsLeast. */
  function NextPowerOfTwo(n: nat): (p: nat)
    ensures n <= p && 1 <= p
    decreases n
  {
    if n <= 1 then 1
    else 2 * NextPowerOfTwo((n + 1) / 2)
  }

  /** The byte size expand grows a buffer of n elements to: a whole number of
      elements, more than n of them, and at least one. */
  lemma GrowthStep(size: nat, n: nat, count: nat)
    requires 0 < size && count == NextPowerOfTwo(n + 1)
    ensures Offset(size, n) / size == n && n < count
    ensures Offset(size, count) / size == count && Offset(size, count) % size == 0
    ensures Offset(size, n) < Offset(size, count) && size <= Offset(size, count)
  {
    OffsetSlot(size, n);
    OffsetSlot(size, count);
    OffsetBelow(size, n, count);
    OffsetNext(size, count - 1);
  }

  ghost predicate IsPowerOfTwo(p: nat)
    decreases p
  {
    p == 1 || (p > 1 && p % 2 == 0 && IsPowerOfTwo(p / 2))
  }

  /** NextPowerOfTwo(n) is a power of two, at least n, and no power of two below it
      is: half of it is already below n. */
  lemma {:induction false} NextPowerOfTwoIsLeast(n: nat)
    ensures IsPowerOfTwo(NextPowerOfTwo(n)) && n <= NextPowerOfTwo(n)
    ensures NextPowerOfTwo(n) == 1 || NextPowerOfTwo(n) / 2 < n
    decreases n
  {
    if n > 1 {
      NextPowerOfTwoIsLeast((n + 1) / 2);
    }
  }
}
