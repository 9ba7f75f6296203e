/** The effect of VecTree::erase_branch_at_index on the node vector, in closed form,
    and the proof that it keeps the forest well formed and removes exactly the
    branch. */
module TreeErase {
  import opened TreeForest

  /** Subtraction on the source's unsigned 32-bit node fields (wraps below zero). */
  function UnsignedSub(a: nat, d: nat): nat
  {
    if a >= d then a - d else (a - d) % 0x1_0000_0000
  }

  /** Where a surviving old index (or old branch end) k lands once the b nodes from i on
      are removed. */
  function Drop(i: nat, b: nat, k: nat): nat
  {
    if k <= i then k else if k >= b then k - b else 0
  }

  /** Node k lies outside the branch rooted at i. */
  predicate Survives<P>(s: seq<TreeNode<P>>, i: nat, k: nat)
    requires i < |s|
  {
    k < i || i + s[i].branchStride <= k
  }

  /** Index of the node whose counts erase adjusts: the parent of i, or i itself for a
      root. */
  function Anchor<P>(s: seq<TreeNode<P>>, i: nat): nat
    requires WellFormed(s) && i < |s|
  {
    assert ParentAt(s, i);
    i - s[i].parentOfs
  }

  /** Old node k after the fix-up loops of erase: branches reaching the anchor shrink
      by the branch size, offsets of later nodes that reach back to the anchor or
      before shrink by it, and the anchor loses a child. */
  function Trimmed<P>(s: seq<TreeNode<P>>, i: nat, k: nat): TreeNode<P>
    requires WellFormed(s) && i < |s| && k < |s|
  {
    var b := s[i].branchStride;
    var a := Anchor(s, i);
    var n := s[k];
    TreeNode(
      if k == a then UnsignedSub(n.nbrChildren, 1) else n.nbrChildren,
      if k <= a < k + n.branchStride then UnsignedSub(n.branchStride, b) else n.branchStride,
      if i + b <= k && n.parentOfs >= k - a then UnsignedSub(n.parentOfs, b) else n.parentOfs,
      n.payload)
  }

  /** The node vector after erasing the branch rooted at i. */
  function Erased<P>(s: seq<TreeNode<P>>, i: nat): (t: seq<TreeNode<P>>)
    requires WellFormed(s) && i < |s|
    ensures |t| == |s| - s[i].branchStride
  {
    var b := s[i].branchStride;
    seq(|s| - b, j requires 0 <= j < |s| - b =>
      if j < i then Trimmed(s, i, j) else Trimmed(s, i, j + b))
  }

  /** Entry j of the erased vector is the old node it was packed from. */
  lemma ErasedIndex<P>(s: seq<TreeNode<P>>, i: nat, j: nat)
    requires WellFormed(s) && i < |s| && j < |s| - s[i].branchStride
    ensures var k := if j < i then j else j + s[i].branchStride;
      k < |s| && Erased(s, i)[j] == Trimmed(s, i, k)
  {
  }

  /** t holds exactly the survivors of s, packed together and fixed up as Trimmed says. */
  ghost predicate ErasedShape<P>(s: seq<TreeNode<P>>, i: nat, t: seq<TreeNode<P>>)
    requires WellFormed(s) && i < |s|
  {
    && |t| == |s| - s[i].branchStride
    && forall k {:trigger Trimmed(s, i, k)} :: 0 <= k < |s| && Survives(s, i, k) ==>
         Drop(i, s[i].branchStride, k) < |t| && t[Drop(i, s[i].branchStride, k)] == Trimmed(s, i, k)
  }

  lemma ErasedHasShape<P>(s: seq<TreeNode<P>>, i: nat)
    requires WellFormed(s) && i < |s|
    ensures ErasedShape(s, i, Erased(s, i))
  {
    var b := s[i].branchStride;
    var t := Erased(s, i);
    forall k | 0 <= k < |s| && Survives(s, i, k)
      ensures Drop(i, b, k) < |t| && t[Drop(i, b, k)] == Trimmed(s, i, k)
    {
      if k < i {
        assert t[k] == Trimmed(s, i, k);
      } else {
        assert Drop(i, b, k) == k - b && t[k - b] == Trimmed(s, i, k);
      }
    }
  }

  /** A survivor k lands at Drop(i, b, k). */
  lemma ErasedAt<P>(s: seq<TreeNode<P>>, i: nat, t: seq<TreeNode<P>>, k: nat)
    requires WellFormed(s) && i < |s| && ErasedShape(s, i, t) && k < |s| && Survives(s, i, k)
    ensures var a := Drop(i, s[i].branchStride, k); a < |t| && t[a] == Trimmed(s, i, k)
  {
  }

  /** Every index of the new vector is the image of a surviving old one. */
  lemma Covered<P>(s: seq<TreeNode<P>>, i: nat, a: nat)
    requires i < |s| && 1 <= s[i].branchStride
    ensures var k := if a < i then a else a + s[i].branchStride;
      Survives(s, i, k) && Drop(i, s[i].branchStride, k) == a
  {
  }

  // ---------------------------------------------------------------------------
  // Index-level correspondence between s and the erased vector t

  /** A survivor's branch ends before the erased branch or after it, and the end moves
      with the survivors. */
  lemma ErasedEnd<P>(s: seq<TreeNode<P>>, i: nat, t: seq<TreeNode<P>>, k: nat)
    requires WellFormed(s) && i < |s| && ErasedShape(s, i, t) && k < |s| && Survives(s, i, k)
    ensures var b := s[i].branchStride;
      && (End(s, k) <= i || i + b <= End(s, k))
      && Drop(i, b, k) < |t|
      && End(t, Drop(i, b, k)) == Drop(i, b, End(s, k))
  {
    ErasedAt(s, i, t, k);
    assert ParentAt(s, i);
    if k < i && i < End(s, k) {
      EnclosingIsAtOrBeforeParent(s, k, i);
      ParentEncloses(s, i);
    } else if k < i && k <= Anchor(s, i) < End(s, k) {
      ParentEncloses(s, i);
    }
  }

  lemma ErasedEncloses<P>(s: seq<TreeNode<P>>, i: nat, t: seq<TreeNode<P>>, j: nat, k: nat)
    requires WellFormed(s) && i < |s| && ErasedShape(s, i, t)
    requires j < |s| && k < |s| && Survives(s, i, j) && Survives(s, i, k)
    ensures var b := s[i].branchStride;
      Encloses(t, Drop(i, b, j), Drop(i, b, k)) <==> Encloses(s, j, k)
  {
    ErasedEnd(s, i, t, j);
  }

  /** The parent of a surviving non-root survives; a later survivor whose parent lies
      before the erased branch hangs at or above the anchor. */
  lemma ParentSurvives<P>(s: seq<TreeNode<P>>, i: nat, k: nat)
    requires WellFormed(s) && i < |s| && k < |s| && Survives(s, i, k) && s[k].parentOfs > 0
    ensures s[k].parentOfs <= k && Survives(s, i, Parent(s, k))
    ensures i + s[i].branchStride <= k && Parent(s, k) < i ==>
      0 < s[i].parentOfs && Parent(s, k) <= Anchor(s, i)
  {
    ParentEncloses(s, k);
    var q := Parent(s, k);
    if q != i && i <= q < i + s[i].branchStride {
      assert Encloses(s, i, q);
    }
    if i + s[i].branchStride <= k && q < i {
      assert Encloses(s, q, i);
      EnclosingIsAtOrBeforeParent(s, q, i);
    }
  }

  /** Survivors keep their root status, and their parent is the image of the old
      parent. */
  lemma ErasedParentIndex<P>(s: seq<TreeNode<P>>, i: nat, t: seq<TreeNode<P>>, k: nat)
    requires WellFormed(s) && i < |s| && ErasedShape(s, i, t) && k < |s| && Survives(s, i, k)
    ensures var b := s[i].branchStride; var a := Drop(i, b, k);
      && s[k].parentOfs <= k
      && a < |t|
      && (t[a].parentOfs == 0 <==> s[k].parentOfs == 0)
      && t[a].parentOfs <= a
      && (s[k].parentOfs > 0 ==> Survives(s, i, Parent(s, k)) && a - t[a].parentOfs == Drop(i, b, Parent(s, k)))
  {
    ErasedAt(s, i, t, k);
    assert ParentAt(s, k);
    if s[k].parentOfs > 0 {
      ParentSurvives(s, i, k);
    } else if i + s[i].branchStride <= k {
      assert ParentAt(s, i);
    }
  }

  // ---------------------------------------------------------------------------
  // Well-formedness, conjunct by conjunct

  lemma ErasedBounds<P>(s: seq<TreeNode<P>>, i: nat, t: seq<TreeNode<P>>)
    requires WellFormed(s) && i < |s| && ErasedShape(s, i, t)
    ensures Bounds(t)
  {
    forall a | 0 <= a < |t|
      ensures 1 <= t[a].branchStride && a + t[a].branchStride <= |t|
    {
      Covered(s, i, a);
      ErasedEnd(s, i, t, if a < i then a else a + s[i].branchStride);
    }
  }

  lemma ErasedLaminarAt<P>(s: seq<TreeNode<P>>, i: nat, t: seq<TreeNode<P>>, a: nat, c: nat)
    requires WellFormed(s) && i < |s| && ErasedShape(s, i, t) && c < |t| && Encloses(t, a, c)
    ensures End(t, c) <= End(t, a)
  {
    var b := s[i].branchStride;
    var j := if a < i then a else a + b;
    var k := if c < i then c else c + b;
    Covered(s, i, a);
    Covered(s, i, c);
    ErasedEnd(s, i, t, j);
    ErasedEnd(s, i, t, k);
    ErasedEncloses(s, i, t, j, k);
  }

  lemma ErasedLaminar<P>(s: seq<TreeNode<P>>, i: nat, t: seq<TreeNode<P>>)
    requires WellFormed(s) && i < |s| && ErasedShape(s, i, t)
    ensures Laminar(t)
  {
    forall a: nat, c: nat | Encloses(t, a, c) && c < |t|
      ensures c + t[c].branchStride <= a + t[a].branchStride
    {
      ErasedLaminarAt(s, i, t, a, c);
    }
  }

  lemma ErasedParentAt<P>(s: seq<TreeNode<P>>, i: nat, t: seq<TreeNode<P>>, k: nat)
    requires WellFormed(s) && i < |s| && ErasedShape(s, i, t) && k < |s| && Survives(s, i, k)
    ensures ParentAt(t, Drop(i, s[i].branchStride, k))
  {
    var b := s[i].branchStride;
    var a := Drop(i, b, k);
    ErasedParentIndex(s, i, t, k);
    forall c: nat | c < a && Encloses(t, c, a)
      ensures s[k].parentOfs > 0 && c <= a - t[a].parentOfs
    {
      var j := if c < i then c else c + b;
      Covered(s, i, c);
      ErasedEncloses(s, i, t, j, k);
      EnclosingIsAtOrBeforeParent(s, j, k);
    }
    if s[k].parentOfs > 0 {
      ParentEncloses(s, k);
      ErasedEncloses(s, i, t, Parent(s, k), k);
    }
  }

  lemma ErasedParentOk<P>(s: seq<TreeNode<P>>, i: nat, t: seq<TreeNode<P>>)
    requires WellFormed(s) && i < |s| && ErasedShape(s, i, t)
    ensures ParentOk(t)
  {
    forall a | 0 <= a < |t|
      ensures ParentAt(t, a)
    {
      Covered(s, i, a);
      ErasedParentAt(s, i, t, if a < i then a else a + s[i].branchStride);
    }
  }

  /** A chain over the old vector between positions outside the erased branch maps to
      a chain over the new vector that lacks exactly the erased root. */
  lemma {:induction false} ErasedChainLength<P>(s: seq<TreeNode<P>>, i: nat, t: seq<TreeNode<P>>, c: nat, e: nat)
    requires WellFormed(s) && i < |s| && ErasedShape(s, i, t) && e <= |s|
    requires c <= i || i + s[i].branchStride <= c
    requires e <= i || i + s[i].branchStride <= e
    ensures var b := s[i].branchStride;
      |Chain(t, Drop(i, b, c), Drop(i, b, e))| == |Chain(s, c, e)| - (if i in Chain(s, c, e) then 1 else 0)
    decreases e - c
  {
    var b := s[i].branchStride;
    if c < e {
      if c == i {
        ErasedChainLength(s, i, t, i + b, e);
        ErasedChainAtRoot(s, i, e);
        assert Drop(i, b, i + b) == Drop(i, b, c);
      } else {
        ErasedChainStep(s, i, t, c, e);
        ErasedChainLength(s, i, t, End(s, c), e);
      }
    } else {
      assert Drop(i, b, c) >= Drop(i, b, e);
    }
  }

  /** At the erased root the old chain takes one step that the new one does not. */
  lemma ErasedChainAtRoot<P>(s: seq<TreeNode<P>>, i: nat, e: nat)
    requires Bounds(s) && i < e <= |s|
    ensures Chain(s, i, e) == [i] + Chain(s, i + s[i].branchStride, e)
    ensures i !in Chain(s, i + s[i].branchStride, e)
  {
    ChainFrom(s, i + s[i].branchStride, e, i);
  }

  /** Away from the erased root both chains take the same step. */
  lemma ErasedChainStep<P>(s: seq<TreeNode<P>>, i: nat, t: seq<TreeNode<P>>, c: nat, e: nat)
    requires WellFormed(s) && i < |s| && ErasedShape(s, i, t)
    requires c < e <= |s| && c != i && Survives(s, i, c)
    requires e <= i || i + s[i].branchStride <= e
    ensures var b := s[i].branchStride;
      && (End(s, c) <= i || i + b <= End(s, c))
      && Chain(s, c, e) == [c] + Chain(s, End(s, c), e)
      && Chain(t, Drop(i, b, c), Drop(i, b, e)) == [Drop(i, b, c)] + Chain(t, Drop(i, b, End(s, c)), Drop(i, b, e))
      && (i in Chain(s, c, e) <==> i in Chain(s, End(s, c), e))
  {
    var b := s[i].branchStride;
    ErasedEnd(s, i, t, c);
    ErasedAt(s, i, t, c);
    var a := Drop(i, b, c);
    assert 1 <= s[c].branchStride;
    ChainStep(s, c, e);
    ChainStep(t, a, Drop(i, b, e));
  }

  /** A chain never returns below its start. */
  lemma {:induction false} ChainFrom<P>(s: seq<TreeNode<P>>, c: nat, e: nat, k: nat)
    requires k < c
    ensures k !in Chain(s, c, e)
    decreases e - c
  {
    if c < e && c < |s| {
      ChainFrom(s, c + (if s[c].branchStride == 0 then 1 else s[c].branchStride), e, k);
    }
  }

  /** The erased root is in the children chain of survivor k exactly when k is the
      anchor of a non-root. */
  lemma ErasedRootInChain<P>(s: seq<TreeNode<P>>, i: nat, k: nat)
    requires WellFormed(s) && i < |s| && k < |s| && Survives(s, i, k)
    ensures i in Chain(s, k + 1, End(s, k)) <==> k == Anchor(s, i)
  {
    ChildrenAreChain(s, k, i);
    assert ParentAt(s, i);
  }

  /** The children chain of a survivor loses exactly the erased root, when that was
      one of its children. */
  lemma ErasedChildChain<P>(s: seq<TreeNode<P>>, i: nat, t: seq<TreeNode<P>>, k: nat)
    requires WellFormed(s) && i < |s| && ErasedShape(s, i, t) && k < |s| && Survives(s, i, k)
    ensures var a := Drop(i, s[i].branchStride, k);
      a < |t| &&
      |Chain(t, a + 1, End(t, a))| == |Chain(s, k + 1, End(s, k))| - (if k == Anchor(s, i) then 1 else 0)
  {
    var b := s[i].branchStride;
    ErasedEnd(s, i, t, k);
    assert Drop(i, b, k) + 1 == Drop(i, b, k + 1);
    ErasedChainLength(s, i, t, k + 1, End(s, k));
    ErasedRootInChain(s, i, k);
  }

  lemma ErasedCountAt<P>(s: seq<TreeNode<P>>, i: nat, t: seq<TreeNode<P>>, k: nat)
    requires WellFormed(s) && i < |s| && ErasedShape(s, i, t) && k < |s| && Survives(s, i, k)
    ensures CountAt(t, Drop(i, s[i].branchStride, k))
  {
    assert CountAt(s, k);
    ErasedAt(s, i, t, k);
    ErasedChildChain(s, i, t, k);
  }

  lemma ErasedChildCounts<P>(s: seq<TreeNode<P>>, i: nat, t: seq<TreeNode<P>>)
    requires WellFormed(s) && i < |s| && ErasedShape(s, i, t)
    ensures ChildCounts(t)
  {
    forall a | 0 <= a < |t|
      ensures CountAt(t, a)
    {
      Covered(s, i, a);
      ErasedCountAt(s, i, t, if a < i then a else a + s[i].branchStride);
    }
  }

  /** erase keeps the forest invariant. */
  lemma ErasedWellFormed<P>(s: seq<TreeNode<P>>, i: nat)
    requires WellFormed(s) && i < |s|
    ensures WellFormed(Erased(s, i))
  {
    var t := Erased(s, i);
    ErasedHasShape(s, i);
    ErasedBounds(s, i, t);
    ErasedLaminar(s, i, t);
    ErasedParentOk(s, i, t);
    ErasedChildCounts(s, i, t);
  }

  // ---------------------------------------------------------------------------
  // Payload level

  /** The payloads of the branch rooted at i. */
  ghost function BranchPayloads<P>(s: seq<TreeNode<P>>, i: nat): set<P>
    requires i < |s|
  {
    set k | i <= k < |s| && k < i + s[i].branchStride :: s[k].payload
  }

  /** With distinct payloads, no survivor carries a payload of the erased branch. */
  lemma SurvivorNotInBranch<P>(s: seq<TreeNode<P>>, i: nat, k: nat)
    requires Unique(s) && i < |s| && k < |s| && Survives(s, i, k)
    ensures s[k].payload !in BranchPayloads(s, i)
  {
    forall m | i <= m < |s| && m < i + s[i].branchStride
      ensures s[m].payload != s[k].payload
    {
      assert m != k;
    }
  }

  lemma ErasedPayloadsKept<P>(s: seq<TreeNode<P>>, i: nat, t: seq<TreeNode<P>>, k: nat)
    requires WellFormed(s) && i < |s| && ErasedShape(s, i, t)
    requires k < |s| && s[k].payload !in BranchPayloads(s, i)
    ensures s[k].payload in Payloads(t)
  {
    assert Survives(s, i, k);
    ErasedAt(s, i, t, k);
  }

  lemma ErasedPayloadsFrom<P>(s: seq<TreeNode<P>>, i: nat, t: seq<TreeNode<P>>, a: nat)
    requires WellFormed(s) && Unique(s) && i < |s| && ErasedShape(s, i, t) && a < |t|
    ensures t[a].payload in Payloads(s) - BranchPayloads(s, i)
  {
    Covered(s, i, a);
    var k := if a < i then a else a + s[i].branchStride;
    ErasedAt(s, i, t, k);
    SurvivorNotInBranch(s, i, k);
  }

  lemma ErasedPayloads<P>(s: seq<TreeNode<P>>, i: nat, t: seq<TreeNode<P>>)
    requires WellFormed(s) && Unique(s) && i < |s| && ErasedShape(s, i, t)
    ensures Payloads(t) == Payloads(s) - BranchPayloads(s, i)
  {
    forall y | y in Payloads(s) - BranchPayloads(s, i)
      ensures y in Payloads(t)
    {
      var k :| 0 <= k < |s| && s[k].payload == y;
      ErasedPayloadsKept(s, i, t, k);
    }
    forall y | y in Payloads(t)
      ensures y in Payloads(s) - BranchPayloads(s, i)
    {
      var a :| 0 <= a < |t| && t[a].payload == y;
      ErasedPayloadsFrom(s, i, t, a);
    }
  }

  lemma ErasedUnique<P>(s: seq<TreeNode<P>>, i: nat, t: seq<TreeNode<P>>)
    requires WellFormed(s) && Unique(s) && i < |s| && ErasedShape(s, i, t)
    ensures Unique(t)
  {
    var b := s[i].branchStride;
    forall a, c | 0 <= a < c < |t|
      ensures t[a].payload != t[c].payload
    {
      Covered(s, i, a);
      Covered(s, i, c);
      var j := if a < i then a else a + b;
      var k := if c < i then c else c + b;
      ErasedAt(s, i, t, j);
      ErasedAt(s, i, t, k);
      assert j < k;
    }
  }

  lemma ErasedParentOfSurvivor<P>(s: seq<TreeNode<P>>, i: nat, t: seq<TreeNode<P>>, k: nat)
    requires WellFormed(s) && Unique(s) && i < |s| && ErasedShape(s, i, t) && Unique(t)
    requires k < |s| && Survives(s, i, k)
    ensures ParentOf(t, s[k].payload) == ParentOf(s, s[k].payload)
  {
    var b := s[i].branchStride;
    ErasedAt(s, i, t, k);
    UniqueFirstIndex(s, k);
    ParentOfAt(s, k);
    UniqueFirstIndex(t, Drop(i, b, k));
    ParentOfAt(t, Drop(i, b, k));
    ErasedParentIndex(s, i, t, k);
    if s[k].parentOfs > 0 {
      ErasedAt(s, i, t, Parent(s, k));
    }
  }

  /** erase drops the branch's payloads and leaves every other payload's parent alone. */
  lemma ErasedParentOf<P>(s: seq<TreeNode<P>>, i: nat, y: P)
    requires WellFormed(s) && Unique(s) && i < |s|
    ensures Unique(Erased(s, i))
    ensures Payloads(Erased(s, i)) == Payloads(s) - BranchPayloads(s, i)
    ensures ParentOf(Erased(s, i), y) == if y in BranchPayloads(s, i) then None else ParentOf(s, y)
  {
    var t := Erased(s, i);
    ErasedHasShape(s, i);
    ErasedUnique(s, i, t);
    ErasedPayloads(s, i, t);
    if y in Payloads(t) {
      var k :| 0 <= k < |s| && s[k].payload == y && Survives(s, i, k);
      ErasedParentOfSurvivor(s, i, t, k);
    } else {
      Absent(t, y);
      if y !in BranchPayloads(s, i) {
        Absent(s, y);
      }
    }
  }

  // ---------------------------------------------------------------------------
  // Progress of the two fix-up walks of erase. The walks only need the anchor a, the
  // erased branch size b and the end e of the erased branch.

  /** Old node k once the backward walk has handled [lo, a] and the forward walk
      [e, hi). */
  function PartTrimmed<P>(s: seq<TreeNode<P>>, a: nat, b: nat, e: nat, lo: nat, hi: nat, k: nat): TreeNode<P>
    requires k < |s|
  {
    var n := s[k];
    TreeNode(
      n.nbrChildren,
      if lo <= k <= a && n.branchStride > a - k then UnsignedSub(n.branchStride, b) else n.branchStride,
      if e <= k < hi && n.parentOfs >= k - a then UnsignedSub(n.parentOfs, b) else n.parentOfs,
      n.payload)
  }

  /** The whole vector part way through the walks. */
  function TrimmedPart<P>(s: seq<TreeNode<P>>, a: nat, b: nat, e: nat, lo: nat, hi: nat): (t: seq<TreeNode<P>>)
    ensures |t| == |s|
  {
    seq(|s|, k requires 0 <= k < |s| => PartTrimmed(s, a, b, e, lo, hi, k))
  }

  /** Before either walk nothing has changed. */
  lemma TrimmedNone<P>(s: seq<TreeNode<P>>, a: nat, b: nat, e: nat)
    ensures TrimmedPart(s, a, b, e, a + 1, e) == s
  {
  }

  /** One step of the backward walk at k. */
  lemma TrimStrideStep<P>(s: seq<TreeNode<P>>, a: nat, b: nat, e: nat, k: nat)
    requires k <= a < |s|
    ensures var t := TrimmedPart(s, a, b, e, k + 1, e);
      && t[k] == s[k]
      && TrimmedPart(s, a, b, e, k, e) ==
           if t[k].branchStride > a - k then t[k := t[k].(branchStride := UnsignedSub(t[k].branchStride, b))] else t
  {
  }

  /** One step of the forward walk at f. */
  lemma TrimOffsetStep<P>(s: seq<TreeNode<P>>, a: nat, b: nat, e: nat, f: nat)
    requires a < e <= f < |s|
    ensures var t := TrimmedPart(s, a, b, e, 0, f);
      && t[f] == s[f]
      && TrimmedPart(s, a, b, e, 0, f + 1) ==
           if t[f].parentOfs >= f - a then t[f := t[f].(parentOfs := UnsignedSub(t[f].parentOfs, b))] else t
  {
  }

  /** The backward walk may stop at the root above the anchor. */
  lemma TrimBelowRoot<P>(s: seq<TreeNode<P>>, a: nat, b: nat, e: nat, r: nat, hi: nat)
    requires WellFormed(s) && r <= a < |s| && s[r].parentOfs == 0
    ensures TrimmedPart(s, a, b, e, r, hi) == TrimmedPart(s, a, b, e, 0, hi)
  {
    forall k | 0 <= k < r
      ensures PartTrimmed(s, a, b, e, r, hi, k) == PartTrimmed(s, a, b, e, 0, hi, k)
    {
      BeforeRoot(s, r, k);
    }
  }

  /** The forward walk may stop at the next root. */
  lemma TrimAfterRoot<P>(s: seq<TreeNode<P>>, a: nat, b: nat, e: nat, r: nat)
    requires WellFormed(s) && a < r < |s| && s[r].parentOfs == 0
    ensures TrimmedPart(s, a, b, e, 0, r) == TrimmedPart(s, a, b, e, 0, |s|)
  {
    forall k | r <= k < |s| && s[k].parentOfs > 0
      ensures s[k].parentOfs < k - a
    {
      AfterRoot(s, r, k);
    }
    assert forall k :: 0 <= k < |s| ==> PartTrimmed(s, a, b, e, 0, r, k) == PartTrimmed(s, a, b, e, 0, |s|, k);
  }

  /** The backward walk of erase from k towards the root, as the loop performs it. */
  function TrimStrideWalk<P>(t: seq<TreeNode<P>>, a: nat, b: nat, k: nat): (u: seq<TreeNode<P>>)
    requires k <= a < |t|
    ensures |u| == |t|
    decreases k
  {
    var t' := if t[k].branchStride > a - k then t[k := t[k].(branchStride := UnsignedSub(t[k].branchStride, b))] else t;
    if t[k].parentOfs == 0 || k == 0 then t' else TrimStrideWalk(t', a, b, k - 1)
  }

  /** The forward walk of erase from f, as the loop performs it. */
  function TrimOffsetWalk<P>(t: seq<TreeNode<P>>, a: nat, b: nat, f: nat): (u: seq<TreeNode<P>>)
    requires f <= |t|
    ensures |u| == |t|
    decreases |t| - f
  {
    if f == |t| || t[f].parentOfs == 0 then t
    else TrimOffsetWalk(if t[f].parentOfs >= f - a then t[f := t[f].(parentOfs := UnsignedSub(t[f].parentOfs, b))] else t, a, b, f + 1)
  }

  /** The backward walk adjusts exactly the strides that reach the anchor. */
  lemma {:induction false} TrimStrideWalkTrims<P>(s: seq<TreeNode<P>>, a: nat, b: nat, e: nat, k: nat)
    requires WellFormed(s) && k <= a < |s|
    ensures TrimStrideWalk(TrimmedPart(s, a, b, e, k + 1, e), a, b, k) == TrimmedPart(s, a, b, e, 0, e)
    decreases k
  {
    TrimStrideStep(s, a, b, e, k);
    if s[k].parentOfs == 0 {
      TrimBelowRoot(s, a, b, e, k, e);
    } else if k > 0 {
      TrimStrideWalkTrims(s, a, b, e, k - 1);
    }
  }

  /** The forward walk adjusts exactly the offsets that reach back to the anchor. */
  lemma {:induction false} TrimOffsetWalkTrims<P>(s: seq<TreeNode<P>>, a: nat, b: nat, e: nat, f: nat)
    requires WellFormed(s) && a < e <= f <= |s|
    ensures TrimOffsetWalk(TrimmedPart(s, a, b, e, 0, f), a, b, f) == TrimmedPart(s, a, b, e, 0, |s|)
    decreases |s| - f
  {
    if f < |s| {
      if s[f].parentOfs == 0 {
        TrimAfterRoot(s, a, b, e, f);
      } else {
        TrimOffsetStep(s, a, b, e, f);
        TrimOffsetWalkTrims(s, a, b, e, f + 1);
      }
    }
  }

  /** After both walks, lowering the anchor's child count and cutting out the branch
      gives Erased. */
  lemma TrimmedSplice<P>(s: seq<TreeNode<P>>, i: nat, t: seq<TreeNode<P>>, u: seq<TreeNode<P>>)
    requires WellFormed(s) && i < |s|
    requires t == TrimmedPart(s, Anchor(s, i), s[i].branchStride, i + s[i].branchStride, 0, |s|)
    requires u == t[Anchor(s, i) := t[Anchor(s, i)].(nbrChildren := UnsignedSub(t[Anchor(s, i)].nbrChildren, 1))]
    ensures u[..i] + u[i + s[i].branchStride..] == Erased(s, i)
  {
    var b := s[i].branchStride;
    var a := Anchor(s, i);
    var v := u[..i] + u[i + b..];
    forall j | 0 <= j < |v|
      ensures v[j] == Erased(s, i)[j]
    {
      var k := if j < i then j else j + b;
      ErasedIndex(s, i, j);
      assert v[j] == u[k];
      assert t[k] == PartTrimmed(s, a, b, i + b, 0, |s|, k);
      TrimmedNode(s, i, k);
    }
  }

  /** Once both walks are done and the anchor has lost a child, node k is as Trimmed
      says. */
  lemma TrimmedNode<P>(s: seq<TreeNode<P>>, i: nat, k: nat)
    requires WellFormed(s) && i < |s| && k < |s|
    ensures var a := Anchor(s, i); var b := s[i].branchStride;
      var n := PartTrimmed(s, a, b, i + b, 0, |s|, k);
      (if k == a then n.(nbrChildren := UnsignedSub(n.nbrChildren, 1)) else n) == Trimmed(s, i, k)
  {
  }
}
