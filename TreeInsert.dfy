/** The effect of VecTree::insert on the node vector, in closed form, and the proof
    that it keeps the forest well formed and hangs exactly one new node under the
    parent. */
module TreeInsert {
  import opened TreeForest

  /** Where old index k (or old branch end k) lands once a node is inserted at p + 1. */
  function Shift(p: nat, k: nat): nat
  {
    if k <= p then k else k + 1
  }

  /** Old node k after the two fix-up loops of insert and the parent's child count
      increment: strides of branches reaching p grow by one, and offsets that reach
      back to p or before grow by one. */
  function Lifted<P>(s: seq<TreeNode<P>>, p: nat, k: nat): TreeNode<P>
    requires k < |s|
  {
    var n := s[k];
    TreeNode(
      if k == p then n.nbrChildren + 1 else n.nbrChildren,
      if k <= p < k + n.branchStride then n.branchStride + 1 else n.branchStride,
      if k > p && n.parentOfs >= k - p then n.parentOfs + 1 else n.parentOfs,
      n.payload)
  }

  /** The node vector after inserting payload x as the first child of node p. */
  function Inserted<P>(s: seq<TreeNode<P>>, p: nat, x: P): (t: seq<TreeNode<P>>)
    requires p < |s|
    ensures |t| == |s| + 1
    ensures t[p + 1] == TreeNode(0, 1, 1, x)
  {
    seq(|s| + 1, j requires 0 <= j <= |s| =>
      if j <= p then Lifted(s, p, j)
      else if j == p + 1 then TreeNode(0, 1, 1, x)
      else Lifted(s, p, j - 1))
  }

  /** The node vector after insert(x, q): x under the first node carrying q, or no
      change when no node carries q. */
  function InsertedUnder<P(==)>(s: seq<TreeNode<P>>, x: P, q: P): seq<TreeNode<P>>
  {
    match FirstIndex(s, q)
    case None => s
    case Some(p) => Inserted(s, p, x)
  }

  // ---------------------------------------------------------------------------
  // Index-level correspondence between s and Inserted(s, p, x)

  /** Old node k lands at Shift(p, k), fixed up as Lifted says. */
  lemma InsertedAt<P>(s: seq<TreeNode<P>>, p: nat, x: P, k: nat)
    requires p < |s| && k < |s|
    ensures Shift(p, k) < |Inserted(s, p, x)| && Inserted(s, p, x)[Shift(p, k)] == Lifted(s, p, k)
  {
  }

  lemma InsertedEnd<P>(s: seq<TreeNode<P>>, p: nat, x: P, k: nat)
    requires Bounds(s) && p < |s| && k < |s|
    ensures Shift(p, k) < |Inserted(s, p, x)|
    ensures End(Inserted(s, p, x), Shift(p, k)) == Shift(p, End(s, k))
  {
    InsertedAt(s, p, x, k);
  }

  lemma InsertedEncloses<P>(s: seq<TreeNode<P>>, p: nat, x: P, j: nat, k: nat)
    requires Bounds(s) && p < |s| && j < |s| && k < |s|
    ensures Encloses(Inserted(s, p, x), Shift(p, j), Shift(p, k)) <==> Encloses(s, j, k)
  {
    InsertedEnd(s, p, x, j);
  }

  /** The new node encloses nothing, and is enclosed exactly by the nodes whose branch
      contains p. */
  lemma NewNodeEnclosure<P>(s: seq<TreeNode<P>>, p: nat, x: P, a: nat)
    requires Bounds(s) && p < |s|
    ensures !Encloses(Inserted(s, p, x), p + 1, a)
    ensures Encloses(Inserted(s, p, x), a, p + 1) <==> a <= p && Spans(s, a, p)
  {
    var t := Inserted(s, p, x);
    if a <= p {
      InsertedEnd(s, p, x, a);
    } else if a > p + 1 && a < |t| {
      InsertedEnd(s, p, x, a - 1);
    }
  }

  /** Every index of the new vector is the new node or the image of an old one. */
  lemma Covered(p: nat, a: nat)
    requires a != p + 1
    ensures var k := if a <= p then a else a - 1; k >= 0 && Shift(p, k) == a
  {
  }

  // ---------------------------------------------------------------------------
  // Well-formedness, conjunct by conjunct

  lemma InsertedBounds<P>(s: seq<TreeNode<P>>, p: nat, x: P)
    requires WellFormed(s) && p < |s|
    ensures Bounds(Inserted(s, p, x))
  {
    var t := Inserted(s, p, x);
    forall a | 0 <= a < |t|
      ensures 1 <= t[a].branchStride && a + t[a].branchStride <= |t|
    {
      if a != p + 1 {
        var k := if a <= p then a else a - 1;
        Covered(p, a);
        InsertedEnd(s, p, x, k);
      }
    }
  }

  lemma InsertedLaminar<P>(s: seq<TreeNode<P>>, p: nat, x: P)
    requires WellFormed(s) && p < |s|
    ensures Laminar(Inserted(s, p, x))
  {
    var t := Inserted(s, p, x);
    forall a: nat, b: nat | Encloses(t, a, b) && b < |t|
      ensures b + t[b].branchStride <= a + t[a].branchStride
    {
      NewNodeEnclosure(s, p, x, a);
      NewNodeEnclosure(s, p, x, b);
      var j := if a <= p then a else a - 1;
      Covered(p, a);
      InsertedEnd(s, p, x, j);
      if b != p + 1 {
        var k := if b <= p then b else b - 1;
        Covered(p, b);
        InsertedEnd(s, p, x, k);
        InsertedEncloses(s, p, x, j, k);
      }
    }
  }

  /** Old nodes keep their root status, and their parent is the image of the old parent. */
  lemma InsertedParentIndex<P>(s: seq<TreeNode<P>>, p: nat, x: P, k: nat)
    requires WellFormed(s) && p < |s| && k < |s|
    ensures var t := Inserted(s, p, x); var a := Shift(p, k);
      && s[k].parentOfs <= k
      && (t[a].parentOfs == 0 <==> s[k].parentOfs == 0)
      && t[a].parentOfs <= a
      && (s[k].parentOfs > 0 ==> a - t[a].parentOfs == Shift(p, Parent(s, k)))
  {
    InsertedAt(s, p, x, k);
    assert ParentAt(s, k);
  }

  lemma InsertedParentAtOld<P>(s: seq<TreeNode<P>>, p: nat, x: P, k: nat)
    requires WellFormed(s) && p < |s| && k < |s|
    ensures ParentAt(Inserted(s, p, x), Shift(p, k))
  {
    var t := Inserted(s, p, x);
    var a := Shift(p, k);
    assert ParentAt(s, k);
    InsertedParentIndex(s, p, x, k);
    var o := s[k].parentOfs;
    forall b: nat | b < a && Encloses(t, b, a)
      ensures o > 0 && b <= a - t[a].parentOfs
    {
      NewNodeEnclosure(s, p, x, b);
      var j := if b <= p then b else b - 1;
      Covered(p, b);
      InsertedEncloses(s, p, x, j, k);
      EnclosingIsAtOrBeforeParent(s, j, k);
    }
    if o > 0 {
      var q := k - o;
      InsertedEncloses(s, p, x, q, k);
    }
  }

  lemma InsertedParentOk<P>(s: seq<TreeNode<P>>, p: nat, x: P)
    requires WellFormed(s) && p < |s|
    ensures ParentOk(Inserted(s, p, x))
  {
    var t := Inserted(s, p, x);
    forall a | 0 <= a < |t|
      ensures ParentAt(t, a)
    {
      if a == p + 1 {
        NewNodeEnclosure(s, p, x, p);
      } else {
        Covered(p, a);
        InsertedParentAtOld(s, p, x, if a <= p then a else a - 1);
      }
    }
  }

  /** Chains over the old vector and their images have the same length. */
  lemma {:induction false} InsertedChainLength<P>(s: seq<TreeNode<P>>, p: nat, x: P, c: nat, e: nat)
    requires Bounds(s) && p < |s| && e <= |s|
    ensures |Chain(Inserted(s, p, x), Shift(p, c), Shift(p, e))| == |Chain(s, c, e)|
    decreases e - c
  {
    var t := Inserted(s, p, x);
    if c < e {
      InsertedEnd(s, p, x, c);
      ChainStep(s, c, e);
      ChainStep(t, Shift(p, c), Shift(p, e));
      InsertedChainLength(s, p, x, End(s, c), e);
    } else {
      assert Shift(p, c) >= Shift(p, e);
    }
  }

  lemma InsertedCountAtParent<P>(s: seq<TreeNode<P>>, p: nat, x: P)
    requires WellFormed(s) && p < |s|
    ensures CountAt(Inserted(s, p, x), p)
  {
    var t := Inserted(s, p, x);
    assert CountAt(s, p);
    InsertedEnd(s, p, x, p);
    InsertedChainLength(s, p, x, p + 1, End(s, p));
    assert Chain(t, p + 1, End(t, p)) == [p + 1] + Chain(t, p + 2, End(t, p));
  }

  lemma InsertedCountAtOther<P>(s: seq<TreeNode<P>>, p: nat, x: P, k: nat)
    requires WellFormed(s) && p < |s| && k < |s| && k != p
    ensures CountAt(Inserted(s, p, x), Shift(p, k))
  {
    assert CountAt(s, k);
    InsertedCountFrom(s, p, x, k);
  }

  lemma InsertedCountFrom<P>(s: seq<TreeNode<P>>, p: nat, x: P, k: nat)
    requires Bounds(s) && p < |s| && k < |s| && k != p && CountAt(s, k)
    ensures CountAt(Inserted(s, p, x), Shift(p, k))
  {
    var t := Inserted(s, p, x);
    var a := Shift(p, k);
    InsertedAt(s, p, x, k);
    InsertedEnd(s, p, x, k);
    assert a + 1 == Shift(p, k + 1);
    assert End(t, a) == Shift(p, End(s, k));
    InsertedChainLength(s, p, x, k + 1, End(s, k));
    assert t[a].nbrChildren == s[k].nbrChildren;
  }

  lemma InsertedChildCounts<P>(s: seq<TreeNode<P>>, p: nat, x: P)
    requires WellFormed(s) && p < |s|
    ensures ChildCounts(Inserted(s, p, x))
  {
    var t := Inserted(s, p, x);
    forall a | 0 <= a < |t|
      ensures CountAt(t, a)
    {
      if a == p {
        InsertedCountAtParent(s, p, x);
      } else if a != p + 1 {
        Covered(p, a);
        InsertedCountAtOther(s, p, x, if a <= p then a else a - 1);
      }
    }
  }

  /** insert keeps the forest invariant. */
  lemma InsertedWellFormed<P>(s: seq<TreeNode<P>>, p: nat, x: P)
    requires WellFormed(s) && p < |s|
    ensures WellFormed(Inserted(s, p, x))
  {
    InsertedBounds(s, p, x);
    InsertedLaminar(s, p, x);
    InsertedParentOk(s, p, x);
    InsertedChildCounts(s, p, x);
  }

  // ---------------------------------------------------------------------------
  // Parent relation, index level and payload level

  lemma InsertedPayloads<P>(s: seq<TreeNode<P>>, p: nat, x: P)
    requires p < |s|
    ensures Payloads(Inserted(s, p, x)) == Payloads(s) + {x}
  {
    var t := Inserted(s, p, x);
    forall y | y in Payloads(s) + {x}
      ensures y in Payloads(t)
    {
      if y != x {
        var k :| 0 <= k < |s| && s[k].payload == y;
        InsertedAt(s, p, x, k);
      }
    }
    forall y | y in Payloads(t)
      ensures y in Payloads(s) + {x}
    {
      var a :| 0 <= a < |t| && t[a].payload == y;
      if a != p + 1 {
        Covered(p, a);
        InsertedAt(s, p, x, if a <= p then a else a - 1);
      }
    }
  }

  lemma InsertedUnique<P>(s: seq<TreeNode<P>>, p: nat, x: P)
    requires Unique(s) && p < |s| && x !in Payloads(s)
    ensures Unique(Inserted(s, p, x))
  {
    var t := Inserted(s, p, x);
    forall a, b | 0 <= a < b < |t|
      ensures t[a].payload != t[b].payload
    {
      if a != p + 1 {
        Covered(p, a);
        InsertedAt(s, p, x, if a <= p then a else a - 1);
        assert t[a].payload in Payloads(s);
      }
      if b != p + 1 {
        Covered(p, b);
        InsertedAt(s, p, x, if b <= p then b else b - 1);
        assert t[b].payload in Payloads(s);
      }
    }
  }

  lemma InsertedParentOfOld<P>(s: seq<TreeNode<P>>, p: nat, x: P, k: nat)
    requires WellFormed(s) && Unique(s) && p < |s| && x !in Payloads(s) && k < |s|
    ensures ParentOf(Inserted(s, p, x), s[k].payload) == ParentOf(s, s[k].payload)
  {
    var t := Inserted(s, p, x);
    var a := Shift(p, k);
    InsertedUnique(s, p, x);
    UniqueFirstIndex(s, k);
    ParentOfAt(s, k);
    InsertedAt(s, p, x, k);
    UniqueFirstIndex(t, a);
    ParentOfAt(t, a);
    InsertedParentIndex(s, p, x, k);
    if s[k].parentOfs > 0 {
      InsertedAt(s, p, x, Parent(s, k));
    }
  }

  /** insert hangs x under p's payload and leaves every other payload's parent alone. */
  lemma InsertedParentOf<P>(s: seq<TreeNode<P>>, p: nat, x: P, y: P)
    requires WellFormed(s) && Unique(s) && p < |s| && x !in Payloads(s)
    ensures Unique(Inserted(s, p, x))
    ensures Payloads(Inserted(s, p, x)) == Payloads(s) + {x}
    ensures ParentOf(Inserted(s, p, x), y) == if y == x then Some(s[p].payload) else ParentOf(s, y)
  {
    var t := Inserted(s, p, x);
    InsertedUnique(s, p, x);
    InsertedPayloads(s, p, x);
    if y == x {
      UniqueFirstIndex(t, p + 1);
    } else if y in Payloads(s) {
      var k :| 0 <= k < |s| && s[k].payload == y;
      InsertedParentOfOld(s, p, x, k);
    } else {
      Absent(s, y);
      Absent(t, y);
    }
  }

  // ---------------------------------------------------------------------------
  // Progress of the two fix-up walks of insert

  /** Old node j once the backward walk has handled [lo, p] and the forward walk
      (p, hi). */
  function PartLifted<P>(s: seq<TreeNode<P>>, p: nat, lo: nat, hi: nat, j: nat): TreeNode<P>
    requires j < |s|
  {
    var n := s[j];
    TreeNode(
      n.nbrChildren,
      if lo <= j <= p && n.branchStride > p - j then n.branchStride + 1 else n.branchStride,
      if p < j < hi && n.parentOfs >= j - p then n.parentOfs + 1 else n.parentOfs,
      n.payload)
  }

  /** The whole vector part way through the walks. */
  function LiftedPart<P>(s: seq<TreeNode<P>>, p: nat, lo: nat, hi: nat): (t: seq<TreeNode<P>>)
    ensures |t| == |s|
  {
    seq(|s|, j requires 0 <= j < |s| => PartLifted(s, p, lo, hi, j))
  }

  /** One step of the backward walk at k. */
  lemma LiftStrideStep<P>(s: seq<TreeNode<P>>, p: nat, k: nat)
    requires k <= p < |s|
    ensures var t := LiftedPart(s, p, k + 1, p + 1);
      && t[k] == s[k]
      && LiftedPart(s, p, k, p + 1) == if t[k].branchStride > p - k then t[k := t[k].(branchStride := t[k].branchStride + 1)] else t
  {
  }

  /** One step of the forward walk at f. */
  lemma LiftOffsetStep<P>(s: seq<TreeNode<P>>, p: nat, f: nat)
    requires p < f < |s|
    ensures var t := LiftedPart(s, p, 0, f);
      && t[f] == s[f]
      && LiftedPart(s, p, 0, f + 1) == if t[f].parentOfs >= f - p then t[f := t[f].(parentOfs := t[f].parentOfs + 1)] else t
  {
  }

  /** The backward walk may stop at the root above p: no branch before it reaches p. */
  lemma LiftBelowRoot<P>(s: seq<TreeNode<P>>, p: nat, r: nat, hi: nat)
    requires WellFormed(s) && r <= p < |s| && s[r].parentOfs == 0
    ensures LiftedPart(s, p, r, hi) == LiftedPart(s, p, 0, hi)
  {
    forall j | 0 <= j < r
      ensures PartLifted(s, p, r, hi, j) == PartLifted(s, p, 0, hi, j)
    {
      BeforeRoot(s, r, j);
    }
  }

  /** The forward walk may stop at the next root: no node from there on reaches back
      to p. */
  lemma LiftAfterRoot<P>(s: seq<TreeNode<P>>, p: nat, r: nat)
    requires WellFormed(s) && p < r < |s| && s[r].parentOfs == 0
    ensures LiftedPart(s, p, 0, r) == LiftedPart(s, p, 0, |s|)
  {
    forall j | r <= j < |s| && s[j].parentOfs > 0
      ensures s[j].parentOfs < j - p
    {
      AfterRoot(s, r, j);
    }
    assert forall j :: 0 <= j < |s| ==> PartLifted(s, p, 0, r, j) == PartLifted(s, p, 0, |s|, j);
  }

  /** Before either walk nothing has changed. */
  lemma LiftedNone<P>(s: seq<TreeNode<P>>, p: nat)
    ensures LiftedPart(s, p, p + 1, p + 1) == s
  {
  }

  /** The backward walk of insert from k, as the loop performs it. */
  function StrideWalk<P>(t: seq<TreeNode<P>>, p: nat, k: nat): (u: seq<TreeNode<P>>)
    requires k <= p < |t|
    ensures |u| == |t|
    decreases k
  {
    var t' := if t[k].branchStride > p - k then t[k := t[k].(branchStride := t[k].branchStride + 1)] else t;
    if t[k].parentOfs == 0 || k == 0 then t' else StrideWalk(t', p, k - 1)
  }

  /** The forward walk of insert from f, as the loop performs it. */
  function OffsetWalk<P>(t: seq<TreeNode<P>>, p: nat, f: nat): (u: seq<TreeNode<P>>)
    requires p < f <= |t|
    ensures |u| == |t|
    decreases |t| - f
  {
    if f == |t| || t[f].parentOfs == 0 then t
    else OffsetWalk(if t[f].parentOfs >= f - p then t[f := t[f].(parentOfs := t[f].parentOfs + 1)] else t, p, f + 1)
  }

  /** The backward walk adjusts exactly the strides that reach p. */
  lemma {:induction false} StrideWalkLifts<P>(s: seq<TreeNode<P>>, p: nat, k: nat)
    requires WellFormed(s) && k <= p < |s|
    ensures StrideWalk(LiftedPart(s, p, k + 1, p + 1), p, k) == LiftedPart(s, p, 0, p + 1)
    decreases k
  {
    LiftStrideStep(s, p, k);
    if s[k].parentOfs == 0 {
      LiftBelowRoot(s, p, k, p + 1);
    } else if k > 0 {
      StrideWalkLifts(s, p, k - 1);
    }
  }

  /** The forward walk adjusts exactly the offsets that reach back to p or before. */
  lemma {:induction false} OffsetWalkLifts<P>(s: seq<TreeNode<P>>, p: nat, f: nat)
    requires WellFormed(s) && p < f <= |s|
    ensures OffsetWalk(LiftedPart(s, p, 0, f), p, f) == LiftedPart(s, p, 0, |s|)
    decreases |s| - f
  {
    if f < |s| {
      if s[f].parentOfs == 0 {
        LiftAfterRoot(s, p, f);
      } else {
        LiftOffsetStep(s, p, f);
        OffsetWalkLifts(s, p, f + 1);
      }
    }
  }

  /** After both walks, bumping p's child count and splicing the new node in after p
      gives Inserted. */
  lemma LiftedSplice<P>(s: seq<TreeNode<P>>, p: nat, x: P)
    requires p < |s|
    ensures var t := LiftedPart(s, p, 0, |s|);
      var u := t[p := t[p].(nbrChildren := t[p].nbrChildren + 1)];
      u[..p + 1] + [TreeNode(0, 1, 1, x)] + u[p + 1..] == Inserted(s, p, x)
  {
    var t := LiftedPart(s, p, 0, |s|);
    var u := t[p := t[p].(nbrChildren := t[p].nbrChildren + 1)];
    var v := u[..p + 1] + [TreeNode(0, 1, 1, x)] + u[p + 1..];
    forall j | 0 <= j < |v|
      ensures v[j] == Inserted(s, p, x)[j]
    {
      if j > p + 1 {
        assert v[j] == u[j - 1] == PartLifted(s, p, 0, |s|, j - 1);
        assert Inserted(s, p, x)[j] == Lifted(s, p, j - 1);
      } else if j <= p {
        assert v[j] == u[j];
        assert Inserted(s, p, x)[j] == Lifted(s, p, j);
      }
    }
  }

  // ---------------------------------------------------------------------------
  // insert_as_root: appending a lone root

  /** Appending a node leaves every chain inside the old vector alone. */
  lemma {:induction false} ChainAppend<P>(s: seq<TreeNode<P>>, n: TreeNode<P>, c: nat, e: nat)
    requires e <= |s|
    ensures Chain(s + [n], c, e) == Chain(s, c, e)
    decreases e - c
  {
    if c < e {
      var t := s + [n];
      assert t[c] == s[c];
      ChainAppend(s, n, c + (if s[c].branchStride == 0 then 1 else s[c].branchStride), e);
    }
  }

  /** Inside the old prefix, enclosure is unchanged; nothing encloses the new node. */
  lemma AppendRootEncloses<P>(s: seq<TreeNode<P>>, x: P, j: nat, i: nat)
    requires Bounds(s) && i <= |s|
    ensures Encloses(s + [TreeNode(0, 1, 0, x)], j, i) <==> i < |s| && Encloses(s, j, i)
  {
    var t := s + [TreeNode(0, 1, 0, x)];
    if j < |s| {
      assert t[j] == s[j];
    }
  }

  lemma AppendRootParentAt<P>(s: seq<TreeNode<P>>, x: P, i: nat)
    requires WellFormed(s) && i <= |s|
    ensures ParentAt(s + [TreeNode(0, 1, 0, x)], i)
  {
    var t := s + [TreeNode(0, 1, 0, x)];
    forall j: nat
      ensures Encloses(t, j, i) <==> i < |s| && Encloses(s, j, i)
    {
      AppendRootEncloses(s, x, j, i);
    }
    if i < |s| {
      assert ParentAt(s, i);
      assert t[i] == s[i];
    }
  }

  lemma AppendRootWellFormed<P>(s: seq<TreeNode<P>>, x: P)
    requires WellFormed(s)
    ensures WellFormed(s + [TreeNode(0, 1, 0, x)])
  {
    var n := TreeNode(0, 1, 0, x);
    var t := s + [n];
    forall j: nat, i: nat | Encloses(t, j, i) && i < |t|
      ensures i + t[i].branchStride <= j + t[j].branchStride
    {
      AppendRootEncloses(s, x, j, i);
      assert t[j] == s[j] && t[i] == s[i];
    }
    forall i | 0 <= i < |t|
      ensures ParentAt(t, i)
    {
      AppendRootParentAt(s, x, i);
    }
    forall i | 0 <= i < |t|
      ensures CountAt(t, i)
    {
      if i < |s| {
        assert CountAt(s, i);
        assert t[i] == s[i];
        ChainAppend(s, n, i + 1, End(s, i));
      }
    }
  }

  /** insert_as_root adds x as a parentless payload and leaves every other parent
      alone. */
  lemma AppendRootParentOf<P>(s: seq<TreeNode<P>>, x: P, y: P)
    requires Unique(s) && x !in Payloads(s)
    ensures Unique(s + [TreeNode(0, 1, 0, x)])
    ensures Payloads(s + [TreeNode(0, 1, 0, x)]) == Payloads(s) + {x}
    ensures ParentOf(s + [TreeNode(0, 1, 0, x)], y) == if y == x then None else ParentOf(s, y)
  {
    var t := s + [TreeNode(0, 1, 0, x)];
    assert forall k :: 0 <= k < |s| ==> t[k] == s[k];
    assert Payloads(t) == Payloads(s) + {x} by {
      assert t[|s|].payload == x;
    }
    if y == x {
      UniqueFirstIndex(t, |s|);
    } else if y in Payloads(s) {
      var k :| 0 <= k < |s| && s[k].payload == y;
      UniqueFirstIndex(s, k);
      UniqueFirstIndex(t, k);
    } else {
      Absent(s, y);
      Absent(t, y);
    }
  }
}
