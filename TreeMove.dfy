/** reparent and unparent: a branch is cut out with erase and its nodes are put back
    one by one with insert, each under the payload of its old parent. The facts here
    are stated on payloads and need distinct payloads. */
module TreeMove {
  import opened TreeForest
  import opened TreeInsert
  import opened TreeErase

  /** Payloads of the first n nodes of the branch rooted at i. */
  ghost function Prefix<P>(s: seq<TreeNode<P>>, i: nat, n: nat): set<P>
  {
    set j | i <= j < |s| && j < i + n :: s[j].payload
  }

  /** State after the branch of i has been erased and its first n nodes re-inserted:
      the branch root's parent is top, every other re-inserted node has its old
      parent, the nodes still to come are missing, and nothing else has changed. */
  ghost predicate Reinserted<P>(s: seq<TreeNode<P>>, i: nat, top: Option<P>, t: seq<TreeNode<P>>, n: nat)
    requires i < |s|
  {
    && WellFormed(t) && Unique(t)
    && |t| == |s| - s[i].branchStride + n
    && Payloads(t) == (Payloads(s) - BranchPayloads(s, i)) + Prefix(s, i, n)
    && forall j :: 0 <= j < |s| ==> ParentKept(s, i, top, t, n, j)
  }

  /** The parent of old node j's payload in t, as the re-insertion of n nodes of the
      branch of i leaves it. */
  ghost predicate ParentKept<P>(s: seq<TreeNode<P>>, i: nat, top: Option<P>, t: seq<TreeNode<P>>, n: nat, j: nat)
    requires i < |s| && j < |s|
  {
    ParentOf(t, s[j].payload) ==
      if j == i then top
      else if i + n <= j < i + s[i].branchStride then None
      else ParentOf(s, s[j].payload)
  }

  /** With distinct payloads, b lies strictly above a exactly when a's node is in the
      branch of b's node and a is not b. */
  lemma DescendsFromBranch<P>(s: seq<TreeNode<P>>, a: P, b: P)
    requires Unique(s) && InTree(s, a) && InTree(s, b)
    ensures FirstIndex(s, b).Some?
    ensures DescendsFrom(s, a, b) <==> a != b && a in BranchPayloads(s, FirstIndex(s, b).value)
  {
    var ia :| 0 <= ia < |s| && s[ia].payload == a;
    var ib :| 0 <= ib < |s| && s[ib].payload == b;
    UniqueFirstIndex(s, ia);
    UniqueFirstIndex(s, ib);
    if a != b && a in BranchPayloads(s, ib) {
      var m :| ib <= m < |s| && m < ib + s[ib].branchStride && s[m].payload == a;
      assert m == ia;
      assert Spans(s, ib, ia);
    }
  }

  /** The first node of the branch is its root. */
  lemma PrefixOne<P>(s: seq<TreeNode<P>>, i: nat)
    requires i < |s|
    ensures Prefix(s, i, 1) == {s[i].payload}
  {
  }

  /** One more node of the branch adds its payload. */
  lemma PrefixStep<P>(s: seq<TreeNode<P>>, i: nat, n: nat)
    requires i + n < |s|
    ensures Prefix(s, i, n + 1) == Prefix(s, i, n) + {s[i + n].payload}
  {
  }

  /** Erasing the branch of i and inserting its root under parent starts the
      re-insertion. */
  lemma ReinsertFirstUnder<P>(s: seq<TreeNode<P>>, i: nat, parent: P)
    requires WellFormed(s) && Unique(s) && i < |s|
    requires parent in Payloads(s) && parent !in BranchPayloads(s, i)
    ensures var e := Erased(s, i);
      && FirstIndex(e, parent).Some?
      && Reinserted(s, i, Some(parent), Inserted(e, FirstIndex(e, parent).value, s[i].payload), 1)
  {
    var e := Erased(s, i);
    var x := s[i].payload;
    ErasedWellFormed(s, i);
    forall y
      ensures ParentOf(e, y) == if y in BranchPayloads(s, i) then None else ParentOf(s, y)
    {
      ErasedParentOf(s, i, y);
    }
    ErasedParentOf(s, i, x);
    assert parent in Payloads(e);
    var p := FirstIndex(e, parent).value;
    assert x in BranchPayloads(s, i);
    var t := Inserted(e, p, x);
    InsertedWellFormed(e, p, x);
    forall y
      ensures ParentOf(t, y) == if y == x then Some(parent) else ParentOf(e, y)
    {
      InsertedParentOf(e, p, x, y);
    }
    InsertedParentOf(e, p, x, x);
    PrefixOne(s, i);
  }

  /** Erasing the branch of i and appending its root as a new root starts the
      re-insertion. */
  lemma ReinsertFirstAsRoot<P>(s: seq<TreeNode<P>>, i: nat)
    requires WellFormed(s) && Unique(s) && i < |s|
    ensures Reinserted(s, i, None, Erased(s, i) + [TreeNode(0, 1, 0, s[i].payload)], 1)
  {
    var e := Erased(s, i);
    var x := s[i].payload;
    ErasedWellFormed(s, i);
    forall y
      ensures ParentOf(e, y) == if y in BranchPayloads(s, i) then None else ParentOf(s, y)
    {
      ErasedParentOf(s, i, y);
    }
    ErasedParentOf(s, i, x);
    assert x in BranchPayloads(s, i);
    var t := e + [TreeNode(0, 1, 0, x)];
    AppendRootWellFormed(e, x);
    forall y
      ensures ParentOf(t, y) == if y == x then None else ParentOf(e, y)
    {
      AppendRootParentOf(e, x, y);
    }
    AppendRootParentOf(e, x, x);
    PrefixOne(s, i);
  }

  /** Node i + n of the branch has its parent inside the branch, among the nodes that
      are already back, while i + n itself is still missing. */
  lemma NextParentIsBack<P>(s: seq<TreeNode<P>>, i: nat, top: Option<P>, t: seq<TreeNode<P>>, n: nat)
    requires WellFormed(s) && Unique(s) && i < |s| && 1 <= n < s[i].branchStride
    requires Reinserted(s, i, top, t, n)
    ensures 0 < s[i + n].parentOfs <= n
    ensures var q := s[i + n - s[i + n].parentOfs].payload; var z := s[i + n].payload;
      && q in Payloads(t) && z !in Payloads(t) && z != s[i].payload
      && ParentOf(s, z) == Some(q)
  {
    var k := i + n;
    assert Encloses(s, i, k);
    EnclosingIsAtOrBeforeParent(s, i, k);
    var q := s[Parent(s, k)].payload;
    var z := s[k].payload;
    assert q in Prefix(s, i, n);
    assert z in BranchPayloads(s, i);
    assert z !in Prefix(s, i, n);
    UniqueFirstIndex(s, k);
  }

  /** Re-inserting node i + n of the branch under its old parent's payload, which is
      already back, extends the re-insertion by one node. */
  lemma ReinsertNext<P>(s: seq<TreeNode<P>>, i: nat, top: Option<P>, t: seq<TreeNode<P>>, n: nat)
    requires WellFormed(s) && Unique(s) && i < |s| && 1 <= n < s[i].branchStride
    requires Reinserted(s, i, top, t, n)
    ensures 0 < s[i + n].parentOfs <= n
    ensures var q := s[i + n - s[i + n].parentOfs].payload;
      && FirstIndex(t, q).Some?
      && Reinserted(s, i, top, Inserted(t, FirstIndex(t, q).value, s[i + n].payload), n + 1)
  {
    NextParentIsBack(s, i, top, t, n);
    var k := i + n;
    var q := s[k - s[k].parentOfs].payload;
    var z := s[k].payload;
    var p := FirstIndex(t, q).value;
    var u := Inserted(t, p, z);
    InsertedWellFormed(t, p, z);
    InsertedParentOf(t, p, z, z);
    forall y
      ensures ParentOf(u, y) == if y == z then Some(q) else ParentOf(t, y)
    {
      InsertedParentOf(t, p, z, y);
    }
    ReinsertedGrows(s, i, top, t, u, n);
  }

  /** The bookkeeping of one re-insertion step, for any u that has t's nodes plus
      node i + n's payload under its old parent. */
  lemma ReinsertedGrows<P>(s: seq<TreeNode<P>>, i: nat, top: Option<P>, t: seq<TreeNode<P>>, u: seq<TreeNode<P>>, n: nat)
    requires Unique(s) && i + n < |s| && 1 <= n < s[i].branchStride
    requires Reinserted(s, i, top, t, n)
    requires |u| == |t| + 1 && WellFormed(u) && Unique(u)
    requires Payloads(u) == Payloads(t) + {s[i + n].payload}
    requires forall y :: ParentOf(u, y) == (if y == s[i + n].payload then ParentOf(s, s[i + n].payload) else ParentOf(t, y))
    ensures Reinserted(s, i, top, u, n + 1)
  {
    PrefixStep(s, i, n);
    var n1 := n + 1;
    forall j | 0 <= j < |s|
      ensures ParentKept(s, i, top, u, n1, j)
    {
      assert ParentKept(s, i, top, t, n, j);
      if j != i + n {
        assert s[j].payload != s[i + n].payload;
      }
    }
  }

  /** Once the whole branch is back, the payloads are those of s and only the branch
      root's parent differs. */
  lemma ReinsertDone<P>(s: seq<TreeNode<P>>, i: nat, top: Option<P>, t: seq<TreeNode<P>>)
    requires Unique(s) && i < |s| && Reinserted(s, i, top, t, s[i].branchStride)
    ensures |t| == |s|
    ensures Payloads(t) == Payloads(s)
    ensures forall y :: ParentOf(t, y) == if y == s[i].payload then top else ParentOf(s, y)
  {
    var b := s[i].branchStride;
    assert Prefix(s, i, b) == BranchPayloads(s, i);
    forall y | y in BranchPayloads(s, i)
      ensures y in Payloads(s)
    {
      var m :| i <= m < |s| && m < i + b && s[m].payload == y;
    }
    forall y
      ensures ParentOf(t, y) == if y == s[i].payload then top else ParentOf(s, y)
    {
      if y in Payloads(s) {
        var j :| 0 <= j < |s| && s[j].payload == y;
        assert ParentKept(s, i, top, t, b, j);
      } else {
        Absent(s, y);
        Absent(t, y);
      }
    }
  }

  // ---------------------------------------------------------------------------
  // A re-insertion that finds no parent

  /** When the new parent is not a node outside the branch, the erased tree has no
      node carrying it, so the first insert of reparent fails. */
  lemma LostFirst<P>(s: seq<TreeNode<P>>, i: nat, parent: P)
    requires WellFormed(s) && Unique(s) && i < |s|
    requires !InTree(s, parent) || parent == s[i].payload
    ensures !InTree(Erased(s, i), parent)
  {
    ErasedParentOf(s, i, parent);
    InTreePayloads(s, parent);
    if InTree(s, parent) {
      assert parent in BranchPayloads(s, i);
    }
    InTreePayloads(Erased(s, i), parent);
  }

  /** Node i + n of the branch has its old parent inside the branch, and the erased
      tree has no node carrying that parent's payload, so re-inserting i + n fails. */
  lemma LostNext<P>(s: seq<TreeNode<P>>, i: nat, n: nat)
    requires WellFormed(s) && Unique(s) && i < |s| && 1 <= n < s[i].branchStride
    ensures 0 < s[i + n].parentOfs <= n
    ensures !InTree(Erased(s, i), s[i + n - s[i + n].parentOfs].payload)
  {
    var k := i + n;
    assert Encloses(s, i, k);
    EnclosingIsAtOrBeforeParent(s, i, k);
    var pk := Parent(s, k);
    var q := s[pk].payload;
    assert i <= pk < i + s[i].branchStride;
    assert q in BranchPayloads(s, i);
    ErasedParentOf(s, i, q);
    InTreePayloads(Erased(s, i), q);
  }

  // ---------------------------------------------------------------------------
  // Both outcomes of the re-insertion loop

  /** After n steps of the re-insertion loop: when the branch root found its place
      (moved), the re-insertion so far; otherwise the erased tree, unchanged. */
  ghost predicate Moving<P>(s: seq<TreeNode<P>>, i: nat, top: Option<P>, moved: bool, t: seq<TreeNode<P>>, n: nat)
    requires WellFormed(s) && i < |s|
  {
    if moved then Reinserted(s, i, top, t, n)
    else WellFormed(t) && Unique(t) && t == Erased(s, i)
  }

  /** The first step of reparent: x goes under parent, or the branch is lost when
      parent is missing or is x itself. */
  lemma MoveFirstUnder<P>(s: seq<TreeNode<P>>, i: nat, parent: P)
    requires WellFormed(s) && Unique(s) && i < |s|
    requires !DescendsFrom(s, parent, s[i].payload)
    ensures Moving(s, i, Some(parent), InTree(s, parent) && parent != s[i].payload,
      InsertedUnder(Erased(s, i), s[i].payload, parent), 1)
  {
    var x := s[i].payload;
    var e := Erased(s, i);
    ErasedWellFormed(s, i);
    ErasedParentOf(s, i, x);
    if InTree(s, parent) && parent != x {
      assert InTree(s, x);
      UniqueFirstIndex(s, i);
      DescendsFromBranch(s, parent, x);
      ReinsertFirstUnder(s, i, parent);
    } else {
      LostFirst(s, i, parent);
      assert FirstIndex(e, parent) == None;
    }
  }

  /** One step of the re-insertion loop: node i + n goes under its old parent's
      payload, or stays missing along with the rest of a lost branch. */
  lemma MoveNext<P>(s: seq<TreeNode<P>>, i: nat, top: Option<P>, moved: bool, t: seq<TreeNode<P>>, n: nat)
    requires WellFormed(s) && Unique(s) && i < |s| && 1 <= n < s[i].branchStride
    requires Moving(s, i, top, moved, t, n)
    ensures 0 < s[i + n].parentOfs <= n
    ensures Moving(s, i, top, moved, InsertedUnder(t, s[i + n].payload, s[i + n - s[i + n].parentOfs].payload), n + 1)
  {
    if moved {
      ReinsertNext(s, i, top, t, n);
    } else {
      LostNext(s, i, n);
      assert FirstIndex(t, s[i + n - s[i + n].parentOfs].payload) == None;
    }
  }
}
