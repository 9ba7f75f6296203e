/** The flattened pre-order forest behind VecTree: the node record, the
    well-formedness invariant stated index by index, and the facts about it
    that the operations and traversals rely on. */
module TreeForest {

  /** One entry of the node vector (TreeNode in the source). */
  datatype TreeNode<P> = TreeNode(nbrChildren: nat, branchStride: nat, parentOfs: nat, payload: P)

  /** One past the last index of the branch rooted at j. */
  function End<P>(s: seq<TreeNode<P>>, j: nat): nat
    requires j < |s|
  {
    j + s[j].branchStride
  }

  /** The branch of j contains i strictly below j. */
  predicate Encloses<P>(s: seq<TreeNode<P>>, j: nat, i: nat)
  {
    j < |s| && j < i < j + s[j].branchStride
  }

  /** The branch of j contains i (j itself included). */
  predicate Spans<P>(s: seq<TreeNode<P>>, j: nat, i: nat)
  {
    j < |s| && j <= i < j + s[j].branchStride
  }

  /** Index of the parent of a non-root node. */
  function Parent<P>(s: seq<TreeNode<P>>, i: nat): nat
    requires i < |s| && s[i].parentOfs <= i
  {
    i - s[i].parentOfs
  }

  /** Every branch is non-empty and lies inside the vector. */
  ghost predicate Bounds<P>(s: seq<TreeNode<P>>)
  {
    forall i :: 0 <= i < |s| ==> 1 <= s[i].branchStride && i + s[i].branchStride <= |s|
  }

  /** Branches nest: a branch containing i contains all of i's branch. */
  ghost predicate Laminar<P>(s: seq<TreeNode<P>>)
  {
    forall j: nat, i: nat :: Encloses(s, j, i) && i < |s| ==> i + s[i].branchStride <= j + s[j].branchStride
  }

  /** The parent offset of i names the nearest enclosing node, and is 0 exactly when
      no node encloses i. */
  ghost predicate ParentAt<P>(s: seq<TreeNode<P>>, i: nat)
    requires i < |s|
  {
    var o := s[i].parentOfs;
    && o <= i
    && (o == 0 ==> forall j :: 0 <= j < i ==> !Encloses(s, j, i))
    && (o > 0 ==> Encloses(s, i - o, i) && forall j :: i - o < j < i ==> !Encloses(s, j, i))
  }

  ghost predicate ParentOk<P>(s: seq<TreeNode<P>>)
  {
    forall i :: 0 <= i < |s| ==> ParentAt(s, i)
  }

  /** The indices reached from c by stepping over whole branches, stopping at e. */
  function Chain<P>(s: seq<TreeNode<P>>, c: nat, e: nat): seq<nat>
    decreases e - c
  {
    if c >= e || c >= |s| then []
    else [c] + Chain(s, c + (if s[c].branchStride == 0 then 1 else s[c].branchStride), e)
  }

  /** The children count of i is the number of branches directly below it. */
  ghost predicate CountAt<P>(s: seq<TreeNode<P>>, i: nat)
    requires i < |s|
  {
    s[i].nbrChildren == |Chain(s, i + 1, End(s, i))|
  }

  ghost predicate ChildCounts<P>(s: seq<TreeNode<P>>)
  {
    forall i :: 0 <= i < |s| ==> CountAt(s, i)
  }

  /** The forest invariant every VecTree operation keeps. */
  ghost predicate WellFormed<P>(s: seq<TreeNode<P>>)
  {
    Bounds(s) && Laminar(s) && ParentOk(s) && ChildCounts(s)
  }

  /** Node i is a child of node j. */
  ghost predicate IsChild<P>(s: seq<TreeNode<P>>, i: nat, j: nat)
  {
    i < |s| && 0 < s[i].parentOfs <= i && i - s[i].parentOfs == j
  }

  /** No two nodes carry the same payload. */
  ghost predicate Unique<P>(s: seq<TreeNode<P>>)
  {
    forall a, b :: 0 <= a < b < |s| ==> s[a].payload != s[b].payload
  }

  ghost predicate InTree<P>(s: seq<TreeNode<P>>, x: P)
  {
    exists k :: 0 <= k < |s| && s[k].payload == x
  }

  lemma InTreePayloads<P>(s: seq<TreeNode<P>>, x: P)
    ensures InTree(s, x) <==> x in Payloads(s)
  {
    if InTree(s, x) {
      var k :| 0 <= k < |s| && s[k].payload == x;
      assert s[k].payload in Payloads(s);
    }
  }

  /** The lowest index holding payload x, searching from i (find_node_index). */
  function FirstIndexFrom<P(==)>(s: seq<TreeNode<P>>, x: P, i: nat): (r: Option<nat>)
    decreases |s| - i
    ensures r.Some? ==> i <= r.value < |s| && s[r.value].payload == x
    ensures r.Some? ==> forall k :: i <= k < r.value ==> s[k].payload != x
    ensures r.None? ==> forall k :: i <= k < |s| ==> s[k].payload != x
  {
    if i >= |s| then None
    else if s[i].payload == x then Some(i)
    else FirstIndexFrom(s, x, i + 1)
  }

  function FirstIndex<P(==)>(s: seq<TreeNode<P>>, x: P): Option<nat>
  {
    FirstIndexFrom(s, x, 0)
  }

  datatype Option<T> = None | Some(value: T)

  /** The payload of x's parent; None for a root or a payload not in the forest. */
  ghost function ParentOf<P>(s: seq<TreeNode<P>>, x: P): Option<P>
  {
    match FirstIndex(s, x)
    case None => None
    case Some(k) =>
      if s[k].parentOfs == 0 || s[k].parentOfs > k then None
      else Some(s[k - s[k].parentOfs].payload)
  }

  ghost function Payloads<P>(s: seq<TreeNode<P>>): set<P>
  {
    set k | 0 <= k < |s| :: s[k].payload
  }

  /** Payload b sits strictly above payload a: some node whose branch contains a's
      node carries b, and b is not a itself (is_descendant_of). */
  ghost predicate DescendsFrom<P>(s: seq<TreeNode<P>>, a: P, b: P)
  {
    match FirstIndex(s, a)
    case None => false
    case Some(i) => a != b && exists k :: 0 <= k < |s| && Spans(s, k, i) && s[k].payload == b
  }

  /** The indices ascend visits from i: i, its parent, ..., a root. */
  function AscentPath<P>(s: seq<TreeNode<P>>, i: nat): seq<nat>
    requires i < |s|
    decreases i
  {
    var o := s[i].parentOfs;
    if o == 0 || o > i then [i] else [i] + AscentPath(s, i - o)
  }

  /** Number of strict ancestors of i. */
  function Depth<P>(s: seq<TreeNode<P>>, i: nat): nat
    requires i < |s|
  {
    |AscentPath(s, i)| - 1
  }

  // ---------------------------------------------------------------------------
  // Facts about well-formed forests

  lemma FirstNodeIsRoot<P>(s: seq<TreeNode<P>>)
    requires WellFormed(s) && |s| > 0
    ensures s[0].parentOfs == 0
  {
    assert ParentAt(s, 0);
  }

  /** Nothing before a root reaches past it. */
  lemma BeforeRoot<P>(s: seq<TreeNode<P>>, r: nat, k: nat)
    requires WellFormed(s) && r < |s| && s[r].parentOfs == 0 && k < r
    ensures End(s, k) <= r
  {
    assert ParentAt(s, r);
    assert !Encloses(s, k, r);
  }

  /** A node enclosing i is i's parent or lies before it. */
  lemma EnclosingIsAtOrBeforeParent<P>(s: seq<TreeNode<P>>, j: nat, i: nat)
    requires WellFormed(s) && i < |s| && Encloses(s, j, i)
    ensures 0 < s[i].parentOfs <= i && j <= Parent(s, i)
  {
    assert ParentAt(s, i);
  }

  /** A node's parent encloses it, and i's branch lies inside its parent's. */
  lemma ParentEncloses<P>(s: seq<TreeNode<P>>, i: nat)
    requires WellFormed(s) && i < |s| && s[i].parentOfs > 0
    ensures s[i].parentOfs <= i && Encloses(s, Parent(s, i), i) && End(s, i) <= End(s, Parent(s, i))
  {
    assert ParentAt(s, i);
  }

  /** A node enclosing i either is i's parent or encloses i's parent. */
  lemma EnclosingStepsToParent<P>(s: seq<TreeNode<P>>, j: nat, i: nat)
    requires WellFormed(s) && i < |s| && Encloses(s, j, i)
    ensures 0 < s[i].parentOfs <= i && (j == Parent(s, i) || Encloses(s, j, Parent(s, i)))
  {
    EnclosingIsAtOrBeforeParent(s, j, i);
    ParentEncloses(s, i);
  }

  /** A node at or after a root has its parent at or after that root. */
  lemma AfterRoot<P>(s: seq<TreeNode<P>>, r: nat, k: nat)
    requires WellFormed(s) && r <= k < |s| && s[r].parentOfs == 0 && s[k].parentOfs > 0
    ensures s[k].parentOfs <= k && r <= Parent(s, k)
  {
    ParentEncloses(s, k);
    if Parent(s, k) < r {
      BeforeRoot(s, r, Parent(s, k));
    }
  }

  /** The node right after a root's branch is again a root. */
  lemma RootFollowsRoot<P>(s: seq<TreeNode<P>>, r: nat)
    requires WellFormed(s) && r < |s| && s[r].parentOfs == 0 && End(s, r) < |s|
    ensures s[End(s, r)].parentOfs == 0
  {
    var e := End(s, r);
    if s[e].parentOfs > 0 {
      AfterRoot(s, r, e);
      ParentEncloses(s, e);
    }
  }

  /** ascend visits exactly the nodes whose branch contains i, i first. */
  lemma {:induction false} AscentPathIsAncestors<P>(s: seq<TreeNode<P>>, i: nat, k: nat)
    requires WellFormed(s) && i < |s|
    ensures k in AscentPath(s, i) <==> Spans(s, k, i)
    decreases i
  {
    assert ParentAt(s, i);
    if s[i].parentOfs == 0 {
      assert AscentPath(s, i) == [i];
      if k < i {
        assert !Encloses(s, k, i);
      }
    } else {
      var p := Parent(s, i);
      assert AscentPath(s, i) == [i] + AscentPath(s, p);
      AscentPathIsAncestors(s, p, k);
      if k != i && Spans(s, k, i) {
        EnclosingStepsToParent(s, k, i);
      }
      if k != i && Spans(s, k, p) {
        ParentEncloses(s, i);
        if k != p {
          assert Encloses(s, k, p);
        }
      }
    }
  }

  /** From a node with a parent, ascend moves on to the parent. */
  lemma AscentPathStep<P>(s: seq<TreeNode<P>>, k: nat)
    requires WellFormed(s) && k < |s| && s[k].parentOfs != 0
    ensures s[k].parentOfs <= k && AscentPath(s, k) == [k] + AscentPath(s, k - s[k].parentOfs)
  {
    assert ParentAt(s, k);
  }

  /** Moving the head of the rest onto the end of the path keeps the whole. */
  lemma AppendStep<T>(path: seq<T>, k: T, rest: seq<T>, whole: seq<T>)
    requires path + ([k] + rest) == whole
    ensures path + [k] + rest == whole
  {
    assert path + [k] + rest == path + ([k] + rest);
  }

  /** ascend starts at i, stays at or below i, steps from each node to its parent and
      stops at a node without one. */
  lemma {:induction false} AscentPathShape<P>(s: seq<TreeNode<P>>, i: nat)
    requires i < |s|
    ensures var a := AscentPath(s, i);
      && |a| > 0 && a[0] == i
      && (forall m :: 0 <= m < |a| ==> a[m] <= i)
      && (forall m :: 0 <= m < |a| - 1 ==> 0 < s[a[m]].parentOfs <= a[m] && a[m + 1] == a[m] - s[a[m]].parentOfs)
      && (s[a[|a| - 1]].parentOfs == 0 || s[a[|a| - 1]].parentOfs > a[|a| - 1])
    decreases i
  {
    var o := s[i].parentOfs;
    var a := AscentPath(s, i);
    if o != 0 && o <= i {
      AscentPathShape(s, i - o);
      var r := AscentPath(s, i - o);
      assert a == [i] + r;
      forall m | 0 < m < |a|
        ensures a[m] == r[m - 1] && a[m] <= i
      {
      }
      forall m | 0 <= m < |a| - 1
        ensures 0 < s[a[m]].parentOfs <= a[m] && a[m + 1] == a[m] - s[a[m]].parentOfs
      {
        if m > 0 {
          assert a[m] == r[m - 1] && a[m + 1] == r[m];
        }
      }
      assert a[|a| - 1] == r[|r| - 1];
    }
  }

  /** In a well-formed forest ascend ends at a root. */
  lemma AscentPathEndsAtRoot<P>(s: seq<TreeNode<P>>, i: nat)
    requires WellFormed(s) && i < |s|
    ensures var a := AscentPath(s, i); |a| > 0 && a[|a| - 1] < |s| && s[a[|a| - 1]].parentOfs == 0
  {
    AscentPathShape(s, i);
    var a := AscentPath(s, i);
    assert ParentAt(s, a[|a| - 1]);
  }

  lemma DepthOfChild<P>(s: seq<TreeNode<P>>, c: nat)
    requires WellFormed(s) && c < |s| && s[c].parentOfs > 0
    ensures s[c].parentOfs <= c && Depth(s, c) == Depth(s, Parent(s, c)) + 1
  {
    assert ParentAt(s, c);
  }

  /** Stepping over whole branches from a position inside j's branch ends exactly at
      the end of j's branch. */
  lemma {:induction false} ChainTiles<P>(s: seq<TreeNode<P>>, j: nat, c: nat)
    requires WellFormed(s) && j < |s| && j < c <= End(s, j)
    ensures var ch := Chain(s, c, End(s, j));
      && (forall m :: 0 <= m < |ch| ==> j < ch[m] < End(s, j) <= |s|)
      && (|ch| == 0 <==> c == End(s, j))
      && (|ch| > 0 ==> ch[0] == c && End(s, ch[|ch| - 1]) == End(s, j))
      && (forall m :: 0 <= m < |ch| - 1 ==> ch[m + 1] == End(s, ch[m]))
    decreases End(s, j) - c
  {
    if c < End(s, j) {
      assert Encloses(s, j, c);
      ChainTiles(s, j, End(s, c));
    }
  }

  /** Sibling step: the node right after a child's branch, if still inside the parent's
      branch, is the next child. */
  lemma NextSibling<P>(s: seq<TreeNode<P>>, j: nat, c: nat)
    requires WellFormed(s) && j < |s| && IsChild(s, c, j) && End(s, c) < End(s, j)
    ensures IsChild(s, End(s, c), j)
  {
    var nx := End(s, c);
    ParentEncloses(s, c);
    assert Encloses(s, j, nx);
    EnclosingIsAtOrBeforeParent(s, j, nx);
    var q: nat := Parent(s, nx);
    ParentEncloses(s, nx);
    assert ParentAt(s, c);
    // An encloser of nx after j would enclose c (before c) or lie inside c's
    // branch (after c); neither can enclose nx.
    assert q < c ==> Encloses(s, q, c);
    assert c < q ==> Encloses(s, c, q);
  }

  /** The first node below j, if any, is a child of j. */
  lemma FirstChild<P>(s: seq<TreeNode<P>>, j: nat)
    requires WellFormed(s) && j < |s| && j + 1 < End(s, j)
    ensures IsChild(s, j + 1, j)
  {
    assert Encloses(s, j, j + 1);
    EnclosingIsAtOrBeforeParent(s, j, j + 1);
  }

  lemma {:induction false} ChainHasOnlyChildren<P>(s: seq<TreeNode<P>>, j: nat, c: nat, k: nat)
    requires WellFormed(s) && j < |s| && j < c < End(s, j) && IsChild(s, c, j)
    requires k in Chain(s, c, End(s, j))
    ensures IsChild(s, k, j)
    decreases End(s, j) - c
  {
    if k != c {
      var nx := End(s, c);
      ParentEncloses(s, c);
      assert k in Chain(s, nx, End(s, j));
      NextSibling(s, j, c);
      ChainHasOnlyChildren(s, j, nx, k);
    }
  }

  lemma {:induction false} ChainHasAllChildren<P>(s: seq<TreeNode<P>>, j: nat, c: nat, k: nat)
    requires WellFormed(s) && j < |s| && j < c <= k && IsChild(s, k, j)
    requires c == j + 1 || IsChild(s, c, j)
    ensures k in Chain(s, c, End(s, j))
    decreases End(s, j) - c
  {
    ParentEncloses(s, k);
    if c != k {
      if c == j + 1 {
        FirstChild(s, j);
      }
      var nx := End(s, c);
      ParentEncloses(s, c);
      if k < nx {
        assert Encloses(s, c, k);
        EnclosingIsAtOrBeforeParent(s, c, k);
      }
      NextSibling(s, j, c);
      ChainHasAllChildren(s, j, nx, k);
    }
  }

  /** The chain below j lists exactly j's children. */
  lemma ChildrenAreChain<P>(s: seq<TreeNode<P>>, j: nat, k: nat)
    requires WellFormed(s) && j < |s|
    ensures k in Chain(s, j + 1, End(s, j)) <==> IsChild(s, k, j)
  {
    if IsChild(s, k, j) {
      ChainHasAllChildren(s, j, j + 1, k);
    }
    if k in Chain(s, j + 1, End(s, j)) {
      FirstChild(s, j);
      ChainHasOnlyChildren(s, j, j + 1, k);
    }
  }

  /** With distinct payloads, the lowest index of a payload is its only index. */
  lemma UniqueFirstIndex<P>(s: seq<TreeNode<P>>, k: nat)
    requires Unique(s) && k < |s|
    ensures FirstIndex(s, s[k].payload) == Some(k)
  {
  }

  /** The parent of the payload at its lowest index k is read off node k. */
  lemma ParentOfAt<P>(s: seq<TreeNode<P>>, k: nat)
    requires k < |s| && FirstIndex(s, s[k].payload) == Some(k)
    ensures ParentOf(s, s[k].payload) ==
      if s[k].parentOfs == 0 || s[k].parentOfs > k then None else Some(s[k - s[k].parentOfs].payload)
  {
  }

  /** A payload that is not in the forest has no index and no parent. */
  lemma Absent<P>(s: seq<TreeNode<P>>, y: P)
    requires y !in Payloads(s)
    ensures FirstIndex(s, y) == None && ParentOf(s, y) == None
  {
  }

  /** A chain that starts at a node with a positive stride steps to that node's end. */
  lemma ChainStep<P>(s: seq<TreeNode<P>>, c: nat, e: nat)
    requires c < e && c < |s| && 1 <= s[c].branchStride
    ensures Chain(s, c, e) == [c] + Chain(s, End(s, c), e)
  {
  }

  /** Nodes a and b are siblings: both roots, or children of the same node. */
  ghost predicate Siblings<P>(s: seq<TreeNode<P>>, a: nat, b: nat)
  {
    && a < |s| && b < |s|
    && ((s[a].parentOfs == 0 && s[b].parentOfs == 0)
        || (exists j :: IsChild(s, a, j) && IsChild(s, b, j)))
  }

  /** A root is the last root exactly when its branch runs to the end of the vector;
      a child is the last child exactly when its branch runs to the end of its
      parent's. */
  lemma LastSiblingByEnd<P>(s: seq<TreeNode<P>>, i: nat)
    requires WellFormed(s) && i < |s|
    ensures s[i].parentOfs <= i
    ensures (forall k :: i < k < |s| ==> !Siblings(s, k, i)) <==>
      if s[i].parentOfs == 0 then End(s, i) >= |s| else End(s, i) >= End(s, Parent(s, i))
  {
    assert ParentAt(s, i);
    if s[i].parentOfs == 0 {
      if End(s, i) < |s| {
        RootFollowsRoot(s, i);
        assert Siblings(s, End(s, i), i);
      } else {
        forall k | i < k < |s|
          ensures s[k].parentOfs > 0
        {
          assert Encloses(s, i, k);
          assert ParentAt(s, k);
        }
      }
    } else {
      var j := Parent(s, i);
      assert IsChild(s, i, j);
      if End(s, i) < End(s, j) {
        NextSibling(s, j, i);
        assert Siblings(s, End(s, i), i);
      } else {
        forall k | i < k < |s| && Siblings(s, k, i)
          ensures false
        {
          var q :| IsChild(s, k, q) && IsChild(s, i, q);
          ParentEncloses(s, k);
          EnclosingIsAtOrBeforeParent(s, i, k);
        }
      }
    }
  }

  /** A node has no children exactly when its child count is 0. */
  lemma LeafByCount<P>(s: seq<TreeNode<P>>, i: nat)
    requires WellFormed(s) && i < |s|
    ensures s[i].nbrChildren == 0 <==> forall c :: 0 <= c < |s| ==> !IsChild(s, c, i)
  {
    assert CountAt(s, i);
    forall c | 0 <= c < |s|
      ensures c in Chain(s, i + 1, End(s, i)) <==> IsChild(s, c, i)
    {
      ChildrenAreChain(s, i, c);
    }
    if s[i].nbrChildren != 0 {
      var ch := Chain(s, i + 1, End(s, i));
      ChainTiles(s, i, i + 1);
      assert ch[0] in ch && ch[0] < |s|;
      assert IsChild(s, ch[0], i);
    }
  }
}
