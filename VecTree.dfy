/** VecTree: a forest kept as one vector of nodes in pre-order, edited in place. */
module VecTrees {
  import opened TreeForest
  import opened TreeInsert
  import opened TreeErase
  import opened TreeMove
  import opened TreeWalk

  class VecTree<P(==)> {
    var nodes: seq<TreeNode<P>>

    ghost predicate Valid()
      reads this
    {
      WellFormed(nodes)
    }

    constructor ()
      ensures Valid() && nodes == []
    {
      nodes := [];
    }

    // -------------------------------------------------------------------------
    // Lookups

    /** find_node_index: the lowest index carrying y; None stands for the null index. */
    function FindNodeIndex(y: P): (r: Option<nat>)
      reads this
      ensures r.Some? ==> r.value < |nodes| && nodes[r.value].payload == y
      ensures r.Some? ==> forall k :: 0 <= k < r.value ==> nodes[k].payload != y
      ensures r.None? <==> !InTree(nodes, y)
    {
      FirstIndex(nodes, y)
    }

    function Contains(y: P): (b: bool)
      reads this
      ensures b <==> InTree(nodes, y)
    {
      FindNodeIndex(y).Some?
    }

    /** is_root: no branch contains y's node, i.e. y has no parent. */
    function IsRoot(y: P): (b: bool)
      reads this
      requires Valid() && InTree(nodes, y)
      ensures b <==> ParentOf(nodes, y).None?
      ensures b <==> forall j :: 0 <= j < |nodes| ==> !Encloses(nodes, j, FirstIndex(nodes, y).value)
    {
      var k := FindNodeIndex(y).value;
      assert ParentAt(nodes, k);
      nodes[k].parentOfs == 0
    }

    /** is_leaf: no node is a child of y's node. */
    function IsLeaf(y: P): (b: bool)
      reads this
      requires Valid() && InTree(nodes, y)
      ensures b <==> forall c :: 0 <= c < |nodes| ==> !IsChild(nodes, c, FirstIndex(nodes, y).value)
    {
      var k := FindNodeIndex(y).value;
      LeafByCount(nodes, k);
      nodes[k].nbrChildren == 0
    }

    /** get_parent_index: the nearest node whose branch contains y's node. */
    function GetParentIndex(y: P): (r: nat)
      reads this
      requires Valid() && InTree(nodes, y) && nodes[FirstIndex(nodes, y).value].parentOfs != 0
      ensures var k := FirstIndex(nodes, y).value;
        && IsChild(nodes, k, r)
        && Encloses(nodes, r, k)
        && (forall j :: r < j < k ==> !Encloses(nodes, j, k))
        && ParentOf(nodes, y) == Some(nodes[r].payload)
    {
      var k := FindNodeIndex(y).value;
      assert ParentAt(nodes, k);
      k - nodes[k].parentOfs
    }

    /** is_last_sibling as the source writes it: for a root, "the next node is a root"
        is accepted as well as "nothing follows". */
    function IsLastSiblingAsWritten(i: nat): (b: bool)
      reads this
      requires Valid() && i < |nodes|
      ensures nodes[i].parentOfs == 0 ==> b
    {
      var n := nodes[i];
      if n.parentOfs == 0 then
        var next := i + n.branchStride;
        assert next < |nodes| ==> nodes[next].parentOfs == 0 by {
          if next < |nodes| { RootFollowsRoot(nodes, i); }
        }
        next >= |nodes| || nodes[next].parentOfs == 0
      else
        assert ParentAt(nodes, i);
        var parent := i - n.parentOfs;
        i + n.branchStride >= parent + nodes[parent].branchStride
    }

    /** is_last_sibling: no later node shares i's parent (or, for a root, no later
        root exists). */
    function IsLastSibling(i: nat): (b: bool)
      reads this
      requires Valid() && i < |nodes|
      ensures b <==> forall k :: i < k < |nodes| ==> !Siblings(nodes, k, i)
    {
      LastSiblingByEnd(nodes, i);
      var n := nodes[i];
      if n.parentOfs == 0 then i + n.branchStride >= |nodes|
      else
        var parent := i - n.parentOfs;
        i + n.branchStride >= parent + nodes[parent].branchStride
    }

    /** ascend: the indices visited from start up through its ancestors to a root, or
        nothing on an empty tree. */
    method Ascend(start: nat) returns (path: seq<nat>)
      requires Valid() && (|nodes| == 0 || start < |nodes|)
      ensures |nodes| == 0 ==> path == []
      ensures |nodes| > 0 ==> path == AscentPath(nodes, start)
      ensures |nodes| > 0 ==> |path| > 0 && path[0] == start && path[|path| - 1] < |nodes| && nodes[path[|path| - 1]].parentOfs == 0
      ensures forall k :: k in path <==> Spans(nodes, k, start)
    {
      if |nodes| == 0 {
        return [];
      }
      var k: nat := start;
      path := [];
      while nodes[k].parentOfs != 0
        invariant k < |nodes| && path + AscentPath(nodes, k) == AscentPath(nodes, start)
        decreases k
      {
        AscentPathStep(nodes, k);
        AppendStep(path, k, AscentPath(nodes, k - nodes[k].parentOfs), AscentPath(nodes, start));
        path := path + [k];
        k := k - nodes[k].parentOfs;
      }
      assert AscentPath(nodes, k) == [k];
      path := path + [k];
      AscentPathShape(nodes, start);
      AscentPathEndsAtRoot(nodes, start);
      forall j
        ensures j in path <==> Spans(nodes, j, start)
      {
        AscentPathIsAncestors(nodes, start, j);
      }
    }

    /** is_descendant_of: some node met while ascending from a, other than a itself,
        carries b. */
    method IsDescendantOf(a: P, b: P) returns (r: bool)
      requires Valid() && (|nodes| == 0 || InTree(nodes, a))
      ensures r <==> DescendsFrom(nodes, a, b)
    {
      if |nodes| == 0 {
        return false;
      }
      var start := FindNodeIndex(a).value;
      var path := Ascend(start);
      r := false;
      var m := 0;
      while m < |path|
        invariant m <= |path|
        invariant r <==> exists j :: 0 <= j < m && path[j] < |nodes| && nodes[path[j]].payload != a && nodes[path[j]].payload == b
      {
        assert path[m] in path;
        var y := nodes[path[m]].payload;
        if y != a && y == b {
          r := true;
        }
        m := m + 1;
      }
      if DescendsFrom(nodes, a, b) {
        var k :| 0 <= k < |nodes| && Spans(nodes, k, start) && nodes[k].payload == b;
        assert k in path;
        var j :| 0 <= j < |path| && path[j] == k;
      }
    }

    // -------------------------------------------------------------------------
    // Traversals. Each reports, in order, the arguments the source passes to its
    // callback.

    /** traverse_depthfirst from start: the indices of start's branch in increasing
        order, or nothing on an empty tree. */
    method TraverseDepthFirst(start: nat) returns (visits: seq<nat>)
      requires Valid() && (|nodes| == 0 || start < |nodes|)
      ensures |nodes| == 0 ==> visits == []
      ensures |nodes| > 0 ==> |visits| == nodes[start].branchStride
      ensures forall m :: 0 <= m < |visits| ==> visits[m] == start + m
      ensures |nodes| > 0 ==> forall k: nat :: k in visits <==> k < |nodes| && start in AscentPath(nodes, k)
    {
      if |nodes| == 0 {
        return [];
      }
      var stride := nodes[start].branchStride;
      visits := [];
      var offset := 0;
      while offset < stride
        invariant offset <= stride && |visits| == offset
        invariant forall m :: 0 <= m < offset ==> visits[m] == start + m
      {
        visits := visits + [start + offset];
        offset := offset + 1;
      }
      assert visits == Range(start, End(nodes, start));
      forall k: nat
        ensures k in visits <==> k < |nodes| && start in AscentPath(nodes, k)
      {
        BranchIsDescendants(nodes, start, k);
      }
    }

    /** traverse_depthfirst over the forest: root by root, every index once, in
        increasing order. */
    method TraverseDepthFirstForest() returns (visits: seq<nat>)
      requires Valid()
      ensures |visits| == |nodes|
      ensures forall m :: 0 <= m < |visits| ==> visits[m] == m
    {
      visits := [];
      var i := 0;
      while i < |nodes|
        invariant i <= |nodes| && |visits| == i
        invariant forall m :: 0 <= m < i ==> visits[m] == m
      {
        var part := TraverseDepthFirst(i);
        visits := visits + part;
        i := i + nodes[i].branchStride;
      }
    }

    /** traverse_depthfirst with levels from start: the same indices as without
        levels, each with its depth below start, produced with an explicit stack. */
    method TraverseDepthFirstLevels(start: nat) returns (visits: seq<(nat, nat)>)
      requires Valid() && (|nodes| == 0 || start < |nodes|)
      ensures |nodes| == 0 ==> visits == []
      ensures |nodes| > 0 ==> |visits| == nodes[start].branchStride
      ensures |nodes| > 0 ==> forall m :: 0 <= m < |visits| ==>
        visits[m].0 == start + m && start + m < |nodes| && visits[m].1 + Depth(nodes, start) == Depth(nodes, start + m)
    {
      if |nodes| == 0 {
        return [];
      }
      ghost var e := End(nodes, start);
      ghost var d0 := Depth(nodes, start);
      var stack := [(start, 0)];
      visits := [];
      while |stack| > 0
        invariant start + |visits| <= e <= |nodes|
        invariant Pending(nodes, stack, start + |visits|, e, d0)
        invariant forall m :: 0 <= m < |visits| ==>
          visits[m].0 == start + m && visits[m].1 + d0 == Depth(nodes, start + m)
        decreases e - |visits|
      {
        var top := stack[|stack| - 1];
        PendingTop(nodes, stack, start + |visits|, e, d0);
        var cs := ChildIndices(nodes, top.0);
        ghost var before, seen := stack, visits;
        visits := visits + [top];
        // pop the top, then push its children from the last one to the first
        stack := stack[..|stack| - 1] + Reversed(Levelled(cs, top.1 + 1));
        LevelsStep(nodes, before, seen, start, e, d0, top, cs, stack, visits);
      }
    }

    /** traverse_depthfirst with levels over the forest: every index once, in
        increasing order, with its depth. */
    method TraverseDepthFirstLevelsForest() returns (visits: seq<(nat, nat)>)
      requires Valid()
      ensures |visits| == |nodes|
      ensures forall m :: 0 <= m < |visits| ==> visits[m] == (m, Depth(nodes, m))
    {
      visits := [];
      var i := 0;
      if |nodes| > 0 {
        FirstNodeIsRoot(nodes);
      }
      while i < |nodes|
        invariant i <= |nodes| && |visits| == i
        invariant i < |nodes| ==> nodes[i].parentOfs == 0
        invariant forall m :: 0 <= m < i ==> visits[m] == (m, Depth(nodes, m))
      {
        var part := TraverseDepthFirstLevels(i);
        assert AscentPath(nodes, i) == [i];
        ghost var prev := visits;
        visits := visits + part;
        forall m | 0 <= m < |visits|
          ensures visits[m] == (m, Depth(nodes, m))
        {
          if m < i {
            assert visits[m] == prev[m];
          } else {
            assert visits[m] == part[m - i];
          }
        }
        if i + nodes[i].branchStride < |nodes| {
          RootFollowsRoot(nodes, i);
        }
        i := i + nodes[i].branchStride;
      }
    }

    /** traverse_breadthfirst from start: every index of start's branch exactly once,
        produced with a FIFO queue. */
    method TraverseBreadthFirst(start: nat) returns (visits: seq<nat>)
      requires Valid() && (|nodes| == 0 || start < |nodes|)
      ensures |nodes| == 0 ==> visits == []
      ensures |nodes| > 0 ==> multiset(visits) == multiset(Range(start, End(nodes, start)))
      ensures |nodes| > 0 ==> forall k: nat :: k in visits <==> k < |nodes| && start in AscentPath(nodes, k)
    {
      if |nodes| == 0 {
        return [];
      }
      var q: seq<nat> := [start];
      visits := [];
      assert Unvisited(nodes, q) == Range(start, End(nodes, start));
      while |q| > 0
        invariant forall m :: 0 <= m < |q| ==> q[m] < |nodes|
        invariant multiset(visits + Unvisited(nodes, q)) == multiset(Range(start, End(nodes, start)))
        decreases |Unvisited(nodes, q)|
      {
        QueueStep(nodes, q);
        var idx := q[0];
        q := q[1..];
        visits := visits + [idx];
        var cs := ChildIndices(nodes, idx);
        q := q + cs;
      }
      assert visits + Unvisited(nodes, q) == visits;
      forall k: nat
        ensures k in visits <==> k < |nodes| && start in AscentPath(nodes, k)
      {
        assert k in visits <==> k in multiset(visits);
        BranchIsDescendants(nodes, start, k);
      }
    }

    /** traverse_breadthfirst over the forest: root by root, every index exactly once. */
    method TraverseBreadthFirstForest() returns (visits: seq<nat>)
      requires Valid()
      ensures multiset(visits) == multiset(Range(0, |nodes|))
    {
      visits := [];
      var i := 0;
      while i < |nodes|
        invariant i <= |nodes| && multiset(visits) == multiset(Range(0, i))
      {
        var part := TraverseBreadthFirst(i);
        RangeSplit(0, i, End(nodes, i));
        visits := visits + part;
        i := i + nodes[i].branchStride;
      }
    }

    /** traverse_progressive from start: for each node of start's branch, (node, no
        parent) when it is a root, then (child, node) for each of its children. */
    method TraverseProgressive(start: nat) returns (visits: seq<(nat, Option<nat>)>)
      requires Valid() && start < |nodes|
      ensures visits == Progressive(nodes, start, End(nodes, start))
      ensures forall c: nat, p: nat :: (c, Some(p)) in visits <==> IsChild(nodes, c, p) && Spans(nodes, start, p)
      ensures forall k: nat :: (k, None) in visits <==> Spans(nodes, start, k) && nodes[k].parentOfs == 0
    {
      visits := [];
      var i := 0;
      while i < nodes[start].branchStride
        invariant i <= nodes[start].branchStride
        invariant visits == Progressive(nodes, start, start + i)
      {
        var k: nat := start + i;
        var own: seq<(nat, Option<nat>)> := if nodes[k].parentOfs == 0 then [(k, None)] else [];
        var cs := ChildIndices(nodes, k);
        ProgressiveStep(nodes, start, k, visits, own + Parented(cs, k));
        visits := visits + (own + Parented(cs, k));
        i := i + 1;
      }
      assert start + i == End(nodes, start);
      ProgressiveVisits(nodes, start, End(nodes, start));
    }

    /** traverse_progressive over the forest: root by root, the walk of each root's
        branch. */
    method TraverseProgressiveForest() returns (visits: seq<(nat, Option<nat>)>)
      requires Valid()
      ensures visits == Progressive(nodes, 0, |nodes|)
      ensures forall c: nat, p: nat :: (c, Some(p)) in visits <==> IsChild(nodes, c, p)
      ensures forall k: nat :: (k, None) in visits <==> k < |nodes| && nodes[k].parentOfs == 0
    {
      visits := [];
      var i := 0;
      while i < |nodes|
        invariant i <= |nodes|
        invariant visits == Progressive(nodes, 0, i)
      {
        var part := TraverseProgressive(i);
        var next := End(nodes, i);
        ProgressiveAppend(nodes, 0, i, next, visits, part);
        visits := visits + part;
        i := next;
      }
      ProgressiveVisits(nodes, 0, |nodes|);
    }

    // -------------------------------------------------------------------------
    // Mutators

    /** insert_as_root: append a lone root. */
    method InsertAsRoot(x: P)
      requires Valid()
      modifies this
      ensures Valid()
      ensures nodes == old(nodes) + [TreeNode(0, 1, 0, x)]
    {
      AppendRootWellFormed(nodes, x);
      nodes := nodes + [TreeNode(0, 1, 0, x)];
    }

    /** insert: hang x as the first child of the first node carrying parentPayload,
        or report false and change nothing when there is none. */
    method Insert(x: P, parentPayload: P) returns (ok: bool)
      requires Valid()
      modifies this
      ensures Valid()
      ensures ok <==> InTree(old(nodes), parentPayload)
      ensures !ok ==> nodes == old(nodes)
      ensures ok ==> nodes == Inserted(old(nodes), FirstIndex(old(nodes), parentPayload).value, x)
      ensures nodes == InsertedUnder(old(nodes), x, parentPayload)
    {
      var found := FindNodeIndex(parentPayload);
      if found.None? {
        return false;
      }
      var p := found.value;
      ghost var s := nodes;
      var t := GrowStrides(nodes, p);
      t := GrowOffsets(s, t, p);
      LiftedSplice(s, p, x);
      t := t[p := t[p].(nbrChildren := t[p].nbrChildren + 1)];
      nodes := t[..p + 1] + [TreeNode(0, 1, 1, x)] + t[p + 1..];
      InsertedWellFormed(s, p, x);
      return true;
    }

    /** erase_branch_at_index: remove the branch rooted at i. */
    method EraseBranchAtIndex(i: nat)
      requires Valid() && i < |nodes|
      modifies this
      ensures Valid()
      ensures nodes == Erased(old(nodes), i)
    {
      ghost var s := nodes;
      assert ParentAt(s, i);
      var b := nodes[i].branchStride;
      var a := i - nodes[i].parentOfs;
      var t := ShrinkStrides(nodes, a, b, i + b);
      t := ShrinkOffsets(s, t, a, b, i + b);
      ghost var walked := t;
      t := t[a := t[a].(nbrChildren := UnsignedSub(t[a].nbrChildren, 1))];
      TrimmedSplice(s, i, walked, t);
      nodes := t[..i] + t[i + b..];
      ErasedWellFormed(s, i);
    }

    /** erase_branch: remove the branch of the first node carrying y, or report false
        and change nothing when there is none. */
    method EraseBranch(y: P) returns (ok: bool)
      requires Valid()
      modifies this
      ensures Valid()
      ensures ok <==> InTree(old(nodes), y)
      ensures !ok ==> nodes == old(nodes)
      ensures ok ==> nodes == Erased(old(nodes), FirstIndex(old(nodes), y).value)
    {
      var found := FindNodeIndex(y);
      if found.None? {
        return false;
      }
      EraseBranchAtIndex(found.value);
      return true;
    }
    /** reparent: cut out the branch of x and put its nodes back one by one, the
        root under parentPayload and every other node under its old parent. The new
        parent must be in the tree (the ascent behind the cycle check asserts it is
        found). When it is x itself, the first insert fails, and so does every later
        one, since each looks for a parent inside the lost branch. */
    method Reparent(x: P, parentPayload: P)
      requires Valid() && Unique(nodes) && InTree(nodes, x)
      requires InTree(nodes, parentPayload) && !DescendsFrom(nodes, parentPayload, x)
      modifies this
      ensures Valid() && Unique(nodes)
      ensures parentPayload != x ==>
        && |nodes| == old(|nodes|) && Payloads(nodes) == old(Payloads(nodes))
        && ParentOf(nodes, x) == Some(parentPayload)
        && forall y :: y != x ==> ParentOf(nodes, y) == ParentOf(old(nodes), y)
      ensures parentPayload == x ==>
        nodes == Erased(old(nodes), FirstIndex(old(nodes), x).value)
    {
      var i := FindNodeIndex(x).value;
      var b := nodes[i].branchStride;
      ghost var s := nodes;
      ghost var moved := InTree(s, parentPayload) && parentPayload != x;
      assert i + b <= |s|;
      var branch := nodes[i..i + b];
      MoveFirstUnder(s, i, parentPayload);
      EraseBranchAtIndex(i);
      var ok := Insert(branch[0].payload, parentPayload);
      ReinsertRest(s, i, Some(parentPayload), moved, branch);
      if moved {
        ReinsertDone(s, i, Some(parentPayload), nodes);
      }
    }

    /** The loop reparent and unparent share: every node of the copied branch after
        its root goes back under the payload of its old parent. */
    method ReinsertRest(ghost s: seq<TreeNode<P>>, ghost i: nat, ghost top: Option<P>, ghost moved: bool, branch: seq<TreeNode<P>>)
      requires WellFormed(s) && Unique(s) && i < |s|
      requires |branch| == s[i].branchStride && i + |branch| <= |s| && branch == s[i..i + |branch|]
      requires Valid() && Moving(s, i, top, moved, nodes, 1)
      modifies this
      ensures Valid() && Moving(s, i, top, moved, nodes, |branch|)
    {
      var n := 1;
      while n < |branch|
        invariant 1 <= n <= |branch|
        invariant Valid() && Moving(s, i, top, moved, nodes, n)
      {
        var node := branch[n];
        MoveNext(s, i, top, moved, nodes, n);
        var parentNode := branch[n - node.parentOfs];
        BranchCopy(s, i, branch, n);
        var ok := Insert(node.payload, parentNode.payload);
        n := n + 1;
      }
    }

    /** unparent: cut out the branch of x, put x back as a new last root and every
        other node of the branch under its old parent. */
    method Unparent(x: P)
      requires Valid() && Unique(nodes) && InTree(nodes, x)
      modifies this
      ensures Valid() && Unique(nodes)
      ensures |nodes| == old(|nodes|) && Payloads(nodes) == old(Payloads(nodes))
      ensures ParentOf(nodes, x) == None
      ensures forall y :: y != x ==> ParentOf(nodes, y) == ParentOf(old(nodes), y)
    {
      var i := FindNodeIndex(x).value;
      var b := nodes[i].branchStride;
      ghost var s := nodes;
      assert i + b <= |s|;
      var branch := nodes[i..i + b];
      ReinsertFirstAsRoot(s, i);
      EraseBranchAtIndex(i);
      InsertAsRoot(branch[0].payload);
      ReinsertRest(s, i, None, true, branch);
      ReinsertDone(s, i, None, nodes);
    }
  }

  /** is_last_sibling as written reports a root as the last root even when another
      root follows its branch, where no later sibling exists is what it means. */
  lemma LastSiblingAsWrittenDiffers<P>(t: VecTree<P>, i: nat)
    requires t.Valid() && i < |t.nodes| && t.nodes[i].parentOfs == 0 && End(t.nodes, i) < |t.nodes|
    ensures t.IsLastSiblingAsWritten(i) && !t.IsLastSibling(i)
    ensures Siblings(t.nodes, End(t.nodes, i), i)
  {
    RootFollowsRoot(t.nodes, i);
  }

  /** Two single-node trees: the first root is not the last root, yet is_last_sibling
      as written says it is. */
  lemma TwoRootsCounterexample<P>(t: VecTree<P>, a: P, b: P)
    requires t.nodes == [TreeNode(0, 1, 0, a), TreeNode(0, 1, 0, b)]
    ensures t.Valid() && t.IsLastSiblingAsWritten(0) && !t.IsLastSibling(0)
  {
    var s := t.nodes;
    assert Chain(s, 1, 1) == [] && Chain(s, 2, 2) == [];
    assert forall i :: 0 <= i < |s| ==> CountAt(s, i);
    assert forall i :: 0 <= i < |s| ==> ParentAt(s, i);
    LastSiblingAsWrittenDiffers(t, 0);
  }

  /** The copied branch holds node i + n, and its parent at n - parentOfs. */
  lemma BranchCopy<P>(s: seq<TreeNode<P>>, i: nat, branch: seq<TreeNode<P>>, n: nat)
    requires i + |branch| <= |s| && branch == s[i..i + |branch|]
    requires n < |branch| && 0 < s[i + n].parentOfs <= n
    ensures branch[n] == s[i + n] && branch[n - branch[n].parentOfs] == s[i + n - s[i + n].parentOfs]
  {
  }

  // ---------------------------------------------------------------------------
  // The loops below are written on the node vector itself

  /** The children of j, found by stepping over their branches from j + 1, as many
      times as j's child count says. */
  method ChildIndices<P>(s: seq<TreeNode<P>>, j: nat) returns (cs: seq<nat>)
    requires Bounds(s) && j < |s| && CountAt(s, j)
    ensures cs == Chain(s, j + 1, End(s, j))
  {
    cs := [];
    var child: nat := j + 1;
    var m := 0;
    while m < s[j].nbrChildren
      invariant |cs| == m <= s[j].nbrChildren
      invariant |Chain(s, child, End(s, j))| == s[j].nbrChildren - m
      invariant cs + Chain(s, child, End(s, j)) == Chain(s, j + 1, End(s, j))
    {
      var rest := Chain(s, child, End(s, j));
      assert |rest| > 0;
      ChainStep(s, child, End(s, j));
      assert cs + rest == (cs + [child]) + Chain(s, End(s, child), End(s, j));
      cs := cs + [child];
      child := child + s[child].branchStride;
      m := m + 1;
    }
    assert cs + Chain(s, child, End(s, j)) == cs;
  }

  /** First walk of insert: from p back to its root, grow every stride that reaches p. */
  method GrowStrides<P>(s: seq<TreeNode<P>>, p: nat) returns (t: seq<TreeNode<P>>)
    requires WellFormed(s) && p < |s|
    ensures t == LiftedPart(s, p, 0, p + 1)
  {
    LiftedNone(s, p);
    StrideWalkLifts(s, p, p);
    t := s;
    var k: nat := p;
    while true
      invariant k <= p < |t| && StrideWalk(t, p, k) == LiftedPart(s, p, 0, p + 1)
      decreases k
    {
      if t[k].branchStride > p - k {
        t := t[k := t[k].(branchStride := t[k].branchStride + 1)];
      }
      if t[k].parentOfs == 0 || k == 0 {
        break;
      }
      k := k - 1;
    }
  }

  /** Second walk of insert: from p + 1 up to the next root, grow every offset that
      reaches back to p or before. */
  method GrowOffsets<P>(ghost s: seq<TreeNode<P>>, t0: seq<TreeNode<P>>, p: nat) returns (t: seq<TreeNode<P>>)
    requires WellFormed(s) && p < |s| && t0 == LiftedPart(s, p, 0, p + 1)
    ensures t == LiftedPart(s, p, 0, |s|)
  {
    OffsetWalkLifts(s, p, p + 1);
    t := t0;
    var f := p + 1;
    while f < |t|
      invariant p + 1 <= f <= |t| && OffsetWalk(t, p, f) == LiftedPart(s, p, 0, |s|)
    {
      if t[f].parentOfs == 0 {
        break;
      }
      if t[f].parentOfs >= f - p {
        t := t[f := t[f].(parentOfs := t[f].parentOfs + 1)];
      }
      f := f + 1;
    }
  }

  /** First walk of erase: from the anchor a back to its root, shrink every stride
      that reaches a by the erased branch size b. */
  method ShrinkStrides<P>(s: seq<TreeNode<P>>, a: nat, b: nat, ghost e: nat) returns (t: seq<TreeNode<P>>)
    requires WellFormed(s) && a < |s|
    ensures t == TrimmedPart(s, a, b, e, 0, e)
  {
    TrimmedNone(s, a, b, e);
    TrimStrideWalkTrims(s, a, b, e, a);
    t := s;
    var k: nat := a;
    while true
      invariant k <= a < |t| && TrimStrideWalk(t, a, b, k) == TrimmedPart(s, a, b, e, 0, e)
      decreases k
    {
      if t[k].branchStride > a - k {
        t := t[k := t[k].(branchStride := UnsignedSub(t[k].branchStride, b))];
      }
      if t[k].parentOfs == 0 || k == 0 {
        break;
      }
      k := k - 1;
    }
  }

  /** Second walk of erase: from e, the end of the erased branch, up to the next root,
      shrink every offset that reaches back to a or before. */
  method ShrinkOffsets<P>(ghost s: seq<TreeNode<P>>, t0: seq<TreeNode<P>>, a: nat, b: nat, e: nat) returns (t: seq<TreeNode<P>>)
    requires WellFormed(s) && a < e <= |s| && t0 == TrimmedPart(s, a, b, e, 0, e)
    ensures t == TrimmedPart(s, a, b, e, 0, |s|)
  {
    TrimOffsetWalkTrims(s, a, b, e, e);
    t := t0;
    var f := e;
    while f < |t|
      invariant e <= f <= |t| && TrimOffsetWalk(t, a, b, f) == TrimmedPart(s, a, b, e, 0, |s|)
    {
      if t[f].parentOfs == 0 {
        break;
      }
      if t[f].parentOfs >= f - a {
        t := t[f := t[f].(parentOfs := UnsignedSub(t[f].parentOfs, b))];
      }
      f := f + 1;
    }
  }
}
