/** What the traversals of VecTree visit: the index ranges a branch occupies, the
    pending-work stack of the depth-first walk with levels and the queue of the
    breadth-first walk. */
module TreeWalk {
  import opened TreeForest

  /** The indices c, c + 1, ..., e - 1. */
  function Range(c: nat, e: nat): seq<nat>
  {
    seq(if c <= e then e - c else 0, m requires 0 <= m => c + m)
  }

  lemma RangeSplit(c: nat, m: nat, e: nat)
    requires c <= m <= e
    ensures Range(c, e) == Range(c, m) + Range(m, e)
  {
    var r := Range(c, m) + Range(m, e);
    assert |r| == |Range(c, e)|;
    forall k | 0 <= k < |r|
      ensures r[k] == Range(c, e)[k]
    {
      if k >= m - c {
        assert r[k] == Range(m, e)[k - (m - c)];
      }
    }
  }

  /** A non-empty range starts with its lower end. */
  lemma RangeHead(c: nat, e: nat)
    requires c < e
    ensures Range(c, e) == [c] + Range(c + 1, e)
  {
    var r := [c] + Range(c + 1, e);
    assert |r| == |Range(c, e)|;
    forall k | 0 <= k < |r|
      ensures r[k] == Range(c, e)[k]
    {
      if k > 0 {
        assert r[k] == Range(c + 1, e)[k - 1];
      }
    }
  }

  /** The branch of j is exactly the set of nodes whose ascent passes through j. */
  lemma BranchIsDescendants<P>(s: seq<TreeNode<P>>, j: nat, k: nat)
    requires WellFormed(s) && j < |s|
    ensures k in Range(j, End(s, j)) <==> k < |s| && j in AscentPath(s, k)
  {
    var r := Range(j, End(s, j));
    if k < |s| {
      AscentPathIsAncestors(s, k, j);
      if Spans(s, j, k) {
        assert r[k - j] == k;
      }
    }
    if k in r {
      var m :| 0 <= m < |r| && r[m] == k;
    }
  }

  // ---------------------------------------------------------------------------
  // Depth-first traversal with levels

  /** The reverse of q (inserting a vector's elements from rbegin to rend). */
  function Reversed<T>(q: seq<T>): (r: seq<T>)
    ensures |r| == |q|
  {
    if |q| == 0 then [] else Reversed(q[1..]) + [q[0]]
  }

  /** Each index of cs paired with the level l. */
  function Levelled(cs: seq<nat>, l: nat): (r: seq<(nat, nat)>)
    ensures |r| == |cs|
  {
    if |cs| == 0 then [] else [(cs[0], l)] + Levelled(cs[1..], l)
  }

  /** The stack st, read from its top, holds branch roots whose branches tile
      [from, to) in order, each with its depth below a node at depth d0. */
  ghost predicate Pending<P>(s: seq<TreeNode<P>>, st: seq<(nat, nat)>, from: nat, to: nat, d0: nat)
    decreases |st|
  {
    if |st| == 0 then from == to
    else
      var top := st[|st| - 1];
      && top.0 == from && from < |s| && End(s, from) <= to
      && top.1 + d0 == Depth(s, from)
      && Pending(s, st[..|st| - 1], End(s, from), to, d0)
  }

  /** A non-empty pending stack has work left. */
  lemma PendingNonEmpty<P>(s: seq<TreeNode<P>>, st: seq<(nat, nat)>, from: nat, to: nat, d0: nat)
    requires Bounds(s) && Pending(s, st, from, to, d0) && |st| > 0
    ensures from < to
  {
  }

  /** Pushing the children of j, first child on top, replaces j by its children on
      the pending stack. */
  lemma {:induction false} PendingChildren<P>(s: seq<TreeNode<P>>, rest: seq<(nat, nat)>, j: nat, c: nat, l: nat, to: nat, d0: nat)
    requires WellFormed(s) && j < |s| && j < c <= End(s, j) && End(s, j) <= to
    requires c == End(s, j) || IsChild(s, c, j)
    requires Pending(s, rest, End(s, j), to, d0) && l + d0 == Depth(s, j) + 1
    ensures Pending(s, rest + Reversed(Levelled(Chain(s, c, End(s, j)), l)), c, to, d0)
    decreases End(s, j) - c
  {
    var e := End(s, j);
    if c == e {
      assert rest + Reversed(Levelled(Chain(s, c, e), l)) == rest;
    } else {
      ChainStep(s, c, e);
      var tail := Chain(s, End(s, c), e);
      ReversedLevelledCons(c, tail, l, rest);
      ParentEncloses(s, c);
      DepthOfChild(s, c);
      if End(s, c) < e {
        NextSibling(s, j, c);
      }
      PendingChildren(s, rest, j, End(s, c), l, to, d0);
      PendingPush(s, rest + Reversed(Levelled(tail, l)), c, l, to, d0);
    }
  }

  /** Pushing c with level l onto a stack pending from the end of c's branch. */
  lemma PendingPush<P>(s: seq<TreeNode<P>>, st: seq<(nat, nat)>, c: nat, l: nat, to: nat, d0: nat)
    requires c < |s| && End(s, c) <= to && l + d0 == Depth(s, c)
    requires Pending(s, st, End(s, c), to, d0)
    ensures Pending(s, st + [(c, l)], c, to, d0)
  {
    assert (st + [(c, l)])[..|st|] == st;
  }

  /** The stack pushed for a chain c, tail, read from its top, starts with c. */
  lemma ReversedLevelledCons(c: nat, tail: seq<nat>, l: nat, rest: seq<(nat, nat)>)
    ensures rest + Reversed(Levelled([c] + tail, l)) == rest + Reversed(Levelled(tail, l)) + [(c, l)]
  {
    assert ([c] + tail)[1..] == tail;
  }

  /** Popping the top of the pending stack and pushing its children, first child on
      top, leaves the rest of the range pending. */
  lemma PendingPop<P>(s: seq<TreeNode<P>>, st: seq<(nat, nat)>, from: nat, to: nat, d0: nat)
    requires WellFormed(s) && Pending(s, st, from, to, d0) && |st| > 0
    ensures st[|st| - 1].0 == from < |s| && st[|st| - 1].1 + d0 == Depth(s, from)
    ensures Pending(s, st[..|st| - 1] + Reversed(Levelled(Chain(s, from + 1, End(s, from)), st[|st| - 1].1 + 1)), from + 1, to, d0)
  {
    var top := st[|st| - 1];
    if from + 1 < End(s, from) {
      FirstChild(s, from);
    }
    PendingChildren(s, st[..|st| - 1], from, from + 1, top.1 + 1, to, d0);
  }

  /** The top of a non-empty pending stack is the index the range is pending from. */
  lemma PendingTop<P>(s: seq<TreeNode<P>>, st: seq<(nat, nat)>, from: nat, to: nat, d0: nat)
    requires Pending(s, st, from, to, d0) && |st| > 0
    ensures st[|st| - 1].0 == from < |s| && st[|st| - 1].1 + d0 == Depth(s, from)
  {
  }

  /** One step of the depth-first walk with levels: the top of the stack is the
      next index in order, reported with its level, and its children take its place. */
  lemma LevelsStep<P>(s: seq<TreeNode<P>>, st: seq<(nat, nat)>, visits: seq<(nat, nat)>, start: nat, e: nat, d0: nat,
                      top: (nat, nat), cs: seq<nat>, st': seq<(nat, nat)>, visits': seq<(nat, nat)>)
    requires WellFormed(s) && start + |visits| <= e <= |s|
    requires Pending(s, st, start + |visits|, e, d0)
    requires forall m :: 0 <= m < |visits| ==>
      visits[m].0 == start + m && visits[m].1 + d0 == Depth(s, start + m)
    requires |st| > 0 && top == st[|st| - 1] && top.0 < |s| && cs == Chain(s, top.0 + 1, End(s, top.0))
    requires visits' == visits + [top] && st' == st[..|st| - 1] + Reversed(Levelled(cs, top.1 + 1))
    ensures start + |visits'| <= e
    ensures Pending(s, st', start + |visits'|, e, d0)
    ensures forall m :: 0 <= m < |visits'| ==>
      visits'[m].0 == start + m && visits'[m].1 + d0 == Depth(s, start + m)
  {
    PendingNonEmpty(s, st, start + |visits|, e, d0);
    PendingPop(s, st, start + |visits|, e, d0);
    assert start + |visits'| == start + |visits| + 1;
  }

  // ---------------------------------------------------------------------------
  // Breadth-first traversal

  /** The branches of the queued indices, one after another. */
  function Unvisited<P>(s: seq<TreeNode<P>>, q: seq<nat>): seq<nat>
  {
    if |q| == 0 then []
    else (if q[0] < |s| then Range(q[0], End(s, q[0])) else []) + Unvisited(s, q[1..])
  }

  lemma {:induction false} UnvisitedAppend<P>(s: seq<TreeNode<P>>, a: seq<nat>, b: seq<nat>)
    ensures Unvisited(s, a + b) == Unvisited(s, a) + Unvisited(s, b)
    decreases |a|
  {
    if |a| > 0 {
      assert (a + b)[1..] == a[1..] + b;
      UnvisitedAppend(s, a[1..], b);
    } else {
      assert a + b == b;
    }
  }

  /** The branches along a chain inside j's branch tile the rest of j's branch. */
  lemma {:induction false} ChainCovers<P>(s: seq<TreeNode<P>>, j: nat, c: nat)
    requires WellFormed(s) && j < |s| && j < c <= End(s, j)
    ensures Unvisited(s, Chain(s, c, End(s, j))) == Range(c, End(s, j))
    decreases End(s, j) - c
  {
    var e := End(s, j);
    if c < e {
      assert Encloses(s, j, c);
      ChainStep(s, c, e);
      assert Chain(s, c, e)[1..] == Chain(s, End(s, c), e);
      ChainCovers(s, j, End(s, c));
      RangeSplit(c, End(s, c), e);
    }
  }

  /** Appending j's children to a queue of valid indices keeps it valid. */
  lemma QueueBounds<P>(s: seq<TreeNode<P>>, rest: seq<nat>, j: nat)
    requires WellFormed(s) && j < |s| && forall m :: 0 <= m < |rest| ==> rest[m] < |s|
    ensures var q' := rest + Chain(s, j + 1, End(s, j)); forall m :: 0 <= m < |q'| ==> q'[m] < |s|
  {
    ChainTiles(s, j, j + 1);
  }

  /** Before j is taken off the queue: j, then the rest of j's branch, then the
      branches of the other queued indices. */
  lemma UnvisitedHead<P>(s: seq<TreeNode<P>>, q: seq<nat>)
    requires |q| > 0 && q[0] < |s| && 1 <= s[q[0]].branchStride
    ensures Unvisited(s, q) == [q[0]] + Range(q[0] + 1, End(s, q[0])) + Unvisited(s, q[1..])
  {
    RangeHead(q[0], End(s, q[0]));
  }

  /** Appending j's children to a queue adds the rest of j's branch at its end. */
  lemma UnvisitedChildren<P>(s: seq<TreeNode<P>>, rest: seq<nat>, j: nat)
    requires WellFormed(s) && j < |s|
    ensures Unvisited(s, rest + Chain(s, j + 1, End(s, j))) == Unvisited(s, rest) + Range(j + 1, End(s, j))
  {
    UnvisitedAppend(s, rest, Chain(s, j + 1, End(s, j)));
    ChainCovers(s, j, j + 1);
  }

  /** Taking the head j off the queue and appending j's children leaves the same
      indices to visit, less j. */
  lemma QueueStep<P>(s: seq<TreeNode<P>>, q: seq<nat>)
    requires WellFormed(s) && |q| > 0 && forall m :: 0 <= m < |q| ==> q[m] < |s|
    ensures var j := q[0]; var q' := q[1..] + Chain(s, j + 1, End(s, j));
      && (forall m :: 0 <= m < |q'| ==> q'[m] < |s|)
      && multiset(Unvisited(s, q)) == multiset([j] + Unvisited(s, q'))
      && |Unvisited(s, q)| == |Unvisited(s, q')| + 1
  {
    var j := q[0];
    QueueBounds(s, q[1..], j);
    UnvisitedHead(s, q);
    UnvisitedChildren(s, q[1..], j);
    SwapTails(j, Range(j + 1, End(s, j)), Unvisited(s, q[1..]), Unvisited(s, q),
      Unvisited(s, q[1..] + Chain(s, j + 1, End(s, j))));
  }

  /** Reordering the tail of a sequence keeps its elements and its length. */
  lemma SwapTails<T>(x: T, b: seq<T>, c: seq<T>, whole: seq<T>, swapped: seq<T>)
    requires whole == [x] + b + c && swapped == c + b
    ensures multiset(whole) == multiset([x] + swapped) && |whole| == |swapped| + 1
  {
    calc {
      multiset([x] + b + c);
      multiset([x]) + multiset(b) + multiset(c);
      multiset([x]) + multiset(c + b);
      multiset([x] + (c + b));
    }
  }

  /** Each child index of j paired with j (what traverse_progressive reports for j's
      children). */
  function Parented(cs: seq<nat>, j: nat): (r: seq<(nat, Option<nat>)>)
    ensures |r| == |cs|
  {
    seq(|cs|, m requires 0 <= m < |cs| => (cs[m], Some(j)))
  }

  lemma ParentedMembers(cs: seq<nat>, j: nat, c: nat, p: Option<nat>)
    ensures (c, p) in Parented(cs, j) <==> p == Some(j) && c in cs
  {
    if c in cs && p == Some(j) {
      var m :| 0 <= m < |cs| && cs[m] == c;
      assert Parented(cs, j)[m] == (c, p);
    }
  }

  /** What traverse_progressive reports at node k: (k, no parent) when k is a root,
      then (c, k) for each child c of k, in chain order. */
  function VisitsAt<P>(s: seq<TreeNode<P>>, k: nat): seq<(nat, Option<nat>)>
    requires k < |s|
  {
    (if s[k].parentOfs == 0 then [(k, None)] else []) + Parented(Chain(s, k + 1, End(s, k)), k)
  }

  /** The reports of traverse_progressive at the nodes a, a + 1, ..., e - 1, in
      that order. */
  function Progressive<P>(s: seq<TreeNode<P>>, a: nat, e: nat): seq<(nat, Option<nat>)>
    requires a <= e <= |s|
    decreases e - a
  {
    if a == e then [] else Progressive(s, a, e - 1) + VisitsAt(s, e - 1)
  }

  /** Walking [a, e) is walking [a, m) and then [m, e). */
  lemma {:induction false} ProgressiveSplit<P>(s: seq<TreeNode<P>>, a: nat, m: nat, e: nat)
    requires a <= m <= e <= |s|
    ensures Progressive(s, a, e) == Progressive(s, a, m) + Progressive(s, m, e)
    decreases e - m
  {
    if m < e {
      ProgressiveSplit(s, a, m, e - 1);
    }
  }

  /** The walk over [a, m) followed by the walk over [m, e) is the walk over [a, e). */
  lemma ProgressiveAppend<P>(s: seq<TreeNode<P>>, a: nat, m: nat, e: nat, v: seq<(nat, Option<nat>)>, w: seq<(nat, Option<nat>)>)
    requires a <= m <= e <= |s| && v == Progressive(s, a, m) && w == Progressive(s, m, e)
    ensures v + w == Progressive(s, a, e)
  {
    ProgressiveSplit(s, a, m, e);
  }

  /** The walk over [a, k) followed by the reports at k is the walk over [a, k + 1). */
  lemma ProgressiveStep<P>(s: seq<TreeNode<P>>, a: nat, k: nat, v: seq<(nat, Option<nat>)>, w: seq<(nat, Option<nat>)>)
    requires a <= k < |s| && v == Progressive(s, a, k) && w == VisitsAt(s, k)
    ensures v + w == Progressive(s, a, k + 1)
  {
  }

  /** The node at whose visit the report (c, p) is made: the parent of a child
      report, the node itself for a root report. */
  function Owner(c: nat, p: Option<nat>): nat
  {
    if p.Some? then p.value else c
  }

  /** The reports at k: k itself, without a parent, when it is a root, and every
      index of k's child chain with k as its parent. */
  lemma VisitsAtMembers<P>(s: seq<TreeNode<P>>, k: nat, c: nat, p: Option<nat>)
    requires k < |s|
    ensures (c, p) in VisitsAt(s, k) <==>
      || (p == None && c == k && s[k].parentOfs == 0)
      || (p == Some(k) && c in Chain(s, k + 1, End(s, k)))
  {
    ParentedMembers(Chain(s, k + 1, End(s, k)), k, c, p);
  }

  /** A report of the walk over [a, e) is one made at its owner, which lies in
      [a, e). */
  lemma {:induction false} ProgressiveOwned<P>(s: seq<TreeNode<P>>, a: nat, e: nat, c: nat, p: Option<nat>)
    requires a <= e <= |s|
    ensures (c, p) in Progressive(s, a, e) <==> a <= Owner(c, p) < e && (c, p) in VisitsAt(s, Owner(c, p))
    decreases e - a
  {
    if a < e {
      var pre, at := Progressive(s, a, e - 1), VisitsAt(s, e - 1);
      assert Progressive(s, a, e) == pre + at;
      assert (c, p) in pre + at <==> (c, p) in pre || (c, p) in at;
      ProgressiveOwned(s, a, e - 1, c, p);
      VisitsAtMembers(s, e - 1, c, p);
      if Owner(c, p) != e - 1 {
        assert (c, p) !in at;
      }
    }
  }

  /** In a forest, the walk over [a, e) reports every child of a node in [a, e)
      with that node as its parent, every root in [a, e) without a parent, and
      nothing else. */
  lemma ProgressiveVisits<P>(s: seq<TreeNode<P>>, a: nat, e: nat)
    requires WellFormed(s) && a <= e <= |s|
    ensures forall c: nat, q: nat :: (c, Some(q)) in Progressive(s, a, e) <==> a <= q < e && IsChild(s, c, q)
    ensures forall k: nat :: (k, None) in Progressive(s, a, e) <==> a <= k < e && s[k].parentOfs == 0
  {
    forall c: nat, q: nat
      ensures (c, Some(q)) in Progressive(s, a, e) <==> a <= q < e && IsChild(s, c, q)
    {
      ProgressiveOwned(s, a, e, c, Some(q));
      if q < |s| {
        VisitsAtMembers(s, q, c, Some(q));
        ChildrenAreChain(s, q, c);
      }
    }
    forall k: nat
      ensures (k, None) in Progressive(s, a, e) <==> a <= k < e && s[k].parentOfs == 0
    {
      ProgressiveOwned(s, a, e, k, None);
      if k < |s| {
        VisitsAtMembers(s, k, k, None);
      }
    }
  }
}
