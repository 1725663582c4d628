/**
 * Flatten Binary Tree to Linked List: rewire a tree, in place, into a chain
 * that follows `right` links in preorder with every `left` link empty, and
 * the `flattenedToArray` helper that reads such a chain back.
 */
module Flatten {
  import opened Trees
  import opened TreeTraversal
  import opened HeapTrees

  /** The node a chain starts at: its first node, or `last` when it is empty. */
  function Head(ns: seq<Node>, last: Node?): Node?
  {
    if ns == [] then last else ns[0]
  }

  /** Following `right` from the first of `ns` visits `ns` in order, then reaches `last`. */
  ghost predicate RightChain(ns: seq<Node>, last: Node?)
    reads ns
  {
    forall i :: 0 <= i < |ns| ==> ns[i].right == Head(ns[i + 1..], last)
  }

  /** A right-only chain: `RightChain` with every `left` link empty. */
  ghost predicate Chain(ns: seq<Node>, last: Node?)
    reads ns
  {
    RightChain(ns, last) && forall i :: 0 <= i < |ns| ==> ns[i].left == null
  }

  /** The values held by the nodes of `ns`, in order. */
  ghost function Vals(ns: seq<Node>): (vs: seq<int>)
    reads ns
    ensures |vs| == |ns|
  {
    if ns == [] then [] else [ns[0].val] + Vals(ns[1..])
  }

  lemma {:induction false} ValsAppend(a: seq<Node>, b: seq<Node>)
    ensures Vals(a + b) == Vals(a) + Vals(b)
  {
    if a == [] {
      assert a + b == b;
    } else {
      assert (a + b)[1..] == a[1..] + b;
      ValsAppend(a[1..], b);
    }
  }

  /** The preorder of the nodes holds the preorder of the values. */
  lemma {:induction false} ValsPreNodes(s: Shape)
    ensures Vals(PreNodes(s)) == PreOrder(Abs(s))
  {
    if s.Fork? {
      ValsPreNodes(s.l);
      ValsPreNodes(s.r);
      ValsAppend([s.node], PreNodes(s.l));
      ValsAppend([s.node] + PreNodes(s.l), PreNodes(s.r));
    }
  }

  lemma ChainCons(x: Node, ns: seq<Node>, last: Node?)
    requires Chain(ns, last) && x.left == null && x.right == Head(ns, last)
    ensures Chain([x] + ns, last)
  {
    var xs := [x] + ns;
    forall i | 0 <= i < |xs|
      ensures xs[i].right == Head(xs[i + 1..], last) && xs[i].left == null
    {
      if i == 0 {
        assert xs[1..] == ns;
      } else {
        assert xs[i] == ns[i - 1] && xs[i + 1..] == ns[i..];
      }
    }
  }

  lemma ChainJoin(a: seq<Node>, b: seq<Node>, last: Node?)
    requires Chain(a, Head(b, last)) && Chain(b, last)
    ensures Chain(a + b, last)
  {
    var ab := a + b;
    forall i | 0 <= i < |ab|
      ensures ab[i].right == Head(ab[i + 1..], last) && ab[i].left == null
    {
      if i < |a| {
        assert ab[i] == a[i];
        if i + 1 < |a| {
          assert ab[i + 1..][0] == a[i + 1..][0];
        } else {
          assert ab[i + 1..] == b;
        }
      } else {
        assert ab[i] == b[i - |a|] && ab[i + 1..] == b[i - |a| + 1..];
      }
    }
  }

  /** A subtree's preorder starts at its root. */
  lemma HeadPreNodes(s: Shape, n: Node?)
    requires Links(s, n)
    ensures Head(PreNodes(s), null) == n
  {
  }

  /** `node`, the nodes of `pl` and the nodes of `pr` are pairwise different nodes. */
  ghost predicate Apart(node: Node, pl: seq<Node>, pr: seq<Node>)
  {
    && node !in pl && node !in pr
    && (forall i, j :: 0 <= i < j < |pl| ==> pl[i] != pl[j])
    && (forall i, j :: 0 <= i < |pl| && 0 <= j < |pr| ==> pl[i] != pr[j])
  }

  lemma ForkApart(s: Shape)
    requires WellShaped(s) && s.Fork?
    ensures Apart(s.node, PreNodes(s.l), PreNodes(s.r))
  {
    PreNodesAreNodes(s.l);
    PreNodesAreNodes(s.r);
  }

  /**
   * Joins `node`, its flattened left part and its flattened right part. When
   * the left part is non-empty three links change: the left tail takes over
   * `node.right`, `node.right` takes the left part, and `node.left` is cleared.
   */
  method Rewire(node: Node, leftTail: Node?, ghost pl: seq<Node>, ghost pr: seq<Node>)
    requires leftTail == (if pl == [] then null else pl[|pl| - 1])
    requires node.left == Head(pl, null) && node.right == Head(pr, null)
    requires Chain(pl, null) && Chain(pr, null)
    requires Apart(node, pl, pr)
    modifies node`left, node`right, (if leftTail == null then {} else {leftTail})`right
    ensures Chain([node] + pl + pr, null)
  {
    if leftTail == null {
      ChainCons(node, pr, null);
      assert [node] + pl + pr == [node] + pr;
      return;
    }
    leftTail.right := node.right;
    forall i | 0 <= i < |pl|
      ensures pl[i].right == Head(pl[i + 1..], Head(pr, null)) && pl[i].left == null
    {
      if i < |pl| - 1 {
        assert pl[i] != leftTail;
      }
    }
    forall j | 0 <= j < |pr|
      ensures pr[j].right == Head(pr[j + 1..], null) && pr[j].left == null
    {
      assert pr[j] != leftTail;
    }
    node.right := node.left;
    node.left := null;
    assert Chain(pl, Head(pr, null)) && Chain(pr, null);
    ChainJoin(pl, pr, null);
    ChainCons(node, pl + pr, null);
    assert [node] + pl + pr == [node] + (pl + pr);
  }

  /**
   * `dfs`: flattens the subtree at `node` and returns the last node of its
   * chain (the right part's tail, else the left part's tail, else the node).
   */
  method Dfs(node: Node?, ghost s: Shape) returns (tail: Node?)
    requires Realizes(s, node)
    modifies Nodes(s)`left, Nodes(s)`right
    ensures Chain(PreNodes(s), null)
    ensures tail == if s.Leaf? then null else PreNodes(s)[|PreNodes(s)| - 1]
    decreases s
  {
    if node == null {
      return null;
    }
    ghost var sl, sr := s.l, s.r;
    ghost var pl, pr := PreNodes(sl), PreNodes(sr);
    assert Links(sl, node.left) && Links(sr, node.right);
    assert node !in Nodes(sl) && node !in Nodes(sr) && Nodes(sl) !! Nodes(sr);
    NodesAllocated(sl);
    NodesAllocated(sr);
    PreNodesAreNodes(sl);
    PreNodesAreNodes(sr);
    ForkApart(s);
    HeadPreNodes(sl, node.left);
    HeadPreNodes(sr, node.right);
    var leftTail := Dfs(node.left, sl);
    assert Links(sr, node.right);
    var rightTail := Dfs(node.right, sr);
    assert Chain(pl, null);
    Rewire(node, leftTail, pl, pr);
    assert PreNodes(s) == [node] + pl + pr;
    tail := if rightTail != null then rightTail else if leftTail != null then leftTail else node;
  }

  /**
   * `flatten`: rewires the whole tree into a right-only chain. Following
   * `right` from the root visits the old preorder; no node is created or
   * dropped and no value changes.
   */
  method FlattenTree(root: Node?, ghost s: Shape)
    requires Realizes(s, root)
    modifies Nodes(s)`left, Nodes(s)`right
    ensures Chain(PreNodes(s), null) && Head(PreNodes(s), null) == root
    ensures Vals(PreNodes(s)) == PreOrder(old(Abs(s)))
  {
    HeadPreNodes(s, root);
    NodesAllocated(s);
    var _ := Dfs(root, s);
    ValsPreNodes(s);
  }

  /**
   * `flattenedToArray`: follows `right` from `root`, collecting values, and
   * reports whether some visited node still had a left child.
   */
  method FlattenedToArray(root: Node?, ghost ns: seq<Node>) returns (result: seq<int>, leftSeen: bool)
    requires RightChain(ns, null) && root == Head(ns, null)
    ensures result == Vals(ns)
    ensures leftSeen <==> exists i :: 0 <= i < |ns| && ns[i].left != null
  {
    result := [];
    leftSeen := false;
    var current := root;
    ghost var i := 0;
    while current != null
      invariant 0 <= i <= |ns| && current == Head(ns[i..], null)
      invariant result + Vals(ns[i..]) == Vals(ns)
      invariant leftSeen <==> exists j :: 0 <= j < i && ns[j].left != null
      decreases |ns| - i
    {
      assert ns[i..][1..] == ns[i + 1..];
      result := result + [current.val];
      if current.left != null {
        leftSeen := true;
      }
      current := current.right;
      i := i + 1;
    }
    assert ns[i..] == [];
  }


  /**
   * The chain `flatten` leaves holds the preorder, so the listed cases read back as
   * [1,2,3] -> 1, 2, 3 and [1,2,5,3,4,null,6] -> 1, 2, 3, 4, 5, 6.
   */
  lemma TableCases()
    ensures PreOrder(Node(Tip(2), 1, Tip(3))) == [1, 2, 3]
    ensures PreOrder(Node(Node(Tip(3), 2, Tip(4)), 1, Node(Nil, 5, Tip(6)))) == [1, 2, 3, 4, 5, 6]
    ensures PreOrder(Node(Node(Node(Tip(4), 3, Nil), 2, Nil), 1, Nil)) == [1, 2, 3, 4]
  {
    assert PreOrder(Tip(3)) == [3] && PreOrder(Tip(4)) == [4] && PreOrder(Tip(6)) == [6];
    assert PreOrder(Node(Tip(3), 2, Tip(4))) == [2, 3, 4];
    assert PreOrder(Node(Nil, 5, Tip(6))) == [5, 6];
    assert PreOrder(Node(Tip(4), 3, Nil)) == [3, 4];
    assert PreOrder(Node(Node(Tip(4), 3, Nil), 2, Nil)) == [2, 3, 4];
  }
}
