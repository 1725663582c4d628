/**
 * Diameter of a binary tree: the largest number of edges on a path between two
 * nodes. The source computes heights bottom-up and, at every node, records the
 * best "left height + right height" seen so far in a variable shared by all calls.
 */
module Diameter {
  import opened Trees
  import opened MaxDepth

  /** Edges on the longest path whose highest node is the root of `t`. */
  function Through(t: Tree<int>): nat
  {
    if t.Nil? then 0 else MaxDepthRecursive(t.left) + MaxDepthRecursive(t.right)
  }

  /** The largest `Through` over all nodes (0 for the empty tree). */
  function Widest(t: Tree<int>): nat
  {
    if t.Nil? then 0 else Max(Through(t), Max(Widest(t.left), Widest(t.right)))
  }

  /** `Widest` bounds `Through` at every node and is reached at some node of a non-empty tree. */
  lemma {:induction false} WidestIsLargestThrough(t: Tree<int>)
    ensures forall a :: IsAddr(t, a) ==> Through(At(t, a)) <= Widest(t)
    ensures t.Node? ==> exists a :: IsAddr(t, a) && Through(At(t, a)) == Widest(t)
  {
    if t.Node? {
      var l, v, r := t.left, t.val, t.right;
      WidestIsLargestThrough(l);
      WidestIsLargestThrough(r);
      forall a | IsAddr(t, a) ensures Through(At(t, a)) <= Widest(t) {
        if a != [] {
          AtSplit(t, a);
        }
      }
      if Widest(t) == Through(t) {
        assert IsAddr(t, []);
      } else if Widest(t) == Widest(l) {
        var b :| IsAddr(l, b) && Through(At(l, b)) == Widest(l);
        AtNode(l, v, r, L, b);
        assert IsAddr(t, [L] + b);
      } else {
        var b :| IsAddr(r, b) && Through(At(r, b)) == Widest(r);
        AtNode(l, v, r, R, b);
        assert IsAddr(t, [R] + b);
      }
    }
  }

  /** The state shared by the recursive calls: the closure variable `maxDiameter`. */
  class DiameterScan {
    var maxDiameter: nat

    constructor()
      ensures maxDiameter == 0
    {
      maxDiameter := 0;
    }

    /** Returns the height of `node` and folds every node's left+right height into `maxDiameter`. */
    method Height(node: Tree<int>) returns (h: nat)
      modifies this
      ensures h == MaxDepthRecursive(node)
      ensures maxDiameter == Max(old(maxDiameter), Widest(node))
      decreases node
    {
      if node.Nil? {
        return 0;
      }
      var leftHeight := Height(node.left);
      var rightHeight := Height(node.right);
      var diameterHere := leftHeight + rightHeight;
      maxDiameter := Max(maxDiameter, diameterHere);
      h := 1 + Max(leftHeight, rightHeight);
    }
  }

  /** The answer is the largest left+right height over all nodes, and never negative. */
  method DiameterOfBinaryTree(root: Tree<int>) returns (d: int)
    ensures d == Widest(root)
    ensures d >= 0
  {
    var scan := new DiameterScan();
    var _ := scan.Height(root);
    d := scan.maxDiameter;
  }

  /** The test trees of the source and their diameters. */
  lemma TableCases()
    ensures Widest(Node(Node(Tip(4), 2, Tip(5)), 1, Tip(3))) == 3
    ensures Widest(Tip(1)) == 0
    ensures Widest(Nil) == 0
    ensures Widest(Node(Node(Tip(3), 2, Nil), 1, Nil)) == 2
    ensures Widest(Node(Node(Node(Tip(5), 3, Nil), 2, Node(Nil, 4, Tip(6))), 1, Nil)) == 4
    ensures Widest(Node(Tip(2), 1, Nil)) == 1
    ensures Widest(Node(Node(Node(Tip(6), 4, Tip(7)), 2, Tip(5)), 1, Tip(3))) == 4
  {
  }
}
