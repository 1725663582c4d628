/**
 * Height-balanced check. The inner `dfs` answers either a height or `false`;
 * here `false` is `None`.
 */
module Balanced {
  import opened Wrappers
  import opened Trees
  import opened MaxDepth

  /** The local condition: the two child heights differ by at most one. */
  predicate HeightsClose(n: Tree<int>)
  {
    n.Node? ==> -1 <= MaxDepthRecursive(n.left) - MaxDepthRecursive(n.right) <= 1
  }

  /** Every node is height-balanced. */
  ghost predicate IsBalancedTree(t: Tree<int>)
  {
    EveryNode(t, HeightsClose)
  }

  /** Height-or-false: a failure below propagates, and so does a height gap above one. */
  function Dfs(node: Tree<int>): (r: Option<nat>)
    ensures r.Some? <==> IsBalancedTree(node)
    ensures r.Some? ==> r.value == MaxDepthRecursive(node)
  {
    if node.Nil? then
      HeightNilBalanced(node);
      Some(0)
    else
      var left := Dfs(node.left);
      var right := Dfs(node.right);
      EveryNodeSplit(node, HeightsClose);
      if left.None? || right.None? then None
      else if left.value - right.value > 1 || right.value - left.value > 1 then None
      else Some(Max(left.value, right.value) + 1)
  }

  lemma HeightNilBalanced(t: Tree<int>)
    requires t.Nil?
    ensures IsBalancedTree(t)
  {
    forall a ensures !IsAddr(t, a) {
      AtNil<int>(a);
    }
  }

  /** The entry point: balanced iff `dfs` did not answer false. */
  function IsBalanced(root: Tree<int>): (ok: bool)
    ensures ok <==> IsBalancedTree(root)
  {
    Dfs(root).Some?
  }

  /** The test trees: [3,9,20,null,null,15,7] and the single node are balanced; [1,2,2,3,3,null,null,4,4] and the zig-zag 1-2-3 are not. */
  lemma TableCases()
    ensures Dfs(Node(Tip(9), 3, Node(Tip(15), 20, Tip(7)))) == Some(3)
    ensures Dfs(Nil) == Some(0)
    ensures Dfs(Tip(1)) == Some(1)
    ensures Dfs(Node(Node(Node(Tip(4), 3, Tip(4)), 2, Tip(3)), 1, Tip(2))).None?
    ensures Dfs(Node(Node(Nil, 2, Tip(3)), 1, Nil)).None?
  {
  }
}
