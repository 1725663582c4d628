/** Preorder traversal, recursively into a shared output list and with an explicit stack. */
module Preorder {
  import opened Trees
  import opened TreeTraversal

  /** Appends the node, then its whole left subtree, then its right subtree, to `output`. */
  method Recurse(node: Tree<int>, output: seq<int>) returns (out: seq<int>)
    ensures out == output + PreOrder(node)
  {
    if node.Nil? {
      return output;
    }
    out := output + [node.val];
    out := Recurse(node.left, out);
    out := Recurse(node.right, out);
    assert out == output + ([node.val] + PreOrder(node.left) + PreOrder(node.right));
  }

  method PreorderTraversalRecursive(root: Tree<int>) returns (output: seq<int>)
    ensures output == PreOrder(root)
  {
    output := Recurse(root, []);
  }

  /** What the stack still has to emit: the preorders of its entries, top of stack first. */
  function Pending(stack: seq<Tree<int>>): seq<int>
  {
    if stack == [] then [] else PreOrder(stack[|stack| - 1]) + Pending(stack[..|stack| - 1])
  }

  /** A measure that drops with every pop: absent entries weigh 1, a node 2 * size + 1. */
  function Weight(stack: seq<Tree<int>>): nat
  {
    if stack == [] then 0 else 2 * Size(stack[|stack| - 1]) + 1 + Weight(stack[..|stack| - 1])
  }

  /** Popping a node, emitting it and pushing its right child, then its left, keeps what is left to emit. */
  lemma Emit(before: seq<int>, below: seq<Tree<int>>, t: Tree<int>, root: Tree<int>)
    requires t.Node? && before + Pending(below + [t]) == PreOrder(root)
    ensures (before + [t.val]) + Pending(below + [t.right] + [t.left]) == PreOrder(root)
    ensures Weight(below + [t.right] + [t.left]) < Weight(below + [t])
  {
    var s1 := below + [t.right];
    var s2 := s1 + [t.left];
    assert s2[..|s2| - 1] == s1;
    assert s1[..|s1| - 1] == below;
    assert (below + [t])[..|below|] == below;
    assert Pending(s2) == PreOrder(t.left) + (PreOrder(t.right) + Pending(below));
    assert Pending(below + [t]) == ([t.val] + PreOrder(t.left) + PreOrder(t.right)) + Pending(below);
    Regroup(before, t.val, PreOrder(t.left), PreOrder(t.right), Pending(below));
  }

  lemma Regroup(b: seq<int>, v: int, l: seq<int>, r: seq<int>, p: seq<int>)
    ensures (b + [v]) + (l + (r + p)) == b + (([v] + l + r) + p)
  {
  }

  /** Popping an absent child emits nothing. */
  lemma Skip(before: seq<int>, below: seq<Tree<int>>, t: Tree<int>, root: Tree<int>)
    requires t.Nil? && before + Pending(below + [t]) == PreOrder(root)
    ensures before + Pending(below) == PreOrder(root)
    ensures Weight(below) < Weight(below + [t])
  {
    assert (below + [t])[..|below|] == below;
  }

  /** Pops the top; a node is emitted and replaced by its right child, then its left child on top. */
  method PreorderTraversalIterative(root: Tree<int>) returns (output: seq<int>)
    ensures output == PreOrder(root)
  {
    var stack := [root];
    output := [];
    assert stack[..0] == [];
    while |stack| > 0
      invariant output + Pending(stack) == PreOrder(root)
      decreases Weight(stack)
    {
      var current := stack[|stack| - 1];
      ghost var below := stack[..|stack| - 1];
      ghost var before := output;
      assert stack == below + [current];
      stack := stack[..|stack| - 1];
      if current.Node? {
        output := output + [current.val];
        stack := stack + [current.right];
        stack := stack + [current.left];
        Emit(before, below, current, root);
      } else {
        Skip(before, below, current, root);
      }
    }
  }

  /** Rows of the test table, as the trees `buildTree` makes of them. */
  lemma TableCases()
    ensures PreOrder<int>(Nil) == []
    ensures PreOrder(Node(Nil, 1, Node(Node(Nil, 3, Nil), 2, Nil))) == [1, 2, 3]                  // [1,null,2,3]
    ensures PreOrder(Node(Node(Node(Nil, 4, Nil), 2, Node(Nil, 5, Nil)), 1,
                          Node(Node(Nil, 6, Nil), 3, Node(Nil, 7, Nil)))) == [1, 2, 4, 5, 3, 6, 7]  // [1..7]
    ensures PreOrder(Node(Node(Node(Nil, 4, Nil), 2, Node(Nil, 5, Nil)), 1, Node(Nil, 3, Nil)))
            == [1, 2, 4, 5, 3]                                                                    // [1,2,3,4,5]
  {
  }
}
