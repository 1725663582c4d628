/**
 * Same tree: two trees are the same when they have the same shape and the same
 * value at every node. The comparison is preorder: both empty, one empty, the
 * root values, then the two pairs of children.
 */
module SameTree {
  import opened Wrappers
  import opened Trees
  import opened LevelOrder

  /** Structural comparison; it answers exactly the question "are these equal values?". */
  function IsSameTree(p: Tree<int>, q: Tree<int>): (same: bool)
    ensures same <==> p == q
  {
    if p.Nil? && q.Nil? then true
    else if p.Nil? || q.Nil? then false
    else if p.val != q.val then false
    else IsSameTree(p.left, q.left) && IsSameTree(p.right, q.right)
  }

  /** The comparison is reflexive and symmetric, and one empty tree never matches a non-empty one. */
  lemma SameTreeIsEquivalence(p: Tree<int>, q: Tree<int>)
    ensures IsSameTree(p, p)
    ensures IsSameTree(p, q) == IsSameTree(q, p)
    ensures p.Nil? != q.Nil? ==> !IsSameTree(p, q)
  {
  }

  /** Rows of the test table, on the trees `buildTree` makes of the arrays. */
  lemma SmallCases()
    ensures IsSameTree(Build([]), Build([]))
    ensures !IsSameTree(Build([Some(1)]), Build([]))
    ensures !IsSameTree(Build([Some(1), Some(2)]), Build([Some(1), None, Some(2)]))
    ensures !IsSameTree(Build([Some(1), Some(2), Some(1)]), Build([Some(1), Some(1), Some(2)]))
  {
    assert Build([Some(1), Some(2)]) == Node(Tip(2), 1, Nil);
    assert Build([Some(1), None, Some(2)]) == Node(Nil, 1, Tip(2));
  }

  /** Two five-node rows: they differ only in the last leaf. */
  lemma LeafCase()
    ensures !IsSameTree(Build([Some(1), Some(2), Some(3), Some(4), Some(5)]),
                        Build([Some(1), Some(2), Some(3), Some(4), Some(99)]))
  {
    assert Build([Some(1), Some(2), Some(3), Some(4), Some(5)])
        == Node(Node(Tip(4), 2, Tip(5)), 1, Tip(3));
    assert Build([Some(1), Some(2), Some(3), Some(4), Some(99)])
        == Node(Node(Tip(4), 2, Tip(99)), 1, Tip(3));
  }
}
