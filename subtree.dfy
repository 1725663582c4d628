/**
 * Subtree of another tree: does some node of `root` carry a subtree equal to
 * `subRoot`? The comparison is the same structural `isSameTree` as in the
 * same-tree exercise, modelled once in module SameTree.
 */
module Subtree {
  import opened Trees
  import opened SameTree

  /** `s` hangs at some node of `t`. */
  ghost predicate HangsAt(t: Tree<int>, s: Tree<int>)
  {
    SomeNode(t, EqualTo(s))
  }

  function EqualTo(s: Tree<int>): Tree<int> -> bool
  {
    n => n == s
  }

  /** As written: an empty root answers false before any comparison, whatever `subRoot` is. */
  function IsSubtree(root: Tree<int>, subRoot: Tree<int>): (found: bool)
    ensures found <==> HangsAt(root, subRoot)
  {
    if root.Nil? then
      NothingHangsAtNil(root, subRoot);
      false
    else if IsSameTree(root, subRoot) then
      SomeNodeSplit(root, EqualTo(subRoot));
      true
    else
      var left := IsSubtree(root.left, subRoot);
      var right := IsSubtree(root.right, subRoot);
      SomeNodeSplit(root, EqualTo(subRoot));
      left || right
  }

  lemma NothingHangsAtNil(t: Tree<int>, s: Tree<int>)
    requires t.Nil?
    ensures !HangsAt(t, s)
  {
    forall a ensures !IsAddr(t, a) {
      AtNil<int>(a);
    }
  }

  /** A non-empty tree contains itself; the empty tree is never reported, not even inside the empty tree. */
  lemma SubtreeOfItself(t: Tree<int>)
    ensures t.Node? ==> IsSubtree(t, t)
    ensures !IsSubtree(Nil, Nil)
  {
  }

  /** `s` sits at some address of `t`; the empty tree sits below every leaf. */
  ghost predicate Occurs(t: Tree<int>, s: Tree<int>)
  {
    exists a :: At(t, a) == s
  }

  /**
   * Corrected: an empty `root` contains exactly the empty tree. Then the answer is
   * whether `subRoot` sits at some address of `root`, where an address that walks
   * off the tree reaches the empty tree.
   */
  function IsSubtreeOrEmpty(root: Tree<int>, subRoot: Tree<int>): (found: bool)
    ensures found <==> Occurs(root, subRoot)
  {
    if root.Nil? then
      if subRoot.Nil? then
        assert At(root, []) == subRoot;
        true
      else
        NilHoldsOnlyNil(root, subRoot);
        false
    else if IsSameTree(root, subRoot) then
      assert At(root, []) == subRoot;
      true
    else
      var left := IsSubtreeOrEmpty(root.left, subRoot);
      var right := IsSubtreeOrEmpty(root.right, subRoot);
      OccursSplit(root, subRoot);
      left || right
  }

  lemma NilHoldsOnlyNil(t: Tree<int>, s: Tree<int>)
    requires t.Nil? && s.Node?
    ensures !Occurs(t, s)
  {
    forall a ensures At(t, a) != s {
      AtNil<int>(a);
    }
  }

  lemma OccursSplit(t: Tree<int>, s: Tree<int>)
    requires t.Node?
    ensures Occurs(t, s) <==> t == s || Occurs(t.left, s) || Occurs(t.right, s)
  {
    if exists a :: At(t, a) == s {
      var a :| At(t, a) == s;
      if a != [] {
        AtSplit(t, a);
        assert At(if a[0] == L then t.left else t.right, a[1..]) == s;
      }
    }
    if exists a :: At(t.left, a) == s {
      var a :| At(t.left, a) == s;
      AtNode(t.left, t.val, t.right, L, a);
      assert At(t, [L] + a) == s;
    }
    if exists a :: At(t.right, a) == s {
      var a :| At(t.right, a) == s;
      AtNode(t.left, t.val, t.right, R, a);
      assert At(t, [R] + a) == s;
    }
    if t == s {
      assert At(t, []) == s;
    }
  }

  /** The two versions differ only when the searched tree is empty. */
  lemma CorrectionOnlyAffectsEmpty(root: Tree<int>, subRoot: Tree<int>)
    requires subRoot.Node?
    ensures IsSubtreeOrEmpty(root, subRoot) == IsSubtree(root, subRoot)
  {
    if Occurs(root, subRoot) {
      var a :| At(root, a) == subRoot;
      assert IsAddr(root, a) && EqualTo(subRoot)(At(root, a));
    }
  }

  /** The disagreement on the empty pair, which the source's test expects to be true. */
  lemma EmptyPairDiffers()
    ensures !IsSubtree(Nil, Nil)
    ensures IsSubtreeOrEmpty(Nil, Nil)
  {
  }

  /** The source's cases: subRoot [4,1,2] is inside [3,4,5,1,2] but not inside [3,4,5,1,2,null,null,0]. */
  lemma TableCases()
    ensures IsSubtree(Node(Node(Tip(1), 4, Tip(2)), 3, Tip(5)), Node(Tip(1), 4, Tip(2)))
    ensures !IsSubtree(Node(Node(Tip(1), 4, Node(Tip(0), 2, Nil)), 3, Tip(5)), Node(Tip(1), 4, Tip(2)))
    ensures IsSubtree(Tip(1), Tip(1))
  {
  }
}
