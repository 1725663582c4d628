/**
 * Validate a binary search tree by passing an open interval (min, max) down the
 * recursion. The source starts from (-Infinity, Infinity); both bounds are strict,
 * so duplicates are rejected.
 */
module ValidateBst {
  import opened Wrappers
  import opened Trees

  /** The local search-tree condition: the left subtree holds only smaller values, the right only larger. */
  predicate Ordered(n: Tree<int>)
  {
    n.Node? ==>
      && (forall v :: v in Values(n.left) ==> v < n.val)
      && (forall v :: v in Values(n.right) ==> n.val < v)
  }

  /** Every node is ordered with respect to all of its descendants. */
  ghost predicate IsBst(t: Tree<int>)
  {
    EveryNode(t, Ordered)
  }

  /** Every value lies strictly between the two bounds. */
  predicate Within(t: Tree<int>, lo: ExtInt, hi: ExtInt)
  {
    forall v :: v in Values(t) ==> Less(lo, Finite(v)) && Less(Finite(v), hi)
  }

  /** The inner `validate`: a node fails when its value reaches either bound. */
  function Validate(node: Tree<int>, lo: ExtInt, hi: ExtInt): bool
  {
    if node.Nil? then true
    else if !Less(lo, Finite(node.val)) || !Less(Finite(node.val), hi) then false
    else
      var left := Validate(node.left, lo, Finite(node.val));
      var right := Validate(node.right, Finite(node.val), hi);
      left && right
  }

  lemma LessTrans(a: ExtInt, b: ExtInt, c: ExtInt)
    requires Less(a, b) && Less(b, c)
    ensures Less(a, c)
  {
  }

  /** An ordered node inside the interval splits it at its value. */
  lemma WithinSplit(t: Tree<int>, lo: ExtInt, hi: ExtInt)
    requires t.Node? && Ordered(t) && Within(t, lo, hi)
    ensures Less(lo, Finite(t.val)) && Less(Finite(t.val), hi)
    ensures Within(t.left, lo, Finite(t.val)) && Within(t.right, Finite(t.val), hi)
  {
    var l, x, r := t.left, t.val, t.right;
    assert Values(t) == Values(l) + multiset{x} + Values(r);
    assert x in Values(t);
    forall v | v in Values(l) ensures Less(lo, Finite(v)) && Less(Finite(v), Finite(x)) {
      assert v in Values(t);
    }
    forall v | v in Values(r) ensures Less(Finite(x), Finite(v)) && Less(Finite(v), hi) {
      assert v in Values(t);
    }
  }

  /** Conversely, a value inside the interval with both subtrees inside their halves gives an ordered node inside it. */
  lemma WithinJoin(t: Tree<int>, lo: ExtInt, hi: ExtInt)
    requires t.Node? && Less(lo, Finite(t.val)) && Less(Finite(t.val), hi)
    requires Within(t.left, lo, Finite(t.val)) && Within(t.right, Finite(t.val), hi)
    ensures Ordered(t) && Within(t, lo, hi)
  {
    var l, x, r := t.left, t.val, t.right;
    assert Values(t) == Values(l) + multiset{x} + Values(r);
    forall v | v in Values(t) ensures Less(lo, Finite(v)) && Less(Finite(v), hi) {
      if v in Values(l) {
        LessTrans(Finite(v), Finite(x), hi);
      } else if v in Values(r) {
        LessTrans(lo, Finite(x), Finite(v));
      }
    }
  }

  /** `validate` accepts exactly the search trees whose values all lie inside the interval. */
  lemma {:induction false} ValidateMeansBst(t: Tree<int>, lo: ExtInt, hi: ExtInt)
    ensures Validate(t, lo, hi) <==> IsBst(t) && Within(t, lo, hi)
  {
    if t.Node? {
      ValidateMeansBst(t.left, lo, Finite(t.val));
      ValidateMeansBst(t.right, Finite(t.val), hi);
      EveryNodeSplit(t, Ordered);
      if IsBst(t) && Within(t, lo, hi) {
        WithinSplit(t, lo, hi);
      }
      if Validate(t, lo, hi) {
        WithinJoin(t, lo, hi);
      }
    }
  }

  /** The entry point: the whole tree checked against unbounded limits. */
  function IsValidBst(root: Tree<int>): (ok: bool)
    ensures ok <==> IsBst(root)
  {
    ValidateMeansBst(root, NegInf, PosInf);
    Validate(root, NegInf, PosInf)
  }

  /** The empty tree and any single node are valid. */
  lemma SmallTrees(x: int)
    ensures IsValidBst(Nil)
    ensures IsValidBst(Tip(x))
  {
    assert Validate(Tip(x), NegInf, PosInf);
  }

  /** The test trees [2,1,3] and [2147483647] are valid. */
  lemma ValidCases()
    ensures Validate(Node(Tip(1), 2, Tip(3)), NegInf, PosInf)
    ensures Validate(Tip(2147483647), NegInf, PosInf)
  {
  }

  /** [5,1,4,null,null,3,6], [5,4,6,null,null,3,7] (a violation two levels down) and [1,1] are not. */
  lemma InvalidCases()
    ensures !Validate(Node(Tip(1), 5, Node(Tip(3), 4, Tip(6))), NegInf, PosInf)
    ensures !Validate(Node(Tip(4), 5, Node(Tip(3), 6, Tip(7))), NegInf, PosInf)
    ensures !Validate(Node(Tip(1), 1, Nil), NegInf, PosInf)
  {
  }
}
