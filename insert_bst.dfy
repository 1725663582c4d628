/**
 * Insert into a Binary Search Tree: walk down from the root, right when the
 * new value is strictly greater than the node's, left otherwise, and hang a
 * new leaf on the empty child reached.
 */
module InsertBst {
  import opened Trees
  import opened TreeTraversal
  import opened HeapTrees

  /** The tree after the insertion, as a value. */
  function BstInsert(t: Tree<int>, v: int): (r: Tree<int>)
    ensures Size(r) == Size(t) + 1
  {
    match t
    case Nil => Node(Nil, v, Nil)
    case Node(l, x, rt) => if v > x then Node(l, x, BstInsert(rt, v)) else Node(BstInsert(l, v), x, rt)
  }

  predicate Sorted(s: seq<int>)
  {
    forall i, j :: 0 <= i < j < |s| ==> s[i] <= s[j]
  }

  /** `s` with `v` placed just before its first element that is not smaller than `v`. */
  function InsertSorted(s: seq<int>, v: int): (r: seq<int>)
    ensures |r| == |s| + 1
  {
    if s == [] then [v] else if s[0] < v then [s[0]] + InsertSorted(s[1..], v) else [v] + s
  }

  lemma SortedCons(x: int, s: seq<int>)
    requires Sorted(s) && forall k :: 0 <= k < |s| ==> x <= s[k]
    ensures Sorted([x] + s)
  {
    var r := [x] + s;
    forall i, j | 0 <= i < j < |r| ensures r[i] <= r[j] {
      assert r[j] == s[j - 1];
      if i > 0 {
        assert r[i] == s[i - 1];
      }
    }
  }

  lemma {:induction false} InsertSortedBound(s: seq<int>, v: int, lo: int)
    requires lo <= v && forall k :: 0 <= k < |s| ==> lo <= s[k]
    ensures forall k :: 0 <= k < |s| + 1 ==> lo <= InsertSorted(s, v)[k]
  {
    if s != [] && s[0] < v {
      InsertSortedBound(s[1..], v, lo);
      var r := InsertSorted(s[1..], v);
      forall k | 0 <= k < |s| + 1 ensures lo <= InsertSorted(s, v)[k] {
        if k > 0 {
          assert InsertSorted(s, v)[k] == r[k - 1];
        }
      }
    } else if s != [] {
      forall k | 0 <= k < |s| + 1 ensures lo <= InsertSorted(s, v)[k] {
        if k > 0 {
          assert InsertSorted(s, v)[k] == s[k - 1];
        }
      }
    }
  }

  lemma {:induction false} InsertSortedKeepsOrder(s: seq<int>, v: int)
    requires Sorted(s)
    ensures Sorted(InsertSorted(s, v))
  {
    if s != [] && s[0] < v {
      InsertSortedKeepsOrder(s[1..], v);
      InsertSortedBound(s[1..], v, s[0]);
      SortedCons(s[0], InsertSorted(s[1..], v));
    } else if s != [] {
      SortedCons(v, s);
    }
  }

  lemma {:induction false} InsertSortedValues(s: seq<int>, v: int)
    ensures multiset(InsertSorted(s, v)) == multiset(s) + multiset{v}
  {
    if s != [] {
      assert s == [s[0]] + s[1..];
      assert multiset(s) == multiset{s[0]} + multiset(s[1..]);
      if s[0] < v {
        InsertSortedValues(s[1..], v);
        var rest := InsertSorted(s[1..], v);
        assert multiset([s[0]] + rest) == multiset{s[0]} + multiset(rest);
      } else {
        assert multiset([v] + s) == multiset{v} + multiset(s);
      }
    }
  }

  lemma {:induction false} InsertPastSmaller(a: seq<int>, b: seq<int>, v: int)
    requires forall i :: 0 <= i < |a| ==> a[i] < v
    ensures InsertSorted(a + b, v) == a + InsertSorted(b, v)
  {
    if a == [] {
      assert a + b == b;
    } else {
      assert (a + b)[1..] == a[1..] + b;
      InsertPastSmaller(a[1..], b, v);
    }
  }

  lemma {:induction false} InsertBeforeLarger(a: seq<int>, b: seq<int>, v: int)
    requires b == [] || b[0] >= v
    ensures InsertSorted(a + b, v) == InsertSorted(a, v) + b
  {
    if a == [] {
      assert a + b == b;
    } else {
      assert (a + b)[1..] == a[1..] + b;
      InsertBeforeLarger(a[1..], b, v);
    }
  }

  lemma SortedParts(a: seq<int>, x: int, b: seq<int>)
    requires Sorted(a + [x] + b)
    ensures Sorted(a) && Sorted(b)
    ensures forall i :: 0 <= i < |a| ==> a[i] <= x
    ensures forall i :: 0 <= i < |b| ==> x <= b[i]
  {
    var s := a + [x] + b;
    forall i, j | 0 <= i < j < |b| ensures b[i] <= b[j] {
      assert b[i] == s[|a| + 1 + i] && b[j] == s[|a| + 1 + j];
    }
    forall i | 0 <= i < |a| ensures a[i] <= x {
      assert a[i] == s[i] && x == s[|a|];
    }
    forall i | 0 <= i < |b| ensures x <= b[i] {
      assert b[i] == s[|a| + 1 + i] && x == s[|a|];
    }
    forall i, j | 0 <= i < j < |a| ensures a[i] <= a[j] {
      assert a[i] == s[i] && a[j] == s[j];
    }
  }

  /**
   * For a search tree (inorder sorted), the new inorder is the old one with
   * the value inserted in sorted position, ahead of any equal values.
   */
  lemma {:induction false} BstInsertInOrder(t: Tree<int>, v: int)
    requires Sorted(InOrder(t))
    ensures InOrder(BstInsert(t, v)) == InsertSorted(InOrder(t), v)
  {
    if t.Node? {
      var a, x, b := InOrder(t.left), t.val, InOrder(t.right);
      SortedParts(a, x, b);
      if v > x {
        BstInsertInOrder(t.right, v);
        InsertPastSmaller(a + [x], b, v);
      } else {
        BstInsertInOrder(t.left, v);
        InsertBeforeLarger(a, [x] + b, v);
        assert a + [x] + b == a + ([x] + b);
      }
    }
  }

  /** The inserted value joins the tree's values and nothing else changes in them. */
  lemma {:induction false} BstInsertValues(t: Tree<int>, v: int)
    ensures Values(BstInsert(t, v)) == Values(t) + multiset{v}
  {
    if t.Node? {
      BstInsertValues(t.left, v);
      BstInsertValues(t.right, v);
    }
  }

  /** A search tree stays a search tree. */
  lemma BstInsertSorted(t: Tree<int>, v: int)
    requires Sorted(InOrder(t))
    ensures Sorted(InOrder(BstInsert(t, v)))
  {
    BstInsertInOrder(t, v);
    InsertSortedKeepsOrder(InOrder(t), v);
  }

  /**
   * The skeleton after the insertion, steered by the values `t` laid out on
   * `s`: the new leaf `n` hangs on the empty child the walk reaches.
   */
  function Graft(s: Shape, t: Tree<int>, v: int, n: Node): Shape
  {
    match s
    case Leaf => Fork(Leaf, n, Leaf)
    case Fork(l, x, r) =>
      if t.Node? && v > t.val then Fork(l, x, Graft(r, t.right, v, n))
      else Fork(Graft(l, if t.Node? then t.left else Nil, v, n), x, r)
  }

  /** Exactly one node joins the skeleton, and it is new. */
  lemma {:induction false} GraftNodes(s: Shape, t: Tree<int>, v: int, n: Node)
    ensures Nodes(Graft(s, t, v, n)) == Nodes(s) + {n}
    ensures WellShaped(s) && n !in Nodes(s) ==> WellShaped(Graft(s, t, v, n))
  {
    if s.Fork? {
      GraftNodes(s.l, if t.Node? then t.left else Nil, v, n);
      GraftNodes(s.r, if t.Node? then t.right else Nil, v, n);
    }
  }

  /** Read as values, the grafted skeleton is the value-level insertion. */
  lemma {:induction false} AbsGraft(s: Shape, n: Node)
    requires n !in Nodes(s)
    ensures Abs(Graft(s, Abs(s), n.val, n)) == BstInsert(Abs(s), n.val)
  {
    if s.Fork? {
      AbsGraft(s.l, n);
      AbsGraft(s.r, n);
    }
  }

  /**
   * `insertIntoBST`: returns a new single node for an empty tree; otherwise
   * recurses right when `val` is strictly greater than the node's value and
   * left otherwise (ties go left), stores the result in that child link and
   * returns the same root. Only the link the new leaf hangs from changes.
   */
  method InsertIntoBST(root: Node?, val: int, ghost s: Shape) returns (r: Node?, ghost added: Node)
    requires Realizes(s, root)
    modifies Nodes(s)`left, Nodes(s)`right
    ensures fresh(added) && added.val == val
    ensures r == if root == null then added else root
    ensures Realizes(Graft(s, old(Abs(s)), val, added), r)
    ensures Abs(s) == old(Abs(s))
    ensures Abs(Graft(s, old(Abs(s)), val, added)) == BstInsert(old(Abs(s)), val)
    decreases s
  {
    NodesAllocated(s);
    if root == null {
      r := new Node(val);
      added := r;
      AbsGraft(s, added);
      return;
    }
    ghost var sl, sr := s.l, s.r;
    ghost var al, ar, v0 := Abs(sl), Abs(sr), root.val;
    ghost var t0 := Node(al, v0, ar);
    assert Abs(s) == t0;
    assert Links(sl, root.left) && Links(sr, root.right);
    assert root !in Nodes(sl) && root !in Nodes(sr) && Nodes(sl) !! Nodes(sr);
    if val > root.val {
      var sub;
      sub, added := InsertIntoBST(root.right, val, sr);
      assert Links(sl, root.left) && Abs(sl) == al;
      GraftNodes(sr, ar, val, added);
      root.right := sub;
      assert Links(sl, root.left) && Abs(sl) == al;
      assert Links(Graft(sr, ar, val, added), root.right) && Abs(sr) == ar;
    } else {
      var sub;
      sub, added := InsertIntoBST(root.left, val, sl);
      assert Links(sr, root.right) && Abs(sr) == ar;
      GraftNodes(sl, al, val, added);
      root.left := sub;
      assert Links(sr, root.right) && Abs(sr) == ar;
      assert Links(Graft(sl, al, val, added), root.left) && Abs(sl) == al;
    }
    assert root.val == v0;
    assert Abs(s) == t0;
    GraftNodes(s, t0, val, added);
    AbsGraft(s, added);
    r := root;
  }


  /** 5 into [4,2,7,1,3]: the inorder becomes [1,2,3,4,5,7]. */
  lemma FirstCase()
    ensures InOrder(BstInsert(Node(Node(Tip(1), 2, Tip(3)), 4, Tip(7)), 5)) == [1, 2, 3, 4, 5, 7]
  {
    assert BstInsert(Node(Node(Tip(1), 2, Tip(3)), 4, Tip(7)), 5) == Node(Node(Tip(1), 2, Tip(3)), 4, Node(Tip(5), 7, Nil));
  }

  /** 25 into [40,20,60,10,30,50,70]: 25 lands between 20 and 30. */
  lemma SecondCase()
    ensures InOrder(BstInsert(Node(Node(Tip(10), 20, Tip(30)), 40, Node(Tip(50), 60, Tip(70))), 25))
         == [10, 20, 25, 30, 40, 50, 60, 70]
  {
    assert BstInsert(Node(Node(Tip(10), 20, Tip(30)), 40, Node(Tip(50), 60, Tip(70))), 25)
        == Node(Node(Tip(10), 20, Node(Tip(25), 30, Nil)), 40, Node(Tip(50), 60, Tip(70)));
  }
}
