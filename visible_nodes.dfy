/**
 * Visible tree nodes: a node is visible when no value on the path above it is
 * larger. The recursion carries the largest value seen so far (`maxSoFar`,
 * initially -Infinity) down the tree.
 */
module VisibleNodes {
  import opened Wrappers
  import opened Trees

  /** `v >= m`, where `m` may be -Infinity. */
  predicate AtLeast(v: int, m: ExtInt)
  {
    !Less(Finite(v), m)
  }

  /** The source's recursion, with `maxSoFar` raised to the node's value when the node is visible. */
  function CountVisibleNodes(node: Tree<int>, maxSoFar: ExtInt): (count: nat)
    ensures count <= Size(node)
  {
    if node.Nil? then 0
    else
      var isVisible := AtLeast(node.val, maxSoFar);
      var m := if isVisible then Finite(node.val) else maxSoFar;
      var currentNodeCount := if isVisible then 1 else 0;
      var left := CountVisibleNodes(node.left, m);
      var right := CountVisibleNodes(node.right, m);
      currentNodeCount + left + right
  }

  /** The values on the path from the root down to, but not including, address `a`. */
  function Above(t: Tree<int>, a: seq<Dir>): seq<int>
    decreases a
  {
    if a == [] || t.Nil? then []
    else [t.val] + Above(if a[0] == L then t.left else t.right, a[1..])
  }

  /** The node at `a` is at least the initial bound and at least every value above it. */
  ghost predicate Visible(t: Tree<int>, m: ExtInt, a: seq<Dir>)
  {
    && IsAddr(t, a)
    && AtLeast(At(t, a).val, m)
    && forall i :: 0 <= i < |Above(t, a)| ==> Above(t, a)[i] <= At(t, a).val
  }

  /** How many of the addresses `xs` are visible. */
  ghost function CountIn(t: Tree<int>, m: ExtInt, xs: seq<seq<Dir>>): nat
  {
    if xs == [] then 0
    else (if Visible(t, m, xs[0]) then 1 else 0) + CountIn(t, m, xs[1..])
  }

  lemma {:induction false} CountInAppend(t: Tree<int>, m: ExtInt, xs: seq<seq<Dir>>, ys: seq<seq<Dir>>)
    ensures CountIn(t, m, xs + ys) == CountIn(t, m, xs) + CountIn(t, m, ys)
  {
    if xs == [] {
      assert xs + ys == ys;
    } else {
      assert (xs + ys)[0] == xs[0];
      assert (xs + ys)[1..] == xs[1..] + ys;
      CountInAppend(t, m, xs[1..], ys);
    }
  }

  /** Below a node, visibility is judged against the raised bound. */
  lemma VisibleBelow(t: Tree<int>, m: ExtInt, d: Dir, b: seq<Dir>)
    requires t.Node?
    ensures Visible(t, m, [d] + b) <==>
      Visible(if d == L then t.left else t.right,
              if AtLeast(t.val, m) then Finite(t.val) else m, b)
  {
    var c := if d == L then t.left else t.right;
    AtNode(t.left, t.val, t.right, d, b);
    assert ([d] + b)[1..] == b;
    var above := Above(c, b);
    assert Above(t, [d] + b) == [t.val] + above;
    if IsAddr(c, b) {
      var w := At(c, b).val;
      RaisedBound(t.val, m, w);
      var path := [t.val] + above;
      if forall i :: 0 <= i < |path| ==> path[i] <= w {
        assert path[0] == t.val;
        forall i | 0 <= i < |above| ensures above[i] <= w {
          assert path[i + 1] == above[i];
        }
      }
    }
  }

  lemma RaisedBound(x: int, m: ExtInt, w: int)
    ensures AtLeast(w, if AtLeast(x, m) then Finite(x) else m) <==> AtLeast(w, m) && x <= w
  {
  }

  lemma {:induction false} CountInUnder(t: Tree<int>, m: ExtInt, d: Dir, xs: seq<seq<Dir>>)
    requires t.Node?
    ensures CountIn(t, m, Under(d, xs)) ==
      CountIn(if d == L then t.left else t.right, if AtLeast(t.val, m) then Finite(t.val) else m, xs)
  {
    if xs != [] {
      VisibleBelow(t, m, d, xs[0]);
      CountInUnder(t, m, d, xs[1..]);
    }
  }

  /** The count is the number of visible node addresses. */
  lemma {:induction false} CountsVisibleAddresses(t: Tree<int>, m: ExtInt)
    ensures CountVisibleNodes(t, m) == CountIn(t, m, Addrs(t))
  {
    if t.Node? {
      var m' := if AtLeast(t.val, m) then Finite(t.val) else m;
      var al, ar := Under(L, Addrs(t.left)), Under(R, Addrs(t.right));
      CountsVisibleAddresses(t.left, m');
      CountsVisibleAddresses(t.right, m');
      CountInAppend(t, m, [[]] + al, ar);
      CountInAppend(t, m, [[]], al);
      CountInUnder(t, m, L, Addrs(t.left));
      CountInUnder(t, m, R, Addrs(t.right));
      assert Above(t, []) == [];
    }
  }

  /** Starting from -Infinity the root is always visible. */
  lemma RootVisible(t: Tree<int>)
    requires t.Node?
    ensures Visible(t, NegInf, [])
    ensures CountVisibleNodes(t, NegInf) >= 1
  {
  }

  /** The two example trees: 4 and 3 visible nodes. */
  lemma ExampleTrees()
    ensures CountVisibleNodes(Node(Node(Tip(3), 1, Nil), 3, Node(Tip(1), 4, Tip(5))), NegInf) == 4
    ensures CountVisibleNodes(Node(Node(Tip(3), 4, Nil), 5, Node(Tip(7), 8, Tip(9))), NegInf) == 3
  {
    assert CountVisibleNodes(Node(Tip(3), 1, Nil), Finite(3)) == 1;
    assert CountVisibleNodes(Node(Tip(1), 4, Tip(5)), Finite(3)) == 2;
    assert CountVisibleNodes(Node(Tip(3), 4, Nil), Finite(5)) == 0;
    assert CountVisibleNodes(Node(Tip(7), 8, Tip(9)), Finite(5)) == 2;
  }

  /** An all-ascending tree shows all 5 nodes; a single node gives 1 and the empty tree 0. */
  lemma EdgeTrees()
    ensures CountVisibleNodes(Node(Node(Tip(3), 2, Nil), 1, Node(Nil, 4, Tip(5))), NegInf) == 5
    ensures CountVisibleNodes(Tip(5), NegInf) == 1
    ensures CountVisibleNodes(Nil, NegInf) == 0
  {
    assert CountVisibleNodes(Node(Tip(3), 2, Nil), Finite(1)) == 2;
    assert CountVisibleNodes(Node(Nil, 4, Tip(5)), Finite(1)) == 2;
  }
}
