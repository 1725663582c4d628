/**
 * Count the root-to-leaf paths whose values add up to a target. The running sum
 * (`currentSum`, 0 at the root) is passed down; only leaves can match.
 */
module PathSum {
  import opened Trees

  /** The source's recursion: a matching leaf answers 1, any other node the sum of its children's answers. */
  function CountPathSum(node: Tree<int>, currentSum: int, target: int): (count: nat)
    ensures count <= Size(node)
  {
    if node.Nil? then 0
    else
      var sum := currentSum + node.val;
      var isLeaf := node.left.Nil? && node.right.Nil?;
      if isLeaf && sum == target then 1
      else
        var left := CountPathSum(node.left, sum, target);
        var right := CountPathSum(node.right, sum, target);
        left + right
  }

  /** The sum of the values from the root down to and including the node at `a` (0 once the walk leaves the tree). */
  function PathTotal(t: Tree<int>, a: seq<Dir>): int
    decreases a
  {
    if t.Nil? then 0
    else if a == [] then t.val
    else t.val + PathTotal(if a[0] == L then t.left else t.right, a[1..])
  }

  /** `a` is a leaf whose path, added to `start`, reaches `target`. */
  predicate Hit(t: Tree<int>, start: int, target: int, a: seq<Dir>)
  {
    IsLeaf(t, a) && start + PathTotal(t, a) == target
  }

  /** How many of the addresses `xs` are hits. */
  function CountIn(t: Tree<int>, start: int, target: int, xs: seq<seq<Dir>>): nat
  {
    if xs == [] then 0
    else (if Hit(t, start, target, xs[0]) then 1 else 0) + CountIn(t, start, target, xs[1..])
  }

  lemma {:induction false} CountInAppend(t: Tree<int>, start: int, target: int, xs: seq<seq<Dir>>, ys: seq<seq<Dir>>)
    ensures CountIn(t, start, target, xs + ys) == CountIn(t, start, target, xs) + CountIn(t, start, target, ys)
  {
    if xs == [] {
      assert xs + ys == ys;
    } else {
      assert (xs + ys)[0] == xs[0];
      assert (xs + ys)[1..] == xs[1..] + ys;
      CountInAppend(t, start, target, xs[1..], ys);
    }
  }

  /** Below a node, a hit is judged with the node's value added to the running sum. */
  lemma HitBelow(t: Tree<int>, start: int, target: int, d: Dir, b: seq<Dir>)
    requires t.Node?
    ensures Hit(t, start, target, [d] + b) <==>
      Hit(if d == L then t.left else t.right, start + t.val, target, b)
  {
    AtNode(t.left, t.val, t.right, d, b);
    assert ([d] + b)[1..] == b;
  }

  lemma {:induction false} CountInUnder(t: Tree<int>, start: int, target: int, d: Dir, xs: seq<seq<Dir>>)
    requires t.Node?
    ensures CountIn(t, start, target, Under(d, xs)) ==
      CountIn(if d == L then t.left else t.right, start + t.val, target, xs)
  {
    if xs != [] {
      HitBelow(t, start, target, d, xs[0]);
      CountInUnder(t, start, target, d, xs[1..]);
    }
  }

  /** A tree without nodes has no hits. */
  lemma {:induction false} NoHitsInEmpty(start: int, target: int, xs: seq<seq<Dir>>)
    ensures CountIn(Nil, start, target, xs) == 0
  {
    if xs != [] {
      AtNil<int>(xs[0]);
      NoHitsInEmpty(start, target, xs[1..]);
    }
  }

  /** The hits of a node: the node itself when it is a matching leaf, then the hits of each subtree. */
  lemma CountInNode(t: Tree<int>, start: int, target: int)
    requires t.Node?
    ensures CountIn(t, start, target, Addrs(t)) ==
      (if t.left.Nil? && t.right.Nil? && start + t.val == target then 1 else 0)
      + CountIn(t.left, start + t.val, target, Addrs(t.left))
      + CountIn(t.right, start + t.val, target, Addrs(t.right))
  {
    var al, ar := Under(L, Addrs(t.left)), Under(R, Addrs(t.right));
    CountInAppend(t, start, target, [[]] + al, ar);
    CountInAppend(t, start, target, [[]], al);
    CountInUnder(t, start, target, L, Addrs(t.left));
    CountInUnder(t, start, target, R, Addrs(t.right));
    assert Addrs(t) == [[]] + al + ar;
  }

  /** The count is the number of root-to-leaf paths whose total, added to `currentSum`, is `target`. */
  lemma {:induction false} CountsMatchingLeaves(t: Tree<int>, currentSum: int, target: int)
    ensures CountPathSum(t, currentSum, target) == CountIn(t, currentSum, target, Addrs(t))
  {
    if t.Node? {
      var sum := currentSum + t.val;
      var leafHit := t.left.Nil? && t.right.Nil? && sum == target;
      var cl, cr := CountPathSum(t.left, sum, target), CountPathSum(t.right, sum, target);
      assert CountPathSum(t, currentSum, target) == if leafHit then 1 else cl + cr;
      CountsMatchingLeaves(t.left, sum, target);
      CountsMatchingLeaves(t.right, sum, target);
      CountInNode(t, currentSum, target);
      if t.left.Nil? && t.right.Nil? {
        NoHitsInEmpty(sum, target, Addrs(t.left));
        NoHitsInEmpty(sum, target, Addrs(t.right));
      }
    }
  }

  /** The example tree 3(2(1,1),4): target 7 has one path, 6 has two, 10 none. */
  lemma ExampleTree()
    ensures CountPathSum(Node(Node(Tip(1), 2, Tip(1)), 3, Tip(4)), 0, 7) == 1
    ensures CountPathSum(Node(Node(Tip(1), 2, Tip(1)), 3, Tip(4)), 0, 6) == 2
    ensures CountPathSum(Node(Node(Tip(1), 2, Tip(1)), 3, Tip(4)), 0, 10) == 0
  {
  }

  /** A single node 5 with target 5 gives 1; the empty tree gives 0. */
  lemma EdgeTrees()
    ensures CountPathSum(Tip(5), 0, 5) == 1
    ensures CountPathSum(Nil, 0, 5) == 0
  {
  }
}
