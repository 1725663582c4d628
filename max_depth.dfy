/**
 * Maximum depth of a binary tree, four ways (recursive, one-liner, level-by-level
 * queue, explicit stack), and the pattern variations that count nodes, sum values
 * and find the depth of the nearest leaf.
 */
module MaxDepth {
  import opened Trees
  import opened LevelOrder
  import opened Wrappers

  function Max(a: int, b: int): int { if a < b then b else a }
  function MinOf(a: int, b: int): int { if a < b then a else b }

  /** Post-order recursion: ask both children, then add one for this node. */
  function MaxDepthRecursive(t: Tree<int>): nat
  {
    match t
    case Nil => 0
    case Node(l, _, r) => 1 + Max(MaxDepthRecursive(l), MaxDepthRecursive(r))
  }

  /** The same recursion written as one conditional expression. */
  function MaxDepthRecursiveOneLiner(t: Tree<int>): nat
  {
    if t.Nil? then 0
    else 1 + Max(MaxDepthRecursiveOneLiner(t.left), MaxDepthRecursiveOneLiner(t.right))
  }

  /** The depth is the number of nodes on a longest path down from the root. */
  lemma {:induction false} MaxDepthIsHeight(t: Tree<int>)
    ensures IsHeight(t, MaxDepthRecursive(t))
  {
    match t
    case Nil => HeightNil<int>();
    case Node(l, v, r) =>
      MaxDepthIsHeight(l);
      MaxDepthIsHeight(r);
      HeightNode(l, v, r, MaxDepthRecursive(l), MaxDepthRecursive(r));
  }

  lemma {:induction false} OneLinerAgrees(t: Tree<int>)
    ensures MaxDepthRecursiveOneLiner(t) == MaxDepthRecursive(t)
  {
    if t.Node? {
      OneLinerAgrees(t.left);
      OneLinerAgrees(t.right);
    }
  }

  // ---- level-by-level queue ----

  /** The largest depth among the trees of a queue (0 for none). */
  function DepthOver(q: seq<Tree<int>>): nat
  {
    if q == [] then 0 else Max(MaxDepthRecursive(q[0]), DepthOver(q[1..]))
  }

  /** Total number of nodes in the trees of a queue; it shrinks by one per dequeued node. */
  function NodesOver(q: seq<Tree<int>>): nat
  {
    if q == [] then 0 else Size(q[0]) + NodesOver(q[1..])
  }

  /** The children of `x` that the loops push: the non-empty ones, left first. */
  function Kids(x: Tree<int>): seq<Tree<int>>
    requires x.Node?
  {
    (if x.left.Node? then [x.left] else []) + (if x.right.Node? then [x.right] else [])
  }

  lemma {:induction false} OverAppend(a: seq<Tree<int>>, b: seq<Tree<int>>)
    ensures DepthOver(a + b) == Max(DepthOver(a), DepthOver(b))
    ensures NodesOver(a + b) == NodesOver(a) + NodesOver(b)
  {
    if a == [] {
      assert a + b == b;
    } else {
      assert (a + b)[0] == a[0];
      assert (a + b)[1..] == a[1..] + b;
      OverAppend(a[1..], b);
    }
  }

  lemma KidsOver(x: Tree<int>)
    requires x.Node?
    ensures DepthOver(Kids(x)) + 1 == MaxDepthRecursive(x)
    ensures NodesOver(Kids(x)) + 1 == Size(x)
  {
    var kl := if x.left.Node? then [x.left] else [];
    var kr := if x.right.Node? then [x.right] else [];
    OverAppend(kl, kr);
    assert kl == [] ==> MaxDepthRecursive(x.left) == 0 && Size(x.left) == 0;
    assert kr == [] ==> MaxDepthRecursive(x.right) == 0 && Size(x.right) == 0;
  }

  /** Dequeuing one node of the current level and enqueueing its children on the next level. */
  lemma DequeueDepth(h: Tree<int>, rest: seq<Tree<int>>, cur: seq<Tree<int>>, next: seq<Tree<int>>)
    requires cur != [] && h == cur[0] && rest == cur[1..] && h.Node?
    ensures Max(DepthOver(cur), 1 + DepthOver(next)) == Max(DepthOver(rest), 1 + DepthOver(next + Kids(h)))
  {
    assert DepthOver(cur) == Max(MaxDepthRecursive(h), DepthOver(rest));
    KidsOver(h);
    OverAppend(next, Kids(h));
    MaxShift(DepthOver(Kids(h)), DepthOver(rest), DepthOver(next));
  }

  lemma DequeueNodes(h: Tree<int>, rest: seq<Tree<int>>, cur: seq<Tree<int>>, next: seq<Tree<int>>)
    requires cur != [] && h == cur[0] && rest == cur[1..] && h.Node?
    ensures NodesOver(rest + (next + Kids(h))) + 1 == NodesOver(cur + next)
  {
    assert NodesOver(cur) == Size(h) + NodesOver(rest);
    KidsOver(h);
    OverAppend(next, Kids(h));
    OverAppend(cur, next);
    OverAppend(rest, next + Kids(h));
  }

  /** The arithmetic of moving a node's depth from the current level to its children on the next. */
  lemma MaxShift(k: int, r: int, n: int)
    ensures Max(Max(k + 1, r), 1 + n) == Max(r, 1 + Max(n, k))
  {
  }

  /** The queue after one dequeue is still the rest of the level followed by the next level, all nodes. */
  lemma QueueShape(queue: seq<Tree<int>>, cur: seq<Tree<int>>, next: seq<Tree<int>>)
    requires cur != [] && queue == cur + next
    requires forall k :: 0 <= k < |queue| ==> queue[k].Node?
    ensures queue[1..] + Kids(queue[0]) == cur[1..] + (next + Kids(cur[0]))
    ensures forall k :: 0 <= k < |queue[1..] + Kids(queue[0])| ==> (queue[1..] + Kids(queue[0]))[k].Node?
  {
    assert queue[0] == cur[0] && queue[1..] == cur[1..] + next;
  }

  /** The inner loop of the level-by-level search: `cur` is what is left of the level, `next` the level below. */
  ghost predicate Level(t: Tree<int>, depth: int, before: int, i: int,
                        queue: seq<Tree<int>>, cur: seq<Tree<int>>, next: seq<Tree<int>>)
  {
    && queue == cur + next
    && (forall k :: 0 <= k < |queue| ==> queue[k].Node?)
    && depth - 1 + Max(DepthOver(cur), 1 + DepthOver(next)) == MaxDepthRecursive(t)
    && NodesOver(queue) + i == before
  }

  /** Dequeuing the front node and enqueueing its children keeps the level's invariant. */
  lemma LevelStep(t: Tree<int>, depth: int, before: int, i: int,
                  queue: seq<Tree<int>>, cur: seq<Tree<int>>, next: seq<Tree<int>>)
    requires Level(t, depth, before, i, queue, cur, next) && cur != []
    ensures queue[0] == cur[0] && queue[0].Node?
    ensures Level(t, depth, before, i + 1, queue[1..] + Kids(queue[0]), cur[1..], next + Kids(cur[0]))
  {
    QueueShape(queue, cur, next);
    DequeueDepth(cur[0], cur[1..], cur, next);
    DequeueNodes(cur[0], cur[1..], cur, next);
  }

  /** Processes the queue one level at a time, counting levels. */
  method MaxDepthBFS(t: Tree<int>) returns (depth: nat)
    ensures depth == MaxDepthRecursive(t)
  {
    if t.Nil? {
      return 0;
    }
    depth := 0;
    var queue := [t];
    while |queue| > 0
      invariant forall i :: 0 <= i < |queue| ==> queue[i].Node?
      invariant depth + DepthOver(queue) == MaxDepthRecursive(t)
      decreases NodesOver(queue)
    {
      var levelSize := |queue|;
      depth := depth + 1;
      ghost var before := NodesOver(queue);
      ghost var cur, next := queue, [];
      assert queue == cur + next && DepthOver(queue) >= MaxDepthRecursive(queue[0]) >= 1;
      var i := 0;
      while i < levelSize
        invariant 0 <= i <= levelSize && |cur| == levelSize - i
        invariant Level(t, depth, before, i, queue, cur, next)
      {
        var node := queue[0];
        LevelStep(t, depth, before, i, queue, cur, next);
        ghost var expected := queue[1..] + Kids(node);
        queue := queue[1..];
        if node.left.Node? {
          queue := queue + [node.left];
        }
        if node.right.Node? {
          queue := queue + [node.right];
        }
        assert queue == expected;
        cur, next := cur[1..], next + Kids(node);
        i := i + 1;
      }
      assert cur == [] && queue == next;
    }
  }

  // ---- explicit stack of (node, depth) pairs ----

  /** The deepest level a stack entry can still reach. */
  function Reach(e: (Tree<int>, nat)): int
  {
    e.1 - 1 + MaxDepthRecursive(e.0)
  }

  /** The deepest level reachable from any stack entry (0 for none). */
  function ReachOver(s: seq<(Tree<int>, nat)>): int
  {
    if s == [] then 0 else Max(ReachOver(s[..|s| - 1]), Reach(s[|s| - 1]))
  }

  function NodesOnStack(s: seq<(Tree<int>, nat)>): nat
  {
    if s == [] then 0 else NodesOnStack(s[..|s| - 1]) + Size(s[|s| - 1].0)
  }

  lemma PushOne(s: seq<(Tree<int>, nat)>, e: (Tree<int>, nat))
    ensures ReachOver(s + [e]) == Max(ReachOver(s), Reach(e))
    ensures NodesOnStack(s + [e]) == NodesOnStack(s) + Size(e.0)
  {
    assert (s + [e])[..|s|] == s;
  }

  /** The entries pushed for the children of `x` popped at depth `d`: the non-empty ones, left first. */
  function Pushed(x: Tree<int>, d: nat): seq<(Tree<int>, nat)>
    requires x.Node?
  {
    (if x.left.Node? then [(x.left, d + 1)] else []) + (if x.right.Node? then [(x.right, d + 1)] else [])
  }

  /** Popping an entry and pushing its children with depth + 1 keeps the reachable maximum. */
  lemma PopOne(base: seq<(Tree<int>, nat)>, x: Tree<int>, d: nat, best: int)
    requires x.Node? && d >= 1
    ensures Max(Max(best, d), ReachOver(base + Pushed(x, d))) == Max(best, ReachOver(base + [(x, d)]))
    ensures NodesOnStack(base + Pushed(x, d)) < NodesOnStack(base + [(x, d)])
  {
    var l, r := x.left, x.right;
    var pl := if l.Node? then [(l, d + 1)] else [];
    var pr := if r.Node? then [(r, d + 1)] else [];
    var s1 := base + pl;
    assert base + Pushed(x, d) == s1 + pr;
    PushOne(base, (x, d));
    if l.Node? {
      PushOne(base, (l, d + 1));
    } else {
      assert s1 == base;
    }
    if r.Node? {
      PushOne(s1, (r, d + 1));
    } else {
      assert s1 + pr == s1;
    }
    PopArith(best, d, ReachOver(base), MaxDepthRecursive(l), MaxDepthRecursive(r), l.Node?, r.Node?);
  }

  /** The arithmetic of one pop: an empty child has depth 0 and adds nothing beyond `d`. */
  lemma PopArith(best: int, d: int, rb: int, ml: nat, mr: nat, hasL: bool, hasR: bool)
    requires !hasL ==> ml == 0
    requires !hasR ==> mr == 0
    ensures var afterLeft := if hasL then Max(rb, d + ml) else rb;
            var afterRight := if hasR then Max(afterLeft, d + mr) else afterLeft;
            Max(Max(best, d), afterRight) == Max(best, Max(rb, d - 1 + (1 + Max(ml, mr))))
  {
  }

  /** Explores paths with an explicit stack, keeping the largest depth popped. */
  method MaxDepthDFS(t: Tree<int>) returns (maxDepth: nat)
    ensures maxDepth == MaxDepthRecursive(t)
  {
    if t.Nil? {
      return 0;
    }
    maxDepth := 0;
    var stack := [(t, 1)];
    assert stack[..0] == [];
    while |stack| > 0
      invariant forall k :: 0 <= k < |stack| ==> stack[k].0.Node? && stack[k].1 >= 1
      invariant Max(maxDepth, ReachOver(stack)) == MaxDepthRecursive(t)
      decreases NodesOnStack(stack)
    {
      var (node, depth) := stack[|stack| - 1];
      ghost var s := stack;
      stack := stack[..|stack| - 1];
      assert s == stack + [(node, depth)];
      PopOne(stack, node, depth, maxDepth);
      ghost var expected := stack + Pushed(node, depth);
      maxDepth := Max(maxDepth, depth);
      if node.left.Node? {
        stack := stack + [(node.left, depth + 1)];
      }
      if node.right.Node? {
        stack := stack + [(node.right, depth + 1)];
      }
      assert stack == expected;
    }
  }

  // ---- pattern variations ----

  function CountNodes(t: Tree<int>): nat
  {
    if t.Nil? then 0 else 1 + CountNodes(t.left) + CountNodes(t.right)
  }

  function SumNodes(t: Tree<int>): int
  {
    if t.Nil? then 0 else t.val + SumNodes(t.left) + SumNodes(t.right)
  }

  /** Depth of the nearest leaf: a missing child is not a leaf, so only the other side is searched. */
  function MinDepth(t: Tree<int>): nat
  {
    if t.Nil? then 0
    else if t.left.Nil? then 1 + MinDepth(t.right)
    else if t.right.Nil? then 1 + MinDepth(t.left)
    else 1 + MinOf(MinDepth(t.left), MinDepth(t.right))
  }

  function Pow2(n: nat): nat { if n == 0 then 1 else 2 * Pow2(n - 1) }

  /** One count per stored value. */
  lemma {:induction false} CountIsValues(t: Tree<int>)
    ensures CountNodes(t) == |Values(t)|
  {
    if t.Node? {
      CountIsValues(t.left);
      CountIsValues(t.right);
      assert Values(t) == Values(t.left) + multiset{t.val} + Values(t.right);
    }
  }

  /** A tree of depth d has at least d nodes: a longest path holds d of them. */
  lemma {:induction false} DepthAtMostCount(t: Tree<int>)
    ensures MaxDepthRecursive(t) <= CountNodes(t)
  {
    if t.Node? {
      DepthAtMostCount(t.left);
      DepthAtMostCount(t.right);
    }
  }

  /** A tree of depth d has fewer than 2^d nodes. */
  lemma {:induction false} CountBelowPow2(t: Tree<int>)
    ensures CountNodes(t) < Pow2(MaxDepthRecursive(t))
  {
    if t.Node? {
      var l, r := t.left, t.right;
      CountBelowPow2(l);
      CountBelowPow2(r);
      var m := MaxDepthRecursive(t);
      assert m == 1 + Max(MaxDepthRecursive(l), MaxDepthRecursive(r));
      Pow2Mono(MaxDepthRecursive(l), m - 1);
      Pow2Mono(MaxDepthRecursive(r), m - 1);
      assert Pow2(m) == 2 * Pow2(m - 1);
      DoubleBound(CountNodes(l), CountNodes(r), Pow2(MaxDepthRecursive(l)), Pow2(MaxDepthRecursive(r)), Pow2(m - 1));
    }
  }

  lemma DoubleBound(cl: int, cr: int, pl: int, pr: int, p: int)
    requires cl < pl <= p && cr < pr <= p
    ensures 1 + cl + cr < 2 * p
  {
  }

  lemma {:induction false} Pow2Mono(a: nat, b: nat)
    requires a <= b
    ensures Pow2(a) <= Pow2(b)
    decreases b
  {
    if a < b { Pow2Mono(a, b - 1); }
  }

  /** The sum lies between count * lo and count * hi when every value lies in [lo, hi]. */
  lemma {:induction false} SumNodesBounds(t: Tree<int>, lo: int, hi: int)
    requires forall v :: v in Values(t) ==> lo <= v <= hi
    ensures CountNodes(t) * lo <= SumNodes(t) <= CountNodes(t) * hi
  {
    if t.Node? {
      var l, r := t.left, t.right;
      ValuesOfNode(t);
      SumNodesBounds(l, lo, hi);
      SumNodesBounds(r, lo, hi);
      assert SumNodes(t) == t.val + SumNodes(l) + SumNodes(r);
      assert CountNodes(t) == 1 + CountNodes(l) + CountNodes(r);
      Combine(t.val, SumNodes(l), SumNodes(r), CountNodes(l), CountNodes(r), lo, hi, CountNodes(t), SumNodes(t));
    }
  }

  lemma ValuesOfNode(t: Tree<int>)
    requires t.Node?
    ensures t.val in Values(t)
    ensures forall v :: v in Values(t.left) ==> v in Values(t)
    ensures forall v :: v in Values(t.right) ==> v in Values(t)
  {
  }

  lemma Combine(v: int, sl: int, sr: int, cl: nat, cr: nat, lo: int, hi: int, c: nat, s: int)
    requires lo <= v <= hi && cl * lo <= sl <= cl * hi && cr * lo <= sr <= cr * hi
    requires c == 1 + cl + cr && s == v + sl + sr
    ensures c * lo <= s <= c * hi
  {
    assert (1 + cl + cr) * lo == lo + cl * lo + cr * lo;
    assert (1 + cl + cr) * hi == hi + cl * hi + cr * hi;
  }

  /** `m` is the number of nodes on a shortest path from the root down to a leaf (0 for the empty tree). */
  ghost predicate IsMinDepth(t: Tree<int>, m: nat)
  {
    if t.Nil? then m == 0
    else (exists a :: IsLeaf(t, a) && |a| + 1 == m) && (forall a :: IsLeaf(t, a) ==> |a| + 1 >= m)
  }

  lemma {:induction false} MinDepthIsNearestLeaf(t: Tree<int>)
    ensures IsMinDepth(t, MinDepth(t))
  {
    if t.Node? {
      var l, r := t.left, t.right;
      if l.Node? { MinDepthIsNearestLeaf(l); }
      if r.Node? { MinDepthIsNearestLeaf(r); }
      forall a | IsLeaf(t, a) ensures |a| + 1 >= MinDepth(t) {
        if a != [] {
          AtSplit(t, a);
          if a[0] == L { AtNilLeaf(l, a[1..]); } else { AtNilLeaf(r, a[1..]); }
        }
      }
      if l.Nil? && r.Nil? {
        assert IsLeaf(t, []);
      } else if l.Nil? || (r.Node? && MinDepth(r) < MinDepth(l)) {
        var b :| IsLeaf(r, b) && |b| + 1 == MinDepth(r);
        AtSplit(t, [R] + b);
        assert ([R] + b)[1..] == b;
        assert IsLeaf(t, [R] + b);
      } else {
        var b :| IsLeaf(l, b) && |b| + 1 == MinDepth(l);
        AtSplit(t, [L] + b);
        assert ([L] + b)[1..] == b;
        assert IsLeaf(t, [L] + b);
      }
    }
  }

  lemma AtNilLeaf(t: Tree<int>, a: seq<Dir>)
    requires IsLeaf(t, a)
    ensures t.Node?
  {
    if t.Nil? { AtNil<int>(a); }
  }

  /** Rows of the test table, written as the trees `buildTree` makes of them; every approach must report these depths. */
  lemma TableCases()
    ensures MaxDepthRecursive(Nil) == 0                                          // []
    ensures MaxDepthRecursive(Node(Nil, 1, Nil)) == 1                            // [1]
    ensures MaxDepthRecursive(Node(Nil, 1, Node(Nil, 2, Nil))) == 2              // [1,null,2]
    ensures MaxDepthRecursive(Node(Node(Nil, 9, Nil), 3,
                                   Node(Node(Nil, 15, Nil), 20, Node(Nil, 7, Nil)))) == 3  // [3,9,20,null,null,15,7]
    ensures MaxDepthRecursive(Node(Node(Node(Node(Nil, 4, Nil), 3, Nil), 2, Nil), 1, Nil)) == 4  // [1,2,null,3,null,4]
  {
  }

  /** The variations on [1,2,3,4,5,6,7]: seven nodes summing to 28, nearest leaf at depth 3. */
  lemma VariationCases()
    ensures var t := Node(Node(Node(Nil, 4, Nil), 2, Node(Nil, 5, Nil)), 1,
                          Node(Node(Nil, 6, Nil), 3, Node(Nil, 7, Nil)));
      CountNodes(t) == 7 && SumNodes(t) == 28 && MinDepth(t) == 3
  {
  }
}
