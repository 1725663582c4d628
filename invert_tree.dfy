/**
 * Invert Binary Tree: swap the children of every node, in place, and the
 * level-order `treeToArray` helper the exercise compares results with.
 */
module InvertTree {
  import opened Wrappers
  import opened Trees
  import opened TreeTraversal
  import opened LevelOrder
  import opened HeapTrees

  /** The mirror image: every node's children swapped. */
  function Mirror(t: Tree<int>): (m: Tree<int>)
    ensures Size(m) == Size(t)
  {
    match t
    case Nil => Nil
    case Node(l, v, r) => Node(Mirror(r), v, Mirror(l))
  }

  function Flip(a: seq<Dir>): (b: seq<Dir>)
    ensures |b| == |a|
  {
    if a == [] then [] else [if a[0] == L then R else L] + Flip(a[1..])
  }

  function Reverse<T>(s: seq<T>): (r: seq<T>)
    ensures |r| == |s|
  {
    if s == [] then [] else Reverse(s[1..]) + [s[0]]
  }

  /** What sits at address `a` of the mirror is the mirror of what sits at the flipped address. */
  lemma {:induction false} MirrorAt(t: Tree<int>, a: seq<Dir>)
    ensures At(Mirror(t), a) == Mirror(At(t, Flip(a)))
    decreases a
  {
    if a != [] && t.Node? {
      assert Flip(a)[1..] == Flip(a[1..]);
      MirrorAt(if a[0] == L then t.right else t.left, a[1..]);
    }
  }

  /** Inverting twice gives back the original tree. */
  lemma {:induction false} MirrorInvolution(t: Tree<int>)
    ensures Mirror(Mirror(t)) == t
  {
    if t.Node? {
      MirrorInvolution(t.left);
      MirrorInvolution(t.right);
    }
  }

  lemma {:induction false} ReverseAppend<T>(a: seq<T>, b: seq<T>)
    ensures Reverse(a + b) == Reverse(b) + Reverse(a)
  {
    if a == [] {
      assert a + b == b;
    } else {
      assert (a + b)[1..] == a[1..] + b;
      ReverseAppend(a[1..], b);
    }
  }

  /** The mirror lists its inorder backwards. */
  lemma {:induction false} MirrorInOrder(t: Tree<int>)
    ensures InOrder(Mirror(t)) == Reverse(InOrder(t))
  {
    if t.Node? {
      MirrorInOrder(t.left);
      MirrorInOrder(t.right);
      ReverseAppend(InOrder(t.left) + [t.val], InOrder(t.right));
      ReverseAppend(InOrder(t.left), [t.val]);
    }
  }

  /** The preorder of the mirror is the postorder read backwards. */
  lemma {:induction false} MirrorPreOrder(t: Tree<int>)
    ensures PreOrder(Mirror(t)) == Reverse(PostOrder(t))
  {
    if t.Node? {
      MirrorPreOrder(t.left);
      MirrorPreOrder(t.right);
      ReverseAppend(PostOrder(t.left) + PostOrder(t.right), [t.val]);
      ReverseAppend(PostOrder(t.left), PostOrder(t.right));
    }
  }

  /** The skeleton after inversion: the same nodes, every fork's sides swapped. */
  function MirrorShape(s: Shape): (m: Shape)
    ensures Nodes(m) == Nodes(s)
    ensures WellShaped(s) ==> WellShaped(m)
  {
    match s
    case Leaf => Leaf
    case Fork(l, x, r) => Fork(MirrorShape(r), x, MirrorShape(l))
  }

  lemma {:induction false} MirrorShapeInvolution(s: Shape)
    ensures MirrorShape(MirrorShape(s)) == s
  {
    if s.Fork? {
      MirrorShapeInvolution(s.l);
      MirrorShapeInvolution(s.r);
    }
  }

  /** The values read off the mirrored skeleton are the mirror of the values read off the original. */
  lemma {:induction false} AbsMirror(s: Shape)
    ensures Abs(MirrorShape(s)) == Mirror(Abs(s))
  {
    if s.Fork? {
      AbsMirror(s.l);
      AbsMirror(s.r);
    }
  }

  /**
   * Swaps the two children of `root`, then inverts both subtrees; returns the
   * same root. No node is created or dropped and no value changes.
   */
  method InvertTreeInPlace(root: Node?, ghost s: Shape) returns (r: Node?)
    requires Realizes(s, root)
    modifies Nodes(s)`left, Nodes(s)`right
    ensures r == root
    ensures Realizes(MirrorShape(s), root)
    ensures Abs(s) == old(Abs(s))
    ensures Abs(MirrorShape(s)) == Mirror(old(Abs(s)))
    decreases s
  {
    if root == null {
      return null;
    }
    ghost var sl, sr := s.l, s.r;
    ghost var al, ar := Abs(sl), Abs(sr);
    assert Links(sl, root.left) && Links(sr, root.right);
    assert root !in Nodes(sl) && root !in Nodes(sr) && Nodes(sl) !! Nodes(sr);
    NodesAllocated(sl);
    NodesAllocated(sr);
    var left := root.left;
    root.left := root.right;
    root.right := left;
    assert Links(sl, root.right) && Links(sr, root.left);
    assert Abs(sl) == al && Abs(sr) == ar;
    var _ := InvertTreeInPlace(root.right, sl);
    assert Links(MirrorShape(sl), root.right) && Abs(sl) == al;
    assert Links(sr, root.left) && Abs(sr) == ar;
    var _ := InvertTreeInPlace(root.left, sr);
    assert Links(MirrorShape(sr), root.left) && Abs(sr) == ar;
    assert Links(MirrorShape(sl), root.right) && Abs(sl) == al;
    AbsMirror(s);
    return root;
  }

  /** Inverting twice restores every link and value. */
  method InvertTwice(root: Node?, ghost s: Shape)
    requires Realizes(s, root)
    modifies Nodes(s)`left, Nodes(s)`right
    ensures Realizes(s, root)
    ensures Abs(s) == old(Abs(s))
  {
    var r1 := InvertTreeInPlace(root, s);
    var r2 := InvertTreeInPlace(r1, MirrorShape(s));
    MirrorShapeInvolution(s);
    MirrorInvolution(old(Abs(s)));
  }

  /** The slot `treeToArray` emits for a dequeued entry: `null` for an empty child. */
  function SlotOf(t: Tree<int>): Slot
  {
    if t.Nil? then None else Some(t.val)
  }

  /** Number of nodes held by a queue of subtrees. */
  function QueueSize(q: seq<Tree<int>>): nat
  {
    if q == [] then 0 else Size(q[0]) + QueueSize(q[1..])
  }

  lemma {:induction false} QueueSizeAppend(a: seq<Tree<int>>, b: seq<Tree<int>>)
    ensures QueueSize(a + b) == QueueSize(a) + QueueSize(b)
  {
    if a == [] {
      assert a + b == b;
    } else {
      assert (a + b)[1..] == a[1..] + b;
      QueueSizeAppend(a[1..], b);
    }
  }

  lemma {:induction false} RankPrefix(a: seq<Slot>, b: seq<Slot>, p: nat)
    requires p <= |a|
    ensures Rank(a + b, p) == Rank(a, p)
  {
    if p > 0 {
      RankPrefix(a, b, p - 1);
    }
  }

  /**
   * `all` lists, in the order they were enqueued, every entry the queue has held;
   * `arr` holds the slots emitted for the first |arr| of them. Each dequeued node
   * of rank k enqueued its two children at positions 2k+1 and 2k+2.
   */
  ghost predicate Laid(arr: seq<Slot>, all: seq<Tree<int>>)
  {
    && |arr| <= |all|
    && |all| == 1 + 2 * Rank(arr, |arr|)
    && (forall p :: 0 <= p < |arr| ==> LaidAt(arr, all, p))
  }

  /** Entry `p` was emitted as its slot and, if a node, enqueued its children after the earlier ranks'. */
  ghost predicate LaidAt(arr: seq<Slot>, all: seq<Tree<int>>, p: nat)
    requires p < |arr| <= |all|
  {
    && arr[p] == SlotOf(all[p])
    && (all[p].Node? ==>
          2 * Rank(arr, p) + 2 < |all|
          && all[2 * Rank(arr, p) + 1] == all[p].left && all[2 * Rank(arr, p) + 2] == all[p].right)
  }

  /** An entry dequeued earlier keeps its slot and its children's positions as the queue grows. */
  lemma LaidEarlier(arr: seq<Slot>, all: seq<Tree<int>>, arr2: seq<Slot>, all2: seq<Tree<int>>, p: nat)
    requires Laid(arr, all) && p < |arr| < |arr2| <= |all2|
    requires arr2[..|arr|] == arr && |all| <= |all2| && all2[..|all|] == all
    ensures LaidAt(arr2, all2, p)
  {
    assert LaidAt(arr, all, p);
    RankPrefix(arr, arr2[|arr|..], p);
    assert arr2 == arr + arr2[|arr|..];
    var k := Rank(arr, p);
    assert arr2[p] == arr2[..|arr|][p];
    assert all2[p] == all2[..|all|][p];
    if all[p].Node? {
      assert all2[2 * k + 1] == all2[..|all|][2 * k + 1];
      assert all2[2 * k + 2] == all2[..|all|][2 * k + 2];
    }
  }

  /** The entry just dequeued is emitted and finds its children at the two new positions. */
  lemma LaidLast(arr: seq<Slot>, all: seq<Tree<int>>, arr2: seq<Slot>, all2: seq<Tree<int>>)
    requires Laid(arr, all) && |arr| < |all|
    requires arr2 == arr + [SlotOf(all[|arr|])]
    requires all2 == all + (if all[|arr|].Node? then [all[|arr|].left, all[|arr|].right] else [])
    ensures LaidAt(arr2, all2, |arr|)
  {
    RankPrefix(arr, [SlotOf(all[|arr|])], |arr|);
    assert all2[|arr|] == all[|arr|];
  }

  lemma LaidStep(arr: seq<Slot>, all: seq<Tree<int>>, arr2: seq<Slot>, all2: seq<Tree<int>>)
    requires Laid(arr, all) && |arr| < |all|
    requires arr2 == arr + [SlotOf(all[|arr|])]
    requires all2 == all + (if all[|arr|].Node? then [all[|arr|].left, all[|arr|].right] else [])
    ensures Laid(arr2, all2)
  {
    var n := |arr|;
    RankPrefix(arr, [SlotOf(all[n])], n);
    assert Rank(arr2, n + 1) == Rank(arr, n) + (if all[n].Node? then 1 else 0);
    assert arr2[..n] == arr;
    assert all2[..|all|] == all;
    forall p | 0 <= p < |arr2|
      ensures LaidAt(arr2, all2, p)
    {
      if p < n {
        LaidEarlier(arr, all, arr2, all2, p);
      } else {
        LaidLast(arr, all, arr2, all2);
      }
    }
  }

  lemma LaidChildren(arr: seq<Slot>, all: seq<Tree<int>>, p: nat)
    requires Laid(arr, all) && |arr| == |all| && p < |arr| && arr[p].Some?
    ensures all[p].Node? && arr[p].value == all[p].val
    ensures 2 * Rank(arr, p) + 2 < |arr|
    ensures all[2 * Rank(arr, p) + 1] == all[p].left && all[2 * Rank(arr, p) + 2] == all[p].right
    ensures arr[2 * Rank(arr, p) + 1] == SlotOf(all[p].left)
    ensures arr[2 * Rank(arr, p) + 2] == SlotOf(all[p].right)
  {
    assert LaidAt(arr, all, p);
    var k := Rank(arr, p);
    assert all[2 * k + 1] == all[p].left && all[2 * k + 2] == all[p].right;
    assert LaidAt(arr, all, 2 * k + 1) && LaidAt(arr, all, 2 * k + 2);
  }

  /** Once every entry is dequeued, the emitted slots rebuild each enqueued subtree. */
  lemma {:induction false} LaidSubtree(arr: seq<Slot>, all: seq<Tree<int>>, p: nat)
    requires Laid(arr, all) && |arr| == |all| && Grows(arr, p)
    ensures SubtreeAt(arr, p) == all[p]
    decreases |arr| - p
  {
    LaidChildren(arr, all, p);
    var lc := 2 * Rank(arr, p) + 1;
    var rc := lc + 1;
    var t := all[p];
    var l := if arr[lc].Some? then (ChildGrows(arr, p, lc); SubtreeAt(arr, lc)) else Nil;
    var r := if arr[rc].Some? then (ChildGrows(arr, p, rc); SubtreeAt(arr, rc)) else Nil;
    assert SubtreeAt(arr, p) == Node(l, arr[p].value, r);
    if arr[lc].Some? {
      ChildGrows(arr, p, lc);
      LaidSubtree(arr, all, lc);
    }
    if arr[rc].Some? {
      ChildGrows(arr, p, rc);
      LaidSubtree(arr, all, rc);
    }
  }

  /** The invariant of the dequeue loop of `TreeToArray`. */
  ghost predicate Scanning(root: Tree<int>, result: seq<Slot>, all: seq<Tree<int>>, queue: seq<Tree<int>>)
  {
    && Laid(result, all)
    && queue == all[|result|..]
    && all[0] == root
    && QueueSize(queue) + Rank(result, |result|) == Size(root)
  }

  lemma SliceAppend(a: seq<Tree<int>>, e: seq<Tree<int>>, n: nat)
    requires n < |a|
    ensures (a + e)[n + 1..] == a[n..][1..] + e
  {
  }

  lemma QueueSizeStep(queue: seq<Tree<int>>, extra: seq<Tree<int>>)
    requires |queue| > 0
    requires extra == if queue[0].Node? then [queue[0].left, queue[0].right] else []
    ensures QueueSize(queue[1..] + extra) + (if queue[0].Node? then 1 else 0) == QueueSize(queue)
  {
    var node := queue[0];
    QueueSizeAppend(queue[1..], extra);
    if node.Node? {
      assert extra[1..] == [node.right] && [node.right][1..] == [];
      assert QueueSize([node.right]) == Size(node.right);
      assert QueueSize(extra) == Size(node.left) + Size(node.right);
    } else {
      assert queue[1..] + extra == queue[1..];
    }
  }

  lemma ScanStep(root: Tree<int>, result: seq<Slot>, all: seq<Tree<int>>, queue: seq<Tree<int>>,
                 result2: seq<Slot>, all2: seq<Tree<int>>, queue2: seq<Tree<int>>)
    requires Scanning(root, result, all, queue) && |queue| > 0
    requires result2 == result + [SlotOf(queue[0])]
    requires queue2 == queue[1..] + (if queue[0].Node? then [queue[0].left, queue[0].right] else [])
    requires all2 == all + (if queue[0].Node? then [queue[0].left, queue[0].right] else [])
    ensures Scanning(root, result2, all2, queue2)
    ensures 2 * QueueSize(queue2) + |queue2| < 2 * QueueSize(queue) + |queue|
  {
    var node := queue[0];
    var extra := if node.Node? then [node.left, node.right] else [];
    assert node == all[|result|];
    LaidStep(result, all, result2, all2);
    SliceAppend(all, extra, |result|);
    RankPrefix(result, [SlotOf(node)], |result|);
    QueueSizeStep(queue, extra);
  }

  lemma ScanDone(root: Tree<int>, result: seq<Slot>, all: seq<Tree<int>>)
    requires Scanning(root, result, all, []) && root.Node?
    ensures Build(result) == root
    ensures Rank(result, |result|) == Size(root)
  {
    assert LaidAt(result, all, 0);
    LaidSubtree(result, all, 0);
  }

  /** A trailing absent slot is never reached, so dropping it changes nothing. */
  lemma {:induction false} TrimSubtree(a: seq<Slot>, p: nat)
    requires Grows(a, p)
    ensures Grows(a + [None], p) && SubtreeAt(a + [None], p) == SubtreeAt(a, p)
    decreases |a| - p
  {
    var arr := a + [None];
    RankPrefix(a, [None], p);
    assert arr[p] == a[p];
    var lc := 2 * Rank(a, p) + 1;
    var rc := lc + 1;
    if lc < |a| && a[lc].Some? {
      ChildGrows(a, p, lc);
      TrimSubtree(a, lc);
      assert arr[lc] == a[lc];
    }
    if rc < |a| && a[rc].Some? {
      ChildGrows(a, p, rc);
      TrimSubtree(a, rc);
      assert arr[rc] == a[rc];
    }
  }

  lemma TrimNone(a: seq<Slot>)
    ensures Build(a + [None]) == Build(a)
    ensures Rank(a + [None], |a| + 1) == Rank(a, |a|)
  {
    RankPrefix(a, [None], |a|);
    if |a| > 0 && a[0].Some? {
      assert (a + [None])[0] == a[0];
      TrimSubtree(a, 0);
    }
  }

  /**
   * Level order with `null` for each empty child of a listed node, trailing
   * `null`s trimmed. The array rebuilds the tree, lists each node once and
   * never ends in `null`.
   */
  method TreeToArray(root: Tree<int>) returns (result: seq<Slot>)
    ensures Build(result) == root
    ensures Rank(result, |result|) == Size(root)
    ensures result == [] || result[|result| - 1].Some?
  {
    if root == Nil {
      return [];
    }
    result := [];
    var queue := [root];
    ghost var all := [root];
    assert QueueSize(queue) == Size(root) by {
      assert queue[1..] == [];
    }
    while |queue| > 0
      invariant Scanning(root, result, all, queue)
      decreases 2 * QueueSize(queue) + |queue|
    {
      var node := queue[0];
      ghost var result0, all0, queue0 := result, all, queue;
      queue := queue[1..];
      if node == Nil {
        result := result + [None];
      } else {
        result := result + [Some(node.val)];
        queue := queue + [node.left, node.right];
        all := all + [node.left, node.right];
      }
      ScanStep(root, result0, all0, queue0, result, all, queue);
    }
    ScanDone(root, result, all);
    while |result| > 0 && result[|result| - 1] == None
      invariant Build(result) == root
      invariant Rank(result, |result|) == Size(root)
    {
      TrimNone(result[..|result| - 1]);
      assert result[..|result| - 1] + [None] == result;
      result := result[..|result| - 1];
    }
  }


  /** [4,2,7,1,3,6,9] inverts to [4,7,2,9,6,3,1]. */
  lemma FullTreeExample()
    ensures Build([Some(4), Some(2), Some(7), Some(1), Some(3), Some(6), Some(9)])
         == Node(Node(Tip(1), 2, Tip(3)), 4, Node(Tip(6), 7, Tip(9)))
    ensures Mirror(Node(Node(Tip(1), 2, Tip(3)), 4, Node(Tip(6), 7, Tip(9))))
         == Build([Some(4), Some(7), Some(2), Some(9), Some(6), Some(3), Some(1)])
  {
    FullBuild(4, 2, 7, 1, 3, 6, 9);
    FullBuild(4, 7, 2, 9, 6, 3, 1);
  }

  /** Seven present slots make the full tree of height three. */
  lemma FullBuild(a: int, b: int, c: int, d: int, e: int, f: int, g: int)
    ensures Build([Some(a), Some(b), Some(c), Some(d), Some(e), Some(f), Some(g)])
         == Node(Node(Tip(d), b, Tip(e)), a, Node(Tip(f), c, Tip(g)))
  {
    var arr := [Some(a), Some(b), Some(c), Some(d), Some(e), Some(f), Some(g)];
    assert Rank(arr, 1) == 1 && Rank(arr, 2) == 2 && Rank(arr, 3) == 3;
    assert Rank(arr, 4) == 4 && Rank(arr, 5) == 5 && Rank(arr, 6) == 6;
    assert SubtreeAt(arr, 3) == Tip(d) && SubtreeAt(arr, 4) == Tip(e);
    assert SubtreeAt(arr, 5) == Tip(f) && SubtreeAt(arr, 6) == Tip(g);
    assert SubtreeAt(arr, 1) == Node(Tip(d), b, Tip(e));
    assert SubtreeAt(arr, 2) == Node(Tip(f), c, Tip(g));
    assert SubtreeAt(arr, 0) == Node(Node(Tip(d), b, Tip(e)), a, Node(Tip(f), c, Tip(g)));
  }

  /** [1,2,3,4,5] inverts to [1,3,2,null,null,5,4]. */
  lemma UnbalancedExample()
    ensures Mirror(Build([Some(1), Some(2), Some(3), Some(4), Some(5)]))
         == Build([Some(1), Some(3), Some(2), None, None, Some(5), Some(4)])
  {
    UnbalancedBuild();
    InvertedBuild();
    assert Mirror(Node(Tip(4), 2, Tip(5))) == Node(Tip(5), 2, Tip(4));
  }

  lemma UnbalancedBuild()
    ensures Build([Some(1), Some(2), Some(3), Some(4), Some(5)]) == Node(Node(Tip(4), 2, Tip(5)), 1, Tip(3))
  {
    var arr := [Some(1), Some(2), Some(3), Some(4), Some(5)];
    assert Rank(arr, 1) == 1 && Rank(arr, 2) == 2 && Rank(arr, 3) == 3 && Rank(arr, 4) == 4;
    assert SubtreeAt(arr, 3) == Tip(4) && SubtreeAt(arr, 4) == Tip(5) && SubtreeAt(arr, 2) == Tip(3);
    assert SubtreeAt(arr, 1) == Node(Tip(4), 2, Tip(5));
    assert SubtreeAt(arr, 0) == Node(Node(Tip(4), 2, Tip(5)), 1, Tip(3));
  }

  lemma InvertedBuild()
    ensures Build([Some(1), Some(3), Some(2), None, None, Some(5), Some(4)]) == Node(Tip(3), 1, Node(Tip(5), 2, Tip(4)))
  {
    var inv := [Some(1), Some(3), Some(2), None, None, Some(5), Some(4)];
    assert Rank(inv, 1) == 1 && Rank(inv, 2) == 2 && Rank(inv, 3) == 3;
    assert Rank(inv, 4) == 3 && Rank(inv, 5) == 3 && Rank(inv, 6) == 4;
    assert SubtreeAt(inv, 5) == Tip(5) && SubtreeAt(inv, 6) == Tip(4) && SubtreeAt(inv, 1) == Tip(3);
    assert SubtreeAt(inv, 2) == Node(Tip(5), 2, Tip(4));
    assert SubtreeAt(inv, 0) == Node(Tip(3), 1, Node(Tip(5), 2, Tip(4)));
  }

  /** The symmetric tree [1,2,2,3,4,4,3] is its own mirror. */
  lemma SymmetricExample()
    ensures Mirror(Build([Some(1), Some(2), Some(2), Some(3), Some(4), Some(4), Some(3)]))
         == Build([Some(1), Some(2), Some(2), Some(3), Some(4), Some(4), Some(3)])
  {
    FullBuild(1, 2, 2, 3, 4, 4, 3);
    assert Mirror(Tip(3)) == Tip(3) && Mirror(Tip(4)) == Tip(4);
    assert Mirror(Node(Tip(3), 2, Tip(4))) == Node(Tip(4), 2, Tip(3));
    assert Mirror(Node(Tip(4), 2, Tip(3))) == Node(Tip(3), 2, Tip(4));
  }
}
