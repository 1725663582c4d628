/**
 * Binary trees as linked heap nodes, for the exercises that rewire links in place.
 * A ghost `Shape` names which node sits where; `Realizes` ties the `left`/`right`
 * fields to it, and `Abs` reads the values off it as a `Tree`.
 */
module HeapTrees {
  import opened Trees

  class Node {
    var val: int
    var left: Node?
    var right: Node?

    constructor (val: int)
      ensures this.val == val && left == null && right == null
    {
      this.val := val;
      left := null;
      right := null;
    }
  }

  /** The skeleton of a heap tree: which node sits at which position. */
  datatype Shape = Leaf | Fork(l: Shape, node: Node, r: Shape)

  function Nodes(s: Shape): set<Node>
  {
    match s
    case Leaf => {}
    case Fork(l, x, r) => Nodes(l) + {x} + Nodes(r)
  }

  /** No node occurs twice in the skeleton. */
  predicate WellShaped(s: Shape)
  {
    match s
    case Leaf => true
    case Fork(l, x, r) => WellShaped(l) && WellShaped(r) && x !in Nodes(l) && x !in Nodes(r) && Nodes(l) !! Nodes(r)
  }

  /** The links below `n` follow the skeleton `s`. */
  ghost predicate Links(s: Shape, n: Node?)
    reads Nodes(s)
  {
    match s
    case Leaf => n == null
    case Fork(l, x, r) => n == x && Links(l, x.left) && Links(r, x.right)
  }

  /** `n` is the root of a heap tree laid out as `s`, with no node shared. */
  ghost predicate Realizes(s: Shape, n: Node?)
    reads Nodes(s)
  {
    WellShaped(s) && Links(s, n)
  }

  /** The tree of values laid out as `s`; it reads only the `val` fields. */
  ghost function Abs(s: Shape): Tree<int>
    reads Nodes(s)`val
  {
    match s
    case Leaf => Nil
    case Fork(l, x, r) => Node(Abs(l), x.val, Abs(r))
  }

  /** The nodes in preorder: node, left part, right part. */
  function PreNodes(s: Shape): seq<Node>
  {
    match s
    case Leaf => []
    case Fork(l, x, r) => [x] + PreNodes(l) + PreNodes(r)
  }

  lemma {:induction false} PreNodesAreNodes(s: Shape)
    requires WellShaped(s)
    ensures forall i :: 0 <= i < |PreNodes(s)| ==> PreNodes(s)[i] in Nodes(s)
    ensures forall x :: x in Nodes(s) ==> x in PreNodes(s)
    ensures forall i, j :: 0 <= i < j < |PreNodes(s)| ==> PreNodes(s)[i] != PreNodes(s)[j]
  {
    if s.Fork? {
      PreNodesAreNodes(s.l);
      PreNodesAreNodes(s.r);
      var a, b := PreNodes(s.l), PreNodes(s.r);
      var p := [s.node] + a + b;
      forall i, j | 0 <= i < j < |p| ensures p[i] != p[j] {
        if i == 0 && j <= |a| {
          assert p[j] == a[j - 1];
          assert a[j - 1] in Nodes(s.l);
        } else if i == 0 {
          assert p[j] == b[j - 1 - |a|];
          assert b[j - 1 - |a|] in Nodes(s.r);
        } else if i <= |a| && j > |a| {
          assert p[i] == a[i - 1] && p[j] == b[j - 1 - |a|];
          assert a[i - 1] in Nodes(s.l) && b[j - 1 - |a|] in Nodes(s.r);
        } else if i <= |a| {
          assert p[i] == a[i - 1] && p[j] == a[j - 1];
        } else {
          assert p[i] == b[i - 1 - |a|] && p[j] == b[j - 1 - |a|];
        }
      }
    }
  }

  lemma {:induction false} NodesAllocated(s: Shape)
    ensures forall x :: x in Nodes(s) ==> allocated(x)
  {
    if s.Fork? {
      NodesAllocated(s.l);
      NodesAllocated(s.r);
    }
  }
}
