/**
 * Binary trees as values, shared by the read-only tree exercises.
 * A node is named by its address: the left/right turns taken from the root.
 */
module Trees {
  datatype Tree<T> = Nil | Node(left: Tree<T>, val: T, right: Tree<T>)

  datatype Dir = L | R

  /** The subtree reached by following the turns in `a`; `Nil` once the walk leaves the tree. */
  function At<T>(t: Tree<T>, a: seq<Dir>): Tree<T>
    decreases a
  {
    if a == [] then t
    else match t
      case Nil => Nil
      case Node(l, _, r) => At(if a[0] == L then l else r, a[1..])
  }

  /** `a` is the address of a node of `t`. */
  predicate IsAddr<T>(t: Tree<T>, a: seq<Dir>)
  {
    At(t, a).Node?
  }

  /** A node without children. */
  function Tip<T>(v: T): Tree<T> { Node(Nil, v, Nil) }

  /** Number of nodes. */
  function Size<T>(t: Tree<T>): nat
  {
    match t
    case Nil => 0
    case Node(l, _, r) => Size(l) + 1 + Size(r)
  }

  /** The values stored in the tree, with multiplicity. */
  function Values<T>(t: Tree<T>): multiset<T>
  {
    match t
    case Nil => multiset{}
    case Node(l, v, r) => Values(l) + multiset{v} + Values(r)
  }

  /** `h` is the number of nodes on a longest downward path from the root. */
  ghost predicate IsHeight<T>(t: Tree<T>, h: nat)
  {
    && (forall a :: IsAddr(t, a) ==> |a| < h)
    && (h > 0 ==> exists a :: IsAddr(t, a) && |a| == h - 1)
  }

  lemma AtNode<T>(l: Tree<T>, v: T, r: Tree<T>, d: Dir, a: seq<Dir>)
    ensures At(Node(l, v, r), [d] + a) == At(if d == L then l else r, a)
  {
    assert ([d] + a)[1..] == a;
  }

  lemma AtNil<T>(a: seq<Dir>)
    ensures At<T>(Nil, a).Nil?
  {
  }

  lemma HeightNil<T>()
    ensures IsHeight<T>(Nil, 0)
  {
    forall a: seq<Dir> ensures !IsAddr<T>(Nil, a) {
      AtNil<T>(a);
    }
  }

  /** The height of a node is one more than the larger child height. */
  lemma HeightNode<T>(l: Tree<T>, v: T, r: Tree<T>, hl: nat, hr: nat)
    requires IsHeight(l, hl) && IsHeight(r, hr)
    ensures IsHeight(Node(l, v, r), 1 + if hl < hr then hr else hl)
  {
    var t := Node(l, v, r);
    var h := 1 + if hl < hr then hr else hl;
    forall a | IsAddr(t, a) ensures |a| < h {
      if a != [] {
        AtNode(l, v, r, a[0], a[1..]);
        assert [a[0]] + a[1..] == a;
      }
    }
    if hl < hr {
      var b :| IsAddr(r, b) && |b| == hr - 1;
      AtNode(l, v, r, R, b);
      assert IsAddr(t, [R] + b);
    } else if hl > 0 {
      var b :| IsAddr(l, b) && |b| == hl - 1;
      AtNode(l, v, r, L, b);
      assert IsAddr(t, [L] + b);
    } else {
      assert IsAddr(t, []);
    }
  }

  /** A tree has only one height. */
  lemma HeightUnique<T>(t: Tree<T>, h1: nat, h2: nat)
    requires IsHeight(t, h1) && IsHeight(t, h2)
    ensures h1 == h2
  {
  }

  /** `a` is the address of a leaf (a node without children) of `t`. */
  predicate IsLeaf<T>(t: Tree<T>, a: seq<Dir>)
  {
    At(t, a).Node? && At(t, a).left.Nil? && At(t, a).right.Nil?
  }

  /** Addresses below the root are addresses in one of the two subtrees. */
  lemma AtSplit<T>(t: Tree<T>, a: seq<Dir>)
    requires t.Node? && a != []
    ensures At(t, a) == At(if a[0] == L then t.left else t.right, a[1..])
  {
  }

  /** Every node of `t` satisfies `P`. */
  ghost predicate EveryNode<T>(t: Tree<T>, P: Tree<T> -> bool)
  {
    forall a :: IsAddr(t, a) ==> P(At(t, a))
  }

  /** Some node of `t` satisfies `P`. */
  ghost predicate SomeNode<T>(t: Tree<T>, P: Tree<T> -> bool)
  {
    exists a :: IsAddr(t, a) && P(At(t, a))
  }

  /** A property holds at every node iff it holds at the root and in both subtrees. */
  lemma EveryNodeSplit<T>(t: Tree<T>, P: Tree<T> -> bool)
    requires t.Node?
    ensures EveryNode(t, P) <==> P(t) && EveryNode(t.left, P) && EveryNode(t.right, P)
  {
    if EveryNode(t, P) {
      assert IsAddr(t, []);
      forall a | IsAddr(t.left, a) ensures P(At(t.left, a)) {
        AtNode(t.left, t.val, t.right, L, a);
        assert IsAddr(t, [L] + a);
      }
      forall a | IsAddr(t.right, a) ensures P(At(t.right, a)) {
        AtNode(t.left, t.val, t.right, R, a);
        assert IsAddr(t, [R] + a);
      }
    }
    if P(t) && EveryNode(t.left, P) && EveryNode(t.right, P) {
      forall a | IsAddr(t, a) ensures P(At(t, a)) {
        if a != [] {
          AtSplit(t, a);
        }
      }
    }
  }

  /** A property holds at some node iff it holds at the root or somewhere in a subtree. */
  lemma SomeNodeSplit<T>(t: Tree<T>, P: Tree<T> -> bool)
    requires t.Node?
    ensures SomeNode(t, P) <==> P(t) || SomeNode(t.left, P) || SomeNode(t.right, P)
  {
    if SomeNode(t, P) {
      var a :| IsAddr(t, a) && P(At(t, a));
      if a != [] {
        AtSplit(t, a);
        assert IsAddr(if a[0] == L then t.left else t.right, a[1..]);
      }
    }
    if SomeNode(t.left, P) {
      var a :| IsAddr(t.left, a) && P(At(t.left, a));
      AtNode(t.left, t.val, t.right, L, a);
      assert IsAddr(t, [L] + a);
    }
    if SomeNode(t.right, P) {
      var a :| IsAddr(t.right, a) && P(At(t.right, a));
      AtNode(t.left, t.val, t.right, R, a);
      assert IsAddr(t, [R] + a);
    }
    if P(t) {
      assert IsAddr(t, []);
    }
  }

  /** Each address of `xs`, one turn `d` further down. */
  function Under(d: Dir, xs: seq<seq<Dir>>): (bs: seq<seq<Dir>>)
    ensures |bs| == |xs|
    ensures forall i :: 0 <= i < |xs| ==> bs[i] == [d] + xs[i]
  {
    if xs == [] then [] else [[d] + xs[0]] + Under(d, xs[1..])
  }

  /** The addresses of all nodes, in preorder. */
  function Addrs<T>(t: Tree<T>): seq<seq<Dir>>
  {
    match t
    case Nil => []
    case Node(l, _, r) => [[]] + Under(L, Addrs(l)) + Under(R, Addrs(r))
  }

  lemma UnderMember(d: Dir, xs: seq<seq<Dir>>, a: seq<Dir>)
    ensures a in Under(d, xs) <==> a != [] && a[0] == d && a[1..] in xs
  {
    var bs := Under(d, xs);
    if a in bs {
      var i :| 0 <= i < |bs| && bs[i] == a;
      assert a[1..] == xs[i];
    }
    if a != [] && a[0] == d && a[1..] in xs {
      var i :| 0 <= i < |xs| && xs[i] == a[1..];
      assert [d] + xs[i] == a;
    }
  }

  /** `Addrs` lists exactly the node addresses. */
  lemma {:induction false} AddrsListsNodes<T>(t: Tree<T>)
    ensures forall a :: a in Addrs(t) <==> IsAddr(t, a)
  {
    match t
    case Nil =>
      forall a ensures !IsAddr(t, a) {
        AtNil<T>(a);
      }
    case Node(l, v, r) =>
      AddrsListsNodes(l);
      AddrsListsNodes(r);
      forall a ensures a in Addrs(t) <==> IsAddr(t, a) {
        if a != [] {
          AtSplit(t, a);
          UnderMember(L, Addrs(l), a);
          UnderMember(R, Addrs(r), a);
        }
      }
  }

  /** No element is listed twice. */
  predicate Distinct<X(==)>(xs: seq<X>)
  {
    forall i, j :: 0 <= i < j < |xs| ==> xs[i] != xs[j]
  }

  lemma UnderDistinct(d: Dir, xs: seq<seq<Dir>>)
    requires Distinct(xs)
    ensures Distinct(Under(d, xs))
  {
    var bs := Under(d, xs);
    forall i, j | 0 <= i < j < |bs| ensures bs[i] != bs[j] {
      assert bs[i][1..] == xs[i] && bs[j][1..] == xs[j];
    }
  }

  lemma JoinDistinct<X>(xs: seq<X>, ys: seq<X>)
    requires Distinct(xs) && Distinct(ys)
    requires forall i, j :: 0 <= i < |xs| && 0 <= j < |ys| ==> xs[i] != ys[j]
    ensures Distinct(xs + ys)
  {
    var zs := xs + ys;
    forall i, j | 0 <= i < j < |zs| ensures zs[i] != zs[j] {
      if j < |xs| {
        assert zs[i] == xs[i] && zs[j] == xs[j];
      } else if i >= |xs| {
        assert zs[i] == ys[i - |xs|] && zs[j] == ys[j - |xs|];
      } else {
        assert zs[i] == xs[i] && zs[j] == ys[j - |xs|];
      }
    }
  }

  /** No address is listed twice. */
  lemma {:induction false} AddrsDistinct<T>(t: Tree<T>)
    ensures Distinct(Addrs(t))
  {
    match t
    case Nil =>
    case Node(l, v, r) =>
      AddrsDistinct(l);
      AddrsDistinct(r);
      var al, ar := Under(L, Addrs(l)), Under(R, Addrs(r));
      UnderDistinct(L, Addrs(l));
      UnderDistinct(R, Addrs(r));
      JoinDistinct([[]], al);
      forall i, j | 0 <= i < |[[]] + al| && 0 <= j < |ar| ensures ([[]] + al)[i] != ar[j] {
        assert ar[j][0] == R;
        if i > 0 {
          assert ([[]] + al)[i] == al[i - 1];
        }
      }
      JoinDistinct([[]] + al, ar);
      assert Addrs(t) == [[]] + al + ar;
  }
}
