/**
 * Depth-first traversals whose only effect is the sequence of values they log,
 * and the preorder decoder that rebuilds a tree from tokens, "x" marking an
 * absent child, reading them through a shared iterator.
 */
module TreeTraversal {
  import opened Wrappers
  import opened Trees

  /** Left subtree, node, right subtree. */
  function InOrder<T>(t: Tree<T>): seq<T>
  {
    if t.Nil? then [] else InOrder(t.left) + [t.val] + InOrder(t.right)
  }

  /** Node, left subtree, right subtree. */
  function PreOrder<T>(t: Tree<T>): seq<T>
  {
    if t.Nil? then [] else [t.val] + PreOrder(t.left) + PreOrder(t.right)
  }

  /** Left subtree, right subtree, node. */
  function PostOrder<T>(t: Tree<T>): seq<T>
  {
    if t.Nil? then [] else PostOrder(t.left) + PostOrder(t.right) + [t.val]
  }

  /** Each traversal logs every node exactly once, so the three logs are permutations of one another. */
  lemma TraversalsLogEveryNode<T>(t: Tree<T>)
    ensures |InOrder(t)| == |PreOrder(t)| == |PostOrder(t)| == Size(t)
    ensures multiset(InOrder(t)) == multiset(PreOrder(t)) == multiset(PostOrder(t)) == Values(t)
  {
    InOrderLogs(t);
    PreOrderLogs(t);
    PostOrderLogs(t);
  }

  lemma {:induction false} InOrderLogs<T>(t: Tree<T>)
    ensures |InOrder(t)| == Size(t) && multiset(InOrder(t)) == Values(t)
  {
    if t.Node? {
      InOrderLogs(t.left);
      InOrderLogs(t.right);
    }
  }

  lemma {:induction false} PreOrderLogs<T>(t: Tree<T>)
    ensures |PreOrder(t)| == Size(t) && multiset(PreOrder(t)) == Values(t)
  {
    if t.Node? {
      PreOrderLogs(t.left);
      PreOrderLogs(t.right);
    }
  }

  lemma {:induction false} PostOrderLogs<T>(t: Tree<T>)
    ensures |PostOrder(t)| == Size(t) && multiset(PostOrder(t)) == Values(t)
  {
    if t.Node? {
      PostOrderLogs(t.left);
      PostOrderLogs(t.right);
    }
  }

  /** A token stream read one token at a time, like the generator handed to `buildTree`. */
  class TokenIterator {
    const tokens: seq<string>
    var pos: nat

    ghost predicate Valid()
      reads this
    {
      pos <= |tokens|
    }

    constructor (tokens: seq<string>)
      ensures Valid() && this.tokens == tokens && pos == 0
    {
      this.tokens := tokens;
      pos := 0;
    }

    /** The next token, or `None` (the iterator's `undefined`) once the stream is exhausted. */
    method Next() returns (tok: Option<string>)
      requires Valid()
      modifies this
      ensures Valid()
      ensures old(pos) < |tokens| ==> tok == Some(tokens[old(pos)]) && pos == old(pos) + 1
      ensures old(pos) == |tokens| ==> tok.None? && pos == old(pos)
    {
      if pos < |tokens| {
        tok := Some(tokens[pos]);
        pos := pos + 1;
      } else {
        tok := None;
      }
    }
  }

  /**
   * Decoding from token position `pos`: the tree and the position after it, or
   * `None` when the tokens run out, where the source keeps recursing on
   * `undefined` without end.
   */
  function Decode<V>(tokens: seq<string>, pos: nat, f: string -> V): (r: Option<(Tree<V>, nat)>)
    requires pos <= |tokens|
    ensures r.Some? ==> pos < r.value.1 <= |tokens|
    decreases |tokens| - pos
  {
    if pos == |tokens| then None
    else if tokens[pos] == "x" then Some((Nil, pos + 1))
    else match Decode(tokens, pos + 1, f)
      case None => None
      case Some((left, p1)) =>
        match Decode(tokens, p1, f)
        case None => None
        case Some((right, p2)) => Some((Node(left, f(tokens[pos]), right), p2))
  }

  /** Builds left from the following tokens, then right, then the node holding `f(token)`. */
  method BuildTree<V>(it: TokenIterator, f: string -> V) returns (t: Option<Tree<V>>)
    requires it.Valid()
    modifies it
    ensures it.Valid() && old(it.pos) <= it.pos
    ensures Decode(it.tokens, old(it.pos), f) == if t.Some? then Some((t.value, it.pos)) else None
    decreases |it.tokens| - it.pos
  {
    var val := it.Next();
    if val.None? {
      return None;
    }
    if val.value == "x" {
      return Some(Nil);
    }
    var left := BuildTree(it, f);
    if left.None? {
      return None;
    }
    var right := BuildTree(it, f);
    if right.None? {
      return None;
    }
    return Some(Node(left.value, f(val.value), right.value));
  }

  /** The tokens that are not the absent-child marker, in order. */
  function Present(tokens: seq<string>): seq<string>
  {
    if tokens == [] then []
    else (if tokens[0] == "x" then [] else [tokens[0]]) + Present(tokens[1..])
  }

  function MapSeq<A, B>(f: A -> B, s: seq<A>): (r: seq<B>)
    ensures |r| == |s| && forall i :: 0 <= i < |s| ==> r[i] == f(s[i])
  {
    if s == [] then [] else [f(s[0])] + MapSeq(f, s[1..])
  }

  lemma {:induction false} PresentAppend(a: seq<string>, b: seq<string>)
    ensures Present(a + b) == Present(a) + Present(b)
  {
    if a == [] {
      assert a + b == b;
    } else {
      assert (a + b)[1..] == a[1..] + b;
      PresentAppend(a[1..], b);
    }
  }

  lemma MapSeqAppend<A, B>(f: A -> B, a: seq<A>, b: seq<A>)
    ensures MapSeq(f, a + b) == MapSeq(f, a) + MapSeq(f, b)
  {
  }

  lemma PresentNode(tokens: seq<string>, pos: nat, p1: nat, p: nat)
    requires pos < p1 <= p <= |tokens| && tokens[pos] != "x"
    ensures Present(tokens[pos..p]) == [tokens[pos]] + Present(tokens[pos + 1..p1]) + Present(tokens[p1..p])
  {
    assert tokens[pos..p] == [tokens[pos]] + (tokens[pos + 1..p1] + tokens[p1..p]);
    assert Present([tokens[pos]]) == [tokens[pos]];
    PresentAppend([tokens[pos]], tokens[pos + 1..p1] + tokens[p1..p]);
    PresentAppend(tokens[pos + 1..p1], tokens[p1..p]);
  }

  /** The preorder of a decoded tree is the consumed non-"x" tokens, mapped by `f`, in input order. */
  lemma {:induction false} DecodePreOrder<V>(tokens: seq<string>, pos: nat, f: string -> V)
    requires pos <= |tokens| && Decode(tokens, pos, f).Some?
    ensures PreOrder(Decode(tokens, pos, f).value.0)
         == MapSeq(f, Present(tokens[pos..Decode(tokens, pos, f).value.1]))
    decreases |tokens| - pos
  {
    var p := Decode(tokens, pos, f).value.1;
    if tokens[pos] == "x" {
      assert tokens[pos..p] == ["x"];
      assert Present(tokens[pos..p]) == [];
    } else {
      var p1 := Decode(tokens, pos + 1, f).value.1;
      DecodePreOrder(tokens, pos + 1, f);
      DecodePreOrder(tokens, p1, f);
      PresentNode(tokens, pos, p1, p);
      var a, b := Present(tokens[pos + 1..p1]), Present(tokens[p1..p]);
      MapSeqAppend(f, [tokens[pos]] + a, b);
      MapSeqAppend(f, [tokens[pos]], a);
    }
  }

  /** The token encoding `buildTree` reads: preorder with "x" for every absent child. */
  function Serialize(t: Tree<string>): (toks: seq<string>)
    ensures |toks| == 2 * Size(t) + 1
  {
    if t.Nil? then ["x"] else [t.val] + Serialize(t.left) + Serialize(t.right)
  }

  function MapTree<A, B>(f: A -> B, t: Tree<A>): Tree<B>
  {
    if t.Nil? then Nil else Node(MapTree(f, t.left), f(t.val), MapTree(f, t.right))
  }

  /** No node holds the marker itself. */
  predicate NoMarker(t: Tree<string>)
  {
    t.Nil? || (t.val != "x" && NoMarker(t.left) && NoMarker(t.right))
  }

  /** Decoding the encoding of a tree rebuilds it (values mapped by `f`) and consumes exactly its tokens. */
  lemma {:induction false} DecodeSerialize<V>(t: Tree<string>, rest: seq<string>, f: string -> V)
    requires NoMarker(t)
    ensures Decode(Serialize(t) + rest, 0, f) == Some((MapTree(f, t), |Serialize(t)|))
  {
    DecodeAt(Serialize(t) + rest, 0, t, f);
  }

  /** The tokens from `pos` on begin with the encoding of `t`. */
  ghost predicate EncodesAt(toks: seq<string>, pos: nat, t: Tree<string>)
  {
    pos + |Serialize(t)| <= |toks| && forall i :: 0 <= i < |Serialize(t)| ==> toks[pos + i] == Serialize(t)[i]
  }

  /** A node's encoding is its value, then its left subtree's encoding, then its right subtree's. */
  lemma EncodesNode(toks: seq<string>, pos: nat, t: Tree<string>)
    requires EncodesAt(toks, pos, t) && t.Node?
    ensures toks[pos] == t.val
    ensures EncodesAt(toks, pos + 1, t.left)
    ensures EncodesAt(toks, pos + 1 + |Serialize(t.left)|, t.right)
  {
    var sl, sr := Serialize(t.left), Serialize(t.right);
    var e := Serialize(t);
    assert e == [t.val] + sl + sr;
    assert toks[pos + 0] == e[0];
    forall i | 0 <= i < |sl| ensures toks[pos + 1 + i] == sl[i] {
      assert toks[pos + (1 + i)] == e[1 + i];
    }
    forall i | 0 <= i < |sr| ensures toks[pos + 1 + |sl| + i] == sr[i] {
      assert toks[pos + (1 + |sl| + i)] == e[1 + |sl| + i];
    }
  }

  lemma {:induction false} DecodeAt<V>(toks: seq<string>, pos: nat, t: Tree<string>, f: string -> V)
    requires NoMarker(t) && EncodesAt(toks, pos, t)
    ensures Decode(toks, pos, f) == Some((MapTree(f, t), pos + |Serialize(t)|))
    decreases t
  {
    if t.Node? {
      EncodesNode(toks, pos, t);
      var p1 := pos + 1 + |Serialize(t.left)|;
      DecodeAt(toks, pos + 1, t.left, f);
      DecodeAt(toks, p1, t.right, f);
    } else {
      assert toks[pos + 0] == Serialize(t)[0];
    }
  }

  /** The decoder on the sample "1 2 x x 3 x x": root 1 with leaves 2 and 3. */
  lemma SampleDecode()
    ensures Decode(["1", "2", "x", "x", "3", "x", "x"], 0, (s: string) => s)
         == Some((Node(Node(Nil, "2", Nil), "1", Node(Nil, "3", Nil)), 7))
  {
    var toks := ["1", "2", "x", "x", "3", "x", "x"];
    var id := (s: string) => s;
    assert Decode(toks, 2, id) == Some((Nil, 3)) && Decode(toks, 3, id) == Some((Nil, 4));
    assert Decode(toks, 5, id) == Some((Nil, 6)) && Decode(toks, 6, id) == Some((Nil, 7));
    assert Decode(toks, 1, id) == Some((Node(Nil, "2", Nil), 4));
    assert Decode(toks, 4, id) == Some((Node(Nil, "3", Nil), 7));
  }
}
