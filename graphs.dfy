/**
 * Reachability over a successor function, shared by the graph and grid searches.
 * A graph is given by `succ`, which lists the neighbours of a node in the order
 * the source iterates them.
 */
module Graphs {
  /** The adjacency lists the exercises build: node -> neighbours, in insertion order. */
  type Adjacency = map<int, seq<int>>

  /** `graph.get(node) ?? []`: a node without an entry has no neighbours. */
  function Neighbours(g: Adjacency, x: int): seq<int>
  {
    if x in g then g[x] else []
  }

  /** The adjacency map seen as a successor function. */
  function SuccOf(g: Adjacency): int -> seq<int>
  {
    x => Neighbours(g, x)
  }

  /** `p` follows edges: each node is a successor of the one before. */
  ghost predicate IsPath<N(!new)>(succ: N -> seq<N>, p: seq<N>)
  {
    |p| >= 1 && forall i :: 0 <= i < |p| - 1 ==> p[i + 1] in succ(p[i])
  }

  /** `p` is a path from `a` to `b`. */
  ghost predicate PathFromTo<N(!new)>(succ: N -> seq<N>, p: seq<N>, a: N, b: N)
  {
    IsPath(succ, p) && p[0] == a && p[|p| - 1] == b
  }

  ghost predicate Reachable<N(!new)>(succ: N -> seq<N>, a: N, b: N)
  {
    exists p :: PathFromTo(succ, p, a, b)
  }

  /** `k` is the least number of edges on a path from `a` to `b`. */
  ghost predicate IsDistance<N(!new)>(succ: N -> seq<N>, a: N, b: N, k: nat)
  {
    && (exists p :: PathFromTo(succ, p, a, b) && |p| == k + 1)
    && (forall p :: PathFromTo(succ, p, a, b) ==> |p| >= k + 1)
  }

  /** Every successor of a member is a member. */
  ghost predicate Closed<N(!new)>(succ: N -> seq<N>, s: set<N>)
  {
    forall x, i :: x in s && 0 <= i < |succ(x)| ==> succ(x)[i] in s
  }

  lemma ReachRefl<N(!new)>(succ: N -> seq<N>, a: N)
    ensures Reachable(succ, a, a)
  {
    assert PathFromTo(succ, [a], a, a);
  }

  /** A path extended by one edge at the end. */
  lemma ReachStep<N(!new)>(succ: N -> seq<N>, a: N, b: N, c: N)
    requires Reachable(succ, a, b) && c in succ(b)
    ensures Reachable(succ, a, c)
  {
    var p :| PathFromTo(succ, p, a, b);
    var q := p + [c];
    assert forall i :: 0 <= i < |p| ==> q[i] == p[i];
    assert PathFromTo(succ, q, a, c);
  }

  /** A path extended by one edge at the front. */
  lemma ReachPrepend<N(!new)>(succ: N -> seq<N>, a: N, b: N, c: N)
    requires b in succ(a) && Reachable(succ, b, c)
    ensures Reachable(succ, a, c)
  {
    var p :| PathFromTo(succ, p, b, c);
    var q := [a] + p;
    assert forall i :: 0 <= i < |p| ==> q[i + 1] == p[i];
    assert PathFromTo(succ, q, a, c);
  }

  lemma ReachTrans<N(!new)>(succ: N -> seq<N>, a: N, b: N, c: N)
    requires Reachable(succ, a, b) && Reachable(succ, b, c)
    ensures Reachable(succ, a, c)
  {
    var p :| PathFromTo(succ, p, a, b);
    var q :| PathFromTo(succ, q, b, c);
    var r := p + q[1..];
    forall i | 0 <= i < |r| - 1 ensures r[i + 1] in succ(r[i]) {
      if i < |p| - 1 {
        assert r[i] == p[i] && r[i + 1] == p[i + 1];
      } else {
        assert r[i] == q[i - |p| + 1] && r[i + 1] == q[i - |p| + 2];
      }
    }
    assert r[|r| - 1] == q[|q| - 1];
    assert PathFromTo(succ, r, a, c);
  }

  /** A closed set holding `a` holds every node on a path from `a`. */
  lemma {:induction false} ClosedHoldsPath<N(!new)>(succ: N -> seq<N>, s: set<N>, p: seq<N>)
    requires Closed(succ, s) && IsPath(succ, p) && p[0] in s
    ensures p[|p| - 1] in s
    decreases |p|
  {
    if |p| > 1 {
      var q := p[..|p| - 1];
      assert IsPath(succ, q) by {
        forall i | 0 <= i < |q| - 1 ensures q[i + 1] in succ(q[i]) {
          assert q[i] == p[i] && q[i + 1] == p[i + 1];
        }
      }
      ClosedHoldsPath(succ, s, q);
      var x := p[|p| - 2];
      assert p[|p| - 1] in succ(x);
      var i :| 0 <= i < |succ(x)| && succ(x)[i] == p[|p| - 1];
    }
  }

  /** A path without its last node is a path. */
  lemma PathInit<N(!new)>(succ: N -> seq<N>, p: seq<N>)
    requires IsPath(succ, p) && |p| > 1
    ensures IsPath(succ, p[..|p| - 1])
  {
    var q := p[..|p| - 1];
    forall i | 0 <= i < |q| - 1 ensures q[i + 1] in succ(q[i]) {
      assert q[i] == p[i] && q[i + 1] == p[i + 1];
    }
  }

  lemma ClosedHoldsReachable<N(!new)>(succ: N -> seq<N>, s: set<N>, a: N, b: N)
    requires Closed(succ, s) && a in s && Reachable(succ, a, b)
    ensures b in s
  {
    var p :| PathFromTo(succ, p, a, b);
    ClosedHoldsPath(succ, s, p);
  }

  /** Distances are unique. */
  lemma DistanceUnique<N(!new)>(succ: N -> seq<N>, a: N, b: N, j: nat, k: nat)
    requires IsDistance(succ, a, b, j) && IsDistance(succ, a, b, k)
    ensures j == k
  {
  }

  /** The node set of an adjacency map: its keys and every listed neighbour. */
  ghost function NodesOf(g: Adjacency): set<int>
  {
    g.Keys + set x, i | x in g && 0 <= i < |g[x]| :: g[x][i]
  }

  /** The nodes of `g` together with any further nodes are closed under edges. */
  lemma NodesClosed(g: Adjacency, extra: set<int>)
    ensures Closed(SuccOf(g), NodesOf(g) + extra)
  {
    forall x, i | x in NodesOf(g) + extra && 0 <= i < |SuccOf(g)(x)|
      ensures SuccOf(g)(x)[i] in NodesOf(g) + extra
    {
      assert x in g;
    }
  }

  function Elems(xs: seq<int>): set<int>
  {
    set x | x in xs
  }

  predicate NoRepeats(xs: seq<int>)
  {
    forall i, j :: 0 <= i < j < |xs| ==> xs[i] != xs[j]
  }

  lemma {:induction false} SubsetCard<X>(a: set<X>, b: set<X>)
    requires a <= b
    ensures |a| <= |b|
    decreases a
  {
    if a != {} {
      var y :| y in a;
      SubsetCard(a - {y}, b - {y});
    }
  }

  /** A list without repeats has as many members as entries. */
  lemma {:induction false} DistinctCount(s: seq<int>)
    requires NoRepeats(s)
    ensures |Elems(s)| == |s|
  {
    if s != [] {
      var init := s[..|s| - 1];
      assert NoRepeats(init);
      DistinctCount(init);
      assert s == init + [s[|s| - 1]];
      assert Elems(s) == Elems(init) + {s[|s| - 1]};
    }
  }

  /** A list without repeats drawn from `u` is no longer than `u` is large: what bounds the searches. */
  lemma DistinctFits(s: seq<int>, u: set<int>)
    requires NoRepeats(s) && Elems(s) <= u
    ensures |s| <= |u|
  {
    DistinctCount(s);
    SubsetCard(Elems(s), u);
  }

  /** Visiting one more node of the universe `u` shrinks what is left to visit. */
  lemma Shrinks<X>(u: set<X>, a: set<X>, b: set<X>, x: X)
    requires a <= b && x in b && x !in a && x in u
    ensures |u - b| < |u - a|
  {
    SubsetCard(u - b, (u - a) - {x});
  }
}
