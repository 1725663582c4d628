/**
 * Representing a graph: adjacency lists built from an edge list, for nodes
 * labelled 0..n-1, and the direct-edge query.
 */
module GraphBuild {
  import opened Graphs

  /** An edge `[from, to]`. */
  type Edge = (int, int)

  /** The ends of the edges leaving `v`, in edge order. */
  function Targets(edges: seq<Edge>, v: int): seq<int>
  {
    if edges == [] then []
    else
      var e := edges[|edges| - 1];
      Targets(edges[..|edges| - 1], v) + (if e.0 == v then [e.1] else [])
  }

  /** For undirected edges: each edge touching `v` contributes its other end, `from`'s push before `to`'s. */
  function Incident(edges: seq<Edge>, v: int): seq<int>
  {
    if edges == [] then []
    else
      var e := edges[|edges| - 1];
      Incident(edges[..|edges| - 1], v) + (if e.0 == v then [e.1] else []) + (if e.1 == v then [e.0] else [])
  }

  /** The map `buildDirected` returns. */
  function DirectedMap(n: nat, edges: seq<Edge>): Adjacency
  {
    map v | 0 <= v < n :: Targets(edges, v)
  }

  /** The map `buildUndirected` returns. */
  function UndirectedMap(n: nat, edges: seq<Edge>): Adjacency
  {
    map v | 0 <= v < n :: Incident(edges, v)
  }

  /** One empty list per node label 0..n-1. */
  method EmptyLists(n: nat) returns (g: Adjacency)
    ensures g == DirectedMap(n, []) == UndirectedMap(n, [])
  {
    g := map[];
    for i := 0 to n
      invariant forall v :: v in g <==> 0 <= v < i
      invariant forall v :: v in g ==> g[v] == []
    {
      g := g[i := []];
    }
  }

  /** Every edge starts at a node label; `map.get(from)` is otherwise undefined and the push fails. */
  predicate FromsInRange(n: nat, edges: seq<Edge>)
  {
    forall i :: 0 <= i < |edges| ==> 0 <= edges[i].0 < n
  }

  predicate EndsInRange(n: nat, edges: seq<Edge>)
  {
    forall i :: 0 <= i < |edges| ==> 0 <= edges[i].0 < n && 0 <= edges[i].1 < n
  }

  method BuildDirected(n: nat, edges: seq<Edge>) returns (g: Adjacency)
    requires FromsInRange(n, edges)
    ensures g == DirectedMap(n, edges)
  {
    g := EmptyLists(n);
    for i := 0 to |edges|
      invariant g == DirectedMap(n, edges[..i])
    {
      var (from, to) := edges[i];
      DirectedStep(n, edges, i);
      g := g[from := g[from] + [to]];
    }
    assert edges[..|edges|] == edges;
  }

  method BuildUndirected(n: nat, edges: seq<Edge>) returns (g: Adjacency)
    requires EndsInRange(n, edges)
    ensures g == UndirectedMap(n, edges)
  {
    g := EmptyLists(n);
    for i := 0 to |edges|
      invariant g == UndirectedMap(n, edges[..i])
    {
      var (from, to) := edges[i];
      UndirectedStep(n, edges, i);
      g := g[from := g[from] + [to]];
      g := g[to := g[to] + [from]];
    }
    assert edges[..|edges|] == edges;
  }

  /** One more edge appends its target to its source's list. */
  lemma DirectedStep(n: nat, edges: seq<Edge>, i: nat)
    requires i < |edges| && 0 <= edges[i].0 < n
    ensures var (from, to) := edges[i]; var g := DirectedMap(n, edges[..i]);
      DirectedMap(n, edges[..i + 1]) == g[from := g[from] + [to]]
  {
    var (from, to) := edges[i];
    var g := DirectedMap(n, edges[..i]);
    var h := DirectedMap(n, edges[..i + 1]);
    assert edges[..i + 1][..i] == edges[..i];
    forall v | 0 <= v < n
      ensures h[v] == g[from := g[from] + [to]][v]
    {
      assert h[v] == Targets(edges[..i], v) + (if from == v then [to] else []);
    }
  }

  /** One more undirected edge: `to` pushed on `from`'s list, then `from` on `to`'s. */
  lemma UndirectedStep(n: nat, edges: seq<Edge>, i: nat)
    requires i < |edges| && 0 <= edges[i].0 < n && 0 <= edges[i].1 < n
    ensures var (from, to) := edges[i]; var g := UndirectedMap(n, edges[..i]);
      var g' := g[from := g[from] + [to]];
      UndirectedMap(n, edges[..i + 1]) == g'[to := g'[to] + [from]]
  {
    var (from, to) := edges[i];
    var g := UndirectedMap(n, edges[..i]);
    var g' := g[from := g[from] + [to]];
    var h := UndirectedMap(n, edges[..i + 1]);
    assert edges[..i + 1][..i] == edges[..i];
    forall v | 0 <= v < n
      ensures h[v] == g'[to := g'[to] + [from]][v]
    {
      assert h[v] == Incident(edges[..i], v) + (if from == v then [to] else []) + (if to == v then [from] else []);
    }
  }

  /** `to` appears in `from`'s list; a missing key answers false. */
  function HasEdge(g: Adjacency, from: int, to: int): bool
  {
    if from !in g then false
    else to in g[from]
  }

  lemma {:induction false} TargetsListsEdges(edges: seq<Edge>, a: int, b: int)
    ensures b in Targets(edges, a) <==> (a, b) in edges
  {
    if edges != [] {
      var init := edges[..|edges| - 1];
      TargetsListsEdges(init, a, b);
      assert edges == init + [edges[|edges| - 1]];
    }
  }

  lemma {:induction false} IncidentListsEdges(edges: seq<Edge>, a: int, b: int)
    ensures b in Incident(edges, a) <==> (a, b) in edges || (b, a) in edges
  {
    if edges != [] {
      var init := edges[..|edges| - 1];
      IncidentListsEdges(init, a, b);
      assert edges == init + [edges[|edges| - 1]];
    }
  }

  /** Directed: there is an edge a -> b exactly when `[a, b]` was listed; edges are one-way. */
  lemma DirectedEdges(n: nat, edges: seq<Edge>, a: int, b: int)
    requires FromsInRange(n, edges)
    ensures HasEdge(DirectedMap(n, edges), a, b) <==> (a, b) in edges
  {
    TargetsListsEdges(edges, a, b);
    if (a, b) in edges {
      var i :| 0 <= i < |edges| && edges[i] == (a, b);
    }
  }

  /** Undirected: an edge is seen from both ends, so the relation is symmetric. */
  lemma UndirectedEdges(n: nat, edges: seq<Edge>, a: int, b: int)
    requires EndsInRange(n, edges)
    ensures HasEdge(UndirectedMap(n, edges), a, b) <==> (a, b) in edges || (b, a) in edges
    ensures HasEdge(UndirectedMap(n, edges), a, b) <==> HasEdge(UndirectedMap(n, edges), b, a)
  {
    IncidentListsEdges(edges, a, b);
    IncidentListsEdges(edges, b, a);
    if (a, b) in edges {
      var i :| 0 <= i < |edges| && edges[i] == (a, b);
    }
    if (b, a) in edges {
      var i :| 0 <= i < |edges| && edges[i] == (b, a);
    }
  }

  lemma TargetsAppend(edges: seq<Edge>, e: Edge, v: int)
    ensures Targets(edges + [e], v) == Targets(edges, v) + (if e.0 == v then [e.1] else [])
  {
    assert (edges + [e])[..|edges|] == edges;
  }

  lemma IncidentAppend(edges: seq<Edge>, e: Edge, v: int)
    ensures Incident(edges + [e], v) == Incident(edges, v) + (if e.0 == v then [e.1] else []) + (if e.1 == v then [e.0] else [])
  {
    assert (edges + [e])[..|edges|] == edges;
  }

  /** The source's example: 4 nodes with edges [0,1], [1,2], [0,3], read as directed edges. */
  lemma DirectedExample()
    ensures DirectedMap(4, [(0, 1), (1, 2), (0, 3)]) == map[0 := [1, 3], 1 := [2], 2 := [], 3 := []]
    ensures HasEdge(DirectedMap(4, [(0, 1), (1, 2), (0, 3)]), 0, 1)
    ensures !HasEdge(DirectedMap(4, [(0, 1), (1, 2), (0, 3)]), 1, 0)
    ensures !HasEdge(DirectedMap(4, [(0, 1), (1, 2), (0, 3)]), 0, 2)
    ensures !HasEdge(DirectedMap(4, [(0, 1), (1, 2), (0, 3)]), 2, 0)
  {
    var e1: seq<Edge> := [(0, 1)];
    var e2 := e1 + [(1, 2)];
    var e3 := e2 + [(0, 3)];
    assert e1 == [] + [(0, 1)] && e3 == [(0, 1), (1, 2), (0, 3)];
    forall v | 0 <= v < 4 ensures Targets(e3, v) == [[1, 3], [2], [], []][v] {
      TargetsAppend([], (0, 1), v);
      TargetsAppend(e1, (1, 2), v);
      TargetsAppend(e2, (0, 3), v);
    }
    assert DirectedMap(4, e3) == map[0 := [1, 3], 1 := [2], 2 := [], 3 := []];
  }

  /** The same edges read as undirected: each edge is listed from both ends. */
  lemma UndirectedExample()
    ensures UndirectedMap(4, [(0, 1), (1, 2), (0, 3)]) == map[0 := [1, 3], 1 := [0, 2], 2 := [1], 3 := [0]]
  {
    var e1: seq<Edge> := [(0, 1)];
    var e2 := e1 + [(1, 2)];
    var e3 := e2 + [(0, 3)];
    assert e1 == [] + [(0, 1)] && e3 == [(0, 1), (1, 2), (0, 3)];
    forall v | 0 <= v < 4 ensures Incident(e3, v) == [[1, 3], [0, 2], [1], [0]][v] {
      IncidentAppend([], (0, 1), v);
      IncidentAppend(e1, (1, 2), v);
      IncidentAppend(e2, (0, 3), v);
    }
    assert UndirectedMap(4, e3) == map[0 := [1, 3], 1 := [0, 2], 2 := [1], 3 := [0]];
  }
}
