/**
 * Depth-first search over adjacency maps: the first-visit order from a start
 * node, reachability between two nodes, and counting connected groups. Each
 * search is a recursive `dfs` that records nodes in a shared `visited` set;
 * here that set is threaded through the calls as a value.
 */
module GraphDfs {
  import opened Graphs
  import opened GraphBuild

  /**
   * Every visited node outside `active` has all its neighbours visited. The
   * `active` nodes are those whose neighbour loop is still running.
   */
  ghost predicate ClosedExcept(g: Adjacency, vis: set<int>, active: set<int>)
  {
    forall x, i :: x in vis && x !in active && 0 <= i < |Neighbours(g, x)| ==> Neighbours(g, x)[i] in vis
  }

  /** Once all of `node`'s neighbours are visited, its loop may finish. */
  lemma Finished(g: Adjacency, vis: set<int>, active: set<int>, node: int)
    requires ClosedExcept(g, vis, active + {node})
    requires forall k :: 0 <= k < |Neighbours(g, node)| ==> Neighbours(g, node)[k] in vis
    ensures ClosedExcept(g, vis, active)
  {
  }

  lemma PrefixElems(a: seq<int>, b: seq<int>)
    requires a <= b
    ensures Elems(a) <= Elems(b)
  {
    forall x | x in a ensures x in b {
      var i :| 0 <= i < |a| && a[i] == x;
      assert b[i] == x;
    }
  }

  lemma ClosedWhenIdle(g: Adjacency, vis: set<int>)
    requires ClosedExcept(g, vis, {})
    ensures Closed(SuccOf(g), vis)
  {
  }

  /** The nodes `after` adds to `before` are all reachable from `node`. */
  ghost predicate AddsReachable(g: Adjacency, node: int, before: seq<int>, after: seq<int>)
  {
    forall x :: x in Elems(after) && x !in Elems(before) ==> Reachable(SuccOf(g), node, x)
  }

  /**
   * After a neighbour's search, what was added since `node` was marked is still
   * reachable from `node`: through the neighbour for the newest additions.
   */
  lemma AddsThroughNeighbour(g: Adjacency, node: int, m: int, visited: seq<int>, before: seq<int>, after: seq<int>)
    requires m in SuccOf(g)(node)
    requires Elems(visited) <= Elems(before) <= Elems(after)
    requires AddsReachable(g, node, visited, before) && AddsReachable(g, m, before, after)
    ensures AddsReachable(g, node, visited, after)
  {
    forall x | x in Elems(after) && x !in Elems(visited)
      ensures Reachable(SuccOf(g), node, x)
    {
      if x !in Elems(before) {
        ReachPrepend(SuccOf(g), node, m, x);
      }
    }
  }

  /** The state of `node`'s neighbour loop before neighbour `j`. */
  ghost predicate Searching(g: Adjacency, u: set<int>, node: int, visited: seq<int>, active: set<int>,
                            j: nat, cur: seq<int>)
  {
    && NoRepeats(cur) && visited + [node] <= cur && Elems(cur) <= u
    && ClosedExcept(g, Elems(cur), active + {node})
    && (forall k :: 0 <= k < j && k < |Neighbours(g, node)| ==> Neighbours(g, node)[k] in Elems(cur))
    && AddsReachable(g, node, visited, cur)
  }

  /** One neighbour searched: the loop's state carries over to the next neighbour. */
  lemma SearchStep(g: Adjacency, u: set<int>, node: int, visited: seq<int>, active: set<int>,
                   j: nat, before: seq<int>, after: seq<int>)
    requires j < |Neighbours(g, node)| && Searching(g, u, node, visited, active, j, before)
    requires NoRepeats(after) && before <= after && Elems(after) <= u
    requires Neighbours(g, node)[j] in after
    requires ClosedExcept(g, Elems(after), active + {node})
    requires AddsReachable(g, Neighbours(g, node)[j], before, after)
    ensures Searching(g, u, node, visited, active, j + 1, after)
  {
    var ns := Neighbours(g, node);
    assert ns[j] in SuccOf(g)(node);
    PrefixElems(before, after);
    PrefixElems(visited, before);
    AddsThroughNeighbour(g, node, ns[j], visited, before, after);
    forall k | 0 <= k < j + 1 && k < |ns| ensures ns[k] in Elems(after) {
      if k < j {
        assert ns[k] in Elems(before);
      }
    }
  }

  /**
   * The order `dfs` marks nodes in: a node already visited adds nothing;
   * otherwise it is appended and its neighbours are searched left to right.
   * The universe `u` is a finite set closed under edges, which bounds the
   * search.
   */
  ghost function DfsFrom(g: Adjacency, u: set<int>, node: int, visited: seq<int>): (r: seq<int>)
    requires Closed(SuccOf(g), u) && node in u && Elems(visited) <= u && NoRepeats(visited)
    ensures NoRepeats(r) && visited <= r && Elems(r) <= u && node in r
    ensures node in visited ==> r == visited
    ensures node !in visited ==> visited + [node] <= r
    decreases |u| - |visited|, 1
  {
    DistinctFits(visited, u);
    if node in visited then visited
    else
      assert Elems(visited + [node]) == Elems(visited) + {node};
      assert forall i :: 0 <= i < |Neighbours(g, node)| ==> Neighbours(g, node)[i] in SuccOf(g)(node);
      DfsAll(g, u, Neighbours(g, node), visited + [node])
  }

  /** The neighbour loop: each node of `ns` is searched in turn, starting from `visited`. */
  ghost function DfsAll(g: Adjacency, u: set<int>, ns: seq<int>, visited: seq<int>): (r: seq<int>)
    requires Closed(SuccOf(g), u) && Elems(visited) <= u && NoRepeats(visited)
    requires forall i :: 0 <= i < |ns| ==> ns[i] in u
    ensures NoRepeats(r) && visited <= r && Elems(r) <= u
    ensures forall i :: 0 <= i < |ns| ==> ns[i] in r
    decreases |u| - |visited| + 1, 0, |ns|
  {
    DistinctFits(visited, u);
    if ns == [] then visited
    else
      var first := DfsFrom(g, u, ns[0], visited);
      PrefixElems(first, DfsAll(g, u, ns[1..], first));
      DfsAll(g, u, ns[1..], first)
  }

  /**
   * The rest of `node`'s neighbour loop, from neighbour `j` on, ends in the
   * state where every neighbour is visited and nothing new is unreachable.
   */
  lemma {:induction false} SearchRest(g: Adjacency, u: set<int>, node: int, visited: seq<int>, active: set<int>,
                                      j: nat, cur: seq<int>)
    requires Closed(SuccOf(g), u) && node in u && j <= |Neighbours(g, node)|
    requires forall i :: 0 <= i < |Neighbours(g, node)| ==> Neighbours(g, node)[i] in u
    requires active <= Elems(visited) && Searching(g, u, node, visited, active, j, cur)
    ensures Searching(g, u, node, visited, active, |Neighbours(g, node)|,
                      DfsAll(g, u, Neighbours(g, node)[j..], cur))
    decreases |u| - |cur| + 1, 0, |Neighbours(g, node)| - j
  {
    var ns := Neighbours(g, node);
    assert forall i :: 0 <= i < |ns| ==> ns[i] in SuccOf(g)(node);
    DistinctFits(cur, u);
    if j < |ns| {
      var after := DfsFrom(g, u, ns[j], cur);
      PrefixElems(visited, cur);
      assert cur[|visited|] == node;
      DfsClosed(g, u, ns[j], cur, active + {node});
      SearchStep(g, u, node, visited, active, j, cur, after);
      SearchRest(g, u, node, visited, active, j + 1, after);
      assert ns[j..][1..] == ns[j + 1..];
    }
  }

  /**
   * What the search adds is closed except at the nodes still being searched
   * further up, and is all reachable from `node`.
   */
  lemma {:induction false} DfsClosed(g: Adjacency, u: set<int>, node: int, visited: seq<int>, active: set<int>)
    requires Closed(SuccOf(g), u) && node in u && Elems(visited) <= u && NoRepeats(visited)
    requires active <= Elems(visited) && ClosedExcept(g, Elems(visited), active)
    ensures ClosedExcept(g, Elems(DfsFrom(g, u, node, visited)), active)
    ensures AddsReachable(g, node, visited, DfsFrom(g, u, node, visited))
    decreases |u| - |visited|, 2
  {
    if node !in visited {
      var cur := visited + [node];
      assert Elems(cur) == Elems(visited) + {node};
      ReachRefl(SuccOf(g), node);
      DistinctFits(visited, u);
      assert forall i :: 0 <= i < |Neighbours(g, node)| ==> Neighbours(g, node)[i] in SuccOf(g)(node);
      assert Searching(g, u, node, visited, active, 0, cur);
      SearchRest(g, u, node, visited, active, 0, cur);
      var ns := Neighbours(g, node);
      assert ns[0..] == ns;
      Finished(g, Elems(DfsFrom(g, u, node, visited)), active, node);
    }
  }

  /**
   * The shared `dfs` of dfsOrder and countComponents. An unvisited node is
   * appended to `visited`, then each neighbour is searched in list order.
   * Termination: each call that does work visits a new node of the finite,
   * edge-closed universe `u`.
   */
  method Visit(g: Adjacency, node: int, visited: seq<int>, ghost active: set<int>, ghost u: set<int>)
    returns (visited': seq<int>)
    requires Closed(SuccOf(g), u) && node in u && Elems(visited) <= u
    requires NoRepeats(visited) && active <= Elems(visited)
    requires ClosedExcept(g, Elems(visited), active)
    ensures NoRepeats(visited') && visited <= visited' && Elems(visited') <= u
    ensures node in visited'
    ensures node !in visited ==> visited + [node] <= visited'
    ensures node in visited ==> visited' == visited
    ensures ClosedExcept(g, Elems(visited'), active)
    ensures AddsReachable(g, node, visited, visited')
    ensures visited' == DfsFrom(g, u, node, visited)
    decreases |u| - |visited|
  {
    if node in visited {
      return visited;
    }
    visited' := visited + [node];
    assert Elems(visited') == Elems(visited) + {node};
    ReachRefl(SuccOf(g), node);
    var ns := Neighbours(g, node);
    assert forall i :: 0 <= i < |ns| ==> ns[i] in SuccOf(g)(node);
    assert ns[0..] == ns;
    for j := 0 to |ns|
      invariant Searching(g, u, node, visited, active, j, visited')
      invariant DfsAll(g, u, ns[j..], visited') == DfsFrom(g, u, node, visited)
    {
      DistinctFits(visited', u);
      ghost var before := visited';
      visited' := Visit(g, ns[j], visited', active + {node}, u);
      SearchStep(g, u, node, visited, active, j, before, visited');
      assert ns[j..][1..] == ns[j + 1..];
    }
    assert visited <= visited + [node] <= visited';
    Finished(g, Elems(visited'), active, node);
  }

  /** What dfsOrder promises: `start` first, then each reachable node exactly once. */
  ghost predicate IsVisitOrder(g: Adjacency, start: int, order: seq<int>)
  {
    && |order| >= 1 && order[0] == start
    && NoRepeats(order)
    && forall x :: x in order <==> Reachable(SuccOf(g), start, x)
  }

  /** dfsOrder's answer: the nodes in the order `dfs` marks them, from `start`. */
  ghost function DfsOrderOf(g: Adjacency, start: int): (order: seq<int>)
    ensures |order| >= 1 && order[0] == start
  {
    NodesClosed(g, {start});
    DfsFrom(g, NodesOf(g) + {start}, start, [])
  }

  /** The depth-first order starts at `start` and lists each reachable node exactly once. */
  lemma DfsVisits(g: Adjacency, start: int)
    ensures IsVisitOrder(g, start, DfsOrderOf(g, start))
  {
    var u := NodesOf(g) + {start};
    NodesClosed(g, {start});
    var order := DfsOrderOf(g, start);
    assert Elems([]) == {};
    DfsClosed(g, u, start, [], {});
    ClosedWhenIdle(g, Elems(order));
    forall x | Reachable(SuccOf(g), start, x)
      ensures x in order
    {
      ClosedHoldsReachable(SuccOf(g), Elems(order), start, x);
    }
    forall x | x in order
      ensures Reachable(SuccOf(g), start, x)
    {
      assert x in Elems(order);
    }
  }

  method DfsOrder(g: Adjacency, start: int) returns (order: seq<int>)
    ensures order == DfsOrderOf(g, start)
    ensures IsVisitOrder(g, start, order)
  {
    ghost var u := NodesOf(g) + {start};
    NodesClosed(g, {start});
    order := Visit(g, start, [], {}, u);
    DfsVisits(g, start);
  }

  /** From a node without neighbours only that node is reachable. */
  lemma {:induction false} SinkReachesOnlyItself(g: Adjacency, a: int, x: int)
    requires Neighbours(g, a) == []
    ensures Reachable(SuccOf(g), a, x) <==> x == a
  {
    if Reachable(SuccOf(g), a, x) {
      assert Closed(SuccOf(g), {a});
      ClosedHoldsReachable(SuccOf(g), {a}, a, x);
    }
    if x == a {
      ReachRefl(SuccOf(g), a);
    }
  }

  /** Started at a node without neighbours, the order is that node alone. */
  lemma SinkOrder(g: Adjacency, a: int, order: seq<int>)
    requires Neighbours(g, a) == [] && IsVisitOrder(g, a, order)
    ensures order == [a]
  {
    forall x ensures x in order <==> x == a {
      SinkReachesOnlyItself(g, a, x);
    }
    assert Elems(order) == {a};
    DistinctCount(order);
  }

  /** The graph 0->[1,3], 1->[2], 2->[], 3->[] of the source's examples. */
  function Connected(): Adjacency
  {
    map[0 := [1, 3], 1 := [2], 2 := [], 3 := []]
  }

  /** From 0 the order starts with 0 and holds exactly 0..3; from the leaves 2 and 3 it is the leaf alone. */
  lemma ConnectedOrders(order: seq<int>)
    ensures IsVisitOrder(Connected(), 0, order) ==> order[0] == 0 && Elems(order) == {0, 1, 2, 3}
    ensures IsVisitOrder(Connected(), 2, order) ==> order == [2]
    ensures IsVisitOrder(Connected(), 3, order) ==> order == [3]
  {
    var succ := SuccOf(Connected());
    if IsVisitOrder(Connected(), 0, order) {
      assert PathFromTo(succ, [0, 1], 0, 1);
      assert PathFromTo(succ, [0, 1, 2], 0, 2);
      assert PathFromTo(succ, [0, 3], 0, 3);
      assert Closed(succ, {0, 1, 2, 3});
      forall x | x in order ensures x in {0, 1, 2, 3} {
        ClosedHoldsReachable(succ, {0, 1, 2, 3}, 0, x);
      }
    }
    if IsVisitOrder(Connected(), 2, order) {
      SinkOrder(Connected(), 2, order);
    }
    if IsVisitOrder(Connected(), 3, order) {
      SinkOrder(Connected(), 3, order);
    }
  }

  /** Below 0 the search goes down 1 -> 2 and then takes 3, in any closed universe holding the four nodes. */
  lemma ConnectedBranches(u: set<int>)
    requires Closed(SuccOf(Connected()), u) && 0 in u && 1 in u && 2 in u && 3 in u
    ensures DfsFrom(Connected(), u, 1, [0]) == [0, 1, 2]
    ensures DfsFrom(Connected(), u, 3, [0, 1, 2]) == [0, 1, 2, 3]
  {
    var g := Connected();
    assert Neighbours(g, 1) == [2] && Neighbours(g, 2) == [] && Neighbours(g, 3) == [];
    assert DfsFrom(g, u, 2, [0, 1]) == [0, 1, 2];
    assert [0] + [1] == [0, 1];
    assert DfsAll(g, u, [2], [0, 1]) == DfsAll(g, u, [], [0, 1, 2]);
  }

  /** From 0 the search goes down 0 -> 1 -> 2, backs up, then takes 3. */
  lemma ConnectedFromRoot()
    ensures DfsOrderOf(Connected(), 0) == [0, 1, 2, 3]
  {
    var g := Connected();
    var u := NodesOf(g) + {0};
    NodesClosed(g, {0});
    assert 1 in g && 2 in g && 3 in g;
    ConnectedBranches(u);
    assert Neighbours(g, 0) == [1, 3];
    assert DfsAll(g, u, [3], [0, 1, 2]) == [0, 1, 2, 3];
    assert [1, 3][1..] == [3];
    assert DfsAll(g, u, [1, 3], [0]) == [0, 1, 2, 3];
    assert [] + [0] == [0];
    assert DfsFrom(g, u, 0, []) == DfsAll(g, u, [1, 3], [0]);
  }

  /** The source's three dfsOrder tests: [0, 1, 2, 3] from 0, and the leaf alone from 2 and from 3. */
  lemma ConnectedDfs()
    ensures DfsOrderOf(Connected(), 0) == [0, 1, 2, 3]
    ensures DfsOrderOf(Connected(), 2) == [2] && DfsOrderOf(Connected(), 3) == [3]
  {
    ConnectedFromRoot();
    DfsVisits(Connected(), 2);
    DfsVisits(Connected(), 3);
    SinkOrder(Connected(), 2, DfsOrderOf(Connected(), 2));
    SinkOrder(Connected(), 3, DfsOrderOf(Connected(), 3));
  }

  /**
   * hasPath's `dfs`: true as soon as `target` is met; false for a node already
   * visited; otherwise the node is marked and its neighbours are tried in
   * order. `target` itself is never marked.
   */
  method Search(g: Adjacency, node: int, target: int, visited: set<int>, ghost active: set<int>, ghost u: set<int>)
    returns (found: bool, visited': set<int>)
    requires Closed(SuccOf(g), u) && node in u && visited <= u
    requires target !in visited && active <= visited
    requires ClosedExcept(g, visited, active)
    ensures found ==> Reachable(SuccOf(g), node, target)
    ensures !found ==> && target !in visited' && node in visited'
                       && visited <= visited' <= u
                       && ClosedExcept(g, visited', active)
    decreases |u - visited|
  {
    if node == target {
      ReachRefl(SuccOf(g), node);
      return true, visited;
    }
    if node in visited {
      return false, visited;
    }
    visited' := visited + {node};
    var ns := Neighbours(g, node);
    for j := 0 to |ns|
      invariant target !in visited' && visited + {node} <= visited' <= u
      invariant ClosedExcept(g, visited', active + {node})
      invariant forall k :: 0 <= k < j ==> ns[k] in visited'
    {
      assert ns[j] in SuccOf(g)(node);
      Shrinks(u, visited, visited', node);
      var f;
      f, visited' := Search(g, ns[j], target, visited', active + {node}, u);
      if f {
        ReachPrepend(SuccOf(g), node, ns[j], target);
        return true, visited';
      }
    }
    Finished(g, visited', active, node);
    return false, visited';
  }

  method HasPath(g: Adjacency, start: int, target: int) returns (r: bool)
    ensures r <==> Reachable(SuccOf(g), start, target)
  {
    ghost var u := NodesOf(g) + {start};
    NodesClosed(g, {start});
    var visited;
    r, visited := Search(g, start, target, {}, {}, u);
    if !r {
      ClosedWhenIdle(g, visited);
      if Reachable(SuccOf(g), start, target) {
        ClosedHoldsReachable(SuccOf(g), visited, start, target);
      }
    }
  }

  /** The graph of the hasPath examples: 0->1 and 3->4, with 2 isolated. */
  function Split(): Adjacency
  {
    map[0 := [1], 1 := [], 2 := [], 3 := [4], 4 := []]
  }

  lemma SplitPaths()
    ensures Reachable(SuccOf(Split()), 0, 1)
    ensures !Reachable(SuccOf(Split()), 0, 3)
    ensures Reachable(SuccOf(Split()), 0, 0)
    ensures Reachable(SuccOf(Split()), 2, 2)
    ensures !Reachable(SuccOf(Split()), 2, 0)
  {
    var succ := SuccOf(Split());
    assert PathFromTo(succ, [0, 1], 0, 1);
    ReachRefl(succ, 0);
    SinkReachesOnlyItself(Split(), 2, 2);
    SinkReachesOnlyItself(Split(), 2, 0);
    assert Closed(succ, {0, 1});
    if Reachable(succ, 0, 3) {
      ClosedHoldsReachable(succ, {0, 1}, 0, 3);
    }
  }

  /**
   * The `?.push` pattern of countComponents: a push onto a missing key does
   * nothing. For keys in range the lists are those of the undirected build.
   */
  lemma GuardedStep(n: nat, edges: seq<Edge>, i: nat)
    requires i < |edges|
    ensures var (from, to) := edges[i]; var g := UndirectedMap(n, edges[..i]);
      var g' := if from in g then g[from := g[from] + [to]] else g;
      UndirectedMap(n, edges[..i + 1]) == if to in g' then g'[to := g'[to] + [from]] else g'
  {
    var (from, to) := edges[i];
    var g := UndirectedMap(n, edges[..i]);
    var g' := if from in g then g[from := g[from] + [to]] else g;
    var h := UndirectedMap(n, edges[..i + 1]);
    assert edges[..i + 1][..i] == edges[..i];
    forall v | 0 <= v < n
      ensures h[v] == (if to in g' then g'[to := g'[to] + [from]] else g')[v]
    {
      assert h[v] == Incident(edges[..i], v) + (if from == v then [to] else []) + (if to == v then [from] else []);
    }
  }

  /** countComponents' adjacency: keys 0..n-1, each edge pushed both ways where the key exists. */
  method ComponentAdjacency(n: nat, edges: seq<Edge>) returns (adj: Adjacency)
    ensures adj == UndirectedMap(n, edges)
  {
    adj := EmptyLists(n);
    for i := 0 to |edges|
      invariant adj == UndirectedMap(n, edges[..i])
    {
      var (from, to) := edges[i];
      GuardedStep(n, edges, i);
      if from in adj {
        adj := adj[from := adj[from] + [to]];
      }
      if to in adj {
        adj := adj[to := adj[to] + [from]];
      }
    }
    assert edges[..|edges|] == edges;
  }

  /** Some node numbered below `i` reaches `x`. */
  ghost predicate ReachedFromBelow(g: Adjacency, i: int, x: int)
  {
    exists j :: 0 <= j < i && Reachable(SuccOf(g), j, x)
  }

  /** `i` is reached from no lower-numbered node: the outer loop finds it unvisited and opens a group. */
  ghost predicate Leader(g: Adjacency, i: int)
  {
    !ReachedFromBelow(g, i, i)
  }

  ghost function Leaders(g: Adjacency, i: nat): set<int>
  {
    set k | 0 <= k < i && Leader(g, k)
  }

  lemma LeadersStep(g: Adjacency, i: nat)
    ensures Leaders(g, i + 1) == Leaders(g, i) + (if Leader(g, i) then {i} else {})
    ensures i !in Leaders(g, i)
  {
  }

  lemma ReachedStep(g: Adjacency, i: int, x: int)
    ensures ReachedFromBelow(g, i + 1, x) <==> ReachedFromBelow(g, i, x) || (0 <= i && Reachable(SuccOf(g), i, x))
  {
  }

  /** Step of the outer loop when `i` is already visited: nothing changes but `i`. */
  lemma SkipVisited(g: Adjacency, i: nat, vis: set<int>)
    requires ClosedExcept(g, vis, {}) && i in vis
    requires forall x :: x in vis <==> ReachedFromBelow(g, i, x)
    ensures !Leader(g, i)
    ensures forall x :: x in vis <==> ReachedFromBelow(g, i + 1, x)
  {
    ClosedWhenIdle(g, vis);
    forall x ensures x in vis <==> ReachedFromBelow(g, i + 1, x) {
      ReachedStep(g, i, x);
      if Reachable(SuccOf(g), i, x) {
        ClosedHoldsReachable(SuccOf(g), vis, i, x);
      }
    }
  }

  /** Step of the outer loop when `i` is unvisited: the search adds exactly what `i` reaches. */
  lemma OpenGroup(g: Adjacency, i: nat, vis: seq<int>, vis': seq<int>)
    requires i !in vis && vis <= vis' && i in vis'
    requires forall x :: x in vis <==> ReachedFromBelow(g, i, x)
    requires ClosedExcept(g, Elems(vis'), {}) && AddsReachable(g, i, vis, vis')
    ensures Leader(g, i)
    ensures forall x :: x in vis' <==> ReachedFromBelow(g, i + 1, x)
  {
    ClosedWhenIdle(g, Elems(vis'));
    PrefixElems(vis, vis');
    forall x ensures x in vis' <==> ReachedFromBelow(g, i + 1, x) {
      ReachedStep(g, i, x);
      if Reachable(SuccOf(g), i, x) {
        ClosedHoldsReachable(SuccOf(g), Elems(vis'), i, x);
      }
      if x in vis' && x !in vis {
        assert x in Elems(vis') && x !in Elems(vis);
      }
    }
  }

  /** The state of countComponents' loop before node `i`. */
  ghost predicate Counted(adj: Adjacency, u: set<int>, i: nat, visited: seq<int>, groups: nat)
  {
    && NoRepeats(visited) && Elems(visited) <= u
    && ClosedExcept(adj, Elems(visited), {})
    && (forall x :: x in visited <==> ReachedFromBelow(adj, i, x))
    && groups == |Leaders(adj, i)|
  }

  lemma CountSkip(adj: Adjacency, u: set<int>, i: nat, visited: seq<int>, groups: nat)
    requires Counted(adj, u, i, visited, groups) && i in visited
    ensures Counted(adj, u, i + 1, visited, groups)
  {
    LeadersStep(adj, i);
    SkipVisited(adj, i, Elems(visited));
  }

  lemma CountOpen(adj: Adjacency, u: set<int>, i: nat, before: seq<int>, visited: seq<int>, groups: nat)
    requires Counted(adj, u, i, before, groups) && i !in before
    requires NoRepeats(visited) && before <= visited && Elems(visited) <= u && i in visited
    requires ClosedExcept(adj, Elems(visited), {}) && AddsReachable(adj, i, before, visited)
    ensures Counted(adj, u, i + 1, visited, groups + 1)
  {
    LeadersStep(adj, i);
    OpenGroup(adj, i, before, visited);
  }

  /**
   * One step of countComponents' outer loop: a visited node changes nothing;
   * an unvisited one opens a new group and is searched from.
   */
  method CountStep(adj: Adjacency, ghost u: set<int>, i: nat, visited: seq<int>, groups: nat)
    returns (visited': seq<int>, groups': nat)
    requires Closed(SuccOf(adj), u) && i in u
    requires Counted(adj, u, i, visited, groups)
    ensures Counted(adj, u, i + 1, visited', groups')
  {
    if i in visited {
      CountSkip(adj, u, i, visited, groups);
      return visited, groups;
    }
    groups' := groups + 1;
    visited' := Visit(adj, i, visited, {}, u);
    CountOpen(adj, u, i, visited, visited', groups);
  }

  /**
   * countComponents: one group for each node 0..n-1 that the searches started
   * from lower-numbered nodes have not reached.
   */
  method CountComponents(n: nat, edges: seq<Edge>) returns (groups: nat)
    ensures groups == |Leaders(UndirectedMap(n, edges), n)|
  {
    var adj := ComponentAdjacency(n, edges);
    ghost var u := NodesOf(adj) + {};
    NodesClosed(adj, {});
    var visited: seq<int> := [];
    groups := 0;
    for i := 0 to n
      invariant Counted(adj, u, i, visited, groups)
    {
      assert i in adj;
      visited, groups := CountStep(adj, u, i, visited, groups);
    }
  }

  /** Every node from 0 up is reached by a leader numbered no higher than itself. */
  lemma {:induction false} LeaderOfGroup(g: Adjacency, x: nat)
    ensures exists l :: 0 <= l <= x && Leader(g, l) && Reachable(SuccOf(g), l, x)
    decreases x
  {
    if Leader(g, x) {
      ReachRefl(SuccOf(g), x);
    } else {
      var j :| 0 <= j < x && Reachable(SuccOf(g), j, x);
      LeaderOfGroup(g, j);
      var l :| 0 <= l <= j && Leader(g, l) && Reachable(SuccOf(g), l, j);
      ReachTrans(SuccOf(g), l, j, x);
    }
  }

  /** Within 0..n-1, the neighbours in the undirected adjacency are the other ends of the listed edges. */
  lemma UndirectedSucc(n: nat, edges: seq<Edge>, a: int, b: int)
    requires 0 <= a < n
    ensures b in SuccOf(UndirectedMap(n, edges))(a) <==> (a, b) in edges || (b, a) in edges
  {
    IncidentListsEdges(edges, a, b);
  }

  /** In countComponents' adjacency every edge between nodes 0..n-1 can be walked back. */
  lemma EdgeBack(n: nat, edges: seq<Edge>, a: int, b: int)
    requires 0 <= b < n
    requires b in SuccOf(UndirectedMap(n, edges))(a)
    ensures a in SuccOf(UndirectedMap(n, edges))(b)
  {
    IncidentListsEdges(edges, a, b);
    IncidentListsEdges(edges, b, a);
  }

  /** Between nodes 0..n-1, reachability in countComponents' adjacency is symmetric. */
  lemma ReachBack(n: nat, edges: seq<Edge>, a: int, b: int)
    requires 0 <= b < n && Reachable(SuccOf(UndirectedMap(n, edges)), a, b)
    ensures Reachable(SuccOf(UndirectedMap(n, edges)), b, a)
  {
    var succ := SuccOf(UndirectedMap(n, edges));
    var p :| PathFromTo(succ, p, a, b);
    var m := |p| - 1;
    var q := seq(|p|, k requires 0 <= k < |p| => p[m - k]);
    forall k | 0 <= k < |q| - 1
      ensures q[k + 1] in succ(q[k])
    {
      var s := m - k - 1;
      assert q[k] == p[s + 1] && q[k + 1] == p[s];
      assert p[s + 1] in succ(p[s]);
      if s + 1 < m {
        assert p[s + 2] in succ(p[s + 1]);
      }
      EdgeBack(n, edges, p[s], p[s + 1]);
    }
    assert PathFromTo(succ, q, b, a);
  }

  /**
   * Each node 0..n-1 is reached by exactly one leader: the groups counted are the
   * connected groups of the undirected graph, one leader (their lowest node) each.
   */
  lemma OneLeaderPerGroup(n: nat, edges: seq<Edge>, x: nat, l1: nat, l2: nat)
    requires x < n
    requires Leader(UndirectedMap(n, edges), l1) && Reachable(SuccOf(UndirectedMap(n, edges)), l1, x)
    requires Leader(UndirectedMap(n, edges), l2) && Reachable(SuccOf(UndirectedMap(n, edges)), l2, x)
    ensures l1 == l2
  {
    var g := UndirectedMap(n, edges);
    ReachBack(n, edges, l2, x);
    ReachBack(n, edges, l1, x);
    ReachTrans(SuccOf(g), l1, x, l2);
    ReachTrans(SuccOf(g), l2, x, l1);
    assert l1 < l2 ==> ReachedFromBelow(g, l2, l2);
    assert l2 < l1 ==> ReachedFromBelow(g, l1, l1);
  }

  /** A set that every edge either enters with both ends or avoids is closed under the undirected adjacency. */
  lemma EdgesStayInside(n: nat, edges: seq<Edge>, s: set<int>)
    requires forall k :: 0 <= k < |edges| ==> (edges[k].0 in s <==> edges[k].1 in s)
    ensures Closed(SuccOf(UndirectedMap(n, edges)), s)
  {
    var succ := SuccOf(UndirectedMap(n, edges));
    forall x, i | x in s && 0 <= i < |succ(x)|
      ensures succ(x)[i] in s
    {
      var y := succ(x)[i];
      IncidentListsEdges(edges, x, y);
      assert (x, y) in edges || (y, x) in edges;
    }
  }

  /** When every node below `i` opens a group, there are `i` groups. */
  lemma {:induction false} AllLeaders(g: Adjacency, i: nat)
    requires forall k :: 0 <= k < i ==> Leader(g, k)
    ensures |Leaders(g, i)| == i
  {
    if i > 0 {
      AllLeaders(g, i - 1);
      LeadersStep(g, i - 1);
    }
  }

  /** With no edges every node is its own group: the count is n. */
  lemma NoEdges(n: nat)
    ensures forall k :: k in Leaders(UndirectedMap(n, []), n) <==> 0 <= k < n
    ensures |Leaders(UndirectedMap(n, []), n)| == n
  {
    var g := UndirectedMap(n, []);
    forall k | 0 <= k < n ensures Leader(g, k) {
      forall j | 0 <= j < k ensures !Reachable(SuccOf(g), j, k) {
        SinkReachesOnlyItself(g, j, k);
      }
    }
    AllLeaders(g, n);
  }

  /** The chain 0-1-2-3 is one group. */
  lemma ChainIsOneGroup()
    ensures Leaders(UndirectedMap(4, [(0, 1), (1, 2), (2, 3)]), 4) == {0}
  {
    var edges: seq<Edge> := [(0, 1), (1, 2), (2, 3)];
    var g := UndirectedMap(4, edges);
    var succ := SuccOf(g);
    UndirectedSucc(4, edges, 0, 1);
    UndirectedSucc(4, edges, 1, 2);
    UndirectedSucc(4, edges, 2, 3);
    assert PathFromTo(succ, [0, 1], 0, 1);
    assert PathFromTo(succ, [0, 1, 2], 0, 2);
    assert PathFromTo(succ, [0, 1, 2, 3], 0, 3);
    assert Reachable(succ, 0, 1) && Reachable(succ, 0, 2) && Reachable(succ, 0, 3);
  }

  /** In the example, 0 reaches 1 and 2, and nothing below 3 reaches 3 and nothing below 4 reaches 4. */
  lemma ThreeGroupsReach()
    ensures Reachable(SuccOf(UndirectedMap(5, [(0, 1), (1, 2)])), 0, 1)
    ensures Reachable(SuccOf(UndirectedMap(5, [(0, 1), (1, 2)])), 0, 2)
    ensures forall j :: 0 <= j < 3 ==> !Reachable(SuccOf(UndirectedMap(5, [(0, 1), (1, 2)])), j, 3)
    ensures forall j :: 0 <= j < 4 ==> !Reachable(SuccOf(UndirectedMap(5, [(0, 1), (1, 2)])), j, 4)
  {
    var edges: seq<Edge> := [(0, 1), (1, 2)];
    var g := UndirectedMap(5, edges);
    var succ := SuccOf(g);
    UndirectedSucc(5, edges, 0, 1);
    UndirectedSucc(5, edges, 1, 2);
    assert PathFromTo(succ, [0, 1], 0, 1);
    assert PathFromTo(succ, [0, 1, 2], 0, 2);
    EdgesStayInside(5, edges, {0, 1, 2});
    EdgesStayInside(5, edges, {3});
    forall j | 0 <= j < 4 ensures (j < 3 ==> !Reachable(succ, j, 3)) && !Reachable(succ, j, 4) {
      if j < 3 {
        if Reachable(succ, j, 3) { ClosedHoldsReachable(succ, {0, 1, 2}, j, 3); }
        if Reachable(succ, j, 4) { ClosedHoldsReachable(succ, {0, 1, 2}, j, 4); }
      } else {
        if Reachable(succ, j, 4) { ClosedHoldsReachable(succ, {3}, j, 4); }
      }
    }
  }

  /** The source's example: n = 5 with edges 0-1 and 1-2 gives the groups {0,1,2}, {3} and {4}. */
  lemma ThreeGroups()
    ensures Leaders(UndirectedMap(5, [(0, 1), (1, 2)]), 5) == {0, 3, 4}
    ensures |Leaders(UndirectedMap(5, [(0, 1), (1, 2)]), 5)| == 3
  {
    ThreeGroupsReach();
    var g := UndirectedMap(5, [(0, 1), (1, 2)]);
    assert !Leader(g, 1) && !Leader(g, 2);
  }
}
