/**
 * Breadth-first search: distances in edges from a start node, the shortest path
 * length between two nodes, and the same search on a grid of open and wall
 * cells. The three source functions share one loop: shift a node off the queue,
 * and give each unvisited neighbour the node's distance plus one.
 */
module GraphBfs {
  import opened Wrappers
  import opened Graphs

  /** Some path from `start` to `v` has `k` edges. */
  ghost predicate Witnessed<N(!new)>(succ: N -> seq<N>, start: N, v: N, k: nat)
  {
    exists p :: PathFromTo(succ, p, start, v) && |p| == k + 1
  }

  /** Every edge out of `v` leads to a labelled node whose label is at most one more than `v`'s. */
  ghost predicate Relaxed<N(!new)>(succ: N -> seq<N>, dist: map<N, nat>, v: N)
    requires v in dist
  {
    forall i :: 0 <= i < |succ(v)| ==> succ(v)[i] in dist && dist[succ(v)[i]] <= dist[v] + 1
  }

  /** `dist` labels exactly the nodes reachable from `start`, each with its distance. */
  ghost predicate IsDistanceMap<N(!new)>(succ: N -> seq<N>, start: N, dist: map<N, nat>)
  {
    && (forall v :: v in dist <==> Reachable(succ, start, v))
    && (forall v :: v in dist ==> IsDistance(succ, start, v, dist[v]))
  }

  /** There is only one distance map: it is fixed by the graph and the start. */
  lemma DistanceMapUnique<N(!new)>(succ: N -> seq<N>, start: N, d1: map<N, nat>, d2: map<N, nat>)
    requires IsDistanceMap(succ, start, d1) && IsDistanceMap(succ, start, d2)
    ensures d1 == d2
  {
    forall v | v in d1 ensures v in d2 && d1[v] == d2[v] {
      DistanceUnique(succ, start, v, d1[v], d2[v]);
    }
  }

  /** Labels with `start` at 0 and every labelled node relaxed bound the length of every path from `start`. */
  lemma {:induction false} LabelsBoundPaths<N(!new)>(succ: N -> seq<N>, dist: map<N, nat>, start: N, p: seq<N>)
    requires start in dist && dist[start] == 0
    requires forall v :: v in dist ==> Relaxed(succ, dist, v)
    requires IsPath(succ, p) && p[0] == start
    ensures p[|p| - 1] in dist && dist[p[|p| - 1]] <= |p| - 1
    decreases |p|
  {
    if |p| > 1 {
      var q := p[..|p| - 1];
      assert IsPath(succ, q) by {
        forall i | 0 <= i < |q| - 1 ensures q[i + 1] in succ(q[i]) {
          assert q[i] == p[i] && q[i + 1] == p[i + 1];
        }
      }
      LabelsBoundPaths(succ, dist, start, q);
      var x := p[|p| - 2];
      assert p[|p| - 1] in succ(x);
      var i :| 0 <= i < |succ(x)| && succ(x)[i] == p[|p| - 1];
      assert Relaxed(succ, dist, x);
    }
  }

  /**
   * Labels that are all path lengths, with every labelled node relaxed, are
   * exactly the distances, on exactly the reachable nodes.
   */
  lemma LabelsAreDistances<N(!new)>(succ: N -> seq<N>, dist: map<N, nat>, start: N)
    requires start in dist && dist[start] == 0
    requires forall v :: v in dist ==> Relaxed(succ, dist, v)
    requires forall v :: v in dist ==> Witnessed(succ, start, v, dist[v])
    ensures IsDistanceMap(succ, start, dist)
  {
    forall v | Reachable(succ, start, v)
      ensures v in dist
    {
      var p :| PathFromTo(succ, p, start, v);
      LabelsBoundPaths(succ, dist, start, p);
    }
    forall v | v in dist
      ensures IsDistance(succ, start, v, dist[v])
    {
      assert Witnessed(succ, start, v, dist[v]);
      forall p | PathFromTo(succ, p, start, v)
        ensures |p| >= dist[v] + 1
      {
        LabelsBoundPaths(succ, dist, start, p);
      }
    }
  }

  /** The labels are path lengths, and `visited` is the set of labelled nodes. */
  ghost predicate Sound<N(!new)>(succ: N -> seq<N>, start: N, u: set<N>, visited: set<N>, dist: map<N, nat>)
  {
    && visited == dist.Keys && visited <= u
    && start in dist && dist[start] == 0
    && forall v :: v in dist ==> Witnessed(succ, start, v, dist[v])
  }

  /** The queue is labelled, in non-decreasing order, within `level` and `level + 1`. */
  ghost predicate Layered<N>(dist: map<N, nat>, queue: seq<N>, level: nat)
  {
    && (forall i :: 0 <= i < |queue| ==> queue[i] in dist && level <= dist[queue[i]] <= level + 1)
    && (forall i, j :: 0 <= i <= j < |queue| ==> dist[queue[i]] <= dist[queue[j]])
  }

  /** Labelled nodes off the queue (other than `node`) are relaxed and no further than `level`. */
  ghost predicate Settled<N(!new)>(succ: N -> seq<N>, dist: map<N, nat>, queue: seq<N>, node: Option<N>, level: nat)
  {
    forall v :: v in dist && v !in queue && node != Some(v) ==> Relaxed(succ, dist, v) && dist[v] <= level
  }

  lemma CardStep<X>(u: set<X>, v: set<X>, x: X)
    requires x in u && x !in v
    ensures |u - (v + {x})| == |u - v| - 1
  {
    assert u - (v + {x}) == (u - v) - {x};
  }

  lemma WitnessStart<N(!new)>(succ: N -> seq<N>, start: N)
    ensures Witnessed(succ, start, start, 0)
  {
    assert PathFromTo(succ, [start], start, start);
  }

  /** A path to `node` extended by one edge. */
  lemma WitnessStep<N(!new)>(succ: N -> seq<N>, start: N, node: N, y: N, k: nat)
    requires Witnessed(succ, start, node, k) && y in succ(node)
    ensures Witnessed(succ, start, y, k + 1)
  {
    var p :| PathFromTo(succ, p, start, node) && |p| == k + 1;
    var q := p + [y];
    assert forall i :: 0 <= i < |p| ==> q[i] == p[i];
    assert PathFromTo(succ, q, start, y);
  }

  /** Between queue pops: labels sound, the queue layered from `level`, every node off the queue settled. */
  ghost predicate Outer<N(!new)>(succ: N -> seq<N>, start: N, u: set<N>, visited: set<N>, dist: map<N, nat>,
                                 queue: seq<N>, level: nat)
  {
    && Sound(succ, start, u, visited, dist)
    && (forall k :: 0 <= k < |queue| ==> queue[k] in u)
    && Layered(dist, queue, level) && Settled(succ, dist, queue, None, level)
  }

  /** While `node`'s first `i` neighbours have been handled. */
  ghost predicate Inner<N(!new)>(succ: N -> seq<N>, start: N, u: set<N>, visited: set<N>, dist: map<N, nat>,
                                 queue: seq<N>, level: nat, node: N, i: nat)
  {
    && Sound(succ, start, u, visited, dist)
    && node in dist && dist[node] == level && node in u && i <= |succ(node)|
    && (forall k :: 0 <= k < |queue| ==> queue[k] in u)
    && Layered(dist, queue, level) && Settled(succ, dist, queue, Some(node), level)
    && (forall k :: 0 <= k < i ==> succ(node)[k] in dist && dist[succ(node)[k]] <= level + 1)
  }

  /** Shifting the front node off the queue starts its neighbour loop at its own level. */
  lemma Pop<N(!new)>(succ: N -> seq<N>, start: N, u: set<N>, visited: set<N>, dist: map<N, nat>,
                     queue: seq<N>, level: nat)
    requires Outer(succ, start, u, visited, dist, queue, level) && |queue| > 0
    ensures queue[0] in dist
    ensures Inner(succ, start, u, visited, dist, queue[1..], dist[queue[0]], queue[0], 0)
  {
    var node, rest, lv := queue[0], queue[1..], dist[queue[0]];
    forall k | 0 <= k < |rest| ensures rest[k] in u && rest[k] in dist && lv <= dist[rest[k]] <= lv + 1 {
      assert rest[k] == queue[k + 1];
    }
    forall k, j | 0 <= k <= j < |rest| ensures dist[rest[k]] <= dist[rest[j]] {
      assert rest[k] == queue[k + 1] && rest[j] == queue[j + 1];
    }
    forall v | v in dist && v !in rest && Some(node) != Some(v)
      ensures Relaxed(succ, dist, v) && dist[v] <= lv
    {
      assert v !in queue;
    }
  }

  /** An already labelled neighbour is at most one level past `node`. */
  lemma Seen<N(!new)>(succ: N -> seq<N>, start: N, u: set<N>, visited: set<N>, dist: map<N, nat>,
                      queue: seq<N>, level: nat, node: N, i: nat)
    requires Inner(succ, start, u, visited, dist, queue, level, node, i) && i < |succ(node)|
    requires succ(node)[i] in visited
    ensures Inner(succ, start, u, visited, dist, queue, level, node, i + 1)
  {
    var y := succ(node)[i];
    if y in queue {
      var k :| 0 <= k < |queue| && queue[k] == y;
    }
  }

  /** A neighbour of a node at `level` is labelled `level + 1`: the labels stay path lengths. */
  lemma AddSound<N(!new)>(succ: N -> seq<N>, start: N, u: set<N>, visited: set<N>, dist: map<N, nat>,
                          level: nat, node: N, y: N)
    requires Sound(succ, start, u, visited, dist) && node in dist && dist[node] == level
    requires y in succ(node) && y in u && y !in visited
    ensures Sound(succ, start, u, visited + {y}, dist[y := level + 1])
  {
    var d := dist[y := level + 1];
    WitnessStep(succ, start, node, y, level);
    forall v | v in d ensures Witnessed(succ, start, v, d[v]) {
      if v != y {
        assert v in dist;
      }
    }
  }

  /** Appending a new node labelled `level + 1` keeps the queue layered. */
  lemma AddLayered<N>(dist: map<N, nat>, queue: seq<N>, level: nat, y: N)
    requires Layered(dist, queue, level) && y !in dist
    ensures Layered(dist[y := level + 1], queue + [y], level)
  {
    var d := dist[y := level + 1];
    var q := queue + [y];
    forall k | 0 <= k < |q| ensures q[k] in d && level <= d[q[k]] <= level + 1 {
      if k < |queue| {
        assert q[k] == queue[k];
      }
    }
    forall k, j | 0 <= k <= j < |q| ensures d[q[k]] <= d[q[j]] {
      if j < |queue| {
        assert q[k] == queue[k] && q[j] == queue[j];
      } else if k < |queue| {
        assert q[k] == queue[k];
      }
    }
  }

  /** Labelling a new node leaves the settled nodes settled. */
  lemma AddSettled<N(!new)>(succ: N -> seq<N>, dist: map<N, nat>, queue: seq<N>, level: nat, node: N, y: N)
    requires Settled(succ, dist, queue, Some(node), level) && y !in dist
    ensures Settled(succ, dist[y := level + 1], queue + [y], Some(node), level)
  {
    var d := dist[y := level + 1];
    forall v | v in d && v !in queue + [y] && Some(node) != Some(v)
      ensures Relaxed(succ, d, v) && d[v] <= level
    {
      assert v in dist && v !in queue && Relaxed(succ, dist, v);
    }
  }

  /** Labelling a new neighbour with `level + 1` and queueing it. */
  lemma Add<N(!new)>(succ: N -> seq<N>, start: N, u: set<N>, visited: set<N>, dist: map<N, nat>,
                     queue: seq<N>, level: nat, node: N, i: nat,
                     visited': set<N>, d: map<N, nat>, q: seq<N>)
    requires Inner(succ, start, u, visited, dist, queue, level, node, i) && i < |succ(node)|
    requires Closed(succ, u) && succ(node)[i] !in visited
    requires visited' == visited + {succ(node)[i]} && q == queue + [succ(node)[i]]
    requires d == dist[succ(node)[i] := dist[node] + 1]
    ensures succ(node)[i] in u
    ensures Inner(succ, start, u, visited', d, q, level, node, i + 1)
  {
    var y := succ(node)[i];
    assert d == dist[y := level + 1];
    AddSound(succ, start, u, visited, dist, level, node, y);
    AddLayered(dist, queue, level, y);
    AddSettled(succ, dist, queue, level, node, y);
    forall k | 0 <= k < |q| ensures q[k] in u {
      if k < |queue| {
        assert q[k] == queue[k];
      }
    }
    forall k | 0 <= k <= i ensures succ(node)[k] in d && d[succ(node)[k]] <= level + 1 {
      if k < i {
        assert succ(node)[k] in dist;
      }
    }
  }

  /** Once all its neighbours are handled, `node` is settled too. */
  lemma Done<N(!new)>(succ: N -> seq<N>, start: N, u: set<N>, visited: set<N>, dist: map<N, nat>,
                      queue: seq<N>, level: nat, node: N)
    requires Inner(succ, start, u, visited, dist, queue, level, node, |succ(node)|)
    ensures Outer(succ, start, u, visited, dist, queue, level)
  {
    assert Relaxed(succ, dist, node);
  }

  /** With the queue empty every labelled node is settled, so the labels are the distances. */
  lemma Drained<N(!new)>(succ: N -> seq<N>, start: N, u: set<N>, visited: set<N>, dist: map<N, nat>, level: nat)
    requires Outer(succ, start, u, visited, dist, [], level)
    ensures IsDistanceMap(succ, start, dist)
  {
    LabelsAreDistances(succ, dist, start);
  }

  /**
   * The BFS loop. `u` is a finite node set closed under edges that holds
   * `start`; it only bounds the loop. The result labels exactly the nodes
   * reachable from `start`, each with its distance.
   */
  method Bfs<N(==,!new)>(succ: N -> seq<N>, start: N, ghost u: set<N>) returns (dist: map<N, nat>)
    requires start in u && Closed(succ, u)
    ensures IsDistanceMap(succ, start, dist)
  {
    var queue := [start];
    var visited := {start};
    dist := map[start := 0];
    ghost var level: nat := 0;
    WitnessStart(succ, start);
    while |queue| > 0
      invariant Outer(succ, start, u, visited, dist, queue, level)
      decreases |u - visited| + |queue|
    {
      Pop(succ, start, u, visited, dist, queue, level);
      var node := queue[0];
      queue := queue[1..];
      level := dist[node];
      ghost var measure := |u - visited| + |queue|;
      var ns := succ(node);
      for i := 0 to |ns|
        invariant Inner(succ, start, u, visited, dist, queue, level, node, i)
        invariant |u - visited| + |queue| == measure
      {
        var neighbor := ns[i];
        if neighbor !in visited {
          ghost var visited0, queue0, dist0 := visited, queue, dist;
          visited := visited + {neighbor};
          queue := queue + [neighbor];
          dist := dist[neighbor := dist[node] + 1];
          Add(succ, start, u, visited0, dist0, queue0, level, node, i, visited, dist, queue);
          CardStep(u, visited0, neighbor);
        } else {
          Seen(succ, start, u, visited, dist, queue, level, node, i);
        }
      }
      Done(succ, start, u, visited, dist, queue, level, node);
    }
    Drained(succ, start, u, visited, dist, level);
  }

  /** `bfsDistances`: BFS over an adjacency map, where a node without an entry has no neighbours. */
  method BfsDistances(g: Adjacency, start: int) returns (dist: map<int, nat>)
    ensures start in dist && dist[start] == 0
    ensures IsDistanceMap(SuccOf(g), start, dist)
  {
    NodesClosed(g, {start});
    dist := Bfs(SuccOf(g), start, NodesOf(g) + {start});
    ReachRefl(SuccOf(g), start);
    assert PathFromTo(SuccOf(g), [start], start, start);
  }

  /** `r` is the distance from `start` to `end`, or -1 exactly when there is no path. */
  ghost predicate ShortestAnswer<N(!new)>(succ: N -> seq<N>, start: N, end: N, r: int)
  {
    && r >= -1
    && (r == -1 <==> !Reachable(succ, start, end))
    && (r >= 0 ==> IsDistance(succ, start, end, r))
  }

  /** Only one answer meets that description. */
  lemma ShortestAnswerUnique<N(!new)>(succ: N -> seq<N>, start: N, end: N, r1: int, r2: int)
    requires ShortestAnswer(succ, start, end, r1) && ShortestAnswer(succ, start, end, r2)
    ensures r1 == r2
  {
    if r1 >= 0 && r2 >= 0 {
      DistanceUnique(succ, start, end, r1, r2);
    }
  }

  /** `shortestPath`: the distance from `start` to `end`, or -1 when `end` cannot be reached. */
  method ShortestPath(g: Adjacency, start: int, end: int) returns (r: int)
    ensures ShortestAnswer(SuccOf(g), start, end, r)
  {
    var dist := BfsDistances(g, start);
    r := if end in dist then dist[end] else -1;
  }

  /** A grid cell, row then column. */
  type Cell = (int, int)

  /**
   * A cell a step may enter: inside the rows and the width of the first row,
   * and not a '0'. A row shorter than the first reads `undefined` past its end,
   * which is not '0', so such cells count as open.
   */
  predicate Passable(grid: seq<seq<char>>, r: int, c: int)
    requires |grid| >= 1
  {
    0 <= r < |grid| && 0 <= c < |grid[0]| && !(c < |grid[r]| && grid[r][c] == '0')
  }

  function Step(grid: seq<seq<char>>, cell: Cell): seq<Cell>
    requires |grid| >= 1
  {
    if Passable(grid, cell.0, cell.1) then [cell] else []
  }

  /** The cells a step from `cell` may enter, in the source's order: down, up, right, left. */
  function Moves(grid: seq<seq<char>>, cell: Cell): seq<Cell>
    requires |grid| >= 1
  {
    var (r, c) := cell;
    Step(grid, (r + 1, c)) + Step(grid, (r - 1, c)) + Step(grid, (r, c + 1)) + Step(grid, (r, c - 1))
  }

  /** The grid seen as a successor function. */
  function GridSucc(grid: seq<seq<char>>): Cell -> seq<Cell>
    requires |grid| >= 1
  {
    cell => Moves(grid, cell)
  }

  /** `b` is one row or one column away from `a`. */
  predicate Adjacent(a: Cell, b: Cell)
  {
    || (a.1 == b.1 && (b.0 == a.0 + 1 || b.0 == a.0 - 1))
    || (a.0 == b.0 && (b.1 == a.1 + 1 || b.1 == a.1 - 1))
  }

  /** Every cell a step enters is passable, and it is one of the four neighbours. */
  lemma GridSteps(grid: seq<seq<char>>, cell: Cell, next: Cell)
    requires |grid| >= 1
    ensures next in GridSucc(grid)(cell) <==>
      Passable(grid, next.0, next.1) && Adjacent(cell, next)
  {
    var (r, c) := cell;
    var a, b, d, e := Step(grid, (r + 1, c)), Step(grid, (r - 1, c)), Step(grid, (r, c + 1)), Step(grid, (r, c - 1));
    assert GridSucc(grid)(cell) == Moves(grid, cell) == a + b + d + e;
    assert next in a + b + d + e <==> next in a || next in b || next in d || next in e;
    assert next in a <==> next == (r + 1, c) && Passable(grid, r + 1, c);
    assert next in b <==> next == (r - 1, c) && Passable(grid, r - 1, c);
    assert next in d <==> next == (r, c + 1) && Passable(grid, r, c + 1);
    assert next in e <==> next == (r, c - 1) && Passable(grid, r, c - 1);
  }

  /** The in-bounds cells together with the start: a finite set closed under steps. */
  ghost function GridCells(grid: seq<seq<char>>, start: Cell): set<Cell>
    requires |grid| >= 1
  {
    (set r, c | 0 <= r < |grid| && 0 <= c < |grid[0]| :: (r, c)) + {start}
  }

  lemma GridCellsClosed(grid: seq<seq<char>>, start: Cell)
    requires |grid| >= 1
    ensures Closed(GridSucc(grid), GridCells(grid, start))
  {
    forall x, i | x in GridCells(grid, start) && 0 <= i < |GridSucc(grid)(x)|
      ensures GridSucc(grid)(x)[i] in GridCells(grid, start)
    {
      var y := GridSucc(grid)(x)[i];
      GridSteps(grid, x, y);
    }
  }

  /**
   * `shortestGridPath`: BFS over the grid's cells from the start cell, which is
   * never itself checked, to the end cell; -1 when the end is not reached.
   * The source reads `grid[0]`, so the grid has at least one row.
   */
  method ShortestGridPath(grid: seq<seq<char>>, startRow: int, startCol: int, endRow: int, endCol: int)
    returns (r: int)
    requires |grid| >= 1
    ensures ShortestAnswer(GridSucc(grid), (startRow, startCol), (endRow, endCol), r)
  {
    var start := (startRow, startCol);
    GridCellsClosed(grid, start);
    var distance := Bfs(GridSucc(grid), start, GridCells(grid, start));
    r := if (endRow, endCol) in distance then distance[(endRow, endCol)] else -1;
  }

  /** A node is relaxed when each entry of its neighbour list is. */
  lemma RelaxedAt<N(!new)>(succ: N -> seq<N>, dist: map<N, nat>, v: N, ns: seq<N>)
    requires v in dist && succ(v) == ns
    requires forall i :: 0 <= i < |ns| ==> ns[i] in dist && dist[ns[i]] <= dist[v] + 1
    ensures Relaxed(succ, dist, v)
  {
  }

  /** Node 0 reaches 1 and 2 directly and 3 through either of them. */
  lemma DiamondDistances(dist: map<int, nat>)
    requires IsDistanceMap(SuccOf(map[0 := [1, 2], 1 := [3], 2 := [3], 3 := []]), 0, dist)
    ensures dist == map[0 := 0, 1 := 1, 2 := 1, 3 := 2]
  {
    var succ := SuccOf(map[0 := [1, 2], 1 := [3], 2 := [3], 3 := []]);
    var labels: map<int, nat> := map[0 := 0, 1 := 1, 2 := 1, 3 := 2];
    RelaxedAt(succ, labels, 0, [1, 2]);
    RelaxedAt(succ, labels, 1, [3]);
    RelaxedAt(succ, labels, 2, [3]);
    RelaxedAt(succ, labels, 3, []);
    WitnessStart(succ, 0);
    WitnessStep(succ, 0, 0, 1, 0);
    WitnessStep(succ, 0, 0, 2, 0);
    WitnessStep(succ, 0, 1, 3, 1);
    LabelsAreDistances(succ, labels, 0);
    DistanceMapUnique(succ, 0, dist, labels);
  }

  /** The chain 0 -> 1 -> 2 -> 3: distances from 0 are 0, 1, 2, 3, and no edge leads back. */
  lemma ChainDistances()
    ensures IsDistanceMap(SuccOf(map[0 := [1], 1 := [2], 2 := [3], 3 := []]), 0, map[0 := 0, 1 := 1, 2 := 2, 3 := 3])
    ensures !Reachable(SuccOf(map[0 := [1], 1 := [2], 2 := [3], 3 := []]), 3, 0)
  {
    ChainLabels();
    ChainOneWay();
  }

  lemma ChainLabels()
    ensures IsDistanceMap(SuccOf(map[0 := [1], 1 := [2], 2 := [3], 3 := []]), 0, map[0 := 0, 1 := 1, 2 := 2, 3 := 3])
  {
    var succ := SuccOf(map[0 := [1], 1 := [2], 2 := [3], 3 := []]);
    var labels: map<int, nat> := map[0 := 0, 1 := 1, 2 := 2, 3 := 3];
    RelaxedAt(succ, labels, 0, [1]);
    RelaxedAt(succ, labels, 1, [2]);
    RelaxedAt(succ, labels, 2, [3]);
    RelaxedAt(succ, labels, 3, []);
    WitnessStart(succ, 0);
    WitnessStep(succ, 0, 0, 1, 0);
    WitnessStep(succ, 0, 1, 2, 1);
    WitnessStep(succ, 0, 2, 3, 2);
    LabelsAreDistances(succ, labels, 0);
  }

  lemma ChainOneWay()
    ensures !Reachable(SuccOf(map[0 := [1], 1 := [2], 2 := [3], 3 := []]), 3, 0)
  {
    var succ := SuccOf(map[0 := [1], 1 := [2], 2 := [3], 3 := []]);
    assert succ(3) == [];
    assert Closed(succ, {3});
    if Reachable(succ, 3, 0) {
      ClosedHoldsReachable(succ, {3}, 3, 0);
    }
  }

  /** `shortestPath` on the chain: 3 hops to 3, 1 hop to 1, 0 to itself, and -1 from 3 back to 0. */
  lemma ChainAnswers(toEnd: int, toNext: int, toSelf: int, back: int)
    requires ShortestAnswer(SuccOf(map[0 := [1], 1 := [2], 2 := [3], 3 := []]), 0, 3, toEnd)
    requires ShortestAnswer(SuccOf(map[0 := [1], 1 := [2], 2 := [3], 3 := []]), 0, 1, toNext)
    requires ShortestAnswer(SuccOf(map[0 := [1], 1 := [2], 2 := [3], 3 := []]), 0, 0, toSelf)
    requires ShortestAnswer(SuccOf(map[0 := [1], 1 := [2], 2 := [3], 3 := []]), 3, 0, back)
    ensures toEnd == 3 && toNext == 1 && toSelf == 0 && back == -1
  {
    var succ := SuccOf(map[0 := [1], 1 := [2], 2 := [3], 3 := []]);
    ChainDistances();
    ShortestAnswerUnique(succ, 0, 3, toEnd, 3);
    ShortestAnswerUnique(succ, 0, 1, toNext, 1);
    ShortestAnswerUnique(succ, 0, 0, toSelf, 0);
    ShortestAnswerUnique(succ, 3, 0, back, -1);
  }

  /** Node 5 has an entry but no edge leads to it from 0. */
  lemma DisconnectedAnswer(r: int)
    requires ShortestAnswer(SuccOf(map[0 := [1], 1 := [], 5 := []]), 0, 5, r)
    ensures r == -1
  {
    var succ := SuccOf(map[0 := [1], 1 := [], 5 := []]);
    assert Closed(succ, {0, 1});
    assert Reachable(succ, 0, 5) ==> 5 in {0, 1} by {
      if Reachable(succ, 0, 5) {
        ClosedHoldsReachable(succ, {0, 1}, 0, 5);
      }
    }
  }

  /** The steps out of each open cell of the winding grid. */
  lemma WindingMoves()
    ensures var grid := [['1', '1', '0'], ['0', '1', '0'], ['0', '1', '1']];
      && Moves(grid, (0, 0)) == [(0, 1)]
      && Moves(grid, (0, 1)) == [(1, 1), (0, 0)]
      && Moves(grid, (1, 1)) == [(2, 1), (0, 1)]
      && Moves(grid, (2, 1)) == [(1, 1), (2, 2)]
      && Moves(grid, (2, 2)) == [(2, 1)]
  {
  }

  /** Distances over any successor function with the winding grid's steps. */
  lemma WindingLabels(succ: Cell -> seq<Cell>)
    requires succ((0, 0)) == [(0, 1)] && succ((0, 1)) == [(1, 1), (0, 0)] && succ((1, 1)) == [(2, 1), (0, 1)]
    requires succ((2, 1)) == [(1, 1), (2, 2)] && succ((2, 2)) == [(2, 1)]
    ensures IsDistanceMap(succ, (0, 0), map[(0, 0) := 0, (0, 1) := 1, (1, 1) := 2, (2, 1) := 3, (2, 2) := 4])
  {
    var labels: map<Cell, nat> := map[(0, 0) := 0, (0, 1) := 1, (1, 1) := 2, (2, 1) := 3, (2, 2) := 4];
    RelaxedAt(succ, labels, (0, 0), [(0, 1)]);
    RelaxedAt(succ, labels, (0, 1), [(1, 1), (0, 0)]);
    RelaxedAt(succ, labels, (1, 1), [(2, 1), (0, 1)]);
    RelaxedAt(succ, labels, (2, 1), [(1, 1), (2, 2)]);
    RelaxedAt(succ, labels, (2, 2), [(2, 1)]);
    WitnessStart(succ, (0, 0));
    WitnessStep(succ, (0, 0), (0, 0), (0, 1), 0);
    WitnessStep(succ, (0, 0), (0, 1), (1, 1), 1);
    WitnessStep(succ, (0, 0), (1, 1), (2, 1), 2);
    WitnessStep(succ, (0, 0), (2, 1), (2, 2), 3);
    LabelsAreDistances(succ, labels, (0, 0));
  }

  /** In the winding grid, (0,0) -> (0,1) -> (1,1) -> (2,1) -> (2,2) is the only way. */
  lemma WindingDistances()
    ensures IsDistanceMap(GridSucc([['1', '1', '0'], ['0', '1', '0'], ['0', '1', '1']]), (0, 0),
                          map[(0, 0) := 0, (0, 1) := 1, (1, 1) := 2, (2, 1) := 3, (2, 2) := 4])
  {
    var succ := GridSucc([['1', '1', '0'], ['0', '1', '0'], ['0', '1', '1']]);
    WindingMoves();
    WindingLabels(succ);
  }

  /** `shortestGridPath` on the winding grid from (0,0) to (2,2) answers 4. */
  lemma WindingGrid(r: int)
    requires ShortestAnswer(GridSucc([['1', '1', '0'], ['0', '1', '0'], ['0', '1', '1']]), (0, 0), (2, 2), r)
    ensures r == 4
  {
    var succ := GridSucc([['1', '1', '0'], ['0', '1', '0'], ['0', '1', '1']]);
    WindingDistances();
    ShortestAnswerUnique(succ, (0, 0), (2, 2), r, 4);
  }

  /** The start cell is never checked: from the wall at (0,1) the search still steps onto the open (0,0). */
  lemma WallStart()
    ensures IsDistance(GridSucc([['1', '0', '1'], ['0', '0', '0'], ['1', '0', '1']]), (0, 1), (0, 0), 1)
  {
    var grid := [['1', '0', '1'], ['0', '0', '0'], ['1', '0', '1']];
    var succ := GridSucc(grid);
    assert Moves(grid, (0, 1)) == [(0, 2), (0, 0)];
    assert PathFromTo(succ, [(0, 1), (0, 0)], (0, 1), (0, 0));
  }
}
