/**
 * Grids seen as graphs: a cell's neighbours are the four cells next to it, and
 * a search may only step onto the cells of a given `open` set. Shared by the
 * grid searches: marking a region, counting islands, sinking islands.
 */
module Grids {
  import opened Graphs

  /** A grid cell, row then column. */
  type Cell = (int, int)

  /** The four cells next to `x`, in the order the sources try them: down, up, right, left. */
  function Nbr(x: Cell, d: int): Cell
  {
    if d == 0 then (x.0 + 1, x.1)
    else if d == 1 then (x.0 - 1, x.1)
    else if d == 2 then (x.0, x.1 + 1)
    else (x.0, x.1 - 1)
  }

  /** The direction that leads back. */
  function Back(d: int): int
  {
    if d == 0 then 1 else if d == 1 then 0 else if d == 2 then 3 else 2
  }

  lemma NbrBack(x: Cell, d: int)
    requires 0 <= d < 4
    ensures 0 <= Back(d) < 4 && Nbr(Nbr(x, d), Back(d)) == x
  {
  }

  function Only(open: set<Cell>, y: Cell): seq<Cell>
  {
    if y in open then [y] else []
  }

  /** The neighbours of `x` that lie in `open`, in the sources' order. */
  function Moves(open: set<Cell>, x: Cell): seq<Cell>
  {
    Only(open, Nbr(x, 0)) + Only(open, Nbr(x, 1)) + Only(open, Nbr(x, 2)) + Only(open, Nbr(x, 3))
  }

  /** Steps between neighbouring cells of `open`, as a successor function. */
  function Within(open: set<Cell>): Cell -> seq<Cell>
  {
    x => Moves(open, x)
  }

  /** A step enters an open neighbour, and every open neighbour is a step. */
  lemma MovesAre(open: set<Cell>, x: Cell, y: Cell)
    ensures y in Within(open)(x) <==> y in open && exists d :: 0 <= d < 4 && y == Nbr(x, d)
  {
    var a, b, c, e := Only(open, Nbr(x, 0)), Only(open, Nbr(x, 1)), Only(open, Nbr(x, 2)), Only(open, Nbr(x, 3));
    assert Within(open)(x) == Moves(open, x) == a + b + c + e;
    assert y in a + b + c + e <==> y in a || y in b || y in c || y in e;
    if y in open && exists d :: 0 <= d < 4 && y == Nbr(x, d) {
      var d :| 0 <= d < 4 && y == Nbr(x, d);
      assert d == 0 || d == 1 || d == 2 || d == 3;
    }
  }

  lemma StepTo(open: set<Cell>, x: Cell, d: int)
    requires 0 <= d < 4 && Nbr(x, d) in open
    ensures Nbr(x, d) in Within(open)(x)
  {
    MovesAre(open, x, Nbr(x, d));
  }

  /** Every cell reached from an open cell is open. */
  lemma ReachStaysOpen(open: set<Cell>, a: Cell, b: Cell)
    requires a in open && Reachable(Within(open), a, b)
    ensures b in open
  {
    forall x, i | x in open && 0 <= i < |Within(open)(x)| ensures Within(open)(x)[i] in open {
      MovesAre(open, x, Within(open)(x)[i]);
    }
    ClosedHoldsReachable(Within(open), open, a, b);
  }

  /** Steps between open cells go both ways. */
  lemma StepBack(open: set<Cell>, x: Cell, y: Cell)
    requires x in open && y in Within(open)(x)
    ensures x in Within(open)(y)
  {
    MovesAre(open, x, y);
    var d :| 0 <= d < 4 && y == Nbr(x, d);
    NbrBack(x, d);
    MovesAre(open, y, x);
  }

  /** So does reaching: a path between open cells can be walked backwards. */
  lemma {:induction false} ReachBack(open: set<Cell>, p: seq<Cell>)
    requires IsPath(Within(open), p) && p[0] in open
    ensures Reachable(Within(open), p[|p| - 1], p[0])
    decreases |p|
  {
    var succ := Within(open);
    if |p| == 1 {
      ReachRefl(succ, p[0]);
    } else {
      var q := p[..|p| - 1];
      PathInit(succ, p);
      ReachBack(open, q);
      var x, y := p[|p| - 2], p[|p| - 1];
      assert PathFromTo(succ, q, p[0], x);
      ReachStaysOpen(open, p[0], x);
      StepBack(open, x, y);
      ReachPrepend(succ, y, x, p[0]);
    }
  }

  lemma ReachSymmetric(open: set<Cell>, a: Cell, b: Cell)
    requires a in open && Reachable(Within(open), a, b)
    ensures Reachable(Within(open), b, a)
  {
    var p :| PathFromTo(Within(open), p, a, b);
    ReachBack(open, p);
  }

  /**
   * The search invariant: every cell of `done` whose search has finished (it is
   * not in `active`, the cells still on the recursion stack) has all its open
   * neighbours in `done`.
   */
  ghost predicate ClosedExcept(open: set<Cell>, done: set<Cell>, active: set<Cell>)
  {
    forall y :: y in done && y !in active ==> TriedFirst(open, done, y, 4)
  }

  /** The first `k` neighbours of `y` are in `done` whenever they are open. */
  predicate TriedFirst(open: set<Cell>, done: set<Cell>, y: Cell, k: int)
  {
    && (k > 0 && Nbr(y, 0) in open ==> Nbr(y, 0) in done)
    && (k > 1 && Nbr(y, 1) in open ==> Nbr(y, 1) in done)
    && (k > 2 && Nbr(y, 2) in open ==> Nbr(y, 2) in done)
    && (k > 3 && Nbr(y, 3) in open ==> Nbr(y, 3) in done)
  }

  /** A finished cell leaves the stack. */
  lemma Finish(open: set<Cell>, done: set<Cell>, active: set<Cell>, x: Cell)
    requires ClosedExcept(open, done, active + {x})
    requires TriedFirst(open, done, x, 4)
    ensures ClosedExcept(open, done, active)
  {
  }

  /** With nothing on the stack, the searched cells are closed under steps. */
  lemma ClosedWhenIdle(open: set<Cell>, done: set<Cell>, extra: set<Cell>)
    requires ClosedExcept(open, done, {})
    requires forall x :: x in extra ==> TriedFirst(open, done, x, 4)
    ensures Closed(Within(open), done + extra)
  {
    forall x, i | x in done + extra && 0 <= i < |Within(open)(x)|
      ensures Within(open)(x)[i] in done + extra
    {
      MovesAre(open, x, Within(open)(x)[i]);
    }
  }

  /** The cells a search from `x` has added were reached from `x`. */
  ghost predicate AddsReachable(open: set<Cell>, x: Cell, before: set<Cell>, after: set<Cell>)
  {
    forall z :: z in after && z !in before ==> Reachable(Within(open), x, z)
  }

  /** What the search of an open neighbour added was reached through that neighbour. */
  lemma AddsThrough(open: set<Cell>, x: Cell, d: int, r0: set<Cell>, r1: set<Cell>, r2: set<Cell>)
    requires 0 <= d < 4 && Nbr(x, d) in open
    requires r0 <= r1 <= r2
    requires AddsReachable(open, x, r0, r1) && AddsReachable(open, Nbr(x, d), r1, r2)
    ensures AddsReachable(open, x, r0, r2)
  {
    forall z | z in r2 && z !in r0 ensures Reachable(Within(open), x, z) {
      if z !in r1 {
        StepTo(open, x, d);
        ReachPrepend(Within(open), x, Nbr(x, d), z);
      }
    }
  }

  /** A cell's own search adds it first. */
  lemma AddsSelf(open: set<Cell>, x: Cell, r0: set<Cell>)
    ensures AddsReachable(open, x, r0, r0 + {x})
  {
    ReachRefl(Within(open), x);
  }

  /** A set one element larger is one larger. */
  lemma GrowsByOne(r: set<Cell>, x: Cell, r': set<Cell>)
    requires x !in r && r + {x} <= r'
    ensures |r'| >= |r| + 1
  {
    SubsetCard(r + {x}, r');
  }

  // ----- Row-major scans: one island per leader -----

  /** `y` comes before `p` in a scan by rows, then columns. */
  predicate Before(y: Cell, p: Cell)
  {
    y.0 < p.0 || (y.0 == p.0 && y.1 < p.1)
  }

  /** Some start before `p` in the scan reaches `z`. */
  ghost predicate ReachedBefore(open: set<Cell>, starts: set<Cell>, p: Cell, z: Cell)
  {
    exists y :: y in starts && Before(y, p) && Reachable(Within(open), y, z)
  }

  /** A start no earlier start reaches: the scan opens a new island there. */
  ghost predicate Leader(open: set<Cell>, starts: set<Cell>, y: Cell)
  {
    y in starts && !ReachedBefore(open, starts, y, y)
  }

  /** The leaders the scan has passed at `p`. */
  ghost function LeadersBefore(open: set<Cell>, starts: set<Cell>, p: Cell): set<Cell>
  {
    set y | y in starts && Before(y, p) && Leader(open, starts, y)
  }

  /** All the leaders: one per island. */
  ghost function Islands(open: set<Cell>, starts: set<Cell>): set<Cell>
  {
    set y | y in starts && Leader(open, starts, y)
  }

  /** The scan moves one column on. */
  lemma ScanStep(open: set<Cell>, starts: set<Cell>, row: int, col: int)
    ensures LeadersBefore(open, starts, (row, col + 1)) ==
      LeadersBefore(open, starts, (row, col)) + (if Leader(open, starts, (row, col)) then {(row, col)} else {})
    ensures (row, col) !in LeadersBefore(open, starts, (row, col))
    ensures forall z :: ReachedBefore(open, starts, (row, col + 1), z) <==>
      ReachedBefore(open, starts, (row, col), z) || ((row, col) in starts && Reachable(Within(open), (row, col), z))
  {
    var p, q := (row, col), (row, col + 1);
    forall z | ReachedBefore(open, starts, q, z)
      ensures ReachedBefore(open, starts, p, z) || (p in starts && Reachable(Within(open), p, z))
    {
      var y :| y in starts && Before(y, q) && Reachable(Within(open), y, z);
      if y != p {
        assert Before(y, p);
      }
    }
    forall z | p in starts && Reachable(Within(open), p, z)
      ensures ReachedBefore(open, starts, q, z)
    {
      assert Before(p, q);
    }
    forall z | ReachedBefore(open, starts, p, z)
      ensures ReachedBefore(open, starts, q, z)
    {
      var y :| y in starts && Before(y, p) && Reachable(Within(open), y, z);
      assert Before(y, q);
    }
  }

  /** Past the last column of a row is the start of the next row, for starts inside `width` columns. */
  lemma NextRow(open: set<Cell>, starts: set<Cell>, row: int, width: int)
    requires forall y :: y in starts ==> 0 <= y.1 < width
    ensures LeadersBefore(open, starts, (row, width)) == LeadersBefore(open, starts, (row + 1, 0))
    ensures forall z :: ReachedBefore(open, starts, (row, width), z) <==> ReachedBefore(open, starts, (row + 1, 0), z)
  {
    forall z | ReachedBefore(open, starts, (row + 1, 0), z)
      ensures ReachedBefore(open, starts, (row, width), z)
    {
      var y :| y in starts && Before(y, (row + 1, 0)) && Reachable(Within(open), y, z);
      assert Before(y, (row, width));
    }
  }

  /** Once the scan has passed every row, its leaders are all the islands. */
  lemma ScanDone(open: set<Cell>, starts: set<Cell>, rows: int)
    requires forall y :: y in starts ==> y.0 < rows
    ensures LeadersBefore(open, starts, (rows, 0)) == Islands(open, starts)
  {
  }

  /** The number of starts before `p` in the scan. */
  ghost function Earlier(starts: set<Cell>, p: Cell): set<Cell>
  {
    set y | y in starts && Before(y, p)
  }

  /** Every start lies in the island of a leader at or before it. */
  lemma {:induction false} HasLeader(open: set<Cell>, starts: set<Cell>, x: Cell)
    requires x in starts
    ensures exists l :: Leader(open, starts, l) && Reachable(Within(open), l, x)
    decreases |Earlier(starts, x)|
  {
    if Leader(open, starts, x) {
      ReachRefl(Within(open), x);
    } else {
      var y :| y in starts && Before(y, x) && Reachable(Within(open), y, x);
      assert Earlier(starts, y) <= Earlier(starts, x) - {y};
      SubsetCard(Earlier(starts, y), Earlier(starts, x) - {y});
      HasLeader(open, starts, y);
      var l :| Leader(open, starts, l) && Reachable(Within(open), l, y);
      ReachTrans(Within(open), l, y, x);
    }
  }

  /** No island has two leaders: the earlier would reach the later. */
  lemma OneLeader(open: set<Cell>, starts: set<Cell>, z: Cell, l1: Cell, l2: Cell)
    requires starts <= open
    requires Leader(open, starts, l1) && Reachable(Within(open), l1, z)
    requires Leader(open, starts, l2) && Reachable(Within(open), l2, z)
    ensures l1 == l2
  {
    ReachSymmetric(open, l2, z);
    ReachTrans(Within(open), l1, z, l2);
    ReachSymmetric(open, l1, z);
    ReachTrans(Within(open), l2, z, l1);
    assert Before(l1, l2) ==> ReachedBefore(open, starts, l2, l2);
    assert Before(l2, l1) ==> ReachedBefore(open, starts, l1, l1);
  }

  /** When no start has an open neighbour, every start is an island of its own. */
  lemma IsolatedIslands(open: set<Cell>, starts: set<Cell>)
    requires forall y, d :: y in starts && 0 <= d < 4 ==> Nbr(y, d) !in open
    ensures Islands(open, starts) == starts
  {
    forall y | y in starts ensures Leader(open, starts, y) {
      if ReachedBefore(open, starts, y, y) {
        var y' :| y' in starts && Before(y', y) && Reachable(Within(open), y', y);
        assert Within(open)(y') == Moves(open, y') == [];
        ClosedHoldsReachable(Within(open), {y'}, y', y);
        assert false;
      }
    }
  }

  /** When the first start reaches every later one, there is one island. */
  lemma SingleIsland(open: set<Cell>, starts: set<Cell>, l: Cell)
    requires l in starts
    requires forall y :: y in starts && y != l ==> Before(l, y) && Reachable(Within(open), l, y)
    ensures Islands(open, starts) == {l}
  {
    forall y | y in starts && y != l ensures !Leader(open, starts, y) {
      assert ReachedBefore(open, starts, y, y);
    }
  }

  /** The islands are the given leaders when every other start is reached by an earlier one. */
  lemma IslandsAre(open: set<Cell>, starts: set<Cell>, leaders: set<Cell>, others: set<Cell>)
    requires starts == leaders + others
    requires forall l :: l in leaders ==> Leader(open, starts, l)
    requires forall y :: y in others ==> ReachedBefore(open, starts, y, y)
    ensures Islands(open, starts) == leaders
  {
  }
}
