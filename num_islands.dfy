/**
 * numIslands: count the islands of a grid by sinking each one in place. The
 * grid is a rectangular matrix of characters; every cell a search enters is
 * overwritten with '0', so the grid itself is the visited set.
 */
module NumIslands {
  import opened Graphs
  import opened Grids
  import opened GridDfs

  /** The matrix read as rows of characters. */
  ghost function Snapshot(a: array2<char>): (g: seq<seq<char>>)
    reads a
    ensures |g| == a.Length0
    ensures forall r :: 0 <= r < |g| ==> |g[r]| == a.Length1
    ensures forall r, c :: 0 <= r < a.Length0 && 0 <= c < a.Length1 ==> g[r][c] == a[r, c]
  {
    seq(a.Length0, r requires 0 <= r < a.Length0 reads a =>
      seq(a.Length1, c requires 0 <= c < a.Length1 reads a => a[r, c]))
  }

  /** `g0` has the matrix's shape. */
  ghost predicate Shaped(a: array2<char>, g0: seq<seq<char>>)
  {
    |g0| == a.Length0 && forall r :: 0 <= r < |g0| ==> |g0[r]| == a.Length1
  }

  /** The matrix is `g0` with the cells of `done` sunk. */
  ghost predicate Sunk(a: array2<char>, g0: seq<seq<char>>, done: set<Cell>)
    reads a
    requires Shaped(a, g0)
  {
    && (forall r, c {:trigger a[r, c]} :: 0 <= r < a.Length0 && 0 <= c < a.Length1 ==>
          a[r, c] == (if (r, c) in done then '0' else g0[r][c]))
    && (forall x :: x in done ==> 0 <= x.0 < a.Length0 && 0 <= x.1 < a.Length1)
  }

  /**
   * The inner `dfs`: out-of-bounds cells and '0' cells stop it; any other cell
   * is overwritten with '0' and its four neighbours are searched.
   */
  method Sink(grid: array2<char>, x: Cell, ghost g0: seq<seq<char>>,
              ghost open: set<Cell>, ghost done: set<Cell>, ghost active: set<Cell>)
    returns (ghost done': set<Cell>)
    modifies grid
    requires Shaped(grid, g0)
    requires forall y :: y in open <==> NotWater(g0, y)
    requires done <= open && active <= done
    requires Sunk(grid, g0, done) && ClosedExcept(open, done, active)
    ensures Sunk(grid, g0, done') && Filled(open, x, done, active, done')
    decreases |open| - |done|
  {
    var (row, col) := x;
    if row < 0 || row >= grid.Length0 {
      Unfilled(open, x, done, active);
      return done;
    }
    if col < 0 || col >= grid.Length1 {
      Unfilled(open, x, done, active);
      return done;
    }
    if grid[row, col] == '0' {
      Unfilled(open, x, done, active);
      return done;
    }
    grid[row, col] := '0';
    done' := done + {x};
    ghost var act := active + {x};
    Begin(open, x, done, active);
    for d := 0 to 4
      invariant Scanning(open, x, done, active, done', act, d)
      invariant Sunk(grid, g0, done')
    {
      ghost var before := done';
      Measure(open, x, done, active, done', act, d);
      done' := Sink(grid, Nbr(x, d), g0, open, done', act);
      FilledNext(open, x, done, active, before, done', act, d);
    }
    FilledAll(open, x, done, active, done', act);
  }

  /** One cell of the scan: a '1' still standing opens an island, which is then sunk. */
  method SinkAt(grid: array2<char>, row: int, col: int, ghost g0: seq<seq<char>>,
                ghost open: set<Cell>, ghost starts: set<Cell>, ghost done: set<Cell>, islands: int)
    returns (islands': int, ghost done': set<Cell>)
    modifies grid
    requires 0 <= row < grid.Length0 && 0 <= col < grid.Length1 && Shaped(grid, g0)
    requires open == NotWaterOf(g0) && starts == LandOf(g0)
    requires Scanned(open, starts, (row, col), done, islands) && Sunk(grid, g0, done)
    ensures Scanned(open, starts, (row, col + 1), done', islands') && Sunk(grid, g0, done')
  {
    InLand(g0, (row, col));
    if grid[row, col] == '1' {
      islands' := islands + 1;
      NotWaterIs(g0);
      InNotWater(g0, (row, col));
      done' := Sink(grid, (row, col), g0, open, done, {});
      ScanLeader(open, starts, row, col, done, done', islands);
    } else {
      islands', done' := islands, done;
      ScanPast(open, starts, row, col, done, islands);
    }
  }

  /** A cell some '1' of `g0` reaches through cells that are not '0': the searches sink it. */
  ghost predicate Drowned(g0: seq<seq<char>>, z: Cell)
  {
    exists y :: y in LandOf(g0) && Reachable(Within(NotWaterOf(g0)), y, z)
  }

  /** What a cell of `g0` holds once every island is sunk. */
  ghost function Drained(g0: seq<seq<char>>, z: Cell): char
    requires 0 <= z.0 < |g0| && 0 <= z.1 < |g0[z.0]|
  {
    if Drowned(g0, z) then '0' else g0[z.0][z.1]
  }

  /** One row of the scan: each cell in turn, left to right. */
  method SinkRow(grid: array2<char>, row: int, ghost g0: seq<seq<char>>,
                 ghost open: set<Cell>, ghost starts: set<Cell>, ghost done: set<Cell>, islands: int)
    returns (islands': int, ghost done': set<Cell>)
    modifies grid
    requires 0 <= row < grid.Length0 && Shaped(grid, g0)
    requires open == NotWaterOf(g0) && starts == LandOf(g0)
    requires forall y :: y in starts ==> 0 <= y.1 < grid.Length1
    requires Scanned(open, starts, (row, 0), done, islands) && Sunk(grid, g0, done)
    ensures Scanned(open, starts, (row + 1, 0), done', islands') && Sunk(grid, g0, done')
  {
    islands', done' := islands, done;
    var col := 0;
    while col < grid.Length1
      invariant 0 <= col <= grid.Length1
      invariant Scanned(open, starts, (row, col), done', islands') && Sunk(grid, g0, done')
    {
      islands', done' := SinkAt(grid, row, col, g0, open, starts, done', islands');
      col := col + 1;
    }
    ScanRow(open, starts, row, grid.Length1, done', islands');
  }

  /** Once every island is sunk, each cell holds what `Drained` says. */
  lemma SunkDrained(grid: array2<char>, g0: seq<seq<char>>, done: set<Cell>)
    requires Shaped(grid, g0) && Sunk(grid, g0, done)
    requires forall z :: z in done <==> Drowned(g0, z)
    ensures forall r, c :: 0 <= r < grid.Length0 && 0 <= c < grid.Length1 ==>
      grid[r, c] == Drained(g0, (r, c))
  {
  }

  /**
   * `numIslands`: returns the number of islands of the grid it was given and
   * leaves every cell of every island, and nothing else, overwritten with '0'.
   */
  method CountSinking(grid: array2<char>) returns (islands: int)
    modifies grid
    ensures islands == |Islands(NotWaterOf(old(Snapshot(grid))), LandOf(old(Snapshot(grid))))|
    ensures forall r, c :: 0 <= r < grid.Length0 && 0 <= c < grid.Length1 ==>
      grid[r, c] == Drained(old(Snapshot(grid)), (r, c))
  {
    ghost var g0 := Snapshot(grid);
    ghost var open := NotWaterOf(g0);
    ghost var starts := LandOf(g0);
    ghost var done: set<Cell> := {};
    islands := 0;
    LandInside(g0);
    ScanFirst(open, starts);
    var row := 0;
    while row < grid.Length0
      invariant 0 <= row <= grid.Length0
      invariant Scanned(open, starts, (row, 0), done, islands) && Sunk(grid, g0, done)
    {
      islands, done := SinkRow(grid, row, g0, open, starts, done, islands);
      row := row + 1;
    }
    ScanDone(open, starts, grid.Length0);
    DrainedAll(g0, starts, open, done, grid.Length0);
    SunkDrained(grid, g0, done);
  }

  /** At the end of the scan the sunk cells are exactly the drowned ones. */
  lemma DrainedAll(g0: seq<seq<char>>, starts: set<Cell>, open: set<Cell>, done: set<Cell>, rows: int)
    requires starts == LandOf(g0) && open == NotWaterOf(g0)
    requires forall y :: y in starts ==> y.0 < rows
    requires forall z :: z in done <==> ReachedBefore(open, starts, (rows, 0), z)
    ensures forall z :: z in done <==> Drowned(g0, z)
  {
    forall z | Drowned(g0, z) ensures z in done {
      var y :| y in LandOf(g0) && Reachable(Within(NotWaterOf(g0)), y, z);
      assert Before(y, (rows, 0));
    }
  }

  /** Afterwards no '1' is left, and a cell that was '0' is still '0'. */
  lemma NoLandLeft(g0: seq<seq<char>>, z: Cell)
    requires 0 <= z.0 < |g0| && 0 <= z.1 < |g0[z.0]| && |g0[z.0]| == |g0[0]|
    ensures Drained(g0, z) != '1'
    ensures g0[z.0][z.1] == '0' ==> Drained(g0, z) == '0'
  {
    if g0[z.0][z.1] == '1' {
      InLand(g0, z);
      ReachRefl(Within(NotWaterOf(g0)), z);
    }
  }
}
