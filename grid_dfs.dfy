/**
 * Grid DFS: mark the region of '1' cells around a start cell in a caller's
 * `visited` matrix, and count islands with a private `marked` matrix. The grid
 * is read as rows of characters; its width is the first row's length, and a
 * cell past the end of a shorter row reads as `undefined`.
 */
module GridDfs {
  import opened Graphs
  import opened Grids

  /** Inside the rows and the first row's width. */
  predicate InGrid(grid: seq<seq<char>>, x: Cell)
  {
    0 <= x.0 < |grid| && 0 <= x.1 < |grid[0]|
  }

  /** The character at `x` is '1'. */
  predicate IsLand(grid: seq<seq<char>>, x: Cell)
  {
    InGrid(grid, x) && x.1 < |grid[x.0]| && grid[x.0][x.1] == '1'
  }

  /** The character at `x` is not '0' (it may be `undefined` past the end of a short row). */
  predicate NotWater(grid: seq<seq<char>>, x: Cell)
  {
    InGrid(grid, x) && !(x.1 < |grid[x.0]| && grid[x.0][x.1] == '0')
  }

  ghost function LandOf(grid: seq<seq<char>>): set<Cell>
  {
    set r, c | 0 <= r < |grid| && 0 <= c < |grid[0]| && IsLand(grid, (r, c)) :: (r, c)
  }

  ghost function NotWaterOf(grid: seq<seq<char>>): set<Cell>
  {
    set r, c | 0 <= r < |grid| && 0 <= c < |grid[0]| && NotWater(grid, (r, c)) :: (r, c)
  }

  lemma InLand(grid: seq<seq<char>>, x: Cell)
    ensures x in LandOf(grid) <==> IsLand(grid, x)
  {
    if IsLand(grid, x) {
      var (r, c) := x;
      assert (r, c) in LandOf(grid);
    }
  }

  lemma InNotWater(grid: seq<seq<char>>, x: Cell)
    ensures x in NotWaterOf(grid) <==> NotWater(grid, x)
  {
    if NotWater(grid, x) {
      var (r, c) := x;
      assert (r, c) in NotWaterOf(grid);
    }
  }

  /** The cells set to true in a boolean matrix. */
  ghost function MarkedOf(a: array2<bool>): set<Cell>
    reads a
  {
    set r, c | 0 <= r < a.Length0 && 0 <= c < a.Length1 && a[r, c] :: (r, c)
  }

  /** `a` is true exactly on the cells of `m`. */
  ghost predicate Tracks(a: array2<bool>, m: set<Cell>)
    reads a
  {
    && (forall r, c {:trigger a[r, c]} :: 0 <= r < a.Length0 && 0 <= c < a.Length1 ==> (a[r, c] <==> (r, c) in m))
    && (forall x :: x in m ==> 0 <= x.0 < a.Length0 && 0 <= x.1 < a.Length1)
  }

  lemma TracksMarked(a: array2<bool>, m: set<Cell>)
    requires Tracks(a, m)
    ensures MarkedOf(a) == m
  {
  }

  lemma MarkedTracked(a: array2<bool>)
    ensures Tracks(a, MarkedOf(a))
  {
  }

  /**
   * The cells `markRegion` sets: if the start was not yet visited, every '1'
   * cell not yet visited that the start reaches stepping only onto such cells.
   * The start itself is not required to be '1'.
   */
  ghost function Region(grid: seq<seq<char>>, v0: set<Cell>, start: Cell): set<Cell>
  {
    set z | z in LandOf(grid) - v0 && start !in v0 && Reachable(Within(LandOf(grid) - v0), start, z)
  }

  /**
   * What a search from `x` leaves behind: it adds only open cells, reached from
   * `x`; it keeps the invariant; if `x` was new it has added `x` when open and
   * every open neighbour of `x`; if `x` was already visited it adds nothing.
   */
  ghost predicate Explored(open: set<Cell>, v0: set<Cell>, x: Cell, done: set<Cell>, active: set<Cell>, done': set<Cell>)
  {
    && done <= done' <= open
    && ClosedExcept(open, done', active)
    && (x in v0 + done ==> done' == done)
    && (x !in v0 + done ==> TriedFirst(open, done', x, 4))
    && (x in open ==> x in done')
    && AddsReachable(open, x, done, done')
  }

  /**
   * The inner `dfs` of `markRegion`. `v0` holds the cells visited before the
   * outer call, `open` the '1' cells outside it, `done` the cells this search
   * has set so far and `active` those whose `dfs` is still running.
   */
  method Explore(grid: seq<seq<char>>, visited: array2<bool>, x: Cell,
                 ghost v0: set<Cell>, ghost open: set<Cell>, ghost done: set<Cell>, ghost active: set<Cell>)
    returns (ghost done': set<Cell>)
    modifies visited
    requires InGrid(grid, x) && visited.Length0 == |grid| && visited.Length1 == |grid[0]|
    requires forall y :: y in open <==> IsLand(grid, y) && y !in v0
    requires done <= open && active <= done
    requires Tracks(visited, v0 + done) && ClosedExcept(open, done, active)
    ensures Tracks(visited, v0 + done') && Explored(open, v0, x, done, active, done')
    decreases |open| - |done|, if IsLand(grid, x) then 0 else 2, 1
  {
    var (row, col) := x;
    if visited[row, col] {
      Already(open, v0, x, done, active);
      return done;
    }
    done' := done;
    ghost var act := active;
    if col < |grid[row]| && grid[row][col] == '1' {
      visited[row, col] := true;
      done' := done + {x};
      act := active + {x};
    }
    Begin(open, x, done, active);
    for d := 0 to 4
      invariant Scanning(open, x, done, active, done', act, d)
      invariant Tracks(visited, v0 + done')
    {
      done' := Neighbour(grid, visited, x, d, v0, open, done, active, done', act);
    }
    End(open, v0, x, done, active, done', act);
  }

  /** One turn of the loop over the four directions in `x`'s search. */
  method Neighbour(grid: seq<seq<char>>, visited: array2<bool>, x: Cell, d: int,
                   ghost v0: set<Cell>, ghost open: set<Cell>, ghost done: set<Cell>, ghost active: set<Cell>,
                   ghost done': set<Cell>, ghost act: set<Cell>)
    returns (ghost after: set<Cell>)
    modifies visited
    requires visited.Length0 == |grid| && |grid| >= 1 && visited.Length1 == |grid[0]| && 0 <= d < 4
    requires forall y :: y in open <==> IsLand(grid, y) && y !in v0
    requires IsLand(grid, x) <==> x in open
    requires Scanning(open, x, done, active, done', act, d) && Tracks(visited, v0 + done')
    ensures Scanning(open, x, done, active, after, act, d + 1) && Tracks(visited, v0 + after)
    decreases |open| - |done|, if IsLand(grid, x) then 0 else 2, 0
  {
    var (r, c) := Nbr(x, d);
    if r < 0 || r >= |grid| {
      Skip(open, x, done, active, done', act, d);
      return done';
    }
    if c < 0 || c >= |grid[0]| {
      Skip(open, x, done, active, done', act, d);
      return done';
    }
    if c < |grid[r]| && grid[r][c] == '1' {
      Measure(open, x, done, active, done', act, d);
      after := Explore(grid, visited, (r, c), v0, open, done', act);
      Called(open, v0, x, done, active, done', after, act, d);
    } else {
      Skip(open, x, done, active, done', act, d);
      after := done';
    }
  }

  lemma Already(open: set<Cell>, v0: set<Cell>, x: Cell, done: set<Cell>, active: set<Cell>)
    requires done <= open && ClosedExcept(open, done, active) && x in v0 + done && open !! v0
    ensures Explored(open, v0, x, done, active, done)
  {
  }

  lemma Begin(open: set<Cell>, x: Cell, done: set<Cell>, active: set<Cell>)
    requires done <= open && active <= done && ClosedExcept(open, done, active) && x !in done
    ensures Scanning(open, x, done, active, if x in open then done + {x} else done,
                     if x in open then active + {x} else active, 0)
  {
    if x in open {
      AddsSelf(open, x, done);
    }
  }

  lemma End(open: set<Cell>, v0: set<Cell>, x: Cell, done: set<Cell>, active: set<Cell>, done': set<Cell>, act: set<Cell>)
    requires Scanning(open, x, done, active, done', act, 4) && x !in v0 + done
    ensures Explored(open, v0, x, done, active, done')
  {
    Finish(open, done', active, x);
  }

  /** The state of `x`'s own search once it has tried `d` of its four neighbours. */
  ghost predicate Scanning(open: set<Cell>, x: Cell, done: set<Cell>, active: set<Cell>,
                           done': set<Cell>, act: set<Cell>, d: int)
  {
    && done <= done' <= open && act <= done'
    && act == (if x in open then active + {x} else active)
    && (x in open ==> x in done' && |done'| >= |done| + 1)
    && ClosedExcept(open, done', act)
    && TriedFirst(open, done', x, d)
    && AddsReachable(open, x, done, done')
  }

  /** What bounds the recursion: the search has added `x` when it is open, and stays inside `open`. */
  lemma Measure(open: set<Cell>, x: Cell, done: set<Cell>, active: set<Cell>, done': set<Cell>, act: set<Cell>, d: int)
    requires Scanning(open, x, done, active, done', act, d)
    ensures |done| + (if x in open then 1 else 0) <= |done'| <= |open|
  {
    SubsetCard(done', open);
    SubsetCard(done, done');
  }

  /** A neighbour outside `open` is passed over. */
  lemma Skip(open: set<Cell>, x: Cell, done: set<Cell>, active: set<Cell>, done': set<Cell>, act: set<Cell>, d: int)
    requires Scanning(open, x, done, active, done', act, d) && 0 <= d < 4 && Nbr(x, d) !in open
    ensures Scanning(open, x, done, active, done', act, d + 1)
  {
  }

  /** After the search of a neighbour. */
  lemma Called(open: set<Cell>, v0: set<Cell>, x: Cell, done: set<Cell>, active: set<Cell>, before: set<Cell>,
               after: set<Cell>, act: set<Cell>, d: int)
    requires Scanning(open, x, done, active, before, act, d) && 0 <= d < 4
    requires Explored(open, v0, Nbr(x, d), before, act, after)
    requires Nbr(x, d) in open || Nbr(x, d) in v0
    ensures Scanning(open, x, done, active, after, act, d + 1)
  {
    SubsetCard(before, after);
    if Nbr(x, d) in open {
      AddsThrough(open, x, d, done, before, after);
    }
  }

  /**
   * `markRegion`: afterwards `visited` holds what it held before together with
   * the region of the start cell.
   */
  method MarkRegion(grid: seq<seq<char>>, row: int, col: int, visited: array2<bool>)
    modifies visited
    requires InGrid(grid, (row, col)) && visited.Length0 == |grid| && visited.Length1 == |grid[0]|
    ensures MarkedOf(visited) == old(MarkedOf(visited)) + Region(grid, old(MarkedOf(visited)), (row, col))
  {
    ghost var v0 := MarkedOf(visited);
    ghost var open := LandOf(grid) - v0;
    MarkedTracked(visited);
    forall y ensures y in open <==> IsLand(grid, y) && y !in v0 {
      InLand(grid, y);
    }
    ghost var done := Explore(grid, visited, (row, col), v0, open, {}, {});
    TracksMarked(visited, v0 + done);
    RegionIs(grid, v0, (row, col), done);
  }

  lemma RegionIs(grid: seq<seq<char>>, v0: set<Cell>, start: Cell, done: set<Cell>)
    requires Explored(LandOf(grid) - v0, v0, start, {}, {}, done)
    ensures done == Region(grid, v0, start)
  {
    var open := LandOf(grid) - v0;
    if start !in v0 {
      ClosedWhenIdle(open, done, {start});
      forall z | z in open && Reachable(Within(open), start, z) ensures z in done {
        ClosedHoldsReachable(Within(open), done + {start}, start, z);
      }
    }
  }

  /**
   * `markRegion` with the start checked first: a start that is not '1' marks
   * nothing, as the exercise's own example expects of a wall.
   */
  method MarkRegionFromLand(grid: seq<seq<char>>, row: int, col: int, visited: array2<bool>)
    modifies visited
    requires InGrid(grid, (row, col)) && visited.Length0 == |grid| && visited.Length1 == |grid[0]|
    ensures MarkedOf(visited) == old(MarkedOf(visited)) +
      (if IsLand(grid, (row, col)) then Region(grid, old(MarkedOf(visited)), (row, col)) else {})
  {
    if !(col < |grid[row]| && grid[row][col] == '1') {
      return;
    }
    MarkRegion(grid, row, col, visited);
  }

  /** From an unvisited '1' start, the region holds the start and only '1' cells outside `v0`. */
  lemma RegionFromLand(grid: seq<seq<char>>, v0: set<Cell>, start: Cell)
    requires IsLand(grid, start) && start !in v0
    ensures start in Region(grid, v0, start)
    ensures forall z :: z in Region(grid, v0, start) ==> IsLand(grid, z) && z !in v0
  {
    InLand(grid, start);
    ReachRefl(Within(LandOf(grid) - v0), start);
    forall z | z in Region(grid, v0, start) ensures IsLand(grid, z) {
      InLand(grid, z);
    }
  }

  /** The grid of the `markRegion` example. */
  function ExampleGrid(): seq<seq<char>>
  {
    [['1', '1', '0'], ['0', '1', '0'], ['0', '0', '0']]
  }

  /**
   * Started on the wall at (0, 2) with nothing visited, `markRegion` still
   * marks the '1' cell beside it, (0, 1).
   */
  lemma WallStartReaches()
    ensures (0, 1) in Region(ExampleGrid(), {}, (0, 2))
  {
    var g := ExampleGrid();
    var open := LandOf(g) - {};
    InLand(g, (0, 1));
    assert Nbr((0, 2), 3) == (0, 1);
    StepTo(open, (0, 2), 3);
    ReachRefl(Within(open), (0, 2));
    ReachStep(Within(open), (0, 2), (0, 2), (0, 1));
  }

  // ----- countIslands -----

  /**
   * What the search of `countIslands` from `x` leaves behind: nothing new when
   * `x` is outside `open` or already set; otherwise `x` and only cells it
   * reaches, with the invariant kept.
   */
  ghost predicate Filled(open: set<Cell>, x: Cell, done: set<Cell>, active: set<Cell>, done': set<Cell>)
  {
    && done <= done' <= open
    && ClosedExcept(open, done', active)
    && (x !in open || x in done ==> done' == done)
    && (x in open ==> x in done')
    && AddsReachable(open, x, done, done')
  }

  /**
   * The inner `dfs` of `countIslands`. `open` holds the cells that are not '0',
   * `done` the cells set in `marked` so far and `active` those whose `dfs` is
   * still running.
   */
  method Fill(grid: seq<seq<char>>, marked: array2<bool>, x: Cell,
              ghost open: set<Cell>, ghost done: set<Cell>, ghost active: set<Cell>)
    returns (ghost done': set<Cell>)
    modifies marked
    requires marked.Length0 == |grid| && (|grid| > 0 ==> marked.Length1 == |grid[0]|)
    requires forall y :: y in open <==> NotWater(grid, y)
    requires done <= open && active <= done
    requires Tracks(marked, done) && ClosedExcept(open, done, active)
    ensures Tracks(marked, done') && Filled(open, x, done, active, done')
    decreases |open| - |done|
  {
    var (row, col) := x;
    if row < 0 || row >= |grid| {
      Unfilled(open, x, done, active);
      return done;
    }
    if col < 0 || col >= |grid[0]| {
      Unfilled(open, x, done, active);
      return done;
    }
    if col < |grid[row]| && grid[row][col] == '0' {
      Unfilled(open, x, done, active);
      return done;
    }
    if marked[row, col] {
      Unfilled(open, x, done, active);
      return done;
    }
    marked[row, col] := true;
    done' := done + {x};
    ghost var act := active + {x};
    Begin(open, x, done, active);
    for d := 0 to 4
      invariant Scanning(open, x, done, active, done', act, d)
      invariant Tracks(marked, done')
    {
      ghost var before := done';
      Measure(open, x, done, active, done', act, d);
      done' := Fill(grid, marked, Nbr(x, d), open, done', act);
      FilledNext(open, x, done, active, before, done', act, d);
    }
    FilledAll(open, x, done, active, done', act);
  }

  lemma Unfilled(open: set<Cell>, x: Cell, done: set<Cell>, active: set<Cell>)
    requires done <= open && ClosedExcept(open, done, active) && (x !in open || x in done)
    ensures Filled(open, x, done, active, done)
  {
  }

  /** After the search of the neighbour in direction `d`. */
  lemma FilledNext(open: set<Cell>, x: Cell, done: set<Cell>, active: set<Cell>, before: set<Cell>,
                   after: set<Cell>, act: set<Cell>, d: int)
    requires Scanning(open, x, done, active, before, act, d) && 0 <= d < 4
    requires Filled(open, Nbr(x, d), before, act, after)
    ensures Scanning(open, x, done, active, after, act, d + 1)
  {
    SubsetCard(before, after);
    if Nbr(x, d) in open {
      AddsThrough(open, x, d, done, before, after);
    }
  }

  lemma FilledAll(open: set<Cell>, x: Cell, done: set<Cell>, active: set<Cell>, done': set<Cell>, act: set<Cell>)
    requires Scanning(open, x, done, active, done', act, 4) && x in open && x !in done
    ensures Filled(open, x, done, active, done')
  {
    Finish(open, done', active, x);
  }

  /** What a search from an unset cell of `open` adds: exactly what it reaches. */
  lemma FilledReach(open: set<Cell>, x: Cell, done: set<Cell>, done': set<Cell>)
    requires Filled(open, x, done, {}, done') && x in open && ClosedExcept(open, done, {})
    ensures forall z :: z in done' <==> z in done || Reachable(Within(open), x, z)
  {
    ClosedWhenIdle(open, done', {});
    forall z | Reachable(Within(open), x, z) ensures z in done' {
      ClosedHoldsReachable(Within(open), done', x, z);
    }
  }

  /**
   * The state of the scan of `countIslands` at cell `p`: `marked` holds exactly
   * the cells the starts before `p` reach, and `islands` counts the leaders before `p`.
   */
  ghost predicate Scanned(open: set<Cell>, starts: set<Cell>, p: Cell, done: set<Cell>, islands: int)
  {
    && done <= open
    && ClosedExcept(open, done, {})
    && (forall z :: z in done <==> ReachedBefore(open, starts, p, z))
    && islands == |LeadersBefore(open, starts, p)|
  }

  /** The land cells lie inside the grid. */
  lemma LandInside(grid: seq<seq<char>>)
    ensures forall y :: y in LandOf(grid) ==> 0 <= y.0 < |grid| && 0 <= y.1 < |grid[0]|
  {
    forall y | y in LandOf(grid) ensures 0 <= y.0 < |grid| && 0 <= y.1 < |grid[0]| {
      InLand(grid, y);
    }
  }

  lemma NotWaterIs(grid: seq<seq<char>>)
    ensures forall y :: y in NotWaterOf(grid) <==> NotWater(grid, y)
  {
    forall y ensures y in NotWaterOf(grid) <==> NotWater(grid, y) {
      InNotWater(grid, y);
    }
  }

  lemma ScanFirst(open: set<Cell>, starts: set<Cell>)
    requires forall y :: y in starts ==> 0 <= y.0 && 0 <= y.1
    ensures Scanned(open, starts, (0, 0), {}, 0)
  {
    assert LeadersBefore(open, starts, (0, 0)) == {};
  }

  /** An unmarked '1' opens a new island, which its search then marks. */
  lemma ScanLeader(open: set<Cell>, starts: set<Cell>, row: int, col: int, done: set<Cell>, done': set<Cell>, islands: int)
    requires Scanned(open, starts, (row, col), done, islands)
    requires (row, col) in starts && (row, col) in open && (row, col) !in done
    requires Filled(open, (row, col), done, {}, done')
    ensures Scanned(open, starts, (row, col + 1), done', islands + 1)
  {
    var p := (row, col);
    ScanStep(open, starts, row, col);
    FilledReach(open, p, done, done');
  }

  /** A cell that is not '1', or is marked, changes nothing. */
  lemma ScanPast(open: set<Cell>, starts: set<Cell>, row: int, col: int, done: set<Cell>, islands: int)
    requires Scanned(open, starts, (row, col), done, islands) && ((row, col) !in starts || (row, col) in done)
    ensures Scanned(open, starts, (row, col + 1), done, islands)
  {
    var p := (row, col);
    ScanStep(open, starts, row, col);
    if p in done {
      ClosedWhenIdle(open, done, {});
      forall z | Reachable(Within(open), p, z) ensures z in done {
        ClosedHoldsReachable(Within(open), done, p, z);
      }
    }
  }

  lemma ScanRow(open: set<Cell>, starts: set<Cell>, row: int, width: int, done: set<Cell>, islands: int)
    requires forall y :: y in starts ==> 0 <= y.1 < width
    requires Scanned(open, starts, (row, width), done, islands)
    ensures Scanned(open, starts, (row + 1, 0), done, islands)
  {
    NextRow(open, starts, row, width);
  }

  /** One cell of the scan of `countIslands`: an unmarked '1' is counted and searched from. */
  method Visit(grid: seq<seq<char>>, marked: array2<bool>, row: int, col: int,
               ghost open: set<Cell>, ghost starts: set<Cell>, ghost done: set<Cell>, islands: int)
    returns (islands': int, ghost done': set<Cell>)
    modifies marked
    requires 0 <= row < |grid| && 0 <= col < |grid[0]|
    requires marked.Length0 == |grid| && marked.Length1 == |grid[0]|
    requires open == NotWaterOf(grid) && starts == LandOf(grid)
    requires Scanned(open, starts, (row, col), done, islands) && Tracks(marked, done)
    ensures Scanned(open, starts, (row, col + 1), done', islands') && Tracks(marked, done')
  {
    InLand(grid, (row, col));
    if col < |grid[row]| && grid[row][col] == '1' && !marked[row, col] {
      islands' := islands + 1;
      NotWaterIs(grid);
      InNotWater(grid, (row, col));
      done' := Fill(grid, marked, (row, col), open, done, {});
      ScanLeader(open, starts, row, col, done, done', islands);
    } else {
      islands', done' := islands, done;
      ScanPast(open, starts, row, col, done, islands);
    }
  }

  /**
   * `countIslands`: the number of islands, where an island is a set of '1'
   * cells joined through cells that are not '0'.
   */
  method CountIslands(grid: seq<seq<char>>) returns (islands: int)
    ensures islands == |Islands(NotWaterOf(grid), LandOf(grid))|
  {
    var height := |grid|;
    var width := if height == 0 then 0 else |grid[0]|;
    var marked := new bool[height, width]((_, _) => false);
    islands := 0;
    ghost var open := NotWaterOf(grid);
    ghost var starts := LandOf(grid);
    ghost var done: set<Cell> := {};
    LandInside(grid);
    ScanFirst(open, starts);
    var row := 0;
    while row < height
      invariant 0 <= row <= height
      invariant Scanned(open, starts, (row, 0), done, islands) && Tracks(marked, done)
    {
      var col := 0;
      while col < width
        invariant 0 <= col <= width
        invariant Scanned(open, starts, (row, col), done, islands) && Tracks(marked, done)
      {
        islands, done := Visit(grid, marked, row, col, open, starts, done, islands);
        col := col + 1;
      }
      ScanRow(open, starts, row, width, done, islands);
      row := row + 1;
    }
    ScanDone(open, starts, height);
  }

  // ----- the countIslands examples -----

  /** A '1' / not-'0' cell set given cell by cell is the comprehension. */
  lemma CellsAre(grid: seq<seq<char>>, land: set<Cell>, notWater: set<Cell>)
    requires forall y :: IsLand(grid, y) <==> y in land
    requires forall y :: NotWater(grid, y) <==> y in notWater
    ensures LandOf(grid) == land && NotWaterOf(grid) == notWater
  {
    forall y ensures y in LandOf(grid) <==> y in land {
      InLand(grid, y);
    }
    forall y ensures y in NotWaterOf(grid) <==> y in notWater {
      InNotWater(grid, y);
    }
  }

  function WaterGrid(): seq<seq<char>>
  {
    [['0', '0'], ['0', '0']]
  }

  lemma WaterIslands()
    ensures |Islands(NotWaterOf(WaterGrid()), LandOf(WaterGrid()))| == 0
  {
    var g := WaterGrid();
    forall y ensures !IsLand(g, y) && !NotWater(g, y) {
      if InGrid(g, y) {
        assert y.0 == 0 || y.0 == 1;
        assert y.1 == 0 || y.1 == 1;
      }
    }
    CellsAre(g, {}, {});
  }

  function BlockGrid(): seq<seq<char>>
  {
    [['1', '1'], ['1', '1']]
  }

  lemma BlockIslands()
    ensures |Islands(NotWaterOf(BlockGrid()), LandOf(BlockGrid()))| == 1
  {
    var g := BlockGrid();
    var cells := {(0, 0), (0, 1), (1, 0), (1, 1)};
    forall y ensures (IsLand(g, y) <==> y in cells) && (NotWater(g, y) <==> y in cells) {
      BlockCell(y);
    }
    CellsAre(g, cells, cells);
    var succ := Within(cells);
    assert Nbr((0, 0), 2) == (0, 1) && Nbr((0, 0), 0) == (1, 0) && Nbr((1, 0), 2) == (1, 1);
    StepTo(cells, (0, 0), 2);
    StepTo(cells, (0, 0), 0);
    StepTo(cells, (1, 0), 2);
    ReachRefl(succ, (0, 0));
    ReachStep(succ, (0, 0), (0, 0), (0, 1));
    ReachStep(succ, (0, 0), (0, 0), (1, 0));
    ReachStep(succ, (0, 0), (1, 0), (1, 1));
    SingleIsland(cells, cells, (0, 0));
  }

  lemma BlockCell(y: Cell)
    ensures IsLand(BlockGrid(), y) <==> y in {(0, 0), (0, 1), (1, 0), (1, 1)}
    ensures NotWater(BlockGrid(), y) <==> y in {(0, 0), (0, 1), (1, 0), (1, 1)}
  {
    if InGrid(BlockGrid(), y) {
      assert y.0 == 0 || y.0 == 1;
      assert y.1 == 0 || y.1 == 1;
    }
  }

  function TwoGrid(): seq<seq<char>>
  {
    [['1', '1', '0', '0'], ['1', '0', '0', '1'], ['0', '0', '0', '1']]
  }

  function TwoCells(): set<Cell>
  {
    {(0, 0), (0, 1), (1, 0), (1, 3), (2, 3)}
  }

  lemma TwoCell(y: Cell)
    ensures IsLand(TwoGrid(), y) <==> y in TwoCells()
    ensures NotWater(TwoGrid(), y) <==> y in TwoCells()
  {
    if InGrid(TwoGrid(), y) {
      assert y.0 == 0 || y.0 == 1 || y.0 == 2;
      assert y.1 == 0 || y.1 == 1 || y.1 == 2 || y.1 == 3;
    }
  }

  /** The top-left island does not reach the right-hand one. */
  lemma TopLeftClosed()
    ensures Closed(Within(TwoCells()), {(0, 0), (0, 1), (1, 0)})
  {
    var top := {(0, 0), (0, 1), (1, 0)};
    forall x, i | x in top && 0 <= i < |Within(TwoCells())(x)| ensures Within(TwoCells())(x)[i] in top {
      MovesAre(TwoCells(), x, Within(TwoCells())(x)[i]);
    }
  }

  /** No cell of the top-left island comes before (1, 3) and reaches it. */
  lemma RightLeader()
    ensures Leader(TwoCells(), TwoCells(), (1, 3))
  {
    var top := {(0, 0), (0, 1), (1, 0)};
    if ReachedBefore(TwoCells(), TwoCells(), (1, 3), (1, 3)) {
      var y :| y in TwoCells() && Before(y, (1, 3)) && Reachable(Within(TwoCells()), y, (1, 3));
      assert y in top;
      TopLeftClosed();
      ClosedHoldsReachable(Within(TwoCells()), top, y, (1, 3));
      assert false;
    }
  }

  /** The other three land cells each have an earlier cell reaching them. */
  lemma Followers()
    ensures ReachedBefore(TwoCells(), TwoCells(), (0, 1), (0, 1))
    ensures ReachedBefore(TwoCells(), TwoCells(), (1, 0), (1, 0))
    ensures ReachedBefore(TwoCells(), TwoCells(), (2, 3), (2, 3))
  {
    var cells := TwoCells();
    var succ := Within(cells);
    assert Nbr((0, 0), 2) == (0, 1) && Nbr((0, 0), 0) == (1, 0) && Nbr((1, 3), 0) == (2, 3);
    StepTo(cells, (0, 0), 2);
    StepTo(cells, (0, 0), 0);
    StepTo(cells, (1, 3), 0);
    ReachRefl(succ, (0, 0));
    ReachRefl(succ, (1, 3));
    ReachStep(succ, (0, 0), (0, 0), (0, 1));
    ReachStep(succ, (0, 0), (0, 0), (1, 0));
    ReachStep(succ, (1, 3), (1, 3), (2, 3));
    assert Before((0, 0), (0, 1)) && Before((0, 0), (1, 0)) && Before((1, 3), (2, 3));
  }

  lemma TwoIslands()
    ensures |Islands(NotWaterOf(TwoGrid()), LandOf(TwoGrid()))| == 2
  {
    var cells := TwoCells();
    forall y ensures (IsLand(TwoGrid(), y) <==> y in cells) && (NotWater(TwoGrid(), y) <==> y in cells) {
      TwoCell(y);
    }
    CellsAre(TwoGrid(), cells, cells);
    TwoLeaders();
  }

  lemma TwoLeaders()
    ensures Islands(TwoCells(), TwoCells()) == {(0, 0), (1, 3)}
  {
    var cells := TwoCells();
    RightLeader();
    Followers();
    assert Leader(cells, cells, (0, 0));
    IslandsAre(cells, cells, {(0, 0), (1, 3)}, {(0, 1), (1, 0), (2, 3)});
  }

  function SingleLand(): seq<seq<char>>
  {
    [['1']]
  }

  lemma SingleLandIslands()
    ensures |Islands(NotWaterOf(SingleLand()), LandOf(SingleLand()))| == 1
  {
    forall y ensures (IsLand(SingleLand(), y) <==> y == (0, 0)) && (NotWater(SingleLand(), y) <==> y == (0, 0)) {
    }
    CellsAre(SingleLand(), {(0, 0)}, {(0, 0)});
    SingleIsland({(0, 0)}, {(0, 0)}, (0, 0));
  }

  function SingleWater(): seq<seq<char>>
  {
    [['0']]
  }

  lemma SingleWaterIslands()
    ensures |Islands(NotWaterOf(SingleWater()), LandOf(SingleWater()))| == 0
  {
    CellsAre(SingleWater(), {}, {});
  }

  function DiagonalGrid(): seq<seq<char>>
  {
    [['1', '0', '1'], ['0', '1', '0'], ['1', '0', '1']]
  }

  lemma DiagonalIslands()
    ensures |Islands(NotWaterOf(DiagonalGrid()), LandOf(DiagonalGrid()))| == 5
  {
    var g := DiagonalGrid();
    var cells := DiagonalCells();
    forall y ensures (IsLand(g, y) <==> y in cells) && (NotWater(g, y) <==> y in cells) {
      DiagonalCell(y);
    }
    CellsAre(g, cells, cells);
    forall y, d | y in cells && 0 <= d < 4 ensures Nbr(y, d) !in cells {
    }
    IsolatedIslands(cells, cells);
    DiagonalCount();
  }

  lemma DiagonalCount()
    ensures |DiagonalCells()| == 5
  {
    var a := {(0, 0), (0, 2)};
    var b := a + {(1, 1)};
    var c := b + {(2, 0)};
    assert |a| == 2 && |b| == 3 && |c| == 4;
    assert DiagonalCells() == c + {(2, 2)};
  }

  function DiagonalCells(): set<Cell>
  {
    {(0, 0), (0, 2), (1, 1), (2, 0), (2, 2)}
  }

  lemma DiagonalCell(y: Cell)
    ensures IsLand(DiagonalGrid(), y) <==> y in DiagonalCells()
    ensures NotWater(DiagonalGrid(), y) <==> y in DiagonalCells()
  {
    if InGrid(DiagonalGrid(), y) {
      assert y.0 == 0 || y.0 == 1 || y.0 == 2;
      assert y.1 == 0 || y.1 == 1 || y.1 == 2;
    }
  }
}
