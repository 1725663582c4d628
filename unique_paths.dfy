/**
 * Unique grid paths: the number of ways from the top-left to the
 * bottom-right cell of an n-by-m grid moving only right or down, filled into
 * a dynamic-programming table row by row.
 */
module UniquePaths {
  /**
   * The number of paths to the cell `i` rows down and `j` columns across:
   * one along the first row or column, otherwise the paths arriving from
   * above plus those arriving from the left.
   */
  function Paths(i: nat, j: nat): nat
  {
    if i == 0 || j == 0 then 1 else Paths(i - 1, j) + Paths(i, j - 1)
  }

  function Fact(n: nat): (r: nat)
    ensures r >= 1
  {
    if n == 0 then 1 else n * Fact(n - 1)
  }

  /**
   * The step of the closed form's induction, on plain numbers: with
   * `fi == i * fi'` and `fj == j * fj'`, the counts from above and from the
   * left scaled by `fi * fj` add up to `(i + j) * f`.
   */
  lemma Combine(up: int, left: int, i: int, j: int, fi': int, fj': int, f: int)
    requires up * fi' * (j * fj') == f && left * (i * fi') * fj' == f
    ensures (up + left) * (i * fi') * (j * fj') == (i + j) * f
  {
    assert up * (i * fi') * (j * fj') == i * (up * fi' * (j * fj'));
    assert left * (i * fi') * (j * fj') == j * (left * (i * fi') * fj');
  }

  /**
   * The closed form: `Paths(i, j) * i! * j! == (i + j)!`, that is
   * `Paths(i, j)` is the binomial coefficient C(i + j, i).
   */
  lemma {:induction false} PathsBinomial(i: nat, j: nat)
    ensures Paths(i, j) * Fact(i) * Fact(j) == Fact(i + j)
    decreases i + j
  {
    if i > 0 && j > 0 {
      PathsBinomial(i - 1, j);
      PathsBinomial(i, j - 1);
      Combine(Paths(i - 1, j), Paths(i, j - 1), i, j, Fact(i - 1), Fact(j - 1), Fact(i + j - 1));
    }
  }

  /** Swapping rows and columns does not change the count. */
  lemma {:induction false} PathsSymmetric(i: nat, j: nat)
    ensures Paths(i, j) == Paths(j, i)
    decreases i + j
  {
    if i > 0 && j > 0 {
      PathsSymmetric(i - 1, j);
      PathsSymmetric(i, j - 1);
    }
  }

  /** Row `r` below `rows` of the table holds `Paths(r, c)` in every column. */
  ghost predicate Filled(dp: array2<int>, rows: int)
    reads dp
  {
    forall r, c {:trigger dp[r, c]} :: 0 <= r < rows && r < dp.Length0 && 0 <= c < dp.Length1 ==> dp[r, c] == Paths(r, c)
  }

  /** Every row of the table starts with a 1. */
  ghost predicate FirstColumn(dp: array2<int>)
    reads dp
  {
    dp.Length1 > 0 && forall r :: 0 <= r < dp.Length0 ==> dp[r, 0] == 1
  }

  /** The inner loop: fills row `i` left to right from the row above and the cell to the left. */
  method FillRow(dp: array2<int>, i: int)
    modifies dp
    requires 1 <= i < dp.Length0
    requires Filled(dp, i) && FirstColumn(dp)
    ensures Filled(dp, i + 1) && FirstColumn(dp)
    ensures forall r, c :: 0 <= r < dp.Length0 && r != i && 0 <= c < dp.Length1 ==> dp[r, c] == old(dp[r, c])
  {
    for j := 1 to dp.Length1
      invariant FirstColumn(dp) && Filled(dp, i)
      invariant forall c {:trigger dp[i, c]} :: 0 <= c < j ==> dp[i, c] == Paths(i, c)
      invariant forall r, c :: 0 <= r < dp.Length0 && r != i && 0 <= c < dp.Length1 ==> dp[r, c] == old(dp[r, c])
    {
      var fromAbove, fromLeft := dp[i - 1, j], dp[i, j - 1];
      assert fromAbove + fromLeft == Paths(i, j);
      dp[i, j] := fromAbove + fromLeft;
    }
  }

  /**
   * `uniquePaths(n, m)` for `n, m >= 1`: the table's last cell, which is
   * the number of right-and-down paths across the grid.
   */
  method Count(n: int, m: int) returns (paths: int)
    requires n >= 1 && m >= 1
    ensures paths == Paths(n - 1, m - 1)
  {
    var dp := new int[n, m]((_, _) => 0);
    for i := 0 to n
      invariant forall r :: 0 <= r < i ==> dp[r, 0] == 1
    {
      dp[i, 0] := 1;
    }
    for j := 0 to m
      invariant FirstColumn(dp)
      invariant forall c :: 0 <= c < j ==> dp[0, c] == 1
    {
      dp[0, j] := 1;
    }
    for i := 1 to n
      invariant FirstColumn(dp) && Filled(dp, i)
    {
      FillRow(dp, i);
    }
    paths := dp[n - 1, m - 1];
  }

  /** `uniquePaths(n, m)` is C(n + m - 2, n - 1): `paths * (n-1)! * (m-1)! == (n+m-2)!`. */
  method CountIsBinomial(n: int, m: int) returns (paths: int)
    requires n >= 1 && m >= 1
    ensures paths * Fact(n - 1) * Fact(m - 1) == Fact(n + m - 2)
  {
    paths := Count(n, m);
    PathsBinomial(n - 1, m - 1);
  }

  /** A single row or a single column has exactly one path. */
  lemma SingleLine(k: nat)
    ensures Paths(0, k) == 1 && Paths(k, 0) == 1
  {
  }

  /** The source's small cases: 2x2, 3x3 and 3x4. */
  lemma SmallSamples()
    ensures Paths(1, 1) == 2 && Paths(2, 2) == 6 && Paths(2, 3) == 10
  {
    PathsBinomial(1, 1);
    PathsBinomial(2, 2);
    PathsBinomial(2, 3);
  }

  /** 3x7 and its mirror 7x3 both have 28 paths. */
  lemma MirrorSample()
    ensures Paths(2, 6) == 28 && Paths(6, 2) == 28
  {
    PathsBinomial(2, 6);
    PathsSymmetric(2, 6);
  }

  /** 4x4, 5x5 and 6x4. */
  lemma SquareSamples()
    ensures Paths(3, 3) == 20 && Paths(4, 4) == 70 && Paths(5, 3) == 56
  {
    PathsBinomial(3, 3);
    PathsBinomial(4, 4);
    PathsBinomial(5, 3);
  }
}
