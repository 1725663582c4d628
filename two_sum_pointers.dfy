/**
 * Two-sum on an ascending array with two indices closing in from both ends:
 * a sum that is too large moves the right index left, one too small moves the
 * left index right.
 */
module TwoSumPointers {
  import opened PairSums
  import opened Sequences

  /** Every pair summing to `target` lies within `i..j`. */
  ghost predicate Bracketed(arr: seq<int>, target: int, i: int, j: int)
  {
    forall a, b :: 0 <= a < b < |arr| && arr[a] + arr[b] == target ==> i <= a && b <= j
  }

  /**
   * `twosum`. A result `[i, j]` always has `i < j` and sums to the target; on
   * an ascending array `[]` comes back only when no pair sums to it.
   */
  method TwoSum(arr: seq<int>, target: int) returns (r: seq<int>)
    ensures r == [] || IsPair(arr, target, r)
    ensures Ascending(arr) && r == [] ==> NoPairBelow(arr, target, |arr|)
  {
    var i := 0;
    var j := |arr| - 1;
    while i < j
      invariant 0 <= i && j < |arr|
      invariant Ascending(arr) ==> Bracketed(arr, target, i, j)
      decreases j - i
    {
      var sum := arr[i] + arr[j];
      if sum == target {
        return [i, j];
      } else if sum > target {
        j := j - 1;
      } else {
        i := i + 1;
      }
    }
    return [];
  }

  /** The call in the source: in [2, 3, 4, 5, 8, 11, 18] only 3 and 5 make 8. */
  method Example() returns (r: seq<int>)
    ensures r == [1, 3]
  {
    var arr := [2, 3, 4, 5, 8, 11, 18];
    assert Ascending(arr);
    assert arr[1] + arr[3] == 8;
    r := TwoSum(arr, 8);
    assert r == [r[0], r[1]];
  }
}
