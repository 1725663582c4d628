/** Index pairs whose entries add up to a target: the vocabulary of both two-sum exercises. */
module PairSums {
  /** `[i, j]` names two distinct positions, in order, whose entries sum to `target`. */
  ghost predicate IsPair(nums: seq<int>, target: int, r: seq<int>)
  {
    |r| == 2 && 0 <= r[0] < r[1] < |nums| && nums[r[0]] + nums[r[1]] == target
  }

  /** No two positions below `j` sum to `target`. */
  ghost predicate NoPairBelow(nums: seq<int>, target: int, j: int)
  {
    forall a, b :: 0 <= a < b < j && b < |nums| ==> nums[a] + nums[b] != target
  }
}
