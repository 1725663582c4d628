/**
 * Two-sum with a hash map: each number is looked up as the difference the
 * current one needs, before it is stored under its own value with its index.
 */
module TwoSumHash {
  import opened PairSums

  /**
   * The map after the first `i` numbers: every number seen so far is a key, and
   * a key's index is the last position holding it, since later `set`s overwrite.
   */
  ghost predicate Indexed(nums: seq<int>, i: int, numberMap: map<int, int>)
    requires 0 <= i <= |nums|
  {
    && (forall x :: x in numberMap <==> x in nums[..i])
    && (forall x :: x in numberMap ==> 0 <= numberMap[x] < i && nums[numberMap[x]] == x)
    && (forall x, k :: x in numberMap && numberMap[x] < k < i ==> nums[k] != x)
  }

  /**
   * `twoSum`. A result `[i, j]` sums to the target with `i < j`; `j` is the
   * first position that has a partner before it and `i` the last such partner.
   * No position is paired with itself. `[]` means no pair exists.
   */
  method TwoSum(nums: seq<int>, target: int) returns (r: seq<int>)
    ensures r == [] || IsPair(nums, target, r)
    ensures r == [] <==> NoPairBelow(nums, target, |nums|)
    ensures r != [] ==> NoPairBelow(nums, target, r[1])
    ensures r != [] ==> forall k :: r[0] < k < r[1] ==> nums[k] + nums[r[1]] != target
  {
    var numberMap: map<int, int> := map[];
    for i := 0 to |nums|
      invariant Indexed(nums, i, numberMap)
      invariant NoPairBelow(nums, target, i)
    {
      var number := nums[i];
      var difference := target - number;
      if difference in numberMap {
        return [numberMap[difference], i];
      }
      Extend(nums, target, i, numberMap);
      numberMap := numberMap[number := i];
      assert nums[..i + 1] == nums[..i] + [number];
    }
    return [];
  }

  /** A position whose difference was never seen adds no pair. */
  lemma Extend(nums: seq<int>, target: int, i: int, numberMap: map<int, int>)
    requires 0 <= i < |nums| && Indexed(nums, i, numberMap)
    requires NoPairBelow(nums, target, i) && target - nums[i] !in numberMap
    ensures NoPairBelow(nums, target, i + 1)
  {
    forall a | 0 <= a < i ensures nums[a] + nums[i] != target {
      assert nums[..i][a] == nums[a];
    }
  }

  /** The calls in the source: [3, 2, 4] with 6, [2, 7, 11, 15] with 9 and [3, 3] with 6. */
  method Examples() returns (r1: seq<int>, r2: seq<int>, r3: seq<int>)
    ensures r1 == [1, 2] && r2 == [0, 1] && r3 == [0, 1]
  {
    var a, b, c := [3, 2, 4], [2, 7, 11, 15], [3, 3];
    assert a[1] + a[2] == 6 && b[0] + b[1] == 9 && c[0] + c[1] == 6;
    r1 := TwoSum(a, 6);
    assert r1 == [r1[0], r1[1]];
    r2 := TwoSum(b, 9);
    assert r2 == [r2[0], r2[1]];
    r3 := TwoSum(c, 6);
    assert r3 == [r3[0], r3[1]];
  }
}
