/**
 * `maximumSubarraySum`: the largest sum of a length-`k` window of `nums`
 * whose values are all different, found with one sliding window that keeps
 * its running sum and a count per value.
 */
module DistinctWindowSum {
  import opened Sequences

  /** The sum of a sequence, added from the front. */
  function Sum(xs: seq<int>): int
  {
    if xs == [] then 0 else xs[0] + Sum(xs[1..])
  }

  /** Appending a value adds it to the sum. */
  lemma {:induction false} SumPush(xs: seq<int>, x: int)
    ensures Sum(xs + [x]) == Sum(xs) + x
  {
    if xs != [] {
      assert (xs + [x])[1..] == xs[1..] + [x];
      SumPush(xs[1..], x);
    }
  }

  /** The window of length `k` starting at `i` fits in `nums` and repeats no value. */
  ghost predicate Qualifies(nums: seq<int>, k: int, i: int)
  {
    1 <= k && 0 <= i && i + k <= |nums| && Distinct(nums[i..i + k])
  }

  /** The sum of the window of length `k` starting at `i`. */
  ghost function WindowSum(nums: seq<int>, k: int, i: int): int
    requires 0 <= i && 0 <= k && i + k <= |nums|
  {
    Sum(nums[i..i + k])
  }

  /**
   * `m` is the answer once the windows starting before `limit` are
   * considered: at least 0, at least every qualifying window's sum, and
   * either 0 or the sum of one of them.
   */
  ghost predicate BestBelow(nums: seq<int>, k: int, limit: int, m: int)
  {
    && m >= 0
    && (forall i :: 0 <= i < limit && Qualifies(nums, k, i) ==> WindowSum(nums, k, i) <= m)
    && (m == 0 || exists i :: 0 <= i < limit && Qualifies(nums, k, i) && WindowSum(nums, k, i) == m)
  }

  /** `m` is the largest sum of a repeat-free length-`k` window, or 0 when there is none larger. */
  ghost predicate IsBest(nums: seq<int>, k: int, m: int)
  {
    BestBelow(nums, k, |nums|, m)
  }

  /**
   * The loop state before position `end`: the window `nums[start..end]` is
   * shorter than `k` (or, when `k` is below 1, never shrinks), its sum is
   * `windowSum`, `frequency` counts it, and `max` accounts for every window
   * that starts before `start`.
   */
  ghost predicate Sliding(nums: seq<int>, k: int, end: int, start: int, windowSum: int,
                          frequency: map<int, int>, max: int)
  {
    && 0 <= start <= end <= |nums|
    && (if k >= 1 then end - start < k else start == 0)
    && windowSum == Sum(nums[start..end])
    && Tally(frequency, nums[start..end])
    && BestBelow(nums, k, start, max)
  }

  /** Taking in `nums[end]`. */
  lemma Grow(nums: seq<int>, k: int, end: int, start: int, windowSum: int, frequency: map<int, int>, max: int)
    requires end < |nums| && Sliding(nums, k, end, start, windowSum, frequency, max)
    ensures windowSum + nums[end] == Sum(nums[start..end + 1])
    ensures Tally(frequency[nums[end] := if nums[end] in frequency then frequency[nums[end]] + 1 else 1],
                  nums[start..end + 1])
  {
    assert nums[start..end + 1] == nums[start..end] + [nums[end]];
    SumPush(nums[start..end], nums[end]);
    TallyPush(frequency, nums[start..end], nums[end]);
  }

  /** A full window qualifies exactly when the tally of its values has `k` keys. */
  lemma Qualify(nums: seq<int>, k: int, start: int, frequency: map<int, int>)
    requires 1 <= k && 0 <= start && start + k <= |nums| && Tally(frequency, nums[start..start + k])
    ensures |frequency| == k <==> Qualifies(nums, k, start)
  {
    TallySize(frequency, nums[start..start + k]);
  }

  /** Taking the full window's sum into the running maximum when it qualifies. */
  lemma Consider(nums: seq<int>, k: int, start: int, windowSum: int, max: int, max': int)
    requires 1 <= k && 0 <= start && start + k <= |nums| && windowSum == WindowSum(nums, k, start)
    requires BestBelow(nums, k, start, max)
    requires max' == if Qualifies(nums, k, start) && windowSum > max then windowSum else max
    ensures BestBelow(nums, k, start + 1, max')
  {
    forall i | 0 <= i < start + 1 && Qualifies(nums, k, i)
      ensures WindowSum(nums, k, i) <= max'
    {
    }
  }

  /** Dropping the first value of a full window from its sum and its tally. */
  lemma Slide(nums: seq<int>, start: int, end: int, windowSum: int, frequency: map<int, int>)
    requires 0 <= start <= end < |nums|
    requires windowSum == Sum(nums[start..end + 1]) && Tally(frequency, nums[start..end + 1])
    ensures nums[start] in frequency
    ensures windowSum - nums[start] == Sum(nums[start + 1..end + 1])
    ensures var f := frequency[nums[start] := frequency[nums[start]] - 1];
            Tally(if f[nums[start]] == 0 then f - {nums[start]} else f, nums[start + 1..end + 1])
  {
    var p := nums[start];
    assert nums[start..end + 1] == [p] + nums[start + 1..end + 1];
    TallyPop(frequency, p, nums[start + 1..end + 1]);
    assert frequency[p := frequency[p] - 1] - {p} == frequency - {p};
  }

  /**
   * One step of the loop at a full window: the running maximum takes the
   * window's sum when the tally has `k` keys, then the window's first value
   * leaves the sum and the tally.
   */
  lemma FullStep(nums: seq<int>, k: int, end: int, start: int, windowSum: int, frequency: map<int, int>,
                 max: int, max': int, frequency': map<int, int>, windowSum': int, start': int)
    requires 0 <= start <= end < |nums| && end - start + 1 == k
    requires windowSum == Sum(nums[start..end + 1]) && Tally(frequency, nums[start..end + 1])
    requires BestBelow(nums, k, start, max)
    requires max' == if |frequency| == k then (if max > windowSum then max else windowSum) else max
    requires nums[start] in frequency
    requires var f := frequency[nums[start] := frequency[nums[start]] - 1];
             frequency' == if f[nums[start]] == 0 then f - {nums[start]} else f
    requires windowSum' == windowSum - nums[start] && start' == start + 1
    ensures Sliding(nums, k, end + 1, start', windowSum', frequency', max')
  {
    Qualify(nums, k, start, frequency);
    Consider(nums, k, start, windowSum, max, max');
    Slide(nums, start, end, windowSum, frequency);
  }

  /** Shorter windows do not qualify yet; the state simply moves on to `end + 1`. */
  lemma Partial(nums: seq<int>, k: int, end: int, start: int, windowSum: int, frequency: map<int, int>, max: int)
    requires 0 <= start <= end < |nums| && end - start + 1 != k
    requires if k >= 1 then end - start < k else start == 0
    requires windowSum == Sum(nums[start..end + 1]) && Tally(frequency, nums[start..end + 1])
    requires BestBelow(nums, k, start, max)
    ensures Sliding(nums, k, end + 1, start, windowSum, frequency, max)
  {
  }

  /** At the end every window that fits starts before `start`. */
  lemma Finish(nums: seq<int>, k: int, start: int, windowSum: int, frequency: map<int, int>, max: int)
    requires Sliding(nums, k, |nums|, start, windowSum, frequency, max)
    ensures IsBest(nums, k, max)
  {
    forall i | start <= i < |nums| && Qualifies(nums, k, i)
      ensures false
    {
    }
  }

  /**
   * `maximumSubarraySum`: the largest sum of a length-`k` window of `nums`
   * with all values different; 0 when no such window exists or none has a
   * positive sum.
   */
  method MaximumSubarraySum(nums: seq<int>, k: int) returns (max: int)
    ensures IsBest(nums, k, max)
  {
    var frequency: map<int, int> := map[];
    max := 0;
    var windowSum := 0;
    var start := 0;
    for end := 0 to |nums|
      invariant Sliding(nums, k, end, start, windowSum, frequency, max)
    {
      var current := nums[end];
      Grow(nums, k, end, start, windowSum, frequency, max);
      windowSum := windowSum + current;
      frequency := frequency[current := if current in frequency then frequency[current] + 1 else 1];
      var windowLen := end - start + 1;
      if windowLen == k {
        ghost var (fullSum, fullFrequency, previousMax, fullStart) := (windowSum, frequency, max, start);
        if |frequency| == k {
          max := if max > windowSum then max else windowSum;
        }
        var previous := nums[start];
        Slide(nums, start, end, windowSum, frequency);
        frequency := frequency[previous := frequency[previous] - 1];
        if frequency[previous] == 0 {
          frequency := frequency - {previous};
        }
        windowSum := windowSum - previous;
        start := start + 1;
        FullStep(nums, k, end, fullStart, fullSum, fullFrequency, previousMax, max, frequency, windowSum, start);
      } else {
        Partial(nums, k, end, start, windowSum, frequency, max);
      }
    }
    Finish(nums, k, start, windowSum, frequency, max);
  }

  /** The call in the source: [9, 9, 9, 1, 2, 3] with k = 3 gives 12, from the window [9, 1, 2]. */
  method Example() returns (r: int)
    ensures r == 12
  {
    var nums := [9, 9, 9, 1, 2, 3];
    r := MaximumSubarraySum(nums, 3);
    assert Qualifies(nums, 3, 2) && WindowSum(nums, 3, 2) == 12;
    assert !Qualifies(nums, 3, 0) && !Qualifies(nums, 3, 1) by {
      assert nums[0..3][0] == nums[0..3][1] && nums[1..4][0] == nums[1..4][1];
    }
    assert WindowSum(nums, 3, 3) == 6;
  }
}
