/**
 * `lengthOfLongestSubstring`, the brute-force version: from every start it
 * extends a run until the first repeated character and keeps the longest run.
 */
module LongestBrute {
  import opened Sequences
  import opened Substrings

  /** No repeat-free window starting before `i` is longer than `m`. */
  ghost predicate StartsBelow(s: string, i: int, m: int)
  {
    forall a, j :: 0 <= a < i && a <= j <= |s| && Free(s, a, j) ==> j - a <= m
  }

  /**
   * The inner loop's exit: the run `s[i..j]` is repeat-free and either
   * reaches the end of `s` or is followed by one of its own characters, so no
   * longer window from `i` is repeat-free.
   */
  lemma RunEnds(s: string, i: int, j: int)
    requires 0 <= i <= j <= |s| && Free(s, i, j)
    requires j == |s| || s[j] in s[i..j]
    ensures forall j' :: j < j' <= |s| ==> !Free(s, i, j')
  {
    if j < |s| {
      RepeatAt(s, i, j);
      forall j' | j < j' <= |s|
        ensures !Free(s, i, j')
      {
        Widen(s, i, j + 1, i, j');
      }
    }
  }

  /** `lengthOfLongestSubstring`: the length of the longest substring without repeated characters. */
  method LengthOfLongestSubstring(s: string) returns (maximum: int)
    ensures IsLongest(s, maximum)
  {
    maximum := 0;
    assert Free(s, 0, 0);
    for i := 0 to |s|
      invariant StartsBelow(s, i, maximum) && Attained(s, maximum)
    {
      var sum: seq<char> := [];
      var j := i;
      while j < |s| && s[j] !in sum
        invariant i <= j <= |s| && sum == s[i..j] && Free(s, i, j)
      {
        Admit(s, i, j, Elements(sum));
        sum := sum + [s[j]];
        j := j + 1;
      }
      RunEnds(s, i, j);
      maximum := if |sum| > maximum then |sum| else maximum;
    }
  }

  /** The test table: "abcabc" gives 3 and "bbbbb" gives 1. */
  method Samples() returns (a: int, b: int)
    ensures a == 3 && b == 1
  {
    var s, t := "abcabc", "bbbbb";
    a := LengthOfLongestSubstring(s);
    assert IsLongest(s, 3) by {
      assert Free(s, 0, 3);
      forall i, j | 0 <= i <= j <= |s| && j - i == 4
        ensures !Free(s, i, j)
      {
        assert s[i..j][0] == s[i..j][3];
      }
      ShortWindows(s, 3);
    }
    LongestUnique(s, a, 3);
    b := LengthOfLongestSubstring(t);
    assert IsLongest(t, 1) by {
      assert Free(t, 0, 1);
      forall i, j | 0 <= i <= j <= |t| && j - i == 2
        ensures !Free(t, i, j)
      {
        assert t[i..j][0] == t[i..j][1];
      }
      ShortWindows(t, 1);
    }
    LongestUnique(t, b, 1);
  }
}
