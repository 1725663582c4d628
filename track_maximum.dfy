/**
 * The two sliding windows of the "why track the maximum" exercise. Both move
 * `left` forward until the incoming character is no longer in `seen`; one
 * returns the final window's length, the other the largest length seen.
 */
module TrackMaximum {
  import opened Sequences
  import opened Substrings

  /**
   * `withoutTrackingMaximum`: returns `s.length - left` for the final
   * `left`, which is the longest repeat-free suffix of `s`, not the longest
   * repeat-free substring.
   */
  method WithoutTrackingMaximum(s: string) returns (finalLength: int)
    ensures IsLongestSuffix(s, finalLength)
  {
    var left := 0;
    var seen: set<char> := {};
    for right := 0 to |s|
      invariant Window(s, left, right, seen) && Blocked(s, left, right)
    {
      var ch := s[right];
      BlockedWiden(s, left, right);
      while ch in seen
        invariant Window(s, left, right, seen) && Blocked(s, left, right + 1)
        decreases right - left
      {
        Drop(s, left, right, seen);
        seen := seen - {s[left]};
        left := left + 1;
      }
      Admit(s, left, right, seen);
      seen := seen + {ch};
    }
    finalLength := |s| - left;
    assert s[left..] == s[left..|s|];
    if left > 0 {
      assert !Free(s, left - 1, |s|);
    }
  }

  /** `withTrackingMaximum`: the largest window length seen, the longest repeat-free substring. */
  method WithTrackingMaximum(s: string) returns (maxLength: int)
    ensures IsLongest(s, maxLength)
  {
    var left := 0;
    maxLength := 0;
    var seen: set<char> := {};
    assert Free(s, 0, 0);
    for right := 0 to |s|
      invariant Window(s, left, right, seen) && Blocked(s, left, right)
      invariant Bounds(s, right, maxLength) && Attained(s, maxLength)
    {
      var ch := s[right];
      BlockedWiden(s, left, right);
      while ch in seen
        invariant Window(s, left, right, seen) && Blocked(s, left, right + 1)
        decreases right - left
      {
        Drop(s, left, right, seen);
        seen := seen - {s[left]};
        left := left + 1;
      }
      Admit(s, left, right, seen);
      seen := seen + {ch};
      var currentLength := right - left + 1;
      var previous := maxLength;
      if currentLength > maxLength {
        maxLength := currentLength;
      }
      Record(s, left, right, previous, maxLength);
    }
  }

  /**
   * The untracked answer never exceeds the tracked one, and on "abcabcbb"
   * (the file's first example) it is 1 where the answer is 3.
   */
  method Compare(s: string) returns (without: int, with: int)
    ensures without <= with
    ensures s == "abcabcbb" ==> without == 1 && with == 3
  {
    without := WithoutTrackingMaximum(s);
    with := WithTrackingMaximum(s);
    SuffixWithinLongest(s, without, with);
    if s == "abcabcbb" {
      assert Free(s, 7, 8);
      assert s[6..8][0] == s[6..8][1];
      assert !Free(s, 6, 8);
      assert s[7..] == s[7..8] && s[6..] == s[6..8];
      assert Free(s, 0, 3);
      forall i, j | 0 <= i <= j <= |s| && j - i == 4
        ensures !Free(s, i, j)
      {
        var w := s[i..j];
        assert w[0] == w[3] || w[1] == w[3];
      }
      ShortWindows(s, 3);
      LongestUnique(s, with, 3);
      assert IsLongestSuffix(s, 1);
    }
  }
}
