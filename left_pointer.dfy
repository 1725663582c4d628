/**
 * `visualSlidingWindow` of the "what happens to left" exercise: on a repeat
 * it removes characters from the left until the repeated one is gone, adds
 * the new character and keeps the largest window length.
 */
module LeftPointer {
  import opened Sequences
  import opened Substrings

  /**
   * `visualSlidingWindow`: the longest substring without repeated
   * characters; after each step `seen` is exactly the characters of
   * `s[left..right]`.
   */
  method VisualSlidingWindow(s: string) returns (maxLength: int)
    ensures IsLongest(s, maxLength)
  {
    var left := 0;
    maxLength := 0;
    var seen: set<char> := {};
    assert Free(s, 0, 0);
    for right := 0 to |s|
      invariant Window(s, left, right, seen) && Blocked(s, left, right)
      invariant Bounds(s, right, maxLength) && Attained(s, maxLength)
    {
      var ch := s[right];
      BlockedWiden(s, left, right);
      if ch in seen {
        while ch in seen
          invariant Window(s, left, right, seen) && Blocked(s, left, right + 1)
          decreases right - left
        {
          Drop(s, left, right, seen);
          var removedChar := s[left];
          seen := seen - {removedChar};
          left := left + 1;
        }
      }
      Admit(s, left, right, seen);
      seen := seen + {ch};
      var currentLength := right - left + 1;
      var previous := maxLength;
      if currentLength > maxLength {
        maxLength := currentLength;
      }
      Record(s, left, right, previous, maxLength);
    }
  }

  /** The file's calls: "abcabc" and "pwwkew" both give 3. */
  method Samples() returns (a: int, b: int)
    ensures a == 3 && b == 3
  {
    var s, t := "abcabc", "pwwkew";
    a := VisualSlidingWindow(s);
    assert IsLongest(s, 3) by {
      assert Free(s, 0, 3);
      forall i, j | 0 <= i <= j <= |s| && j - i == 4
        ensures !Free(s, i, j)
      {
        assert s[i..j][0] == s[i..j][3];
      }
      ShortWindows(s, 3);
    }
    LongestUnique(s, a, 3);
    b := VisualSlidingWindow(t);
    assert IsLongest(t, 3) by {
      assert Free(t, 2, 5);
      forall i, j | 0 <= i <= j <= |t| && j - i == 4
        ensures !Free(t, i, j)
      {
        var w := t[i..j];
        assert w[0] == w[1] || w[1] == w[2] || w[0] == w[3];
      }
      ShortWindows(t, 3);
    }
    LongestUnique(t, b, 3);
  }
}
