/**
 * What the four longest-substring-without-repeats exercises compute, and the
 * steps the sliding-window versions share. A window `s[i..j]` is a
 * substring; it is admissible when no character occurs in it twice.
 */
module Substrings {
  import opened Sequences

  /** The window `s[i..j]` repeats no character. */
  ghost predicate Free(s: string, i: int, j: int)
    requires 0 <= i <= j <= |s|
  {
    Distinct(s[i..j])
  }

  /** Some repeat-free substring of `s` has length `m`. */
  ghost predicate Attained(s: string, m: int)
  {
    exists i, j :: 0 <= i <= j <= |s| && j - i == m && Free(s, i, j)
  }

  /** No repeat-free substring of `s` ending at or before `end` is longer than `m`. */
  ghost predicate Bounds(s: string, end: int, m: int)
  {
    forall i, j :: 0 <= i <= j <= end && j <= |s| && Free(s, i, j) ==> j - i <= m
  }

  /** `m` is the length of the longest substring of `s` without repeated characters. */
  ghost predicate IsLongest(s: string, m: int)
  {
    Attained(s, m) && Bounds(s, |s|, m)
  }

  /** No window that starts before `left` and ends at `end` is repeat-free. */
  ghost predicate Blocked(s: string, left: int, end: int)
    requires 0 <= end <= |s|
  {
    forall i :: 0 <= i < left && i <= end ==> !Free(s, i, end)
  }

  /** `seen` holds exactly the characters of the repeat-free window `s[left..right]`. */
  ghost predicate Window(s: string, left: int, right: int, seen: set<char>)
  {
    0 <= left <= right <= |s| && Distinct(s[left..right]) && seen == Elements(s[left..right])
  }

  /** The longest substring is unique in length. */
  lemma LongestUnique(s: string, m: int, m': int)
    requires IsLongest(s, m) && IsLongest(s, m')
    ensures m == m'
  {
    var i, j :| 0 <= i <= j <= |s| && j - i == m && Free(s, i, j);
    var i', j' :| 0 <= i' <= j' <= |s| && j' - i' == m' && Free(s, i', j');
  }

  /** The answer is at most the length of `s`, 0 for the empty string and at least 1 otherwise. */
  lemma LongestShape(s: string, m: int)
    requires IsLongest(s, m)
    ensures 0 <= m <= |s|
    ensures s == [] ==> m == 0
    ensures s != [] ==> m >= 1
  {
    var i, j :| 0 <= i <= j <= |s| && j - i == m && Free(s, i, j);
    if s != [] {
      assert Free(s, 0, 1);
    }
  }

  /** A repeat inside a window stays inside every wider window. */
  lemma Widen(s: string, i: int, j: int, i': int, j': int)
    requires 0 <= i' <= i <= j <= j' <= |s|
    requires !Distinct(s[i..j])
    ensures !Distinct(s[i'..j'])
  {
    var a, b :| 0 <= a < b < j - i && s[i..j][a] == s[i..j][b];
    assert s[i'..j'][a + i - i'] == s[i'..j'][b + i - i'];
  }

  /** A window followed by a character it already holds is not repeat-free. */
  lemma RepeatAt(s: string, i: int, j: int)
    requires 0 <= i <= j < |s| && s[j] in s[i..j]
    ensures !Distinct(s[i..j + 1])
  {
    var k :| 0 <= k < j - i && s[i..j][k] == s[j];
    assert s[i..j + 1][k] == s[i..j + 1][j - i];
  }

  /** A blocked start stays blocked when the window grows by one character. */
  lemma BlockedWiden(s: string, left: int, right: int)
    requires 0 <= left <= right < |s| && Blocked(s, left, right)
    ensures Blocked(s, left, right + 1)
  {
    var end := right + 1;
    forall i | 0 <= i < left
      ensures !Free(s, i, end)
    {
      assert !Free(s, i, right);
      Widen(s, i, right, i, end);
    }
  }

  /**
   * One step of the inner loop: while the incoming character `s[right]` is
   * still in the window, the window is non-empty, dropping its first
   * character keeps `seen` in step, and the dropped start is blocked.
   */
  lemma Drop(s: string, left: int, right: int, seen: set<char>)
    requires right < |s| && Window(s, left, right, seen) && Blocked(s, left, right + 1)
    requires s[right] in seen
    ensures left < right
    ensures Window(s, left + 1, right, seen - {s[left]})
    ensures Blocked(s, left + 1, right + 1)
  {
    RepeatAt(s, left, right);
    var w := s[left..right];
    assert w == [s[left]] + s[left + 1..right];
    assert Elements(w) == Elements(s[left + 1..right]) + {s[left]};
    assert Distinct(s[left + 1..right]) by {
      var v := s[left + 1..right];
      forall a, b | 0 <= a < b < |v|
        ensures v[a] != v[b]
      {
        assert v[a] == w[a + 1] && v[b] == w[b + 1];
      }
    }
  }

  /** Once the incoming character is gone from the window, adding it keeps the window repeat-free. */
  lemma Admit(s: string, left: int, right: int, seen: set<char>)
    requires right < |s| && Window(s, left, right, seen) && s[right] !in seen
    ensures Window(s, left, right + 1, seen + {s[right]})
  {
    var w := s[left..right + 1];
    assert w == s[left..right] + [s[right]];
    assert Elements(w) == Elements(s[left..right]) + {s[right]};
    forall a, b | 0 <= a < b < |w|
      ensures w[a] != w[b]
    {
      if b == |w| - 1 {
        assert w[a] in s[left..right];
      } else {
        assert w[a] == s[left..right][a] && w[b] == s[left..right][b];
      }
    }
  }

  /**
   * Taking the larger of the best length so far and the current window's
   * length keeps `best` the longest repeat-free window ending at or before
   * `right + 1`.
   */
  lemma Record(s: string, left: int, right: int, best: int, best': int)
    requires 0 <= left <= right < |s| && Distinct(s[left..right + 1]) && Blocked(s, left, right + 1)
    requires Bounds(s, right, best) && Attained(s, best)
    requires best' == if right + 1 - left > best then right + 1 - left else best
    ensures Bounds(s, right + 1, best') && Attained(s, best')
  {
    forall i, j | 0 <= i <= j <= right + 1 && Free(s, i, j)
      ensures j - i <= best'
    {
    }
    if best' != best {
      assert Free(s, left, right + 1);
    }
  }

  /** If every window one longer than `m` repeats a character, nothing longer than `m` is repeat-free. */
  lemma ShortWindows(s: string, m: nat)
    requires forall i, j :: 0 <= i <= j <= |s| && j - i == m + 1 ==> !Free(s, i, j)
    ensures Bounds(s, |s|, m)
  {
    forall i, j | 0 <= i <= j <= |s| && Free(s, i, j)
      ensures j - i <= m
    {
      if j - i > m {
        var k := i + m + 1;
        assert !Free(s, i, k);
        Widen(s, i, k, i, j);
      }
    }
  }

  /** The repeat-free window from `left` to the end of `s` is the longest repeat-free suffix. */
  ghost predicate IsLongestSuffix(s: string, n: int)
  {
    0 <= n <= |s| && Distinct(s[|s| - n..]) && (n < |s| ==> !Distinct(s[|s| - n - 1..]))
  }

  /** The longest repeat-free suffix is never longer than the longest repeat-free substring. */
  lemma SuffixWithinLongest(s: string, n: int, m: int)
    requires IsLongestSuffix(s, n) && IsLongest(s, m)
    ensures n <= m
  {
    assert s[|s| - n..|s|] == s[|s| - n..];
    assert Free(s, |s| - n, |s|);
  }
}
