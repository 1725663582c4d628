/**
 * `longestSubString`: a sliding window that keeps a count per character in
 * `hash`, shrinks from `i` while the newest character's count exceeds 1, and
 * measures the window by the number of keys in `hash`.
 */
module CountWindow {
  import opened Sequences
  import opened Substrings

  /** The state between two steps: the window `s[i..j]` is repeat-free, no earlier start works, and `hash` counts it. */
  ghost predicate Scanned(s: string, i: int, j: int, hash: map<char, int>)
  {
    0 <= i <= j <= |s| && Free(s, i, j) && Blocked(s, i, j) && Tally(hash, s[i..j])
  }

  /** The state inside the shrink loop: `hash` counts `s[i..j + 1]`, whose part before `j` is repeat-free. */
  ghost predicate Shrinking(s: string, i: int, j: int, hash: map<char, int>)
  {
    0 <= i <= j < |s| && Free(s, i, j) && Blocked(s, i, j + 1) && Tally(hash, s[i..j + 1]) && s[j] in hash
  }

  /** In a repeat-free window every character occurs once. */
  lemma CountOne(w: string, c: char)
    requires Distinct(w) && c in w
    ensures multiset(w)[c] == 1
  {
    var k :| 0 <= k < |w| && w[k] == c;
    var before, after := w[..k], w[k + 1..];
    assert w == before + [c] + after;
    assert multiset(w) == multiset(before) + multiset{c} + multiset(after);
    assert forall a :: 0 <= a < |before| ==> before[a] != c;
    assert forall b :: 0 <= b < |after| ==> after[b] != c by {
      forall b | 0 <= b < |after| ensures after[b] != c {
        assert after[b] == w[k + 1 + b];
      }
    }
  }

  /** Counting the newest character of the window `s[i..j + 1]`. */
  lemma Enter(s: string, i: int, j: int, hash: map<char, int>)
    requires j < |s| && Scanned(s, i, j, hash)
    ensures Shrinking(s, i, j, hash[s[j] := if s[j] in hash then hash[s[j]] + 1 else 1])
  {
    assert s[i..j + 1] == s[i..j] + [s[j]];
    TallyPush(hash, s[i..j], s[j]);
    BlockedWiden(s, i, j);
  }

  /**
   * While the newest character `s[j]` occurs twice, it also occurs before
   * `j`, so the window starts before `j` and is not repeat-free.
   */
  lemma Crowded(s: string, i: int, j: int, hash: map<char, int>)
    requires 0 <= i <= j < |s| && Tally(hash, s[i..j + 1])
    requires s[j] in hash && hash[s[j]] > 1
    ensures i < j && s[j] in s[i..j]
    ensures !Free(s, i, j + 1)
  {
    assert s[i..j + 1] == s[i..j] + [s[j]];
    assert multiset(s[i..j])[s[j]] > 0;
    RepeatAt(s, i, j);
  }

  /**
   * The start character's count exceeds 1 only when it is the newest
   * character itself: the rest of the window is repeat-free.
   */
  lemma OnlyNewest(s: string, i: int, j: int, hash: map<char, int>)
    requires 0 <= i < j < |s| && Free(s, i, j) && Tally(hash, s[i..j + 1])
    requires s[i] in hash && hash[s[i]] > 1
    ensures s[i] == s[j]
  {
    if s[i] != s[j] {
      assert s[i..j + 1] == s[i..j] + [s[j]];
      assert s[i] in s[i..j];
      CountOne(s[i..j], s[i]);
    }
  }

  /** Uncounting the start character: the tally moves to `s[i + 1..j + 1]` and still holds `s[j]`. */
  lemma LeaveTally(s: string, i: int, j: int, hash: map<char, int>)
    requires Shrinking(s, i, j, hash) && hash[s[j]] > 1
    ensures i < j && s[i] in hash
    ensures var h := if hash[s[i]] - 1 == 0 then hash - {s[i]} else hash[s[j] := hash[s[i]] - 1];
            Tally(h, s[i + 1..j + 1]) && s[j] in h
  {
    Crowded(s, i, j, hash);
    assert s[i..j + 1] == [s[i]] + s[i + 1..j + 1];
    TallyPop(hash, s[i], s[i + 1..j + 1]);
    if hash[s[i]] - 1 != 0 {
      OnlyNewest(s, i, j, hash);
    }
  }

  /** Moving the start past a window that repeats a character keeps the later starts' facts. */
  lemma LeaveWindow(s: string, i: int, j: int)
    requires 0 <= i < j < |s| && Free(s, i, j) && Blocked(s, i, j + 1) && !Free(s, i, j + 1)
    ensures Free(s, i + 1, j) && Blocked(s, i + 1, j + 1)
  {
    if !Free(s, i + 1, j) {
      Widen(s, i + 1, j, i, j);
    }
  }

  /**
   * One step of the shrink loop, as the source writes it: when the start
   * character's count does not reach 0, the decremented count is written
   * under the newest character, which is then the same key.
   */
  lemma Leave(s: string, i: int, j: int, hash: map<char, int>)
    requires Shrinking(s, i, j, hash) && hash[s[j]] > 1
    ensures i < j && s[i] in hash
    ensures Shrinking(s, i + 1, j, if hash[s[i]] - 1 == 0 then hash - {s[i]} else hash[s[j] := hash[s[i]] - 1])
  {
    LeaveTally(s, i, j, hash);
    Crowded(s, i, j, hash);
    LeaveWindow(s, i, j);
  }

  /**
   * After the shrink loop the newest character occurs once, so the window is
   * repeat-free and `hash` has one key per position.
   */
  lemma Settled(s: string, i: int, j: int, hash: map<char, int>)
    requires Shrinking(s, i, j, hash) && hash[s[j]] <= 1
    ensures Scanned(s, i, j + 1, hash)
    ensures |hash| == j + 1 - i
  {
    var w := s[i..j + 1];
    assert w == s[i..j] + [s[j]];
    assert s[j] !in s[i..j] by {
      assert multiset(w)[s[j]] == multiset(s[i..j])[s[j]] + 1;
    }
    var seen := Elements(s[i..j]);
    Admit(s, i, j, seen);
    TallySize(hash, w);
  }

  /**
   * The shrink loop of `longestSubString`: while the newest character
   * `s[j]` is counted twice, uncount the window's first character and move
   * `i` forward.
   */
  method Shrink(s: string, i: int, j: int, hash: map<char, int>) returns (i': int, hash': map<char, int>)
    requires Shrinking(s, i, j, hash)
    ensures i <= i' <= j && Scanned(s, i', j + 1, hash') && |hash'| == j + 1 - i'
  {
    var currentStr := s[j];
    i', hash' := i, hash;
    while hash'[currentStr] > 1
      invariant i <= i' && Shrinking(s, i', j, hash')
      decreases j - i'
    {
      Leave(s, i', j, hash');
      var hashItem := hash'[s[i']];
      if hashItem - 1 == 0 {
        hash' := hash' - {s[i']};
      } else {
        hash' := hash'[currentStr := hashItem - 1];
      }
      i' := i' + 1;
    }
    Settled(s, i', j, hash');
  }

  /** `longestSubString`: the length of the longest substring without repeated characters. */
  method LongestSubString(s: string) returns (output: int)
    ensures IsLongest(s, output)
  {
    var hash: map<char, int> := map[];
    var i := 0;
    output := 0;
    assert Free(s, 0, 0);
    for j := 0 to |s|
      invariant Scanned(s, i, j, hash)
      invariant Bounds(s, j, output) && Attained(s, output)
    {
      i, hash, output := Slide(s, i, j, hash, output);
    }
  }

  /** One pass of the loop: `s[j]` is counted in, the window shrinks until it repeats nothing, and the best length is kept. */
  method Slide(s: string, i: int, j: int, hash: map<char, int>, output: int)
    returns (i': int, hash': map<char, int>, output': int)
    requires j < |s| && Scanned(s, i, j, hash) && Bounds(s, j, output) && Attained(s, output)
    ensures Scanned(s, i', j + 1, hash') && Bounds(s, j + 1, output') && Attained(s, output')
  {
    var currentStr := s[j];
    var hashValue := if currentStr in hash then hash[currentStr] else 0;
    Enter(s, i, j, hash);
    hash' := hash[currentStr := hashValue + 1];
    i', hash' := Shrink(s, i, j, hash');
    output' := if output > |hash'| then output else |hash'|;
    Record(s, i', j, output, output');
  }

  /** The examples in the file's header: "abccabcabcc" gives 3 and "aaaabaaa" gives 2. */
  method Samples() returns (a: int, b: int)
    ensures a == 3 && b == 2
  {
    var s, t := "abccabcabcc", "aaaabaaa";
    a := LongestSubString(s);
    assert IsLongest(s, 3) by {
      assert Free(s, 0, 3);
      forall i, j | 0 <= i <= j <= |s| && j - i == 4
        ensures !Free(s, i, j)
      {
        var w := s[i..j];
        assert w[0] == w[3] || w[0] == w[1] || w[1] == w[2] || w[2] == w[3];
      }
      ShortWindows(s, 3);
    }
    LongestUnique(s, a, 3);
    b := LongestSubString(t);
    assert IsLongest(t, 2) by {
      assert Free(t, 3, 5);
      forall i, j | 0 <= i <= j <= |t| && j - i == 3
        ensures !Free(t, i, j)
      {
        var w := t[i..j];
        assert w[0] == w[1] || w[0] == w[2] || w[1] == w[2];
      }
      ShortWindows(t, 2);
    }
    LongestUnique(t, b, 2);
  }
}
