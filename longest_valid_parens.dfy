/**
 * Longest valid parentheses: the length of the longest well-formed
 * substring of a string of '(' and ')', computed three ways (an index
 * stack, a dynamic-programming table, two counting passes), each proved to
 * return the longest such length, so that the three agree on every input.
 */
module LongestValidParens {
  predicate Parens(s: string)
  {
    forall k :: 0 <= k < |s| ==> s[k] == '(' || s[k] == ')'
  }

  /** The balance of the first `k` characters: opening minus closing ones. */
  function H(s: string, k: nat): int
    requires k <= |s|
  {
    if k == 0 then 0 else H(s, k - 1) + (if s[k - 1] == '(' then 1 else -1)
  }

  /** Well-formed: no prefix closes more than it opens, and the whole is balanced. */
  ghost predicate Valid(t: string)
  {
    H(t, |t|) == 0 && forall m :: 0 <= m <= |t| ==> H(t, m) >= 0
  }

  /** The substring `s[i..j]` is well-formed, stated on the balances of `s`. */
  ghost predicate Balanced(s: string, i: nat, j: nat)
  {
    i <= j <= |s| && H(s, j) == H(s, i) && forall m :: i <= m <= j ==> H(s, m) >= H(s, i)
  }

  /** `m` is the length of a longest well-formed substring of `s`. */
  ghost predicate IsLongest(s: string, m: int)
  {
    && (exists i, j :: 0 <= i <= j <= |s| && Valid(s[i..j]) && j - i == m)
    && (forall i, j :: 0 <= i <= j <= |s| && Valid(s[i..j]) ==> j - i <= m)
  }

  // ---------------------------------------------------------------------------
  // Balances

  lemma {:induction false} HSub(s: string, i: nat, j: nat, m: nat)
    requires i <= j <= |s| && m <= j - i
    ensures H(s[i..j], m) == H(s, i + m) - H(s, i)
  {
    if m > 0 {
      HSub(s, i, j, m - 1);
      assert s[i..j][m - 1] == s[i + m - 1];
    }
  }

  /** A substring is well-formed exactly when its balances in `s` never dip below its start and end where they began. */
  lemma ValidIff(s: string, i: nat, j: nat)
    requires i <= j <= |s|
    ensures Valid(s[i..j]) <==> Balanced(s, i, j)
  {
    var t := s[i..j];
    forall m | 0 <= m <= |t|
      ensures H(t, m) == H(s, i + m) - H(s, i)
    {
      HSub(s, i, j, m);
    }
    if Balanced(s, i, j) {
      assert forall m :: 0 <= m <= |t| ==> H(t, m) >= 0 by {
        forall m | 0 <= m <= |t| ensures H(t, m) >= 0 {
          assert H(s, i + m) >= H(s, i);
        }
      }
    }
    if Valid(t) {
      forall m | i <= m <= j ensures H(s, m) >= H(s, i) {
        assert H(t, m - i) >= 0;
      }
    }
  }

  /** The balance has the parity of the length. */
  lemma {:induction false} HParity(s: string, k: nat)
    requires k <= |s|
    ensures (H(s, k) - k) % 2 == 0
  {
    if k > 0 {
      HParity(s, k - 1);
    }
  }

  /** Balanced substrings have even length. */
  lemma BalancedEven(s: string, i: nat, j: nat)
    requires Balanced(s, i, j)
    ensures (j - i) % 2 == 0
  {
    HParity(s, i);
    HParity(s, j);
  }

  /** Two well-formed pieces side by side are well-formed. */
  lemma Concat(s: string, a: nat, b: nat, c: nat)
    requires Balanced(s, a, b) && Balanced(s, b, c)
    ensures Balanced(s, a, c)
  {
  }

  // ---------------------------------------------------------------------------
  // The longest well-formed substring ending at each position

  /** The first start `b` from `i` on with `s[b..e]` well-formed; `e` itself always is. */
  ghost function FirstBalanced(s: string, i: nat, e: nat): (b: nat)
    requires i <= e <= |s|
    ensures i <= b <= e && Balanced(s, b, e)
    ensures forall c :: i <= c < b ==> !Balanced(s, c, e)
    decreases e - i
  {
    if Balanced(s, i, e) then i else FirstBalanced(s, i + 1, e)
  }

  ghost function MinStart(s: string, e: nat): nat
    requires e <= |s|
  {
    FirstBalanced(s, 0, e)
  }

  /** The length of the longest well-formed substring ending at `e`. */
  ghost function BestEnd(s: string, e: nat): nat
    requires e <= |s|
  {
    e - MinStart(s, e)
  }

  lemma MinStartIs(s: string, e: nat, c: nat)
    requires c <= e <= |s| && Balanced(s, c, e)
    requires forall b :: 0 <= b < c ==> !Balanced(s, b, e)
    ensures MinStart(s, e) == c
  {
  }

  /** The longest well-formed length among substrings ending at `n` or before. */
  ghost function MaxBest(s: string, n: nat): nat
    requires n <= |s|
  {
    if n == 0 then 0 else Max(MaxBest(s, n - 1), BestEnd(s, n))
  }

  function Max(a: int, b: int): int
  {
    if a >= b then a else b
  }

  lemma {:induction false} MaxBestBounds(s: string, n: nat)
    requires n <= |s|
    ensures forall i, j :: 0 <= i <= j <= n && Balanced(s, i, j) ==> j - i <= MaxBest(s, n)
    ensures exists i, j :: 0 <= i <= j <= n && Balanced(s, i, j) && j - i == MaxBest(s, n)
  {
    if n == 0 {
      assert Balanced(s, 0, 0);
    } else {
      MaxBestBounds(s, n - 1);
      forall i, j | 0 <= i <= j <= n && Balanced(s, i, j)
        ensures j - i <= MaxBest(s, n)
      {
        if j == n {
          assert MinStart(s, n) <= i;
        }
      }
      if BestEnd(s, n) > MaxBest(s, n - 1) {
        assert Balanced(s, MinStart(s, n), n);
      }
    }
  }

  /** The reference answer: the longest over all end positions. */
  lemma MaxBestIsLongest(s: string)
    ensures IsLongest(s, MaxBest(s, |s|))
  {
    MaxBestBounds(s, |s|);
    var i, j :| 0 <= i <= j <= |s| && Balanced(s, i, j) && j - i == MaxBest(s, |s|);
    ValidIff(s, i, j);
    forall i', j' | 0 <= i' <= j' <= |s| && Valid(s[i'..j'])
      ensures j' - i' <= MaxBest(s, |s|)
    {
      ValidIff(s, i', j');
    }
  }

  // ---------------------------------------------------------------------------
  // The recurrence on the longest well-formed substring ending at a position

  /** Nothing well-formed and non-empty ends with '('. */
  lemma OpenEnd(s: string, e: nat)
    requires 1 <= e <= |s| && s[e - 1] == '('
    ensures BestEnd(s, e) == 0
  {
    forall b | 0 <= b < e
      ensures !Balanced(s, b, e)
    {
      if H(s, b) == H(s, e) {
        assert H(s, e - 1) < H(s, b);
      }
    }
    MinStartIs(s, e, e);
  }

  /** Going up from `b` at most `v` to `x` above `v`, the balance leaves `v` for the last time at some `p`. */
  lemma {:induction false} Climb(s: string, b: nat, x: nat, v: int) returns (p: nat)
    requires b <= x <= |s| && H(s, b) <= v < H(s, x)
    ensures b <= p < x && H(s, p) == v && H(s, p + 1) == v + 1
    ensures forall m :: p < m <= x ==> H(s, m) > v
    decreases x - b
  {
    if H(s, x - 1) <= v {
      p := x - 1;
    } else {
      p := Climb(s, b, x - 1, v);
    }
  }

  /**
   * A ')' at `i` closes the longest well-formed substring ending at `i`
   * exactly when the character before that substring is '('; the result
   * then also takes in the longest one ending just before that '('.
   * Otherwise nothing well-formed and non-empty ends after the ')'.
   */
  lemma CloseStep(s: string, i: nat)
    requires i < |s| && s[i] != '('
    ensures var a := i - BestEnd(s, i);
      BestEnd(s, i + 1) == if a >= 1 && s[a - 1] == '(' then BestEnd(s, i) + 2 + BestEnd(s, a - 1) else 0
  {
    var a := MinStart(s, i);
    var e := i + 1;
    assert Balanced(s, a, i);
    assert H(s, e) == H(s, i) - 1;
    if a >= 1 && s[a - 1] == '(' {
      var c := MinStart(s, a - 1);
      assert Balanced(s, c, a - 1);
      assert Balanced(s, c, e) by {
        forall m | c <= m <= e
          ensures H(s, m) >= H(s, c)
        {
          if a <= m <= i {
            assert H(s, m) >= H(s, a);
          }
        }
      }
      forall b | 0 <= b < c
        ensures !Balanced(s, b, e)
      {
        assert !Balanced(s, b, a - 1);
      }
      MinStartIs(s, e, c);
    } else {
      forall b | 0 <= b < e
        ensures !Balanced(s, b, e)
      {
        if b >= a {
          assert H(s, b) >= H(s, a);
        } else if Balanced(s, b, e) {
          var q := EarlierStart(s, b, a, i);
        }
      }
      MinStartIs(s, e, e);
    }
  }

  /** A well-formed substring ending after the ')' at `i` and starting before `a` would give one ending at `i` that starts before `a`. */
  lemma EarlierStart(s: string, b: nat, a: nat, i: nat) returns (q: nat)
    requires i < |s| && s[i] != '(' && 1 <= a <= i && s[a - 1] != '(' && b < a
    requires Balanced(s, a, i) && Balanced(s, b, i + 1)
    ensures q < a && Balanced(s, q, i)
  {
    assert H(s, a - 1) == H(s, i) + 1;
    q := Climb(s, b, a - 1, H(s, i) - 1);
    q := q + 1;
    forall m | q <= m <= i
      ensures H(s, m) >= H(s, q)
    {
      if m >= a {
        assert H(s, m) >= H(s, a);
      }
    }
  }

  /** The first character alone is never well-formed. */
  lemma FirstChar(s: string)
    requires 1 <= |s|
    ensures BestEnd(s, 1) == 0
  {
    if s[0] == '(' {
      OpenEnd(s, 1);
    } else {
      CloseStep(s, 0);
    }
  }

  /** The table entry at `i` in the source's own cases, with `dp[k]` read as `BestEnd(s, k + 1)`. */
  lemma Entry(s: string, i: nat)
    requires Parens(s) && 1 <= i < |s|
    ensures BestEnd(s, i + 1) ==
      if s[i] != ')' then 0
      else if s[i - 1] == '(' then (if i >= 2 then BestEnd(s, i - 1) else 0) + 2
      else
        var matchPos := i - BestEnd(s, i) - 1;
        if matchPos >= 0 && s[matchPos] == '(' then BestEnd(s, i) + 2 + (if matchPos >= 1 then BestEnd(s, matchPos) else 0)
        else 0
  {
    if s[i] != ')' {
      OpenEnd(s, i + 1);
    } else {
      CloseStep(s, i);
      if s[i - 1] == '(' {
        OpenEnd(s, i);
      }
    }
  }

  /**
   * `longestValidParenthesesDP`: `dp[i]` is the length of the longest
   * well-formed substring ending at index `i`, filled left to right from the
   * two ')' cases, and the answer is the largest entry.
   */
  method LongestDP(s: string) returns (max: int)
    requires Parens(s)
    ensures IsLongest(s, max)
  {
    MaxBestIsLongest(s);
    if |s| == 0 {
      return 0;
    }
    var dp := new int[|s|](_ => 0);
    max := 0;
    FirstChar(s);
    for i := 1 to |s|
      invariant forall j :: 0 <= j < i ==> dp[j] == BestEnd(s, j + 1)
      invariant forall j :: i <= j < |s| ==> dp[j] == 0
      invariant max == MaxBest(s, i)
    {
      max := Fill(s, dp, i, max);
    }
  }

  /** One pass of the table loop: the entry at `i` from the earlier ones, and the running maximum. */
  method Fill(s: string, dp: array<int>, i: nat, max: int) returns (max': int)
    requires Parens(s) && dp.Length == |s| && 1 <= i < |s| && max >= 0
    requires forall j :: 0 <= j < i ==> dp[j] == BestEnd(s, j + 1)
    requires dp[i] == 0
    modifies dp
    ensures dp[i] == BestEnd(s, i + 1) && max' == Max(max, dp[i])
    ensures forall j :: 0 <= j < |s| && j != i ==> dp[j] == old(dp[j])
  {
    max' := max;
    Entry(s, i);
    if s[i] == ')' {
      if s[i - 1] == '(' {
        dp[i] := (if i >= 2 then dp[i - 2] else 0) + 2;
      } else {
        var matchPos := i - dp[i - 1] - 1;
        if matchPos >= 0 && s[matchPos] == '(' {
          dp[i] := dp[i - 1] + 2 + (if matchPos >= 1 then dp[matchPos - 1] else 0);
        }
      }
      max' := Max(max', dp[i]);
    }
  }

  // ---------------------------------------------------------------------------
  // The index stack

  /**
   * What the stack holds after `n` characters: at the bottom the last ')'
   * that closed more than was open (or -1), after which the balance never
   * falls back to its level `L`; above it the unmatched '(' in order, the
   * `j`-th leaving level `L + j - 1` never to return.
   */
  ghost predicate StackInv(s: string, n: nat, st: seq<int>)
  {
    && n <= |s| && |st| >= 1 && -1 <= st[0] < n
    && (forall m :: 0 <= m <= st[0] ==> H(s, m) > H(s, st[0] + 1))
    && (forall m :: st[0] + 1 <= m <= n ==> H(s, m) >= H(s, st[0] + 1))
    && (forall j :: 1 <= j < |st| ==>
          st[j - 1] < st[j] && st[0] < st[j] < n && H(s, st[j]) == H(s, st[0] + 1) + j - 1)
    && (forall j, m :: 1 <= j < |st| && st[j] < m <= n ==> H(s, m) >= H(s, st[0] + 1) + j)
    && H(s, n) == H(s, st[0] + 1) + |st| - 1
  }

  /** The longest well-formed substring ending at `n` starts just after the top of the stack. */
  lemma TopIsStart(s: string, n: nat, st: seq<int>)
    requires StackInv(s, n, st)
    ensures MinStart(s, n) == st[|st| - 1] + 1
  {
    var k := |st| - 1;
    var top := st[k];
    if k == 0 {
      forall c | 0 <= c < top + 1
        ensures !Balanced(s, c, n)
      {
        assert H(s, c) > H(s, top + 1);
      }
    } else {
      assert H(s, top + 1) >= H(s, st[0] + 1) + k;
      forall c | 0 <= c <= top
        ensures !Balanced(s, c, n)
      {
        if H(s, c) == H(s, n) {
          assert H(s, top) < H(s, c);
        }
      }
    }
    MinStartIs(s, n, top + 1);
  }

  lemma PushOpen(s: string, n: nat, st: seq<int>)
    requires StackInv(s, n, st) && n < |s| && s[n] == '('
    ensures StackInv(s, n + 1, st + [n])
  {
    var st' := st + [n];
    var base := H(s, st[0] + 1);
    assert H(s, n + 1) == H(s, n) + 1;
    forall m | st'[0] + 1 <= m <= n + 1
      ensures H(s, m) >= base
    {
    }
    forall j | 1 <= j < |st'|
      ensures st'[j - 1] < st'[j] && st'[0] < st'[j] < n + 1 && H(s, st'[j]) == base + j - 1
    {
      if j < |st| {
        assert st'[j] == st[j] && st'[j - 1] == st[j - 1];
      }
    }
    forall j, m | 1 <= j < |st'| && st'[j] < m <= n + 1
      ensures H(s, m) >= base + j
    {
      if j < |st| {
        assert st'[j] == st[j];
        if m == n + 1 {
          assert H(s, n) >= base + j;
        }
      }
    }
  }

  lemma PopClose(s: string, n: nat, st: seq<int>)
    requires StackInv(s, n, st) && n < |s| && s[n] != '(' && |st| >= 2
    ensures StackInv(s, n + 1, st[..|st| - 1])
  {
  }

  lemma NewBase(s: string, n: nat, st: seq<int>)
    requires StackInv(s, n, st) && n < |s| && s[n] != '(' && |st| == 1
    ensures StackInv(s, n + 1, [n])
  {
  }

  /** The stack after the first `n` characters: '(' pushes its index, ')' pops and replaces an emptied stack by its own index. */
  function StackAfter(s: string, n: nat): (st: seq<int>)
    requires n <= |s|
    ensures |st| >= 1
  {
    if n == 0 then [-1]
    else
      var st := StackAfter(s, n - 1);
      if s[n - 1] == '(' then st + [n - 1]
      else if |st| == 1 then [n - 1]
      else st[..|st| - 1]
  }

  lemma {:induction false} StackAfterInv(s: string, n: nat)
    requires n <= |s|
    ensures StackInv(s, n, StackAfter(s, n))
  {
    if n > 0 {
      StackAfterInv(s, n - 1);
      var st := StackAfter(s, n - 1);
      if s[n - 1] == '(' {
        PushOpen(s, n - 1, st);
      } else if |st| == 1 {
        NewBase(s, n - 1, st);
      } else {
        PopClose(s, n - 1, st);
      }
    }
  }

  /**
   * After a ')' the longest well-formed substring it ends reaches back to
   * just after the top of the stack it leaves, and is empty when that top is
   * the ')' itself.
   */
  lemma CloseNext(s: string, n: nat)
    requires n < |s| && s[n] != '('
    ensures var st := StackAfter(s, n + 1);
      BestEnd(s, n + 1) == n - st[|st| - 1]
  {
    StackAfterInv(s, n + 1);
    TopIsStart(s, n + 1, StackAfter(s, n + 1));
  }

  lemma MaxNext(s: string, n: nat, v: int)
    requires n < |s| && v == BestEnd(s, n + 1)
    ensures MaxBest(s, n + 1) == Max(MaxBest(s, n), v)
  {
  }

  /**
   * `longestValidParentheses`: indices of '(' are pushed; a ')' pops, and
   * either becomes the new bottom when the stack runs empty or ends a
   * well-formed substring reaching back to just after the new top.
   */
  method LongestStack(s: string) returns (max: int)
    requires Parens(s)
    ensures IsLongest(s, max)
  {
    var stack: seq<int> := [-1];
    max := 0;
    for i := 0 to |s|
      invariant stack == StackAfter(s, i)
      invariant max == MaxBest(s, i)
    {
      if s[i] == '(' {
        OpenEnd(s, i + 1);
        MaxNext(s, i, 0);
        stack := stack + [i];
      } else {
        CloseNext(s, i);
        stack := stack[..|stack| - 1];
        if |stack| == 0 {
          stack := [i];
          MaxNext(s, i, 0);
        } else {
          var length := i - stack[|stack| - 1];
          MaxNext(s, i, length);
          max := Max(max, length);
        }
      }
    }
    MaxBestIsLongest(s);
  }

  // ---------------------------------------------------------------------------
  // Two counting passes

  datatype Counts = Counts(left: int, right: int, max: int)

  /** Left to right: count one character; equal counts close a candidate, more ')' than '(' start afresh. */
  function LeftStep(c: Counts, ch: char): Counts
  {
    var left := if ch == '(' then c.left + 1 else c.left;
    var right := if ch == '(' then c.right else c.right + 1;
    if left == right then Counts(left, right, Max(c.max, 2 * right))
    else if right > left then Counts(0, 0, c.max)
    else Counts(left, right, c.max)
  }

  /** Right to left: the mirror image, starting afresh on more '(' than ')'. */
  function RightStep(c: Counts, ch: char): Counts
  {
    var left := if ch == '(' then c.left + 1 else c.left;
    var right := if ch == '(' then c.right else c.right + 1;
    if left == right then Counts(left, right, Max(c.max, 2 * left))
    else if left > right then Counts(0, 0, c.max)
    else Counts(left, right, c.max)
  }

  /** The counters after the first `n` characters, read left to right. */
  function LeftPass(s: string, n: nat): Counts
    requires n <= |s|
  {
    if n == 0 then Counts(0, 0, 0) else LeftStep(LeftPass(s, n - 1), s[n - 1])
  }

  /** The counters after the characters from `n` on, read right to left from a fresh start that keeps `max0`. */
  function RightPass(s: string, n: nat, max0: int): Counts
    requires n <= |s|
    decreases |s| - n
  {
    if n == |s| then Counts(0, 0, max0) else RightStep(RightPass(s, n + 1, max0), s[n])
  }

  /** No earlier balance is as low as the one at `r`: where the left pass starts afresh. */
  ghost predicate PrefixMin(s: string, r: nat)
  {
    r <= |s| && forall m :: 0 <= m < r ==> H(s, m) > H(s, r)
  }

  /** No later balance is as low as the one at `r`: where the right pass starts afresh. */
  ghost predicate SuffixMin(s: string, r: nat)
  {
    r <= |s| && forall m :: r < m <= |s| ==> H(s, m) > H(s, r)
  }

  /** Some well-formed substring has length `m`. */
  ghost predicate Found(s: string, m: int)
  {
    exists i: nat, j: nat :: Balanced(s, i, j) && j - i == m
  }

  /**
   * The left pass's counters after `n` characters describe the stretch since
   * the last fresh start: the balance there is a new low, and the balance
   * has not fallen below it since.
   */
  ghost predicate LeftStretch(s: string, n: nat, c: Counts)
  {
    && n <= |s| && 0 <= c.right <= c.left && c.left + c.right <= n
    && var r := n - c.left - c.right;
      && PrefixMin(s, r) && c.left - c.right == H(s, n) - H(s, r)
      && forall m :: r <= m <= n ==> H(s, m) >= H(s, r)
  }

  /** No well-formed substring that starts at a fresh start and ends by `n` is longer than `max`. */
  ghost predicate LeftCovers(s: string, n: nat, max: int)
  {
    forall i: nat, j: nat :: PrefixMin(s, i) && Balanced(s, i, j) && j <= n ==> j - i <= max
  }

  /** A well-formed substring ending within the current stretch and starting at a fresh start starts where the stretch does. */
  lemma SameStart(s: string, r: nat, n: nat, i: nat, j: nat)
    requires PrefixMin(s, r) && r <= n < |s| && forall m :: r <= m <= n ==> H(s, m) >= H(s, r)
    requires PrefixMin(s, i) && Balanced(s, i, j) && i <= n < j
    ensures i == r
  {
  }

  lemma LeftStretchNext(s: string, n: nat, c: Counts)
    requires LeftStretch(s, n, c) && n < |s|
    ensures LeftStretch(s, n + 1, LeftStep(c, s[n]))
  {
  }

  /** A recorded length is that of the well-formed stretch itself. */
  lemma LeftFoundNext(s: string, n: nat, c: Counts)
    requires LeftStretch(s, n, c) && n < |s| && Found(s, c.max)
    ensures Found(s, LeftStep(c, s[n]).max)
  {
    var c' := LeftStep(c, s[n]);
    if c'.left == c'.right && 2 * c'.right > c.max {
      assert Balanced(s, n - c.left - c.right, n + 1);
    }
  }

  lemma LeftCoversNext(s: string, n: nat, c: Counts)
    requires LeftStretch(s, n, c) && n < |s| && LeftCovers(s, n, c.max) && c.max >= 0
    ensures LeftCovers(s, n + 1, LeftStep(c, s[n]).max)
  {
    var c' := LeftStep(c, s[n]);
    var r := n - c.left - c.right;
    forall i: nat, j: nat | PrefixMin(s, i) && Balanced(s, i, j) && j <= n + 1
      ensures j - i <= c'.max
    {
      if j == n + 1 && i <= n {
        SameStart(s, r, n, i, j);
      }
    }
  }

  lemma {:induction false} LeftPassState(s: string, n: nat)
    requires n <= |s|
    ensures var c := LeftPass(s, n);
      LeftStretch(s, n, c) && Found(s, c.max) && c.max >= 0 && LeftCovers(s, n, c.max)
  {
    if n == 0 {
      assert Balanced(s, 0, 0);
    } else {
      var c := LeftPass(s, n - 1);
      LeftPassState(s, n - 1);
      LeftStretchNext(s, n - 1, c);
      LeftFoundNext(s, n - 1, c);
      LeftCoversNext(s, n - 1, c);
    }
  }

  /** The mirror of `LeftStretch` for the right pass down to `n`. */
  ghost predicate RightStretch(s: string, n: nat, c: Counts)
  {
    && n <= |s| && 0 <= c.left <= c.right && n + c.left + c.right <= |s|
    && var r := n + c.left + c.right;
      && SuffixMin(s, r) && c.left - c.right == H(s, r) - H(s, n)
      && forall m :: n <= m <= r ==> H(s, m) >= H(s, r)
  }

  /** No well-formed substring that ends at a fresh start of the right pass and starts at `n` or later is longer than `max`. */
  ghost predicate RightCovers(s: string, n: nat, max: int)
  {
    forall i: nat, j: nat :: SuffixMin(s, j) && Balanced(s, i, j) && n <= i ==> j - i <= max
  }

  lemma SameEnd(s: string, r: nat, n: nat, i: nat, j: nat)
    requires SuffixMin(s, r) && n < r && forall m :: n + 1 <= m <= r ==> H(s, m) >= H(s, r)
    requires SuffixMin(s, j) && Balanced(s, i, j) && i <= n < j
    ensures j == r
  {
  }

  lemma RightStretchNext(s: string, n: nat, c: Counts)
    requires RightStretch(s, n + 1, c)
    ensures RightStretch(s, n, RightStep(c, s[n]))
  {
  }

  lemma RightFoundNext(s: string, n: nat, c: Counts)
    requires RightStretch(s, n + 1, c) && Found(s, c.max)
    ensures Found(s, RightStep(c, s[n]).max)
  {
    var c' := RightStep(c, s[n]);
    if c'.left == c'.right && 2 * c'.left > c.max {
      assert Balanced(s, n, n + 1 + c.left + c.right);
    }
  }

  lemma RightCoversNext(s: string, n: nat, c: Counts)
    requires RightStretch(s, n + 1, c) && RightCovers(s, n + 1, c.max) && c.max >= 0
    ensures RightCovers(s, n, RightStep(c, s[n]).max)
  {
    var c' := RightStep(c, s[n]);
    var r := n + 1 + c.left + c.right;
    forall i: nat, j: nat | SuffixMin(s, j) && Balanced(s, i, j) && n <= i
      ensures j - i <= c'.max
    {
      if i == n && j > n {
        SameEnd(s, r, n, i, j);
      }
    }
  }

  lemma {:induction false} RightPassStretch(s: string, n: nat, max0: int)
    requires n <= |s|
    ensures RightStretch(s, n, RightPass(s, n, max0))
    decreases |s| - n
  {
    if n < |s| {
      RightPassStretch(s, n + 1, max0);
      RightStretchNext(s, n, RightPass(s, n + 1, max0));
    }
  }

  lemma {:induction false} RightPassFound(s: string, n: nat, max0: int)
    requires n <= |s| && Found(s, max0) && max0 >= 0
    ensures Found(s, RightPass(s, n, max0).max)
    decreases |s| - n
  {
    if n < |s| {
      RightPassFound(s, n + 1, max0);
      RightPassStretch(s, n + 1, max0);
      RightFoundNext(s, n, RightPass(s, n + 1, max0));
    }
  }

  lemma {:induction false} RightPassCovers(s: string, n: nat, max0: int)
    requires n <= |s| && max0 >= 0
    ensures RightCovers(s, n, RightPass(s, n, max0).max)
    decreases |s| - n
  {
    if n < |s| {
      RightPassCovers(s, n + 1, max0);
      RightPassStretch(s, n + 1, max0);
      RightPassMax(s, n + 1, max0);
      RightCoversNext(s, n, RightPass(s, n + 1, max0));
    } else {
      forall i: nat, j: nat | SuffixMin(s, j) && Balanced(s, i, j) && n <= i
        ensures j - i <= max0
      {
      }
    }
  }

  lemma {:induction false} RightPassMax(s: string, n: nat, max0: int)
    requires n <= |s|
    ensures RightPass(s, n, max0).max >= max0
    decreases |s| - n
  {
    if n < |s| {
      RightPassMax(s, n + 1, max0);
    }
  }

  /** Walking down from `x` to `lo`, the last balance at most `v` before `x`: it is `v` itself or, right before `x`, `v - 1`. */
  lemma {:induction false} LastBelow(s: string, lo: nat, x: nat, v: int) returns (p: nat)
    requires lo < x <= |s| && H(s, lo) <= v <= H(s, x)
    ensures lo <= p < x && H(s, p) <= v
    ensures forall q :: p < q < x ==> H(s, q) > v
    ensures H(s, p) == v || (p + 1 == x && H(s, p) == v - 1)
    decreases x - lo
  {
    if H(s, x - 1) <= v {
      p := x - 1;
    } else {
      p := LastBelow(s, lo, x - 1, v);
    }
  }

  /** Walking up from `x` to `hi`, the first balance at most `v` after `x`: it is `v` itself or, right after `x`, `v - 1`. */
  lemma {:induction false} FirstBelow(s: string, x: nat, hi: nat, v: int) returns (q: nat)
    requires x < hi <= |s| && H(s, hi) <= v <= H(s, x)
    ensures x < q <= hi && H(s, q) <= v
    ensures forall t :: x < t < q ==> H(s, t) > v
    ensures H(s, q) == v || (q == x + 1 && H(s, q) == v - 1)
    decreases hi - x
  {
    if H(s, x + 1) <= v {
      q := x + 1;
    } else {
      q := FirstBelow(s, x + 1, hi, v);
    }
  }

  /** A well-formed substring that neither pass starts afresh at can be lengthened. */
  lemma Longer(s: string, i: nat, j: nat) returns (a: nat, b: nat)
    requires Balanced(s, i, j) && !PrefixMin(s, i) && !SuffixMin(s, j)
    ensures Balanced(s, a, b) && b - a > j - i
  {
    var v := H(s, i);
    var m1 :| 0 <= m1 < i && H(s, m1) <= v;
    var m2 :| j < m2 <= |s| && H(s, m2) <= v;
    var p := LastBelow(s, m1, i, v);
    var q := FirstBelow(s, j, m2, v);
    if H(s, p) == v {
      a, b := p, j;
      forall m | p <= m <= j
        ensures H(s, m) >= v
      {
        if m >= i {
          assert H(s, m) >= H(s, i);
        }
      }
    } else if H(s, q) == v {
      a, b := i, q;
      forall m | i <= m <= q
        ensures H(s, m) >= v
      {
        if m <= j {
          assert H(s, m) >= H(s, i);
        }
      }
    } else {
      a, b := i - 1, j + 1;
      forall m | i - 1 <= m <= j + 1
        ensures H(s, m) >= v - 1
      {
        if i <= m <= j {
          assert H(s, m) >= H(s, i);
        }
      }
    }
  }

  /** The passes between them meet a longest well-formed substring. */
  lemma Covered(s: string, i: nat, j: nat)
    requires Balanced(s, i, j)
    requires forall a: nat, b: nat :: Balanced(s, a, b) ==> b - a <= j - i
    ensures PrefixMin(s, i) || SuffixMin(s, j)
  {
    if !PrefixMin(s, i) && !SuffixMin(s, j) {
      var a, b := Longer(s, i, j);
    }
  }

  /** The right pass, started from the left pass's maximum, ends with the longest length. */
  lemma TwoPassLongest(s: string)
    ensures RightPass(s, 0, LeftPass(s, |s|).max).max == MaxBest(s, |s|)
  {
    var max0 := LeftPass(s, |s|).max;
    var c := RightPass(s, 0, max0);
    var longest := MaxBest(s, |s|);
    LeftPassState(s, |s|);
    RightPassFound(s, 0, max0);
    RightPassCovers(s, 0, max0);
    RightPassMax(s, 0, max0);
    MaxBestBounds(s, |s|);
    var a: nat, b: nat :| Balanced(s, a, b) && b - a == c.max;
    assert c.max <= longest;
    var i: nat, j: nat :| i <= j <= |s| && Balanced(s, i, j) && j - i == longest;
    Covered(s, i, j);
    if PrefixMin(s, i) {
      assert longest <= max0;
    } else {
      assert longest <= c.max;
    }
  }

  /**
   * `longestValidParenthesesTwoPass`: count '(' and ')' left to right,
   * recording a length when they are equal and starting afresh when ')'
   * outnumbers '('; then the same right to left with the roles swapped.
   */
  method LongestTwoPass(s: string) returns (max: int)
    requires Parens(s)
    ensures IsLongest(s, max)
  {
    var left := 0;
    var right := 0;
    max := 0;
    for i := 0 to |s|
      invariant Counts(left, right, max) == LeftPass(s, i)
    {
      if s[i] == '(' {
        left := left + 1;
      } else {
        right := right + 1;
      }
      if left == right {
        max := Max(max, 2 * right);
      } else if right > left {
        left, right := 0, 0;
      }
    }
    ghost var max0 := max;
    left, right := 0, 0;
    for i := |s| downto 0
      invariant Counts(left, right, max) == RightPass(s, i, max0)
    {
      if s[i] == '(' {
        left := left + 1;
      } else {
        right := right + 1;
      }
      if left == right {
        max := Max(max, 2 * left);
      } else if left > right {
        left, right := 0, 0;
      }
    }
    TwoPassLongest(s);
    MaxBestIsLongest(s);
  }

  // ---------------------------------------------------------------------------
  // What every answer satisfies, and the three solutions agree

  /** The answer is unique, even, at most the length of the string, and 0 for the empty string. */
  lemma LongestShape(s: string, m: int, m': int)
    requires IsLongest(s, m) && IsLongest(s, m')
    ensures m == m'
    ensures m % 2 == 0 && 0 <= m <= |s|
    ensures s == "" ==> m == 0
  {
    var i: nat, j: nat :| i <= j <= |s| && Valid(s[i..j]) && j - i == m;
    ValidIff(s, i, j);
    BalancedEven(s, i, j);
    var i': nat, j': nat :| i' <= j' <= |s| && Valid(s[i'..j']) && j' - i' == m';
  }

  /** The stack, the table and the two passes return the same, even length on every string of parentheses. */
  method Agree(s: string) returns (a: int, b: int, c: int)
    requires Parens(s)
    ensures a == b == c && a % 2 == 0 && 0 <= a <= |s|
  {
    a := LongestStack(s);
    b := LongestDP(s);
    c := LongestTwoPass(s);
    LongestShape(s, a, b);
    LongestShape(s, a, c);
  }

  // ---------------------------------------------------------------------------
  // Samples

  /** Each substring counted as well-formed is balanced and of even length. */
  lemma Even(s: string, i: nat, j: nat)
    requires i <= j <= |s| && Valid(s[i..j])
    ensures Balanced(s, i, j) && (j - i) % 2 == 0
  {
    ValidIff(s, i, j);
    BalancedEven(s, i, j);
  }

  lemma OpenOpenClose()
    ensures IsLongest("(()", 2)
  {
    var s := "(()";
    assert Balanced(s, 1, 3) by {
      forall m | 1 <= m <= 3
        ensures H(s, m) >= H(s, 1)
      {
        assert m == 1 || m == 2 || m == 3;
      }
    }
    ValidIff(s, 1, 3);
    forall i: nat, j: nat | i <= j <= |s| && Valid(s[i..j])
      ensures j - i <= 2
    {
      Even(s, i, j);
    }
  }

  lemma CloseBothEnds()
    ensures IsLongest(")()())", 4)
  {
    var s := ")()())";
    assert Balanced(s, 1, 5) by {
      forall m | 1 <= m <= 5
        ensures H(s, m) >= H(s, 1)
      {
        assert m == 1 || m == 2 || m == 3 || m == 4 || m == 5;
      }
    }
    ValidIff(s, 1, 5);
    assert H(s, 1) == -1;
    forall i: nat, j: nat | i <= j <= |s| && Valid(s[i..j])
      ensures j - i <= 4
    {
      Even(s, i, j);
    }
  }

  lemma EmptyString()
    ensures IsLongest("", 0)
  {
    assert Valid(""[0..0]);
  }

  lemma PairThenOpen()
    ensures IsLongest("()(()", 2)
  {
    var s := "()(()";
    assert Balanced(s, 0, 2) by {
      forall m | 0 <= m <= 2
        ensures H(s, m) >= H(s, 0)
      {
        assert m == 0 || m == 1 || m == 2;
      }
    }
    ValidIff(s, 0, 2);
    assert H(s, 1) == 1 && H(s, 2) == 0 && H(s, 4) == 2;
    forall i: nat, j: nat | i <= j <= |s| && Valid(s[i..j])
      ensures j - i <= 2
    {
      Even(s, i, j);
    }
  }

  lemma NestedPairs()
    ensures IsLongest("()(())", 6)
  {
    var s := "()(())";
    assert s[0..6] == s;
    assert Valid(s[0..6]);
    forall i: nat, j: nat | i <= j <= |s| && Valid(s[i..j])
      ensures j - i <= 6
    {
    }
  }

  /** The first two samples of the source, through each solution. */
  method Samples() returns (a: int, b: int, c: int, d: int)
    ensures a == 2 && b == 4 && c == 2 && d == 6
  {
    a := LongestStack("(()");
    OpenOpenClose();
    LongestShape("(()", a, 2);
    b := LongestDP(")()())");
    CloseBothEnds();
    LongestShape(")()())", b, 4);
    c := LongestTwoPass("()(()");
    PairThenOpen();
    LongestShape("()(()", c, 2);
    d := LongestTwoPass("()(())");
    NestedPairs();
    LongestShape("()(())", d, 6);
  }
}
