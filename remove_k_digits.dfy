/**
 * Remove k digits: drop `k` digits from a number written in decimal so that
 * what is left is as small as possible. A stack keeps the digits so far;
 * while removals remain, every top larger than the incoming digit is popped
 * before the digit is pushed, any removals left over come off the end, and
 * leading zeros are stripped from what remains.
 */
module RemoveKDigits {
  /** The stack of kept digits and the removals still allowed. */
  datatype State = State(stack: seq<char>, k: int)

  /** The inner loop: pops every top larger than `d` while removals remain. */
  function Pop(stack: seq<char>, k: int, d: char): State
    decreases |stack|
  {
    if k > 0 && |stack| > 0 && stack[|stack| - 1] > d then Pop(stack[..|stack| - 1], k - 1, d)
    else State(stack, k)
  }

  /** One digit of the number: pop, then push it. */
  function Push(s: State, d: char): State
  {
    var p := Pop(s.stack, s.k, d);
    State(p.stack + [d], p.k)
  }

  /** The state after the first loop has read `num`. */
  function Scan(num: string, k: int): State
  {
    if num == [] then State([], k) else Push(Scan(num[..|num| - 1], k), num[|num| - 1])
  }

  /** The second loop: `k` more pops, a pop of the empty stack doing nothing. */
  function DropTail(stack: seq<char>, k: int): seq<char>
  {
    if k <= 0 then stack else if |stack| <= k then [] else stack[..|stack| - k]
  }

  /** The digits kept, before the leading zeros go. */
  function Kept(num: string, k: int): seq<char>
  {
    var s := Scan(num, k);
    DropTail(s.stack, s.k)
  }

  /** How many leading zeros are stripped: all of them, but never the last character. */
  function LeadingZeros(s: string): (i: nat)
    ensures i <= |s| && (s != [] ==> i < |s|)
  {
    if |s| <= 1 || s[0] != '0' then 0 else 1 + LeadingZeros(s[1..])
  }

  /** `removeKdigits(num, k)`. */
  function RemoveK(num: string, k: int): string
  {
    var kept := Kept(num, k);
    var result := kept[LeadingZeros(kept)..];
    if result == [] then "0" else result
  }

  // ---------------------------------------------------------------------------
  // The method

  /**
   * `removeKdigits(num, k)`: the stack loop, the pops of the removals left
   * over, and the stripping of leading zeros, with "0" for an empty result.
   * On a number of digits with `0 <= k <= |num|` the result is the smallest
   * number any choice of `k` digits to drop leaves.
   */
  method RemoveKdigits(num: string, k: int) returns (r: string)
    ensures r == RemoveK(num, k)
    ensures Digits(num) && 0 <= k <= |num| ==>
              forall w :: IsSub(w, num) && |w| == |num| - k ==> Value(r) <= Value(w)
  {
    var stack, left := ScanDigits(num, k);
    stack := PopLeft(stack, left);
    var result := StripZeros(stack);
    r := if |result| == 0 then "0" else result;
    if Digits(num) && 0 <= k <= |num| {
      forall w | IsSub(w, num) && |w| == |num| - k
        ensures Value(r) <= Value(w)
      {
        RemoveKSmallest(num, k, w);
      }
    }
  }

  /** The first loop: each digit pops the larger tops while removals remain, then is pushed. */
  method ScanDigits(num: string, k: int) returns (stack: seq<char>, left: int)
    ensures State(stack, left) == Scan(num, k)
  {
    stack, left := [], k;
    for n := 0 to |num|
      invariant State(stack, left) == Scan(num[..n], k)
    {
      var digit := num[n];
      assert num[..n + 1][..n] == num[..n];
      ghost var before := Pop(stack, left, digit);
      while left > 0 && |stack| > 0 && stack[|stack| - 1] > digit
        invariant Pop(stack, left, digit) == before
        decreases |stack|
      {
        stack := stack[..|stack| - 1];
        left := left - 1;
      }
      stack := stack + [digit];
    }
    assert num[..|num|] == num;
  }

  /** The second loop: the removals left over come off the end. */
  method PopLeft(stack: seq<char>, left: int) returns (kept: seq<char>)
    ensures kept == DropTail(stack, left)
  {
    kept := stack;
    var rest := left;
    while rest > 0
      invariant DropTail(kept, rest) == DropTail(stack, left)
    {
      if |kept| > 0 {
        kept := kept[..|kept| - 1];
      }
      rest := rest - 1;
    }
  }

  /** The third loop: leading zeros go, but never the last character. */
  method StripZeros(result: seq<char>) returns (stripped: seq<char>)
    ensures stripped == result[LeadingZeros(result)..]
  {
    var i := 0;
    while i < |result| - 1 && result[i] == '0'
      invariant 0 <= i <= |result| && (result != [] ==> i < |result|)
      invariant LeadingZeros(result) == i + LeadingZeros(result[i..])
    {
      assert result[i..][1..] == result[i + 1..];
      i := i + 1;
    }
    stripped := result[i..];
  }

  // ---------------------------------------------------------------------------
  // What the kept digits are

  /** `a` is `b` with some characters left out, the rest in their order. */
  predicate IsSub(a: seq<char>, b: seq<char>)
    decreases |b|
  {
    if a == [] then true
    else if b == [] then false
    else (a[|a| - 1] == b[|b| - 1] && IsSub(a[..|a| - 1], b[..|b| - 1])) || IsSub(a, b[..|b| - 1])
  }

  predicate Sorted(s: seq<char>)
  {
    forall i, j :: 0 <= i < j < |s| ==> s[i] <= s[j]
  }

  lemma SubPush(a: seq<char>, b: seq<char>, c: char)
    requires IsSub(a, b)
    ensures IsSub(a + [c], b + [c])
  {
    assert (a + [c])[..|a|] == a && (b + [c])[..|b|] == b;
  }

  /** A subsequence of part of `b` is one of `b`. */
  lemma SubExtend(a: seq<char>, b: seq<char>)
    requires b != [] && IsSub(a, b[..|b| - 1])
    ensures IsSub(a, b)
  {
  }

  /** The first `j` characters of a subsequence are a subsequence. */
  lemma {:induction false} SubPrefix(a: seq<char>, b: seq<char>, j: nat)
    requires IsSub(a, b) && j <= |a|
    ensures IsSub(a[..j], b)
    decreases |b|
  {
    if j == |a| {
      assert a[..j] == a;
    } else if b != [] {
      var b' := b[..|b| - 1];
      if a[|a| - 1] == b[|b| - 1] && IsSub(a[..|a| - 1], b') {
        SubPrefix(a[..|a| - 1], b', j);
        assert a[..|a| - 1][..j] == a[..j];
      } else {
        SubPrefix(a, b', j);
      }
      SubExtend(a[..j], b);
    }
  }

  /**
   * The inner loop pops from the top and spends one removal per pop; when
   * removals remain afterwards, the top is no larger than the incoming digit.
   */
  lemma {:induction false} PopShape(stack: seq<char>, k: int, d: char)
    ensures var p := Pop(stack, k, d);
            && |p.stack| <= |stack| && p.stack == stack[..|p.stack|]
            && |stack| - |p.stack| == k - p.k
            && (k <= 0 ==> p.k == k) && (k >= 0 ==> 0 <= p.k <= k)
            && (p.k > 0 && p.stack != [] ==> p.stack[|p.stack| - 1] <= d)
    decreases |stack|
  {
    if k > 0 && |stack| > 0 && stack[|stack| - 1] > d {
      var s' := stack[..|stack| - 1];
      PopShape(s', k - 1, d);
      var p := Pop(s', k - 1, d);
      assert s'[..|p.stack|] == stack[..|p.stack|];
    }
  }

  /** Popping leaves a prefix of the stack. */
  lemma PopPrefix(stack: seq<char>, k: int, d: char)
    ensures |Pop(stack, k, d).stack| <= |stack| && Pop(stack, k, d).stack == stack[..|Pop(stack, k, d).stack|]
  {
    PopShape(stack, k, d);
  }

  /** One digit of the number keeps the stack a subsequence. */
  lemma PushSub(s: State, init: string, d: char)
    requires IsSub(s.stack, init)
    ensures IsSub(Push(s, d).stack, init + [d])
  {
    var p := Pop(s.stack, s.k, d);
    PopPrefix(s.stack, s.k, d);
    SubPrefix(s.stack, init, |p.stack|);
    SubPush(p.stack, init, d);
  }

  /** After the first loop the stack is a subsequence of the number. */
  lemma {:induction false} ScanSub(num: string, k: int)
    ensures IsSub(Scan(num, k).stack, num)
    decreases |num|
  {
    if num != [] {
      var init, d := num[..|num| - 1], num[|num| - 1];
      ScanSub(init, k);
      PushSub(Scan(init, k), init, d);
      assert init + [d] == num;
    }
  }

  /** Each removal spent took one digit out; none is spent when `k <= 0`. */
  lemma {:induction false} ScanCount(num: string, k: int)
    ensures var s := Scan(num, k);
            && |s.stack| == |num| - (k - s.k)
            && (k <= 0 ==> s.k == k) && (k >= 0 ==> 0 <= s.k <= k)
    decreases |num|
  {
    if num != [] {
      var init, d := num[..|num| - 1], num[|num| - 1];
      ScanCount(init, k);
      var s := Scan(init, k);
      PopShape(s.stack, s.k, d);
    }
  }

  /** While removals remain, the stack is in ascending order. */
  lemma {:induction false} ScanSorted(num: string, k: int)
    ensures Scan(num, k).k > 0 ==> Sorted(Scan(num, k).stack)
    decreases |num|
  {
    if num != [] {
      var init, d := num[..|num| - 1], num[|num| - 1];
      ScanSorted(init, k);
      ScanNext(init, num, k, d);
      SortedStep(Scan(init, k), d);
    }
  }

  /** One digit keeps the stack ascending while removals remain. */
  lemma SortedStep(st: State, d: char)
    requires st.k > 0 ==> Sorted(st.stack)
    ensures Push(st, d).k > 0 ==> Sorted(Push(st, d).stack)
  {
    PopShape(st.stack, st.k, d);
    var p := Pop(st.stack, st.k, d);
    if p.k > 0 {
      SortedPush(st.stack, |p.stack|, d);
    }
  }

  lemma SortedPush(stack: seq<char>, j: nat, d: char)
    requires Sorted(stack) && j <= |stack| && (j > 0 ==> stack[j - 1] <= d)
    ensures Sorted(stack[..j] + [d])
  {
  }

  /**
   * Exactly `k` digits are dropped when `0 <= k <= |num|`; all of them when
   * `k` is larger; none when `k <= 0`. What is kept is a subsequence of the
   * number.
   */
  lemma KeptShape(num: string, k: int)
    ensures IsSub(Kept(num, k), num)
    ensures |Kept(num, k)| == if k <= 0 then |num| else if k >= |num| then 0 else |num| - k
  {
    ScanSub(num, k);
    ScanCount(num, k);
    var s := Scan(num, k);
    if s.k > 0 && |s.stack| > s.k {
      SubPrefix(s.stack, num, |s.stack| - s.k);
    }
  }

  /**
   * The result is never empty; only leading zeros of the kept digits are
   * dropped, and all of them but a last character; an empty stack gives "0".
   */
  lemma StripShape(num: string, k: int)
    ensures var kept, r := Kept(num, k), RemoveK(num, k);
            && r != []
            && (kept == [] ==> r == "0")
            && (kept != [] ==> |r| <= |kept| && r == kept[|kept| - |r|..]
                               && forall j :: 0 <= j < |kept| - |r| ==> kept[j] == '0')
            && (|r| > 1 ==> r[0] != '0')
  {
    var kept := Kept(num, k);
    ZerosShape(kept);
  }

  lemma {:induction false} ZerosShape(s: string)
    ensures forall j :: 0 <= j < LeadingZeros(s) ==> s[j] == '0'
    ensures |s| - LeadingZeros(s) > 1 ==> s[LeadingZeros(s)] != '0'
    decreases |s|
  {
    if |s| > 1 && s[0] == '0' {
      ZerosShape(s[1..]);
      assert s[1..][LeadingZeros(s[1..])..] == s[LeadingZeros(s)..];
    }
  }

  function Pow10(n: nat): nat
  {
    if n == 0 then 1 else 10 * Pow10(n - 1)
  }

  /** The number a string of decimal digits stands for, most significant digit first. */
  function Value(s: string): int
  {
    if s == [] then 0 else ((s[0] as int) - ('0' as int)) * Pow10(|s| - 1) + Value(s[1..])
  }

  /** Stripping leading zeros does not change the number the kept digits stand for. */
  lemma StripKeepsValue(num: string, k: int)
    ensures Value(RemoveK(num, k)) == Value(Kept(num, k))
  {
    var kept := Kept(num, k);
    ZerosShape(kept);
    ZerosValue(kept, LeadingZeros(kept));
  }

  lemma {:induction false} ZerosValue(s: string, i: nat)
    requires i <= |s| && forall j :: 0 <= j < i ==> s[j] == '0'
    ensures Value(s[i..]) == Value(s)
  {
    if i > 0 {
      ZerosValue(s[1..], i - 1);
      assert s[1..][i - 1..] == s[i..];
    }
  }

  // ---------------------------------------------------------------------------
  // The kept digits are the smallest choice

  /**
   * `a` comes strictly before `b` in dictionary order: both have the same
   * length, and at their first difference `a` has the smaller character.
   */
  predicate Before(a: seq<char>, b: seq<char>)
  {
    |a| == |b| && exists i :: 0 <= i < |a| && a[..i] == b[..i] && a[i] < b[i]
  }

  /** `a` is `b` or comes before it. */
  predicate NotAfter(a: seq<char>, b: seq<char>)
  {
    a == b || Before(a, b)
  }

  lemma BeforeAppend(a: seq<char>, b: seq<char>, x: char, y: char)
    requires Before(a, b)
    ensures Before(a + [x], b + [y])
  {
    var i :| 0 <= i < |a| && a[..i] == b[..i] && a[i] < b[i];
    assert (a + [x])[..i] == a[..i] && (b + [y])[..i] == b[..i];
  }

  /** Equal heads: the last characters decide. */
  lemma LastDecides(a: seq<char>, x: char, y: char)
    requires x < y
    ensures Before(a + [x], a + [y])
  {
    assert (a + [x])[..|a|] == a == (a + [y])[..|a|];
  }

  lemma NotAfterAppend(a: seq<char>, b: seq<char>, x: char, y: char)
    requires |a| == |b| && NotAfter(a, b) && x <= y
    ensures NotAfter(a + [x], b + [y])
  {
    if a != b {
      BeforeAppend(a, b, x, y);
    } else if x < y {
      LastDecides(a, x, y);
    }
  }

  /** Cutting two ordered sequences at the same length keeps them ordered. */
  lemma NotAfterPrefix(a: seq<char>, b: seq<char>, n: nat)
    requires NotAfter(a, b) && n <= |a|
    ensures NotAfter(a[..n], b[..n])
  {
    if a != b {
      var i :| 0 <= i < |a| && a[..i] == b[..i] && a[i] < b[i];
      if i < n {
        assert a[..n][..i] == a[..i] && b[..n][..i] == b[..i];
        assert a[..n][i] == a[i] && b[..n][i] == b[i];
      } else {
        assert a[..n] == a[..i][..n] && b[..n] == b[..i][..n];
      }
    }
  }

  lemma BeforeTrans(a: seq<char>, b: seq<char>, c: seq<char>)
    requires Before(a, b) && NotAfter(b, c)
    ensures Before(a, c)
  {
    if b != c {
      var i :| 0 <= i < |a| && a[..i] == b[..i] && a[i] < b[i];
      var j :| 0 <= j < |b| && b[..j] == c[..j] && b[j] < c[j];
      var t := if i < j then i else j;
      assert a[..t] == a[..i][..t] == b[..i][..t] == b[..t];
      assert b[..t] == b[..j][..t] == c[..j][..t] == c[..t];
      if i < j {
        assert b[i] == b[..j][i] == c[..j][i] == c[i];
      } else if j < i {
        assert a[j] == a[..i][j] == b[..i][j] == b[j];
      }
    }
  }

  /**
   * `s` leads `w`: on their common length `s` is not after `w`, and it is
   * strictly before it when `w` is the longer.
   */
  predicate Leads(s: seq<char>, w: seq<char>)
  {
    var m := if |w| < |s| then |w| else |s|;
    NotAfter(s[..m], w[..m]) && (|w| > |s| ==> Before(s, w[..|s|]))
  }

  /**
   * An incoming digit `d` that pops the tops from `q` on (each larger than
   * `d`) and is pushed, against a subsequence `w` that leaves `d` out.
   */
  lemma SkipDigit(s: seq<char>, q: nat, d: char, w: seq<char>)
    requires q <= |s| && (q < |s| ==> d < s[q]) && Leads(s, w)
    ensures Leads(s[..q] + [d], w)
  {
    if |w| <= q {
      assert (s[..q] + [d])[..|w|] == s[..|w|];
    } else if q == |s| {
      Overtake(s, d, w);
      assert (s[..q] + [d])[..q + 1] == s[..q] + [d];
    } else {
      CutBelow(s, q, d, w);
      assert (s[..q] + [d])[..q + 1] == s[..q] + [d];
    }
  }

  /** Nothing popped, and `w` longer than the stack: `s` is already strictly before `w`. */
  lemma Overtake(s: seq<char>, d: char, w: seq<char>)
    requires |w| > |s| && Before(s, w[..|s|])
    ensures Before(s[..|s|] + [d], w[..|s| + 1])
  {
    assert s[..|s|] == s;
    assert w[..|s|] + [w[|s|]] == w[..|s| + 1];
    BeforeAppend(s, w[..|s|], d, w[|s|]);
  }

  /** Something popped, and `w` reaches past the cut: the smaller `d` puts the new stack strictly before `w`. */
  lemma CutBelow(s: seq<char>, q: nat, d: char, w: seq<char>)
    requires q < |s| && d < s[q] && |w| > q && Leads(s, w)
    ensures Before(s[..q] + [d], w[..q + 1])
  {
    var t := s[..q] + [d];
    var m := if |w| < |s| then |w| else |s|;
    NotAfterPrefix(s[..m], w[..m], q + 1);
    assert s[..m][..q + 1] == s[..q + 1] && w[..m][..q + 1] == w[..q + 1];
    LastDecides(s[..q], d, s[q]);
    assert s[..q] + [s[q]] == s[..q + 1];
    BeforeTrans(t, s[..q + 1], w[..q + 1]);
  }

  /**
   * The same step against a subsequence `w + [d]` that takes `d` last. When
   * `w` is shorter than what is kept, removals remain, so the stack is
   * ascending and its new top is at most `d`.
   */
  lemma TakeDigit(s: seq<char>, q: nat, d: char, w: seq<char>)
    requires q <= |s| && (q < |s| ==> d < s[q]) && Leads(s, w)
    requires |w| < q ==> Sorted(s) && s[q - 1] <= d
    ensures Leads(s[..q] + [d], w + [d])
  {
    var t, v := s[..q] + [d], w + [d];
    if |w| < q {
      TakeBelow(s, q, d, w);
      assert v[..|w| + 1] == v;
    } else if |w| == q {
      assert w[..q] == w && t[..q + 1] == t && v[..q + 1] == v;
      NotAfterAppend(s[..q], w, d, d);
    } else if q == |s| {
      Overtake(s, d, w);
      assert w[..|s| + 1] == v[..|s| + 1] && t[..q + 1] == t;
    } else {
      CutBelow(s, q, d, w);
      assert w[..q + 1] == v[..q + 1] && t[..q + 1] == t;
    }
  }

  /** `w + [d]` shorter than the new stack: the ascending stack's next character is at most `d`. */
  lemma TakeBelow(s: seq<char>, q: nat, d: char, w: seq<char>)
    requires |w| < q <= |s| && Sorted(s) && s[q - 1] <= d && NotAfter(s[..|w|], w)
    ensures NotAfter((s[..q] + [d])[..|w| + 1], w + [d])
  {
    assert s[|w|] <= s[q - 1];
    assert s[..|w|] + [s[|w|]] == s[..|w| + 1] == (s[..q] + [d])[..|w| + 1];
    NotAfterAppend(s[..|w|], w, s[|w|], d);
  }

  /** The tops the inner loop pops are larger than the incoming digit; the first one kept is where it stopped. */
  lemma {:induction false} PopStops(stack: seq<char>, k: int, d: char)
    ensures var q := |Pop(stack, k, d).stack|;
            q <= |stack| && (q < |stack| ==> stack[q] > d)
    decreases |stack|
  {
    if k > 0 && |stack| > 0 && stack[|stack| - 1] > d {
      var s' := stack[..|stack| - 1];
      PopStops(s', k - 1, d);
    }
  }

  lemma Snoc(w: seq<char>)
    requires w != []
    ensures w == w[..|w| - 1] + [w[|w| - 1]]
  {
  }

  /** A subsequence of `p + [d]` either takes `d` last or is a subsequence of `p`. */
  lemma SubLast(w: seq<char>, p: seq<char>, d: char)
    requires IsSub(w, p + [d]) && w != []
    ensures (w[|w| - 1] == d && IsSub(w[..|w| - 1], p)) || IsSub(w, p)
  {
    assert (p + [d])[..|p|] == p;
  }

  /**
   * The stack after reading `p` leads every subsequence of `p` that drops
   * at most `k` digits.
   */
  ghost predicate Least(p: seq<char>, k: int, s: seq<char>)
  {
    forall w :: IsSub(w, p) && |p| - |w| <= k ==> Leads(s, w)
  }

  /**
   * Against one subsequence `w'` of `p + [d]` that drops at most `k` digits:
   * the stack cut at `q` with `d` pushed leads it; `left` removals remain
   * after the pops, and while some remain the stack is ascending with a top
   * at most `d`.
   */
  lemma PushLeads(p: seq<char>, k: int, s: seq<char>, q: nat, left: int, d: char, w': seq<char>)
    requires Least(p, k, s) && q <= |s| && (q < |s| ==> d < s[q])
    requires q == |p| - k + left
    requires left > 0 ==> Sorted(s) && (q > 0 ==> s[q - 1] <= d)
    requires IsSub(w', p + [d]) && |p| + 1 - |w'| <= k
    ensures Leads(s[..q] + [d], w')
  {
    if w' == [] {
      assert (s[..q] + [d])[..0] == w'[..0];
    } else {
      SubLast(w', p, d);
      var w := w'[..|w'| - 1];
      if w'[|w'| - 1] == d && IsSub(w, p) {
        assert Leads(s, w);
        Snoc(w');
        TakeDigit(s, q, d, w);
      } else {
        assert Leads(s, w');
        SkipDigit(s, q, d, w');
      }
    }
  }

  /** Reading one more digit keeps the stack leading. */
  lemma LeastPush(p: seq<char>, k: int, st: State, d: char)
    requires Least(p, k, st.stack) && |st.stack| == |p| - (k - st.k)
    requires (k <= 0 ==> st.k == k) && (k >= 0 ==> 0 <= st.k <= k)
    requires st.k > 0 ==> Sorted(st.stack)
    ensures Least(p + [d], k, Push(st, d).stack)
  {
    var s := st.stack;
    var popped := Pop(s, st.k, d);
    var q := |popped.stack|;
    PopShape(s, st.k, d);
    PopStops(s, st.k, d);
    assert Push(st, d).stack == s[..q] + [d];
    forall w' | IsSub(w', p + [d]) && |p + [d]| - |w'| <= k
      ensures Leads(s[..q] + [d], w')
    {
      PushLeads(p, k, s, q, popped.k, d, w');
    }
  }

  /** After the first loop the stack leads every subsequence of the number that drops at most `k` digits. */
  lemma {:induction false} ScanLeast(num: string, k: int)
    ensures Least(num, k, Scan(num, k).stack)
    decreases |num|
  {
    if num == [] {
      forall w | IsSub(w, num) && |num| - |w| <= k
        ensures Leads([], w)
      {
      }
    } else {
      var init, d := num[..|num| - 1], num[|num| - 1];
      ScanLeast(init, k);
      ScanCount(init, k);
      ScanSorted(init, k);
      LeastPush(init, k, Scan(init, k), d);
      assert init + [d] == num;
    }
  }

  /** When exactly `k` digits are to go, what is kept is the bottom of the stack. */
  lemma KeptBottom(num: string, k: int)
    requires 0 <= k <= |num|
    ensures |num| - k <= |Scan(num, k).stack| && Kept(num, k) == Scan(num, k).stack[..|num| - k]
  {
    ScanCount(num, k);
    var s := Scan(num, k);
    if s.k == 0 {
      assert s.stack[..|num| - k] == s.stack;
    }
  }

  /** The kept digits come first in dictionary order among all ways of dropping exactly `k` digits. */
  lemma KeptLeast(num: string, k: int, w: seq<char>)
    requires 0 <= k <= |num| && IsSub(w, num) && |w| == |num| - k
    ensures NotAfter(Kept(num, k), w)
  {
    ScanLeast(num, k);
    KeptBottom(num, k);
    var s := Scan(num, k).stack;
    assert Leads(s, w);
    assert NotAfter(s[..|w|], w[..|w|]);
    assert w[..|w|] == w;
  }

  /** Every character is a decimal digit. */
  predicate Digits(s: string)
  {
    forall i :: 0 <= i < |s| ==> '0' <= s[i] <= '9'
  }

  lemma {:induction false} SubDigits(w: string, num: string)
    requires IsSub(w, num) && Digits(num)
    ensures Digits(w)
    decreases |num|
  {
    if w != [] {
      var init := num[..|num| - 1];
      if w[|w| - 1] == num[|num| - 1] && IsSub(w[..|w| - 1], init) {
        SubDigits(w[..|w| - 1], init);
        assert forall i :: 0 <= i < |w| - 1 ==> w[i] == w[..|w| - 1][i];
      } else {
        SubDigits(w, init);
      }
    }
  }

  /** `n` digits stand for less than 10^n. */
  lemma {:induction false} ValueBound(s: string)
    requires Digits(s)
    ensures 0 <= Value(s) < Pow10(|s|)
  {
    if s != [] {
      var rest := s[1..];
      assert Digits(rest) by {
        forall i | 0 <= i < |rest| ensures '0' <= rest[i] <= '9' {
          assert rest[i] == s[i + 1];
        }
      }
      ValueBound(rest);
      var x, p := (s[0] as int) - ('0' as int), Pow10(|s| - 1);
      assert Value(s) == x * p + Value(rest) && Pow10(|s|) == 10 * p;
      DigitPlace(x, p, Value(rest));
    }
  }

  /** A digit in place `p`, followed by less than `p`, is less than `10 * p`. */
  lemma DigitPlace(x: int, p: int, r: int)
    requires 0 <= x <= 9 && 0 <= r < p
    ensures 0 <= x * p + r < 10 * p
  {
    assert 10 * p == x * p + (10 - x) * p;
    assert (10 - x) * p >= p;
  }

  /** A smaller leading digit wins whatever follows it. */
  lemma HeadDecides(x: int, y: int, p: int, ra: int, rb: int)
    requires x < y && 0 <= ra < p && 0 <= rb
    ensures x * p + ra <= y * p + rb
  {
    var e := y - x;
    assert e * p == p + (e - 1) * p;
    assert (e - 1) * p >= 0;
    assert y * p == x * p + e * p;
  }

  /** A first difference after the first place: the heads agree and the tails keep the order. */
  lemma SameHead(a: string, b: string, i: nat)
    requires 0 < i < |a| == |b| && a[..i] == b[..i] && a[i] < b[i] && Digits(a) && Digits(b)
    ensures a[0] == b[0] && NotAfter(a[1..], b[1..]) && Digits(a[1..]) && Digits(b[1..])
  {
    assert a[0] == a[..i][0] == b[..i][0] == b[0];
    assert a[1..][..i - 1] == a[..i][1..] == b[..i][1..] == b[1..][..i - 1];
    assert a[1..][i - 1] < b[1..][i - 1];
    assert forall j :: 0 <= j < |a| - 1 ==> a[1..][j] == a[j + 1] && b[1..][j] == b[j + 1];
  }

  /** Between digit strings of one length, dictionary order is the order of the numbers. */
  lemma {:induction false} ValueMonotone(a: string, b: string)
    requires |a| == |b| && Digits(a) && Digits(b) && NotAfter(a, b)
    ensures Value(a) <= Value(b)
    decreases |a|
  {
    if a != b {
      var i :| 0 <= i < |a| && a[..i] == b[..i] && a[i] < b[i];
      var p := Pow10(|a| - 1);
      var x, y := (a[0] as int) - ('0' as int), (b[0] as int) - ('0' as int);
      assert Value(a) == x * p + Value(a[1..]) && Value(b) == y * p + Value(b[1..]);
      if i == 0 {
        ValueBound(a[1..]);
        ValueBound(b[1..]);
        HeadDecides(x, y, p, Value(a[1..]), Value(b[1..]));
      } else {
        SameHead(a, b, i);
        ValueMonotone(a[1..], b[1..]);
      }
    }
  }

  /**
   * `removeKdigits` returns the smallest possible number: no way of dropping
   * `k` digits of `num` leaves a smaller one, and the digits it keeps are one
   * such way.
   */
  lemma RemoveKSmallest(num: string, k: int, w: string)
    requires Digits(num) && 0 <= k <= |num|
    requires IsSub(w, num) && |w| == |num| - k
    ensures Value(RemoveK(num, k)) <= Value(w)
  {
    KeptLeast(num, k, w);
    KeptShape(num, k);
    SubDigits(Kept(num, k), num);
    SubDigits(w, num);
    ValueMonotone(Kept(num, k), w);
    StripKeepsValue(num, k);
  }

  /** The smallest value is reached: the kept digits drop exactly `k` digits and stand for the result's number. */
  lemma RemoveKAttained(num: string, k: int)
    requires 0 <= k <= |num|
    ensures IsSub(Kept(num, k), num) && |Kept(num, k)| == |num| - k
    ensures Value(RemoveK(num, k)) == Value(Kept(num, k))
  {
    KeptShape(num, k);
    StripKeepsValue(num, k);
  }

  /** Reading one more digit is one more step. */
  lemma ScanNext(num: string, next: string, k: int, d: char)
    requires next == num + [d]
    ensures Scan(next, k) == Push(Scan(num, k), d)
  {
    assert next[..|num|] == num;
  }

  /** Reading one more digit from a known state. */
  lemma ScanStep(num: string, next: string, k: int, d: char, before: State, after: State)
    requires next == num + [d] && Scan(num, k) == before && Push(before, d) == after
    ensures Scan(next, k) == after
  {
    ScanNext(num, next, k, d);
  }

  /** The first four digits of "1432219": the 4 and the 3 are popped. */
  lemma FirstFour()
    ensures Scan("1432", 3) == State("12", 1)
  {
    ScanStep([], "1", 3, '1', State([], 3), State("1", 3));
    ScanStep("1", "14", 3, '4', State("1", 3), State("14", 3));
    ScanStep("14", "143", 3, '3', State("14", 3), State("13", 2));
    ScanStep("143", "1432", 3, '2', State("13", 2), State("12", 1));
  }

  /** The fifth and sixth digits of "1432219": a 2 is popped and the removals run out. */
  lemma FirstSix()
    ensures Scan("143221", 3) == State("121", 0)
  {
    FirstFour();
    ScanStep("1432", "14322", 3, '2', State("12", 1), State("122", 1));
    ScanStep("14322", "143221", 3, '1', State("122", 1), State("121", 0));
  }

  /** The last digit of "1432219" is pushed. */
  lemma FirstSeven()
    ensures Scan("1432219", 3) == State("1219", 0)
  {
    FirstSix();
    ScanStep("143221", "1432219", 3, '9', State("121", 0), State("1219", 0));
  }

  /** "1432219" with 3 removals keeps "1219": the 4, the 3 and a 2 are popped. */
  lemma FirstSample()
    ensures RemoveK("1432219", 3) == "1219"
  {
    FirstSeven();
    assert Kept("1432219", 3) == "1219";
  }

  /** "10200" with 1 removal: "0200", whose leading zero goes, gives "200". */
  lemma ZeroSample()
    ensures RemoveK("10200", 1) == "200"
  {
    ScanNext([], "1", 1, '1');
    ScanNext("1", "10", 1, '0');
    assert Pop("1", 1, '0') == State([], 0);
    ScanNext("10", "102", 1, '2');
    ScanNext("102", "1020", 1, '0');
    ScanNext("1020", "10200", 1, '0');
    assert LeadingZeros("0200") == 1;
  }

  /** Removing every digit gives "0". */
  lemma RemoveAllSample()
    ensures RemoveK("10", 2) == "0"
  {
    ScanNext([], "1", 2, '1');
    ScanNext("1", "10", 2, '0');
    assert Pop("1", 2, '0') == State([], 1);
  }

  /** No removal keeps the number. */
  lemma NoRemovalSample()
    ensures RemoveK("123", 0) == "123"
  {
    ScanNext([], "1", 0, '1');
    ScanNext("1", "12", 0, '2');
    ScanNext("12", "123", 0, '3');
  }
}
