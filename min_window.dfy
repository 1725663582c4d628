/**
 * Minimum window substring: the shortest substring of `s` holding every
 * character of `t` at least as often as `t` does, found with a sliding
 * window, a count of the characters still wanted and a count of the
 * characters already satisfied. Ties keep the window found first.
 */
module MinimumWindow {
  import opened Wrappers

  /** A map lookup that reads a missing key as 0 (`get(c) || 0`). */
  function Get(m: map<char, int>, c: char): int
  {
    if c in m then m[c] else 0
  }

  /** `shop` lists every character of `t` with the number of times it occurs there. */
  ghost predicate ListOf(shop: map<char, int>, t: string)
  {
    forall c :: (c in shop <==> c in multiset(t)) && (c in shop ==> shop[c] == multiset(t)[c])
  }

  /** `s[i..j]` holds every character of `t` at least as often as `t` does. */
  ghost predicate Covers(s: string, t: string, i: int, j: int)
  {
    0 <= i <= j <= |s| && multiset(t) <= multiset(s[i..j])
  }

  /** No window covers `t`. */
  ghost predicate NoWindow(s: string, t: string)
  {
    forall i, j :: !Covers(s, t, i, j)
  }

  /** `s[b..b + n]` covers `t`, no covering window is shorter, and none of the same length starts earlier. */
  ghost predicate Smallest(s: string, t: string, b: int, n: int)
  {
    && Covers(s, t, b, b + n)
    && (forall i, j :: Covers(s, t, i, j) ==> n <= j - i)
    && (forall i, j :: Covers(s, t, i, j) && j - i == n ==> b <= i)
  }

  /** The shopping list: one count per character of `check`. */
  method ShoppingList(check: string) returns (shop: map<char, int>)
    ensures ListOf(shop, check)
  {
    shop := map[];
    for i := 0 to |check|
      invariant ListOf(shop, check[..i])
    {
      var letter := check[i];
      assert check[..i + 1] == check[..i] + [letter];
      shop := shop[letter := Get(shop, letter) + 1];
    }
    assert check[..|check|] == check;
  }

  // ---------------------------------------------------------------------------
  // The basket and the satisfied count

  /** The listed characters whose count in the basket has reached the listed count. */
  ghost function Satisfied(shop: map<char, int>, basket: map<char, int>): set<char>
  {
    set c | c in shop && Get(basket, c) >= shop[c]
  }

  /** The basket counts the listed characters of the window `s[l..r]` and nothing else. */
  ghost predicate Holds(s: string, shop: map<char, int>, basket: map<char, int>, l: int, r: int)
  {
    && 0 <= l <= r <= |s|
    && (forall c {:trigger c in basket} :: c in basket ==> c in shop)
    && (forall c {:trigger Get(basket, c)} :: c in shop ==> Get(basket, c) == multiset(s[l..r])[c])
  }

  lemma SubsetSize<T>(a: set<T>, b: set<T>)
    requires a <= b && |a| == |b|
    ensures a == b
  {
    assert b == a + (b - a);
    assert a * (b - a) == {};
  }

  /** All listed characters are satisfied exactly when the window covers `t`. */
  lemma AllSatisfied(s: string, t: string, shop: map<char, int>, basket: map<char, int>, l: int, r: int)
    requires ListOf(shop, t) && Holds(s, shop, basket, l, r)
    ensures |Satisfied(shop, basket)| == |shop| <==> Covers(s, t, l, r)
  {
    var sat := Satisfied(shop, basket);
    assert sat <= shop.Keys;
    if Covers(s, t, l, r) {
      assert shop.Keys <= sat;
      assert sat == shop.Keys;
    }
    if |sat| == |shop| {
      SubsetSize(sat, shop.Keys);
      forall c
        ensures multiset(t)[c] <= multiset(s[l..r])[c]
      {
        if c in multiset(t) {
          assert c in sat;
        }
      }
    }
  }

  /** Counting one more `x`: `x` becomes satisfied exactly when its count reaches the listed one. */
  lemma SatisfiedUp(shop: map<char, int>, basket: map<char, int>, basket': map<char, int>, x: char)
    requires x in shop && basket' == basket[x := Get(basket, x) + 1]
    ensures Get(basket', x) == shop[x] ==> Satisfied(shop, basket') == Satisfied(shop, basket) + {x}
    ensures Get(basket', x) == shop[x] ==> x !in Satisfied(shop, basket)
    ensures Get(basket', x) != shop[x] ==> Satisfied(shop, basket') == Satisfied(shop, basket)
  {
  }

  /** The character at `r` enters the window; the satisfied count grows when its count reaches the listed one. */
  lemma Enter(s: string, shop: map<char, int>, basket: map<char, int>, basket': map<char, int>,
              sat: int, sat': int, l: int, r: int)
    requires Holds(s, shop, basket, l, r) && r < |s| && sat == |Satisfied(shop, basket)|
    requires basket' == if s[r] in shop then basket[s[r] := Get(basket, s[r]) + 1] else basket
    requires sat' == if s[r] in shop && Get(basket', s[r]) == shop[s[r]] then sat + 1 else sat
    ensures Holds(s, shop, basket', l, r + 1) && sat' == |Satisfied(shop, basket')|
  {
    var x := s[r];
    assert s[l..r + 1] == s[l..r] + [x];
    if x in shop {
      SatisfiedUp(shop, basket, basket', x);
    }
    forall c | c in shop
      ensures Get(basket', c) == multiset(s[l..r + 1])[c]
    {
      assert Get(basket, c) == multiset(s[l..r])[c];
    }
    forall c | c in basket'
      ensures c in shop
    {
      if c != x {
        assert c in basket;
      }
    }
  }

  /** A listed character inside the window has a basket entry: the source's non-null `get`. */
  lemma InBasket(s: string, shop: map<char, int>, basket: map<char, int>, l: int, r: int)
    requires Holds(s, shop, basket, l, r) && l < r && s[l] in shop
    ensures s[l] in basket && basket[s[l]] >= 1
  {
    assert s[l..r] == [s[l]] + s[l + 1..r];
    assert Get(basket, s[l]) >= 1;
  }

  /** Counting one `x` less: `x` stops being satisfied exactly when its count was the listed one. */
  lemma SatisfiedDown(shop: map<char, int>, basket: map<char, int>, basket': map<char, int>, x: char)
    requires x in shop && basket' == basket[x := Get(basket, x) - 1]
    ensures Get(basket, x) == shop[x] ==> Satisfied(shop, basket) == Satisfied(shop, basket') + {x}
    ensures Get(basket, x) == shop[x] ==> x !in Satisfied(shop, basket')
    ensures Get(basket, x) != shop[x] ==> Satisfied(shop, basket') == Satisfied(shop, basket)
  {
  }

  /** The character at `l` leaves the window; the satisfied count drops when its count was exactly the listed one. */
  lemma Leave(s: string, shop: map<char, int>, basket: map<char, int>, basket': map<char, int>,
              sat: int, sat': int, l: int, r: int)
    requires Holds(s, shop, basket, l, r) && l < r && sat == |Satisfied(shop, basket)|
    requires basket' == if s[l] in shop then basket[s[l] := Get(basket, s[l]) - 1] else basket
    requires sat' == if s[l] in shop && Get(basket, s[l]) == shop[s[l]] then sat - 1 else sat
    ensures Holds(s, shop, basket', l + 1, r) && sat' == |Satisfied(shop, basket')|
  {
    var x := s[l];
    assert s[l..r] == [x] + s[l + 1..r];
    if x in shop {
      SatisfiedDown(shop, basket, basket', x);
    }
    forall c | c in shop
      ensures Get(basket', c) == multiset(s[l + 1..r])[c]
    {
      assert Get(basket, c) == multiset(s[l..r])[c];
    }
    forall c | c in basket'
      ensures c in shop
    {
      assert c in basket;
    }
  }


  // ---------------------------------------------------------------------------
  // The windows examined so far

  /** Widening a covering window keeps it covering. */
  lemma Widen(s: string, t: string, i: int, j: int, i': int, j': int)
    requires Covers(s, t, i, j) && 0 <= i' <= i && j <= j' <= |s|
    ensures Covers(s, t, i', j')
  {
    assert s[i'..j'] == s[i'..i] + s[i..j] + s[j..j'];
  }

  /** A covering window that ends before `end`, or ends at `end` and starts before `l`: one the scan has been past. */
  ghost predicate Seen(s: string, t: string, end: int, l: int, i: int, j: int)
  {
    Covers(s, t, i, j) && (j < end || (j == end && i < l))
  }

  /**
   * The best window recorded covers `t` within what has been scanned; no
   * window the scan has been past is shorter, and none of the same length
   * starts earlier. Nothing recorded means nothing seen.
   */
  ghost predicate Record(s: string, t: string, end: int, l: int, best: ExtInt, start: int)
  {
    && (best == PosInf || best.Finite?)
    && (best.Finite? ==> 0 <= start && start + best.n <= end && Covers(s, t, start, start + best.n))
    && (forall i, j :: Seen(s, t, end, l, i, j) ==> best.Finite? && best.n <= j - i)
    && (forall i, j :: Seen(s, t, end, l, i, j) && best.Finite? && j - i == best.n ==> start <= i)
  }

  /** Moving the right edge on: every window ending at the old edge has been seen, and those ending one further that start before `l` are no better. */
  lemma Extend(s: string, t: string, r: int, l: int, best: ExtInt, start: int)
    requires Record(s, t, r, l, best, start) && 0 <= l <= r < |s|
    requires !Covers(s, t, l, r) && (l > 0 ==> Covers(s, t, l - 1, r))
    ensures Record(s, t, r + 1, l, best, start)
  {
    var e := r + 1;
    forall i, j | Seen(s, t, e, l, i, j)
      ensures best.Finite? && best.n <= j - i
      ensures best.Finite? && j - i == best.n ==> start <= i
    {
      if j < r || (j == r && i < l) {
        assert Seen(s, t, r, l, i, j);
      } else if j == r {
        Widen(s, t, i, j, l, r);
      } else {
        assert Seen(s, t, r, l, l - 1, r);
      }
    }
  }

  /** A covering window at the left edge is compared with the best, and the left edge moves on. */
  lemma Shrink(s: string, t: string, end: int, l: int, best: ExtInt, start: int, best': ExtInt, start': int)
    requires Record(s, t, end, l, best, start) && Covers(s, t, l, end)
    requires (best', start') == if Less(Finite(end - l), best) then (Finite(end - l), l) else (best, start)
    ensures Record(s, t, end, l + 1, best', start')
  {
    var l' := l + 1;
    forall i, j | Seen(s, t, end, l', i, j)
      ensures best'.Finite? && best'.n <= j - i
      ensures best'.Finite? && j - i == best'.n ==> start' <= i
    {
      if j < end || i < l {
        assert Seen(s, t, end, l, i, j);
      }
    }
  }

  /** When the scan is over every covering window has been seen: the record is the answer. */
  lemma Finish(s: string, t: string, l: int, best: ExtInt, start: int)
    requires Record(s, t, |s|, l, best, start) && 0 <= l <= |s| && !Covers(s, t, l, |s|)
    ensures best == PosInf ==> NoWindow(s, t)
    ensures best.Finite? ==> Smallest(s, t, start, best.n)
  {
    forall i, j | Covers(s, t, i, j)
      ensures best.Finite? && best.n <= j - i
      ensures best.Finite? && j - i == best.n ==> start <= i
    {
      if j == |s| && i >= l {
        Widen(s, t, i, j, l, |s|);
      } else {
        assert Seen(s, t, |s|, l, i, j);
      }
    }
  }

  // ---------------------------------------------------------------------------
  // The scan

  /** The window state the scan carries: the basket, its satisfied count, the edges and the best window so far. */
  ghost predicate Scan(s: string, t: string, shop: map<char, int>, basket: map<char, int>, sat: int,
                       l: int, end: int, best: ExtInt, start: int)
  {
    0 <= l <= end <= |s| && ListOf(shop, t)
    && Holds(s, shop, basket, l, end) && sat == |Satisfied(shop, basket)|
    && Record(s, t, end, l, best, start)
    && (l > 0 ==> Covers(s, t, l - 1, end))
  }

  /** One pass of the inner loop: record the window if shorter, then the left letter leaves. */
  lemma ContractStep(s: string, t: string, shop: map<char, int>, basket: map<char, int>, sat: int,
                     l: int, end: int, best: ExtInt, start: int,
                     basket': map<char, int>, sat': int, best': ExtInt, start': int)
    requires Scan(s, t, shop, basket, sat, l, end, best, start) && Covers(s, t, l, end) && l < end
    requires (best', start') == if Less(Finite(end - l), best) then (Finite(end - l), l) else (best, start)
    requires basket' == if s[l] in shop then basket[s[l] := Get(basket, s[l]) - 1] else basket
    requires sat' == if s[l] in shop && Get(basket, s[l]) == shop[s[l]] then sat - 1 else sat
    ensures Scan(s, t, shop, basket', sat', l + 1, end, best', start')
    ensures sat' == |shop| <==> Covers(s, t, l + 1, end)
  {
    Shrink(s, t, end, l, best, start, best', start');
    Leave(s, shop, basket, basket', sat, sat', l, end);
    AllSatisfied(s, t, shop, basket', l + 1, end);
  }

  /** A covering window is not empty, since `t` is not. */
  lemma NonEmpty(s: string, t: string, l: int, end: int)
    requires Covers(s, t, l, end) && t != []
    ensures l < end
  {
    assert t[0] in multiset(t);
    assert t[0] in multiset(s[l..end]);
  }

  /**
   * The inner loop of `minWindow`: while every item is satisfied, the window
   * is recorded when strictly shorter than the best, and the left letter is
   * taken out of the basket. It stops at the first left edge whose window no
   * longer covers.
   */
  method Contract(s: string, ghost t: string, shop: map<char, int>, basket: map<char, int>, sat: int,
                  l: int, end: int, best: ExtInt, start: int)
    returns (basket': map<char, int>, sat': int, l': int, best': ExtInt, start': int)
    requires Scan(s, t, shop, basket, sat, l, end, best, start) && t != []
    requires sat == |shop| <==> Covers(s, t, l, end)
    ensures Scan(s, t, shop, basket', sat', l', end, best', start') && !Covers(s, t, l', end)
  {
    basket', sat', l', best', start' := basket, sat, l, best, start;
    var itemsRequired := |shop|;
    while sat' == itemsRequired
      invariant Scan(s, t, shop, basket', sat', l', end, best', start')
      invariant sat' == itemsRequired <==> Covers(s, t, l', end)
      decreases end - l'
    {
      NonEmpty(s, t, l', end);
      basket', sat', best', start' := Drop(s, t, shop, basket', sat', l', end, best', start');
      l' := l' + 1;
    }
  }

  /** The body of the inner loop, up to the move of the left edge. */
  method Drop(s: string, ghost t: string, shop: map<char, int>, basket: map<char, int>, sat: int,
              l: int, end: int, best: ExtInt, start: int)
    returns (basket': map<char, int>, sat': int, best': ExtInt, start': int)
    requires Scan(s, t, shop, basket, sat, l, end, best, start) && Covers(s, t, l, end) && l < end
    ensures Scan(s, t, shop, basket', sat', l + 1, end, best', start')
    ensures sat' == |shop| <==> Covers(s, t, l + 1, end)
  {
    basket', sat', best', start' := basket, sat, best, start;
    var currentWindowLength := end - l;
    if Less(Finite(currentWindowLength), best) {
      start' := l;
      best' := Finite(currentWindowLength);
    }
    var letterAtLeft := s[l];
    if letterAtLeft in shop {
      if Get(basket, letterAtLeft) == shop[letterAtLeft] {
        sat' := sat - 1;
      }
      InBasket(s, shop, basket, l, end);
      basket' := basket[letterAtLeft := basket[letterAtLeft] - 1];
    }
    ContractStep(s, t, shop, basket, sat, l, end, best, start, basket', sat', best', start');
  }

  /** The first part of the outer loop's body: the letter at the right edge goes into the basket. */
  method Take(s: string, shop: map<char, int>, basket: map<char, int>, sat: int, l: int, r: int)
    returns (basket': map<char, int>, sat': int)
    requires Holds(s, shop, basket, l, r) && r < |s| && sat == |Satisfied(shop, basket)|
    ensures Holds(s, shop, basket', l, r + 1) && sat' == |Satisfied(shop, basket')|
  {
    basket', sat' := basket, sat;
    var letterAtRight := s[r];
    if letterAtRight in shop {
      basket' := basket[letterAtRight := Get(basket, letterAtRight) + 1];
      if Get(basket', letterAtRight) == shop[letterAtRight] {
        sat' := sat + 1;
      }
    }
    Enter(s, shop, basket, basket', sat, sat', l, r);
  }

  /** The window just past the left edge still covers `t` when the right edge moves on. */
  lemma StillTight(s: string, t: string, l: int, r: int)
    requires 0 <= l <= r < |s| && (l > 0 ==> Covers(s, t, l - 1, r))
    ensures l > 0 ==> Covers(s, t, l - 1, r + 1)
  {
    if l > 0 {
      Widen(s, t, l - 1, r, l - 1, r + 1);
    }
  }

  /** The right letter has entered the basket: the right edge moves on. */
  lemma EnterStep(s: string, t: string, shop: map<char, int>, l: int, r: int, best: ExtInt, start: int,
                  basket': map<char, int>, sat': int)
    requires 0 <= l <= r < |s| && ListOf(shop, t) && Record(s, t, r, l, best, start)
    requires (l > 0 ==> Covers(s, t, l - 1, r)) && !Covers(s, t, l, r)
    requires Holds(s, shop, basket', l, r + 1) && sat' == |Satisfied(shop, basket')|
    ensures Scan(s, t, shop, basket', sat', l, r + 1, best, start)
    ensures sat' == |shop| <==> Covers(s, t, l, r + 1)
  {
    Extend(s, t, r, l, best, start);
    StillTight(s, t, l, r);
    AllSatisfied(s, t, shop, basket', l, r + 1);
  }

  /** The scan has reached the end of the string: the result is the best window recorded, or "". */
  lemma Answer(s: string, t: string, l: int, best: ExtInt, start: int, result: string)
    requires t != [] || s == []
    requires 0 <= l <= |s| && Record(s, t, |s|, l, best, start)
    requires t != [] ==> !Covers(s, t, l, |s|)
    requires result == if best == PosInf then "" else s[start..start + best.n]
    ensures NoWindow(s, t) ==> result == []
    ensures !NoWindow(s, t) ==> exists b :: Smallest(s, t, b, |result|) && result == s[b..b + |result|]
  {
    if t != [] {
      Finish(s, t, l, best, start);
      if best.Finite? {
        assert Smallest(s, t, start, |result|);
      }
    } else {
      assert Smallest(s, t, 0, 0) && result == s[0..0];
    }
  }

  /**
   * The outer loop of `minWindow`: the right edge takes in one character at
   * a time, then the window is contracted while it covers `check`. At the end
   * every window has been seen and the best one recorded.
   */
  method Sweep(original: string, check: string, shop: map<char, int>)
    returns (leftEdge: int, rightEdge: int, bestWindowLength: ExtInt, bestWindowStart: int)
    requires check != [] || original == []
    requires ListOf(shop, check)
    ensures rightEdge == |original| && 0 <= leftEdge <= rightEdge
    ensures Record(original, check, rightEdge, leftEdge, bestWindowLength, bestWindowStart)
    ensures check != [] ==> !Covers(original, check, leftEdge, rightEdge)
  {
    var basket: map<char, int> := map[];
    var itemsSatisfied := 0;
    rightEdge := 0;
    leftEdge, bestWindowStart, bestWindowLength := 0, 0, PosInf;
    Begin(original, check, shop);
    while rightEdge < |original|
      invariant Scan(original, check, shop, basket, itemsSatisfied, leftEdge, rightEdge, bestWindowLength, bestWindowStart)
      invariant check != [] ==> !Covers(original, check, leftEdge, rightEdge)
    {
      basket, itemsSatisfied, leftEdge, bestWindowLength, bestWindowStart :=
        Advance(original, check, shop, basket, itemsSatisfied, leftEdge, rightEdge, bestWindowLength, bestWindowStart);
      rightEdge := rightEdge + 1;
    }
  }

  /** Before the outer loop: an empty window and basket, nothing recorded yet. */
  lemma Begin(s: string, t: string, shop: map<char, int>)
    requires ListOf(shop, t)
    ensures Scan(s, t, shop, map[], 0, 0, 0, PosInf, 0)
    ensures t != [] ==> !Covers(s, t, 0, 0)
  {
    assert Satisfied(shop, map[]) == {};
    if t != [] {
      assert t[0] in multiset(t) && multiset(s[0..0]) == multiset{};
    }
  }

  /** The right edge moves on by one letter, which goes into the basket. */
  method TakeRight(s: string, ghost t: string, shop: map<char, int>, basket: map<char, int>, sat: int,
                   l: int, r: int, best: ExtInt, start: int)
    returns (basket': map<char, int>, sat': int)
    requires Scan(s, t, shop, basket, sat, l, r, best, start) && r < |s| && !Covers(s, t, l, r)
    ensures Scan(s, t, shop, basket', sat', l, r + 1, best, start)
    ensures sat' == |shop| <==> Covers(s, t, l, r + 1)
  {
    basket', sat' := Take(s, shop, basket, sat, l, r);
    EnterStep(s, t, shop, l, r, best, start, basket', sat');
  }

  /** One pass of the outer loop: take in `s[r]`, then contract while the window covers `t`. */
  method Advance(s: string, ghost t: string, shop: map<char, int>, basket: map<char, int>, sat: int,
                 l: int, r: int, best: ExtInt, start: int)
    returns (basket': map<char, int>, sat': int, l': int, best': ExtInt, start': int)
    requires Scan(s, t, shop, basket, sat, l, r, best, start) && r < |s| && t != []
    requires !Covers(s, t, l, r)
    ensures Scan(s, t, shop, basket', sat', l', r + 1, best', start') && !Covers(s, t, l', r + 1)
  {
    var taken, satisfied := TakeRight(s, t, shop, basket, sat, l, r, best, start);
    basket', sat', l', best', start' := Contract(s, t, shop, taken, satisfied, l, r + 1, best, start);
  }

  /**
   * `minWindow`: the shortest window of `original` holding `check`, the
   * first of them when several are equally short, and "" when there is none.
   * An empty `check` on a non-empty string never leaves the inner loop,
   * hence the precondition.
   */
  method MinWindow(original: string, check: string) returns (result: string)
    requires check != [] || original == []
    ensures NoWindow(original, check) ==> result == []
    ensures !NoWindow(original, check) ==>
      exists b :: Smallest(original, check, b, |result|) && result == original[b..b + |result|]
  {
    var shop := ShoppingList(check);
    var leftEdge, rightEdge, bestWindowLength, bestWindowStart := Sweep(original, check, shop);
    if bestWindowLength == PosInf {
      result := "";
    } else {
      result := original[bestWindowStart..bestWindowStart + bestWindowLength.n];
    }
    Answer(original, check, leftEdge, bestWindowLength, bestWindowStart, result);
  }

  // ---------------------------------------------------------------------------
  // The answer is determined by the input

  /** There is one smallest window: its length and its start are fixed by `s` and `t`. */
  lemma SmallestUnique(s: string, t: string, b: int, n: int, b': int, n': int)
    requires Smallest(s, t, b, n) && Smallest(s, t, b', n')
    ensures b == b' && n == n'
  {
    assert Covers(s, t, b, b + n) && Covers(s, t, b', b' + n');
  }

  /** A string holding the one letter sought is its own window. */
  lemma SingleLetter()
    ensures Smallest("a", "a", 0, 1)
  {
    forall i, j | Covers("a", "a", i, j)
      ensures 1 <= j - i
    {
      assert 'a' in multiset("a"[i..j]);
    }
  }

  /** A letter sought twice is not found in a string holding it once. */
  lemma TooFew()
    ensures NoWindow("a", "aa")
  {
    forall i, j | 0 <= i <= j <= 1
      ensures !(multiset("aa") <= multiset("a"[i..j]))
    {
      assert multiset("aa")['a'] == 2;
      assert "a"[i..j] == [] || "a"[i..j] == "a";
    }
  }

  /** The source's single-letter cases: ("a", "a") gives "a", and ("a", "aa") gives "". */
  method Samples() returns (found: string, missing: string)
    ensures found == "a" && missing == ""
  {
    found := MinWindow("a", "a");
    SingleLetter();
    ghost var b :| Smallest("a", "a", b, |found|) && found == "a"[b..b + |found|];
    SmallestUnique("a", "a", b, |found|, 0, 1);
    missing := MinWindow("a", "aa");
    TooFew();
  }
}
