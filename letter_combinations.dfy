/**
 * `letterCombinations`: every string that picks one keypad letter for each
 * digit, in the order a depth-first backtracking search pushes them. Digits
 * without letters ('0', '1' and any other character) are skipped.
 */
module LetterCombinations {
  import opened Wrappers

  /** `phoneMap`: the keypad letters of a digit, with no entry for '0', '1' or any other character. */
  function PhoneMap(digit: char): Option<string>
  {
    match digit
    case '2' => Some("abc")
    case '3' => Some("def")
    case '4' => Some("ghi")
    case '5' => Some("jkl")
    case '6' => Some("mno")
    case '7' => Some("pqrs")
    case '8' => Some("tuv")
    case '9' => Some("wxyz")
    case _ => None
  }

  /** The letters a digit offers; none when it has no entry. */
  function Letters(digit: char): string
  {
    match PhoneMap(digit)
    case None => ""
    case Some(letters) => letters
  }

  /** The digits of `ds` that have letters, in order. */
  function Mapped(ds: string): string
  {
    if ds == [] then []
    else if PhoneMap(ds[0]).Some? then [ds[0]] + Mapped(ds[1..])
    else Mapped(ds[1..])
  }

  /** The product of the numbers of letters of the digits that have an entry. */
  function Count(ds: string): nat
  {
    if ds == [] then 1
    else if PhoneMap(ds[0]).Some? then |Letters(ds[0])| * Count(ds[1..])
    else Count(ds[1..])
  }

  /** `w` picks, position by position, one of the letters of the matching digit of `m`. */
  ghost predicate Fits(w: string, m: string)
  {
    |w| == |m| && forall k :: 0 <= k < |w| ==> w[k] in Letters(m[k])
  }

  /** `w` extends `current` by a choice of one letter for each mapped digit of `ds`. */
  ghost predicate Completes(current: string, ds: string, w: string)
  {
    |current| <= |w| && w[..|current|] == current && Fits(w[|current|..], Mapped(ds))
  }

  /** `u` comes before `v` in dictionary order, at a position where both have a character. */
  ghost predicate Before(u: string, v: string)
  {
    exists k :: 0 <= k < |u| && k < |v| && u[..k] == v[..k] && u[k] < v[k]
  }

  /** Strictly increasing in dictionary order. */
  ghost predicate Increasing(xs: seq<string>)
  {
    forall i, j :: 0 <= i < j < |xs| ==> Before(xs[i], xs[j])
  }

  /**
   * What `backtrack(index, current)` pushes onto `result` when `ds` is
   * `digits[index..]`, in push order.
   */
  function Expand(current: string, ds: string): seq<string>
    decreases |ds|, 0
  {
    if ds == [] then [current]
    else
      match PhoneMap(ds[0])
      case None => Expand(current, ds[1..])
      case Some(letters) => Each(current, letters, ds[1..])
  }

  /** What the `for` loop over `letters` pushes: one expansion per letter, in letter order. */
  function Each(current: string, letters: string, rest: string): seq<string>
    decreases |rest|, |letters|
  {
    if letters == [] then []
    else Each(current, letters[..|letters| - 1], rest) + Expand(current + [letters[|letters| - 1]], rest)
  }

  /** The answer of `letterCombinations`: nothing for empty input, otherwise every expansion of "". */
  function Combinations(digits: string): seq<string>
  {
    if |digits| == 0 then [] else Expand("", digits)
  }

  /**
   * `backtrack(index, current)`: `result` is the closure's shared array,
   * threaded through the calls; it gains the expansions of `current` over
   * the digits from `index` on.
   */
  method Backtrack(digits: string, index: int, current: string, result: seq<string>) returns (result': seq<string>)
    requires 0 <= index <= |digits|
    ensures result' == result + Expand(current, digits[index..])
    decreases |digits| - index
  {
    if index == |digits| {
      result' := result + [current];
      return;
    }
    var digit := digits[index];
    var letters := PhoneMap(digit);
    assert digits[index..][0] == digit && digits[index..][1..] == digits[index + 1..];
    if letters.None? {
      result' := Backtrack(digits, index + 1, current, result);
      return;
    }
    var choices := letters.value;
    result' := result;
    for k := 0 to |choices|
      invariant result' == result + Each(current, choices[..k], digits[index + 1..])
    {
      var letter := choices[k];
      assert choices[..k + 1][..k] == choices[..k];
      result' := Backtrack(digits, index + 1, current + [letter], result');
    }
    assert choices[..|choices|] == choices;
  }

  /** `letterCombinations`. */
  method LetterCombinations(digits: string) returns (result: seq<string>)
    ensures result == Combinations(digits)
  {
    if |digits| == 0 {
      return [];
    }
    result := Backtrack(digits, 0, "", []);
    assert digits[0..] == digits;
  }

  /** Every digit with an entry offers at least one letter, in strictly increasing order. */
  lemma LettersShape(digit: char)
    ensures PhoneMap(digit).Some? ==> |Letters(digit)| >= 3
    ensures forall i, j :: 0 <= i < j < |Letters(digit)| ==> Letters(digit)[i] < Letters(digit)[j]
  {
  }

  /** Dropping the first digit: the first letter of a fit comes from that digit if it has letters. */
  lemma FitsCons(w: string, ds: string)
    requires ds != []
    ensures PhoneMap(ds[0]).None? ==> Mapped(ds) == Mapped(ds[1..])
    ensures PhoneMap(ds[0]).Some? ==>
              (Fits(w, Mapped(ds)) <==> w != [] && w[0] in Letters(ds[0]) && Fits(w[1..], Mapped(ds[1..])))
  {
    if PhoneMap(ds[0]).Some? {
      var m := Mapped(ds);
      assert m == [ds[0]] + Mapped(ds[1..]);
      if w != [] && w[0] in Letters(ds[0]) && Fits(w[1..], Mapped(ds[1..])) {
        forall k | 0 <= k < |w|
          ensures w[k] in Letters(m[k])
        {
          if k > 0 {
            assert w[k] == w[1..][k - 1];
          }
        }
      }
      if Fits(w, m) {
        forall k | 0 <= k < |w| - 1
          ensures w[1..][k] in Letters(Mapped(ds[1..])[k])
        {
          assert w[1..][k] == w[k + 1];
        }
      }
    }
  }

  /** A completion over a digit with letters continues `current` with one of them. */
  lemma CompletesCons(current: string, ds: string, w: string)
    requires ds != [] && PhoneMap(ds[0]).Some?
    ensures Completes(current, ds, w) <==>
              |current| < |w| && w[|current|] in Letters(ds[0]) && Completes(current + [w[|current|]], ds[1..], w)
  {
    var n := |current|;
    if n <= |w| {
      FitsCons(w[n..], ds);
    }
    if n < |w| {
      assert w[n..][1..] == w[n + 1..];
      assert w[n..][0] == w[n];
      if w[..n + 1] == current + [w[n]] {
        assert w[..n] == w[..n + 1][..n];
      }
      if w[..n] == current {
        assert w[..n + 1] == w[..n] + [w[n]];
      }
    }
  }

  /** Membership: a combination is exactly a completion of `current` over the mapped digits of `ds`. */
  lemma {:induction false} ExpandMembers(current: string, ds: string, w: string)
    ensures w in Expand(current, ds) <==> Completes(current, ds, w)
    decreases |ds|, 0
  {
    if ds == [] {
      if Completes(current, ds, w) {
        assert w == w[..|current|];
      }
    } else {
      match PhoneMap(ds[0])
      case None =>
        ExpandMembers(current, ds[1..], w);
        FitsCons(w, ds);
      case Some(letters) =>
        EachMembers(current, letters, ds[1..], w);
        CompletesCons(current, ds, w);
    }
  }

  /** Membership in the loop's output: a completion whose letter after `current` is one of `letters`. */
  lemma {:induction false} EachMembers(current: string, letters: string, rest: string, w: string)
    ensures w in Each(current, letters, rest) <==>
              |current| < |w| && w[|current|] in letters && Completes(current + [w[|current|]], rest, w)
    decreases |rest|, |letters|
  {
    if letters != [] {
      var init := letters[..|letters| - 1];
      var c := letters[|letters| - 1];
      EachMembers(current, init, rest, w);
      ExpandMembers(current + [c], rest, w);
      assert letters == init + [c];
      if Completes(current + [c], rest, w) {
        assert w[..|current| + 1] == current + [c];
        assert w[|current|] == (current + [c])[|current|];
      }
    }
  }

  /** The number of combinations is the product of the letter counts of the mapped digits. */
  lemma {:induction false} ExpandCount(current: string, ds: string)
    ensures |Expand(current, ds)| == Count(ds)
    decreases |ds|, 0
  {
    if ds != [] {
      match PhoneMap(ds[0])
      case None =>
        ExpandCount(current, ds[1..]);
      case Some(letters) =>
        EachCount(current, letters, ds[1..]);
    }
  }

  /** The loop pushes `|letters|` blocks of `Count(rest)` strings each. */
  lemma {:induction false} EachCount(current: string, letters: string, rest: string)
    ensures |Each(current, letters, rest)| == |letters| * Count(rest)
    decreases |rest|, |letters|
  {
    if letters != [] {
      var init := letters[..|letters| - 1];
      var block := Expand(current + [letters[|letters| - 1]], rest);
      assert |Each(current, letters, rest)| == |Each(current, init, rest)| + |block|;
      EachCount(current, init, rest);
      ExpandCount(current + [letters[|letters| - 1]], rest);
      MulSucc(|init|, Count(rest));
    }
  }

  /** One more block of `c`. */
  lemma MulSucc(a: nat, c: nat)
    ensures (a + 1) * c == a * c + c
  {
  }

  /** Two increasing sequences, each element of the first before each of the second, join increasingly. */
  lemma Join(xs: seq<string>, ys: seq<string>)
    requires Increasing(xs) && Increasing(ys)
    requires forall x, y :: x in xs && y in ys ==> Before(x, y)
    ensures Increasing(xs + ys)
  {
    var zs := xs + ys;
    forall i, j | 0 <= i < j < |zs|
      ensures Before(zs[i], zs[j])
    {
      if j < |xs| {
        assert zs[i] == xs[i] && zs[j] == xs[j];
      } else if i >= |xs| {
        assert zs[i] == ys[i - |xs|] && zs[j] == ys[j - |xs|];
      } else {
        assert zs[i] in xs && zs[j] in ys;
      }
    }
  }

  /** The combinations come out in dictionary order, first digit varying slowest. */
  lemma {:induction false} ExpandIncreasing(current: string, ds: string)
    ensures Increasing(Expand(current, ds))
    decreases |ds|, 0
  {
    if ds != [] {
      match PhoneMap(ds[0])
      case None =>
        ExpandIncreasing(current, ds[1..]);
      case Some(letters) =>
        LettersShape(ds[0]);
        EachIncreasing(current, letters, ds[1..]);
    }
  }

  /** With letters in increasing order, the loop's blocks follow each other in dictionary order. */
  lemma {:induction false} EachIncreasing(current: string, letters: string, rest: string)
    requires forall i, j :: 0 <= i < j < |letters| ==> letters[i] < letters[j]
    ensures Increasing(Each(current, letters, rest))
    decreases |rest|, |letters|
  {
    if letters != [] {
      var init := letters[..|letters| - 1];
      var c := letters[|letters| - 1];
      var n := |current|;
      EachIncreasing(current, init, rest);
      ExpandIncreasing(current + [c], rest);
      assert forall k :: 0 <= k < |init| ==> init[k] == letters[k];
      forall x, y | x in Each(current, init, rest) && y in Expand(current + [c], rest)
        ensures Before(x, y)
      {
        Precedes(current, init, c, rest, x, y);
      }
      Join(Each(current, init, rest), Expand(current + [c], rest));
    }
  }

  /** A string of an earlier block comes before any string of the block of a later letter `c`. */
  lemma Precedes(current: string, init: string, c: char, rest: string, x: string, y: string)
    requires forall k :: 0 <= k < |init| ==> init[k] < c
    requires x in Each(current, init, rest) && y in Expand(current + [c], rest)
    ensures Before(x, y)
  {
    var n := |current|;
    EachMembers(current, init, rest, x);
    ExpandMembers(current + [c], rest, y);
    var k :| 0 <= k < |init| && init[k] == x[n];
    assert y[..n + 1] == current + [c];
    assert y[..n] == y[..n + 1][..n];
    assert y[n] == y[..n + 1][n];
  }

  /**
   * For non-empty input: a string is a combination exactly when it takes
   * one letter of each digit with letters, position by position.
   */
  lemma Members(digits: string, w: string)
    requires digits != []
    ensures w in Combinations(digits) <==> Fits(w, Mapped(digits))
  {
    ExpandMembers("", digits, w);
    assert w[0..] == w;
  }

  /** Empty input gives no combinations; any other input gives the product of its letter counts. */
  lemma Size(digits: string)
    ensures |Combinations(digits)| == if digits == [] then 0 else Count(digits)
    ensures Combinations(digits) == [] <==> digits == []
  {
    if digits != [] {
      ExpandCount("", digits);
      CountPositive(digits);
    }
  }

  /** Every digit contributes a factor of at least 1. */
  lemma {:induction false} CountPositive(ds: string)
    ensures Count(ds) >= 1
  {
    if ds != [] {
      CountPositive(ds[1..]);
      LettersShape(ds[0]);
    }
  }

  /** The combinations are in increasing dictionary order, so none repeats. */
  lemma Ordered(digits: string)
    ensures Increasing(Combinations(digits))
    ensures forall i, j :: 0 <= i < j < |Combinations(digits)| ==> Combinations(digits)[i] != Combinations(digits)[j]
  {
    if digits != [] {
      ExpandIncreasing("", digits);
    }
  }

  /** Input made only of digits without letters gives exactly the empty string. */
  lemma OnlyUnmapped(digits: string)
    requires digits != [] && Mapped(digits) == []
    ensures Combinations(digits) == [""]
  {
    Size(digits);
    UnmappedCount(digits);
    Members(digits, "");
    var w := Combinations(digits)[0];
    assert w in Combinations(digits);
    Members(digits, w);
  }

  /** Without mapped digits the product is empty. */
  lemma {:induction false} UnmappedCount(ds: string)
    requires Mapped(ds) == []
    ensures Count(ds) == 1
  {
    if ds != [] {
      UnmappedCount(ds[1..]);
    }
  }

  /** A digit with three letters expands into three blocks, one per letter. */
  lemma Three(current: string, x: char, y: char, z: char, rest: string)
    ensures Each(current, [x, y, z], rest) ==
            Expand(current + [x], rest) + Expand(current + [y], rest) + Expand(current + [z], rest)
  {
    assert [x, y, z][..2] == [x, y] && [x, y][..1] == [x] && [x][..0] == [];
    assert Each(current, [x], rest) == Expand(current + [x], rest);
    assert Each(current, [x, y], rest) == Each(current, [x], rest) + Expand(current + [y], rest);
  }

  /** After a first letter `c`, the digit '3' appends each of its letters. */
  lemma Second(c: char)
    ensures Expand([c], "3") == [[c, 'd'], [c, 'e'], [c, 'f']]
  {
    assert "3"[0] == '3' && "3"[1..] == "";
    assert Expand([c], "3") == Each([c], ['d', 'e', 'f'], "");
    Three([c], 'd', 'e', 'f', "");
    assert [c] + ['d'] == [c, 'd'] && [c] + ['e'] == [c, 'e'] && [c] + ['f'] == [c, 'f'];
  }

  /** The first test: "23" gives the nine pairs, first digit varying slowest. */
  lemma Example23()
    ensures Combinations("23") == ["ad", "ae", "af", "bd", "be", "bf", "cd", "ce", "cf"]
  {
    assert "23"[0] == '2' && "23"[1..] == "3" && "3"[0] == '3' && "3"[1..] == "";
    assert Expand("", "23") == Each("", ['a', 'b', 'c'], "3");
    Three("", 'a', 'b', 'c', "3");
    Second('a');
    Second('b');
    Second('c');
    assert [] + ['a'] == ['a'] && [] + ['b'] == ['b'] && [] + ['c'] == ['c'];
  }

  /** The test counts: "2345" gives 81 combinations and "79" gives 16. */
  lemma ExampleCounts()
    ensures |Combinations("2345")| == 81 && |Combinations("79")| == 16
  {
    FourDigits();
    TwoDigits();
  }

  /** "2345": three letters for each digit. */
  lemma FourDigits()
    ensures |Combinations("2345")| == 81
  {
    Size("2345");
    CountOf("5", "", 3, 1);
    CountOf("45", "5", 3, 3);
    CountOf("345", "45", 3, 9);
    CountOf("2345", "345", 3, 27);
  }

  /** "79": four letters for each digit. */
  lemma TwoDigits()
    ensures |Combinations("79")| == 16
  {
    Size("79");
    CountOf("9", "", 4, 1);
    CountOf("79", "9", 4, 4);
  }

  /** One step of `Count` on a digit string given by its first digit, which has `n` letters, and the rest. */
  lemma CountOf(ds: string, rest: string, n: nat, v: nat)
    requires ds != [] && ds[1..] == rest && |Letters(ds[0])| == n >= 1 && Count(rest) == v
    ensures Count(ds) == n * v
  {
  }
}
