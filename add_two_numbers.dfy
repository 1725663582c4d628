/**
 * Add two numbers: two numbers stored as linked lists of decimal digits,
 * least significant digit first, are added digit by digit with a carry into
 * a new list. A list is modelled by the sequence of its node values.
 */
module AddTwoNumbers {
  function Pow10(k: nat): (r: nat)
    ensures r >= 1
  {
    if k == 0 then 1 else 10 * Pow10(k - 1)
  }

  /** The number a list stands for, its first node the units digit. */
  function Value(s: seq<int>): int
  {
    if s == [] then 0 else s[0] + 10 * Value(s[1..])
  }

  /** Every node holds a single decimal digit. */
  predicate Digits(s: seq<int>)
  {
    forall k :: 0 <= k < |s| ==> 0 <= s[k] <= 9
  }

  predicate NonNegative(s: seq<int>)
  {
    forall k :: 0 <= k < |s| ==> s[k] >= 0
  }

  /** No leading zero: the most significant digit, the last node, is not 0. */
  predicate Canonical(s: seq<int>)
  {
    s == [] || s[|s| - 1] != 0
  }

  function Max(a: int, b: int): int
  {
    if a >= b then a else b
  }

  /** The first `i` nodes of a list, or all of it when it is shorter. */
  function Take(s: seq<int>, i: nat): (t: seq<int>)
    ensures |t| <= |s| && t == s[..|t|]
    ensures i <= |s| ==> |t| == i
    ensures i >= |s| ==> t == s
  {
    if i <= |s| then s[..i] else s
  }

  /** A digit appended at the most significant end weighs `10^|s|`. */
  lemma {:induction false} ValueSnoc(s: seq<int>, d: int)
    ensures Value(s + [d]) == Value(s) + d * Pow10(|s|)
  {
    if s == [] {
    } else {
      assert (s + [d])[1..] == s[1..] + [d];
      ValueSnoc(s[1..], d);
    }
  }

  /** The carry step on plain numbers: `sum % 10` stays behind, `sum / 10` moves one place up. */
  lemma CarryStep(out: int, p: int, carry: int, a: int, b: int)
    requires p >= 1 && a + b + carry >= 0
    ensures (out + (a + b + carry) % 10 * p) + 10 * p * ((a + b + carry) / 10) == (out + p * carry) + a * p + b * p
  {
    var sum := a + b + carry;
    assert sum == 10 * (sum / 10) + sum % 10;
    assert (sum % 10) * p + 10 * p * (sum / 10) == p * sum;
  }

  /** The node value the cursor at position `i` reads: 0 once the list has ended. */
  function At(s: seq<int>, i: nat): int
  {
    if i < |s| then s[i] else 0
  }

  lemma TakeNext(s: seq<int>, i: nat)
    ensures Value(Take(s, i + 1)) == Value(Take(s, i)) + At(s, i) * Pow10(i)
  {
    if i < |s| {
      assert Take(s, i + 1) == Take(s, i) + [s[i]];
      ValueSnoc(Take(s, i), s[i]);
    }
  }

  /** What one loop pass keeps: the digits written so far plus the carry account for the nodes read so far. */
  ghost predicate Accounts(l1: seq<int>, l2: seq<int>, i: nat, r: seq<int>, carry: int)
  {
    Value(r) + Pow10(i) * carry == Value(Take(l1, i)) + Value(Take(l2, i))
  }

  lemma AccountsNext(l1: seq<int>, l2: seq<int>, i: nat, r: seq<int>, carry: int)
    requires |r| == i && carry >= 0 && At(l1, i) >= 0 && At(l2, i) >= 0
    requires Accounts(l1, l2, i, r, carry)
    ensures Accounts(l1, l2, i + 1, r + [(At(l1, i) + At(l2, i) + carry) % 10], (At(l1, i) + At(l2, i) + carry) / 10)
  {
    var a, b := At(l1, i), At(l2, i);
    var sum := a + b + carry;
    ValueSnoc(r, sum % 10);
    TakeNext(l1, i);
    TakeNext(l2, i);
    CarryStep(Value(r), Pow10(i), carry, a, b);
    assert Pow10(i + 1) == 10 * Pow10(i);
  }

  /**
   * `addTwoNumbersOptimal`: the lists are read together, a missing node
   * counting as 0, until both have ended and no carry is left. The result
   * stands for the sum of the two numbers and holds only digits; the empty
   * list (`null`) comes back only for two empty lists. With digit inputs the
   * carry is 0 or 1, the result is as long as the longer input or one node
   * longer holding the final carry 1, and canonical inputs give the
   * canonical digits of the sum.
   */
  method Add(l1: seq<int>, l2: seq<int>) returns (r: seq<int>)
    requires NonNegative(l1) && NonNegative(l2)
    ensures Value(r) == Value(l1) + Value(l2)
    ensures Digits(r)
    ensures r == [] <==> l1 == [] && l2 == []
    ensures Digits(l1) && Digits(l2) ==>
      |r| == Max(|l1|, |l2|) || (|r| == Max(|l1|, |l2|) + 1 && r[|r| - 1] == 1)
    ensures Digits(l1) && Digits(l2) && Canonical(l1) && Canonical(l2) ==> Canonical(r)
  {
    var i := 0;
    var carry := 0;
    r := [];
    ghost var digits := Digits(l1) && Digits(l2);
    ghost var canonical := digits && Canonical(l1) && Canonical(l2);
    ghost var top := Max(|l1|, |l2|);
    while i < |l1| || i < |l2| || carry != 0
      invariant |r| == i && carry >= 0 && Digits(r)
      invariant Accounts(l1, l2, i, r, carry)
      invariant r == [] <==> i == 0
      invariant digits ==> carry <= 1 && i <= top + 1 && (i == top + 1 ==> carry == 0 && r[i - 1] == 1)
      invariant canonical && i >= top && i > 0 ==> r[i - 1] != 0 || carry == 1
      decreases if i < top then top - i else 0, carry
    {
      var val1 := At(l1, i);
      var val2 := At(l2, i);
      var sum := val1 + val2 + carry;
      AccountsNext(l1, l2, i, r, carry);
      carry := sum / 10;
      r := r + [sum % 10];
      i := i + 1;
    }
    assert Take(l1, i) == l1 && Take(l2, i) == l2;
  }

  /** A canonical digit list is the only one standing for its number. */
  lemma {:induction false} ValueInjective(a: seq<int>, b: seq<int>)
    requires Digits(a) && Digits(b) && Canonical(a) && Canonical(b)
    requires Value(a) == Value(b)
    ensures a == b
    decreases |a|
  {
    if a != [] && b != [] {
      assert a[0] == Value(a) % 10 && b[0] == Value(b) % 10;
      assert Value(a[1..]) == Value(b[1..]);
      assert Canonical(a[1..]) && Canonical(b[1..]);
      ValueInjective(a[1..], b[1..]);
      assert a == [a[0]] + a[1..];
      assert b == [b[0]] + b[1..];
    } else if a != [] {
      NonZero(a);
    } else if b != [] {
      NonZero(b);
    }
  }

  /** A non-empty canonical digit list stands for a positive number. */
  lemma {:induction false} NonZero(s: seq<int>)
    requires Digits(s) && Canonical(s) && s != []
    ensures Value(s) > 0
  {
    if |s| > 1 {
      NonZero(s[1..]);
    }
  }

  /** The digit list of a number, units first and without leading zeros. */
  function ToDigits(n: int): (s: seq<int>)
    ensures Digits(s) && Canonical(s)
    ensures n >= 0 ==> Value(s) == n
  {
    if n <= 0 then [] else [n % 10] + ToDigits(n / 10)
  }

  lemma {:induction false} NonNegativeValue(s: seq<int>)
    requires NonNegative(s)
    ensures Value(s) >= 0
  {
    if s != [] {
      NonNegativeValue(s[1..]);
    }
  }

  /** For canonical digit inputs the result is exactly the digit list of the sum. */
  method AddCanonical(l1: seq<int>, l2: seq<int>) returns (r: seq<int>)
    requires Digits(l1) && Digits(l2) && Canonical(l1) && Canonical(l2)
    ensures r == ToDigits(Value(l1) + Value(l2))
  {
    r := Add(l1, l2);
    ghost var n := Value(l1) + Value(l2);
    NonNegativeValue(l1);
    NonNegativeValue(l2);
    ValueInjective(r, ToDigits(n));
  }

  /** One step of `Value` on a list given by its first digit and the rest. */
  lemma ValueOf(s: seq<int>, d: int, rest: seq<int>, v: int)
    requires s == [d] + rest && Value(rest) == v
    ensures Value(s) == d + 10 * v
  {
    assert s[1..] == rest;
  }

  /** The lists of the source: 342 + 465 = 807, read as [2, 4, 3] + [5, 6, 4] = [7, 0, 8]. */
  method Example() returns (r: seq<int>)
    ensures r == [7, 0, 8]
  {
    r := AddCanonical([2, 4, 3], [5, 6, 4]);
    ValueOf([2, 4, 3], 2, [4, 3], 34);
    ValueOf([5, 6, 4], 5, [6, 4], 46);
    assert ToDigits(8) == [8] + ToDigits(0) && ToDigits(0) == [];
    assert ToDigits(80) == [0] + ToDigits(8);
    assert ToDigits(807) == [7] + ToDigits(80);
  }
}
