/** Facts about integer sequences shared by the array exercises. */
module Sequences {
  ghost predicate Ascending(arr: seq<int>)
  {
    forall i, j :: 0 <= i < j < |arr| ==> arr[i] <= arr[j]
  }

  /** Neighbours in order make the whole array ascending. */
  lemma AdjacentAscending(arr: seq<int>)
    requires forall i :: 0 <= i < |arr| - 1 ==> arr[i] <= arr[i + 1]
    ensures Ascending(arr)
  {
    forall i, j | 0 <= i < j < |arr| ensures arr[i] <= arr[j] {
      var k := i;
      while k < j
        invariant i <= k <= j && arr[i] <= arr[k]
      {
        k := k + 1;
      }
    }
  }

  /** No value occurs twice. */
  predicate Distinct<T(==)>(s: seq<T>)
  {
    forall i, j :: 0 <= i < j < |s| ==> s[i] != s[j]
  }

  /** The values a sequence holds, as a set. */
  function Elements<T(==)>(s: seq<T>): set<T>
  {
    set x | x in s
  }

  /** A sequence holds as many different values as entries exactly when no value repeats. */
  lemma {:induction false} ElementsCount<T>(s: seq<T>)
    ensures |Elements(s)| <= |s|
    ensures |Elements(s)| == |s| <==> Distinct(s)
  {
    if s != [] {
      var t := s[1..];
      ElementsCount(t);
      if s[0] in t {
        assert Elements(s) == Elements(t);
        var k :| 0 <= k < |t| && t[k] == s[0];
        assert s[k + 1] == s[0];
      } else {
        assert Elements(s) == Elements(t) + {s[0]};
        assert Distinct(s) <==> Distinct(t) by {
          if Distinct(t) {
            forall i, j | 0 <= i < j < |s| ensures s[i] != s[j] {
              if i > 0 {
                assert s[i] == t[i - 1] && s[j] == t[j - 1];
              } else {
                assert s[j] == t[j - 1];
              }
            }
          }
          if Distinct(s) {
            forall i, j | 0 <= i < j < |t| ensures t[i] != t[j] {
              assert t[i] == s[i + 1] && t[j] == s[j + 1];
            }
          }
        }
      }
    }
  }

  /** `m` maps exactly the values of `w` to their numbers of occurrences in `w`; absent values have no key. */
  ghost predicate Tally<T(!new)>(m: map<T, int>, w: seq<T>)
  {
    && (forall x :: x in m <==> x in w)
    && (forall x :: x in m ==> m[x] == multiset(w)[x])
  }

  /** Counting one more value at the end of the window. */
  lemma TallyPush<T(!new)>(m: map<T, int>, w: seq<T>, x: T)
    requires Tally(m, w)
    ensures Tally(m[x := if x in m then m[x] + 1 else 1], w + [x])
  {
    assert multiset(w + [x]) == multiset(w) + multiset{x};
  }

  /** Uncounting the first value of the window, deleting its key when its count reaches 0. */
  lemma TallyPop<T(!new)>(m: map<T, int>, x: T, v: seq<T>)
    requires Tally(m, [x] + v)
    ensures x in m
    ensures Tally(if m[x] - 1 == 0 then m - {x} else m[x := m[x] - 1], v)
  {
    assert x in [x] + v;
    assert multiset([x] + v) == multiset{x} + multiset(v);
    forall y | y in v
      ensures multiset(v)[y] > 0
    {
    }
  }

  /** The keys of a tally are the window's values, so there are as many as the window's length exactly when it repeats nothing. */
  lemma TallySize<T(!new)>(m: map<T, int>, w: seq<T>)
    requires Tally(m, w)
    ensures |m| <= |w|
    ensures |m| == |w| <==> Distinct(w)
  {
    assert m.Keys == Elements(w);
    ElementsCount(w);
  }
}
