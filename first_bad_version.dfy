/**
 * First bad version: a binary search over the versions 0..n against an
 * `isBadVersion` oracle, remembering the last version found bad while it keeps
 * looking to the left.
 */
module FirstBadVersion {
  /** Once a version is bad, every later one is. */
  ghost predicate Monotone(isBad: int -> bool)
  {
    forall a, b :: a <= b && isBad(a) ==> isBad(b)
  }

  /** `v` is the first bad version among 0..n. */
  ghost predicate IsFirstBad(isBad: int -> bool, n: int, v: int)
  {
    0 <= v <= n && isBad(v) && forall w :: 0 <= w < v ==> !isBad(w)
  }

  /**
   * `solution(isBadVersion)(n)`. The answer is always 0 or a version the oracle
   * called bad; for a monotone oracle it is the first bad version in 0..n,
   * and 0 when there is none.
   */
  method FirstBad(isBad: int -> bool, n: int) returns (lastBadVersion: int)
    ensures lastBadVersion == 0 || (0 <= lastBadVersion <= n && isBad(lastBadVersion))
    ensures (forall v :: 0 <= v <= n ==> !isBad(v)) ==> lastBadVersion == 0
    ensures Monotone(isBad) && (exists v :: 0 <= v <= n && isBad(v)) ==> IsFirstBad(isBad, n, lastBadVersion)
  {
    var left := 0;
    var right := n;
    lastBadVersion := 0;
    while left <= right
      invariant 0 <= left && right <= n
      invariant left <= right + 1 || (left == 0 && right == n)
      invariant (lastBadVersion == 0 && right == n) || (lastBadVersion == right + 1 && 0 <= lastBadVersion <= n && isBad(lastBadVersion))
      invariant Monotone(isBad) ==> forall v :: 0 <= v < left ==> !isBad(v)
      invariant Monotone(isBad) ==> forall v :: right < v <= n ==> isBad(v)
      decreases right - left
    {
      var mid := (left + right) / 2;
      var isBadMid := isBad(mid);
      if isBadMid {
        lastBadVersion := mid;
        right := mid - 1;
      } else {
        left := mid + 1;
      }
    }
    if Monotone(isBad) && exists v :: 0 <= v <= n && isBad(v) {
      var v :| 0 <= v <= n && isBad(v);
      assert left <= v;
    }
  }

  /** The source's oracle: versions from 4 on are bad. */
  function BadFrom4(): int -> bool
  {
    version => version >= 4
  }

  /** With 5 versions the answer is 4; with 1 none is bad, so the answer is 0. */
  method Examples() returns (five: int, one: int)
    ensures five == 4 && one == 0
  {
    assert Monotone(BadFrom4());
    assert IsFirstBad(BadFrom4(), 5, 4);
    five := FirstBad(BadFrom4(), 5);
    one := FirstBad(BadFrom4(), 1);
  }
}
