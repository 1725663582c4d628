/**
 * `binarySearch` of the remove-duplicates exercise: a binary search that, on
 * a hit, records the index and keeps searching to the left, so that on an
 * ascending array it finds the leftmost occurrence.
 */
module BinarySearch {
  import opened Sequences

  /** The reference answer: the first index holding `target`, found by a scan, or -1. */
  function FirstIndex(arr: seq<int>, target: int): (r: int)
    ensures r == -1 <==> target !in arr
    ensures r != -1 ==> 0 <= r < |arr| && arr[r] == target && target !in arr[..r]
  {
    if arr == [] then -1
    else if arr[0] == target then 0
    else
      var k := FirstIndex(arr[1..], target);
      assert arr[1..] == arr[1..][..|arr| - 1];
      if k == -1 then -1
      else
        assert arr[..k + 1] == [arr[0]] + arr[1..][..k];
        k + 1
  }

  /**
   * `binarySearch`: -1 when the target is absent, an index holding it
   * otherwise; on an ascending array the index is that of the first
   * occurrence.
   */
  method Search(arr: seq<int>, target: int) returns (boundary: int)
    ensures boundary == -1 || (0 <= boundary < |arr| && arr[boundary] == target)
    ensures target !in arr ==> boundary == -1
    ensures Ascending(arr) ==> boundary == FirstIndex(arr, target)
  {
    var left := 0;
    var right := |arr| - 1;
    boundary := -1;
    while left <= right
      invariant 0 <= left <= right + 1 <= |arr|
      invariant boundary == -1 || (right < boundary < |arr| && arr[boundary] == target)
      invariant Ascending(arr) ==> forall k :: 0 <= k < left ==> arr[k] < target
      invariant Ascending(arr) ==> forall k :: right < k < |arr| && arr[k] == target ==> 0 <= boundary <= k
      decreases right - left
    {
      var middleIndex := (left + right) / 2;
      var middle := arr[middleIndex];
      if middle == target {
        boundary := middleIndex;
        right := middleIndex - 1;
      } else if middle > target {
        right := middleIndex - 1;
      } else {
        left := middleIndex + 1;
      }
    }
    if Ascending(arr) {
      Leftmost(arr, target, boundary, left);
    }
  }

  /** How the loop's end state pins down the first occurrence. */
  lemma Leftmost(arr: seq<int>, target: int, boundary: int, left: int)
    requires 0 <= left <= |arr|
    requires boundary == -1 || (left <= boundary < |arr| && arr[boundary] == target)
    requires forall k :: 0 <= k < left ==> arr[k] < target
    requires forall k :: left <= k < |arr| && arr[k] == target ==> 0 <= boundary <= k
    ensures boundary == FirstIndex(arr, target)
  {
    var f := FirstIndex(arr, target);
    if f != -1 {
      assert boundary != -1 && boundary <= f;
    }
  }

  /** The call in the source: 3 in [1, 3, 3, 3, 3, 6, 10, 10, 10, 100] is found at index 1. */
  method Example() returns (r: int)
    ensures r == 1
  {
    var arr := [1, 3, 3, 3, 3, 6, 10, 10, 10, 100];
    assert FirstIndex(arr, 3) == 1 by {
      assert arr[0] != 3 && arr[1] == 3;
    }
    AdjacentAscending(arr);
    r := Search(arr, 3);
  }
}
