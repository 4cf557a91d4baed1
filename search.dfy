// Linear and binary search over a Python list of ints (lab01).

module Search {
  import opened Wrappers
  import opened Ordering

  /** `linear_search`: the first index holding the target, or None. */
  method LinearSearch(arr: seq<int>, target: int) returns (r: Option<nat>)
    ensures r.Some? ==> r.value < |arr| && arr[r.value] == target
    ensures r.Some? ==> forall k :: 0 <= k < r.value ==> arr[k] != target
    ensures r.None? <==> target !in arr
  {
    var i := 0;
    while i < |arr|
      invariant 0 <= i <= |arr|
      invariant forall k :: 0 <= k < i ==> arr[k] != target
    {
      if arr[i] == target {
        return Some(i);
      }
      i := i + 1;
    }
    return None;
  }

  /**
   * `binary_search`: a found index always holds the target; on a sorted list
   * None means the target is absent. The loop shrinks `right - left` each time.
   */
  method BinarySearch(arr: seq<int>, target: int) returns (r: Option<nat>)
    ensures r.Some? ==> r.value < |arr| && arr[r.value] == target
    ensures Sorted(arr) ==> (r.None? <==> target !in arr)
  {
    var left: int := 0;
    var right: int := |arr| - 1;
    while left <= right
      invariant 0 <= left <= |arr| && -1 <= right < |arr|
      invariant Sorted(arr) ==> forall k :: 0 <= k < |arr| && arr[k] == target ==> left <= k <= right
      decreases right - left
    {
      var mid := (left + right) / 2;
      if arr[mid] == target {
        return Some(mid);
      } else if arr[mid] < target {
        left := mid + 1;
      } else {
        right := mid - 1;
      }
    }
    return None;
  }
}
