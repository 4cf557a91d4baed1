// The comparison sorts of lab04: three in-place quadratic sorts, merge sort
// with its merge loop, the three-way quick sort and the sortedness check.

module Sorts {
  import opened Ordering

  // ---------------------------------------------------------------------
  // In-place sorts
  // ---------------------------------------------------------------------

  /** `s[lo..hi]` is in non-decreasing order. */
  ghost predicate SortedBetween(s: seq<int>, lo: int, hi: int)
    requires 0 <= lo && hi <= |s|
  {
    forall k, l :: lo <= k < l < hi ==> s[k] <= s[l]
  }

  /** Nothing before position `m` exceeds anything from `m` on. */
  ghost predicate SplitAt(s: seq<int>, m: int)
  {
    forall k, l :: 0 <= k < m <= l < |s| ==> s[k] <= s[l]
  }

  /**
   * One pass of `bubble_sort` over `a[..m]`: adjacent pairs out of order are
   * exchanged, carrying the largest value of the prefix to slot m-1.
   * `swapped` is false exactly when no exchange happened, and then the
   * prefix was already in order.
   */
  method BubblePass(a: array<int>, m: int) returns (swapped: bool)
    requires 1 <= m <= a.Length
    requires SplitAt(a[..], m)
    modifies a
    ensures multiset(a[..]) == multiset(old(a[..]))
    ensures a[m..] == old(a[m..])
    ensures SplitAt(a[..], m)
    ensures MaxAt(a[..], m - 1)
    ensures !swapped ==> AdjacentInOrder(a[..], m - 1)
  {
    swapped := false;
    var j := 0;
    while j < m - 1
      invariant 0 <= j <= m - 1
      invariant multiset(a[..]) == multiset(old(a[..]))
      invariant a[m..] == old(a[m..])
      invariant SplitAt(a[..], m)
      invariant MaxAt(a[..], j)
      invariant !swapped ==> AdjacentInOrder(a[..], j)
    {
      ghost var before := a[..];
      if a[j] > a[j + 1] {
        a[j], a[j + 1] := a[j + 1], a[j];
        assert a[..] == before[j := before[j + 1]][j + 1 := before[j]];
        swapped := true;
      }
      PassStep(before, a[..], j, m);
      j := j + 1;
    }
  }

  /** One comparison of a pass keeps the running maximum at the moving position. */
  lemma PassStep(s: seq<int>, t: seq<int>, j: int, m: int)
    requires 0 <= j < m - 1 && m <= |s|
    requires SplitAt(s, m)
    requires MaxAt(s, j)
    requires t == (if s[j] > s[j + 1] then s[j := s[j + 1]][j + 1 := s[j]] else s)
    ensures SplitAt(t, m) && t[m..] == s[m..] && multiset(t) == multiset(s)
    ensures MaxAt(t, j + 1)
    ensures AdjacentInOrder(s, j) && s[j] <= s[j + 1] ==> AdjacentInOrder(t, j + 1)
  {
    PassFrame(s, t, j, m);
    PassMaximum(s, t, j, m);
  }

  /** A comparison inside the prefix leaves the suffix and the multiset alone. */
  lemma PassFrame(s: seq<int>, t: seq<int>, j: int, m: int)
    requires 0 <= j < m - 1 && m <= |s|
    requires SplitAt(s, m)
    requires t == (if s[j] > s[j + 1] then s[j := s[j + 1]][j + 1 := s[j]] else s)
    ensures SplitAt(t, m) && t[m..] == s[m..] && multiset(t) == multiset(s)
  {
  }

  /** A comparison moves the larger of the pair, and with it the running maximum, to `j + 1`. */
  lemma PassMaximum(s: seq<int>, t: seq<int>, j: int, m: int)
    requires 0 <= j < m - 1 && m <= |s|
    requires MaxAt(s, j)
    requires t == (if s[j] > s[j + 1] then s[j := s[j + 1]][j + 1 := s[j]] else s)
    ensures MaxAt(t, j + 1)
    ensures AdjacentInOrder(s, j) && s[j] <= s[j + 1] ==> AdjacentInOrder(t, j + 1)
  {
  }

  /** After a pass the prefix maximum joins the sorted suffix. */
  lemma BubbleStep(s: seq<int>, m: int)
    requires 1 <= m <= |s|
    requires SortedBetween(s, m, |s|) && SplitAt(s, m)
    requires MaxAt(s, m - 1)
    ensures SortedBetween(s, m - 1, |s|) && SplitAt(s, m - 1)
  {
  }

  /** A prefix in adjacent-pairs order below a sorted, larger suffix makes the whole sequence sorted. */
  lemma AdjacentPrefix(s: seq<int>, m: int)
    requires 1 <= m <= |s|
    requires AdjacentInOrder(s, m - 1)
    requires SortedBetween(s, m, |s|) && SplitAt(s, m)
    ensures Sorted(s)
  {
    AdjacentSorted(s[..m]);
    assert forall k, l :: 0 <= k < l < m ==> s[..m][k] <= s[..m][l];
  }

  /**
   * `bubble_sort`: sorts the list in place and returns it. Pass i bubbles
   * the largest value of the unsorted prefix to slot n-i-1, so the last i
   * slots hold the largest values in their final order; a pass without an
   * exchange ends the sort early.
   */
  method BubbleSort(a: array<int>) returns (r: array<int>)
    modifies a
    ensures r == a
    ensures Sorted(a[..])
    ensures multiset(a[..]) == multiset(old(a[..]))
  {
    var n := a.Length;
    var i := 0;
    while i < n
      invariant 0 <= i <= n
      invariant multiset(a[..]) == multiset(old(a[..]))
      invariant SortedBetween(a[..], n - i, n) && SplitAt(a[..], n - i)
    {
      ghost var before := a[..];
      var swapped := BubblePass(a, n - i);
      assert a[..] == a[..n - i] + before[n - i..];
      assert SortedBetween(a[..], n - i, n);
      if !swapped {
        AdjacentPrefix(a[..], n - i);
        return a;
      }
      BubbleStep(a[..], n - i);
      i := i + 1;
    }
    return a;
  }

  /** No element before position `j` exceeds the one at `j`. */
  ghost predicate MaxAt(s: seq<int>, j: int)
    requires 0 <= j < |s|
  {
    forall k :: 0 <= k < j ==> s[k] <= s[j]
  }

  /** Each of the first `j` elements is no larger than its successor. */
  ghost predicate AdjacentInOrder(s: seq<int>, j: int)
    requires j < |s|
  {
    forall k :: 0 <= k < j ==> s[k] <= s[k + 1]
  }

  /** The inner loop of `selection_sort`: the first index of a minimum of `a[i..]`. */
  method IndexOfMinimum(a: array<int>, i: int) returns (minIdx: int)
    requires 0 <= i < a.Length
    ensures i <= minIdx < a.Length
    ensures forall k :: i <= k < a.Length ==> a[minIdx] <= a[k]
  {
    minIdx := i;
    var j := i + 1;
    while j < a.Length
      invariant i <= minIdx < a.Length && i + 1 <= j <= a.Length
      invariant forall k :: i <= k < j ==> a[minIdx] <= a[k]
    {
      if a[j] < a[minIdx] {
        minIdx := j;
      }
      j := j + 1;
    }
  }

  /** Swapping the minimum of the suffix into slot i extends the sorted prefix by one. */
  lemma SelectStep(s: seq<int>, t: seq<int>, i: int, m: int)
    requires 0 <= i <= m < |s|
    requires SortedBetween(s, 0, i) && SplitAt(s, i)
    requires forall k :: i <= k < |s| ==> s[m] <= s[k]
    requires t == s[i := s[m]][m := s[i]]
    ensures SortedBetween(t, 0, i + 1) && SplitAt(t, i + 1)
    ensures multiset(t) == multiset(s)
  {
  }

  /**
   * `selection_sort`: position i receives the minimum of the suffix from i,
   * so after iteration i the first i+1 slots hold the i+1 smallest values
   * in order.
   */
  method SelectionSort(a: array<int>) returns (r: array<int>)
    modifies a
    ensures r == a
    ensures Sorted(a[..])
    ensures multiset(a[..]) == multiset(old(a[..]))
  {
    var i := 0;
    while i < a.Length
      invariant 0 <= i <= a.Length
      invariant multiset(a[..]) == multiset(old(a[..]))
      invariant SortedBetween(a[..], 0, i) && SplitAt(a[..], i)
    {
      var minIdx := IndexOfMinimum(a, i);
      ghost var s := a[..];
      a[i], a[minIdx] := a[minIdx], a[i];
      assert a[..] == s[i := s[minIdx]][minIdx := s[i]];
      SelectStep(s, a[..], i, minIdx);
      i := i + 1;
    }
    return a;
  }

  /** `s` with its element at `i` lifted out and dropped in at position `p <= i`. */
  function Inserted(s: seq<int>, p: int, i: int): (r: seq<int>)
    requires 0 <= p <= i < |s|
    ensures |r| == |s|
  {
    s[..p] + [s[i]] + s[p..i] + s[i + 1..]
  }

  /** Moving one element leaves the multiset alone. */
  lemma InsertedPermutes(s: seq<int>, p: int, i: int)
    requires 0 <= p <= i < |s|
    ensures multiset(Inserted(s, p, i)) == multiset(s)
  {
    assert s == s[..p] + s[p..i] + [s[i]] + s[i + 1..];
  }

  /** The array after the shifts, with the lifted element written into the gap, is `Inserted`. */
  lemma GapFilled(t: seq<int>, s: seq<int>, p: int, i: int)
    requires 0 <= p <= i < |s| && |t| == |s|
    requires forall k :: 0 <= k < p ==> t[k] == s[k]
    requires forall k :: p < k <= i ==> t[k] == s[k - 1]
    requires forall k :: i < k < |s| ==> t[k] == s[k]
    ensures t[p := s[i]] == Inserted(s, p, i)
  {
    var u := Inserted(s, p, i);
    forall k | 0 <= k < |s| ensures t[p := s[i]][k] == u[k] {
      if k < p {
        assert u[k] == s[k];
      } else if k == p {
        assert u[k] == s[i];
      } else if k <= i {
        assert u[k] == s[k - 1];
      } else {
        assert u[k] == s[k];
      }
    }
  }

  /** Dropping the element into the gap above the smaller ones and below the larger ones keeps the prefix sorted. */
  lemma InsertSorted(s: seq<int>, p: int, i: int)
    requires 0 <= p <= i < |s|
    requires SortedBetween(s, 0, i)
    requires p == 0 || s[p - 1] <= s[i]
    requires forall k :: p <= k < i ==> s[k] > s[i]
    ensures SortedBetween(Inserted(s, p, i), 0, i + 1)
  {
    var t := Inserted(s, p, i);
    forall k, l | 0 <= k < l < i + 1 ensures t[k] <= t[l] {
      if l < p {
        assert t[k] == s[k] && t[l] == s[l];
      } else if l == p {
        assert t[l] == s[i];
        if k < p { assert t[k] == s[k] && s[k] <= s[p - 1]; }
      } else if k < p {
        assert t[k] == s[k] && t[l] == s[l - 1];
      } else if k == p {
        assert t[k] == s[i] && t[l] == s[l - 1];
      } else {
        assert t[k] == s[k - 1] && t[l] == s[l - 1];
      }
    }
  }

  /**
   * The inner loop of `insertion_sort`: the values before position i that
   * exceed `a[i]` move one slot right, and `j + 1` is the gap left for it.
   */
  method ShiftLarger(a: array<int>, i: int) returns (j: int)
    requires 0 < i < a.Length
    modifies a
    ensures -1 <= j < i
    ensures j >= 0 ==> a[j] <= old(a[i])
    ensures forall k :: 0 <= k <= j ==> a[k] == old(a[k])
    ensures forall k :: j + 1 < k <= i ==> a[k] == old(a[k - 1])
    ensures forall k :: i < k < a.Length ==> a[k] == old(a[k])
    ensures forall k :: j + 1 <= k < i ==> old(a[k]) > old(a[i])
  {
    var key := a[i];
    j := i - 1;
    while j >= 0 && a[j] > key
      invariant -1 <= j < i
      invariant forall k :: 0 <= k <= j ==> a[k] == old(a[k])
      invariant forall k :: j + 1 < k <= i ==> a[k] == old(a[k - 1])
      invariant forall k :: i < k < a.Length ==> a[k] == old(a[k])
      invariant forall k :: j + 1 <= k < i ==> old(a[k]) > key
    {
      a[j + 1] := a[j];
      j := j - 1;
    }
  }

  /**
   * `insertion_sort`: element i is lifted out, the larger values before it
   * shift one slot right, and it drops into the gap, so the first i+1 slots
   * are a sorted permutation of what they held.
   */
  method InsertionSort(a: array<int>) returns (r: array<int>)
    modifies a
    ensures r == a
    ensures Sorted(a[..])
    ensures multiset(a[..]) == multiset(old(a[..]))
  {
    var i := 1;
    while i < a.Length
      invariant 1 <= i
      invariant multiset(a[..]) == multiset(old(a[..]))
      invariant a.Length == 0 || (i <= a.Length && SortedBetween(a[..], 0, i))
    {
      var key := a[i];
      ghost var before := a[..];
      var j := ShiftLarger(a, i);
      GapFilled(a[..], before, j + 1, i);
      a[j + 1] := key;
      InsertSorted(before, j + 1, i);
      InsertedPermutes(before, j + 1, i);
      i := i + 1;
    }
    return a;
  }

  // ---------------------------------------------------------------------
  // Merge sort, generic over the element with an integer sort key
  // ---------------------------------------------------------------------

  /** The elements of `s` whose key is `k`, in their order in `s`. */
  function WithKey<T>(s: seq<T>, key: T -> int, k: int): (r: seq<T>)
    ensures |r| <= |s|
    ensures forall x :: x in r ==> x in s && key(x) == k
  {
    if s == [] then []
    else if key(s[0]) == k then [s[0]] + WithKey(s[1..], key, k)
    else WithKey(s[1..], key, k)
  }

  lemma {:induction false} WithKeyConcat<T>(s: seq<T>, t: seq<T>, key: T -> int, k: int)
    ensures WithKey(s + t, key, k) == WithKey(s, key, k) + WithKey(t, key, k)
  {
    if s == [] {
      assert s + t == t;
    } else {
      assert (s + t)[0] == s[0] && (s + t)[1..] == s[1..] + t;
      WithKeyConcat(s[1..], t, key, k);
    }
  }

  /** No element of a key-sorted sequence whose first key exceeds `k` has key `k`. */
  lemma {:induction false} WithKeyAbove<T>(s: seq<T>, key: T -> int, k: int)
    requires SortedBy(s, key)
    requires s != [] && key(s[0]) > k
    ensures WithKey(s, key, k) == []
  {
    if |s| > 1 {
      WithKeyAbove(s[1..], key, k);
    }
  }

  /**
   * The merge `_merge` performs: the smaller head first, the left head on a
   * tie (`<=`), then whatever remains of either side.
   */
  function Merged<T>(left: seq<T>, right: seq<T>, key: T -> int): seq<T>
    decreases |left| + |right|
  {
    if left == [] then right
    else if right == [] then left
    else if key(left[0]) <= key(right[0]) then [left[0]] + Merged(left[1..], right, key)
    else [right[0]] + Merged(left, right[1..], key)
  }

  /** Merging two key-sorted sequences gives a key-sorted permutation of both. */
  lemma {:induction false} MergedSorted<T>(left: seq<T>, right: seq<T>, key: T -> int)
    requires SortedBy(left, key) && SortedBy(right, key)
    ensures SortedBy(Merged(left, right, key), key)
    ensures multiset(Merged(left, right, key)) == multiset(left) + multiset(right)
    ensures |Merged(left, right, key)| == |left| + |right|
    ensures Merged(left, right, key) != [] ==>
      (left != [] && key(Merged(left, right, key)[0]) == key(left[0]))
      || (right != [] && key(Merged(left, right, key)[0]) == key(right[0]))
    decreases |left| + |right|
  {
    if left == [] || right == [] {
    } else if key(left[0]) <= key(right[0]) {
      MergedSorted(left[1..], right, key);
      assert left == [left[0]] + left[1..];
      HeadBelow(left[0], Merged(left[1..], right, key), key);
    } else {
      MergedSorted(left, right[1..], key);
      assert right == [right[0]] + right[1..];
      HeadBelow(right[0], Merged(left, right[1..], key), key);
    }
  }

  /** An element no larger than the first key of a key-sorted sequence can go in front of it. */
  lemma HeadBelow<T>(x: T, s: seq<T>, key: T -> int)
    requires SortedBy(s, key)
    requires s != [] ==> key(x) <= key(s[0])
    ensures SortedBy([x] + s, key)
  {
    var t := [x] + s;
    forall i, j | 0 <= i < j < |t| ensures key(t[i]) <= key(t[j]) {
      if i == 0 && j > 1 {
        assert key(s[0]) <= key(s[j - 1]);
      }
    }
  }

  /**
   * Stability of the merge: among equal keys the elements of `left` come
   * first, each side in its own order.
   */
  lemma {:induction false} MergedStable<T>(left: seq<T>, right: seq<T>, key: T -> int, k: int)
    requires SortedBy(left, key) && SortedBy(right, key)
    ensures WithKey(Merged(left, right, key), key, k) == WithKey(left, key, k) + WithKey(right, key, k)
    decreases |left| + |right|
  {
    if left == [] {
    } else if right == [] {
      assert WithKey(right, key, k) == [];
    } else if key(left[0]) <= key(right[0]) {
      MergedStable(left[1..], right, key, k);
      assert ([left[0]] + Merged(left[1..], right, key))[1..] == Merged(left[1..], right, key);
    } else {
      MergedStable(left, right[1..], key, k);
      assert ([right[0]] + Merged(left, right[1..], key))[1..] == Merged(left, right[1..], key);
      if key(right[0]) == k {
        WithKeyAbove(left, key, k);
      }
    }
  }

  /** `_merge`: the loop appends the smaller head (the left one on a tie), then both remainders. */
  method Merge<T>(left: seq<T>, right: seq<T>, key: T -> int) returns (result: seq<T>)
    ensures result == Merged(left, right, key)
  {
    result := [];
    var i, j := 0, 0;
    ghost var rest := Merged(left, right, key);
    assert left[0..] == left && right[0..] == right;
    while i < |left| && j < |right|
      invariant 0 <= i <= |left| && 0 <= j <= |right|
      invariant rest == Merged(left[i..], right[j..], key)
      invariant result + rest == Merged(left, right, key)
      decreases |left| - i + |right| - j
    {
      MergeStep(left, right, i, j, key);
      var next: T;
      if key(left[i]) <= key(right[j]) {
        next := left[i];
        i := i + 1;
      } else {
        next := right[j];
        j := j + 1;
      }
      AppendHead(result, next, rest[1..]);
      result := result + [next];
      rest := rest[1..];
    }
    MergeRest(left, right, i, j, key);
    result := result + left[i..];
    result := result + right[j..];
  }

  /** Moving the head of the remainder to the end of the output keeps their concatenation. */
  lemma AppendHead<T>(result: seq<T>, x: T, tail: seq<T>)
    ensures (result + [x]) + tail == result + ([x] + tail)
  {
  }

  /** One round of the merge loop: the smaller remaining head comes first, the left one on a tie. */
  lemma MergeStep<T>(left: seq<T>, right: seq<T>, i: int, j: int, key: T -> int)
    requires 0 <= i < |left| && 0 <= j < |right|
    ensures key(left[i]) <= key(right[j]) ==>
      Merged(left[i..], right[j..], key) == [left[i]] + Merged(left[i + 1..], right[j..], key)
    ensures key(left[i]) > key(right[j]) ==>
      Merged(left[i..], right[j..], key) == [right[j]] + Merged(left[i..], right[j + 1..], key)
  {
    assert left[i..][1..] == left[i + 1..];
    assert right[j..][1..] == right[j + 1..];
  }

  /** Once either side is used up, the merge is the two remainders in order. */
  lemma MergeRest<T>(left: seq<T>, right: seq<T>, i: int, j: int, key: T -> int)
    requires 0 <= i <= |left| && 0 <= j <= |right|
    requires i == |left| || j == |right|
    ensures Merged(left[i..], right[j..], key) == left[i..] + right[j..]
  {
  }

  /**
   * `merge_sort`: returns a new key-sorted permutation and leaves its input
   * alone; equal keys keep their input order.
   */
  method MergeSort<T>(arr: seq<T>, key: T -> int) returns (r: seq<T>)
    ensures SortedBy(r, key)
    ensures multiset(r) == multiset(arr)
    ensures forall k :: WithKey(r, key, k) == WithKey(arr, key, k)
    decreases |arr|
  {
    if |arr| <= 1 {
      return arr;
    }
    var mid := |arr| / 2;
    var left := MergeSort(arr[..mid], key);
    var right := MergeSort(arr[mid..], key);
    r := Merge(left, right, key);
    MergeHalves(arr, mid, left, right, key);
  }

  /** Merging sorted, stable images of the two halves sorts the whole stably. */
  lemma MergeHalves<T>(arr: seq<T>, mid: int, left: seq<T>, right: seq<T>, key: T -> int)
    requires 0 <= mid <= |arr|
    requires SortedBy(left, key) && SortedBy(right, key)
    requires multiset(left) == multiset(arr[..mid]) && multiset(right) == multiset(arr[mid..])
    requires forall k :: WithKey(left, key, k) == WithKey(arr[..mid], key, k)
    requires forall k :: WithKey(right, key, k) == WithKey(arr[mid..], key, k)
    ensures SortedBy(Merged(left, right, key), key)
    ensures multiset(Merged(left, right, key)) == multiset(arr)
    ensures forall k :: WithKey(Merged(left, right, key), key, k) == WithKey(arr, key, k)
  {
    MergedSorted(left, right, key);
    assert arr == arr[..mid] + arr[mid..];
    forall k ensures WithKey(Merged(left, right, key), key, k) == WithKey(arr, key, k) {
      MergedStable(left, right, key, k);
      WithKeyConcat(arr[..mid], arr[mid..], key, k);
    }
  }

  // ---------------------------------------------------------------------
  // Quick sort
  // ---------------------------------------------------------------------

  /** `[x for x in s if x < pivot]`. */
  function Below(s: seq<int>, pivot: int): (r: seq<int>)
    ensures forall x :: multiset(r)[x] == if x < pivot then multiset(s)[x] else 0
  {
    if s == [] then []
    else
      assert s == [s[0]] + s[1..];
      if s[0] < pivot then [s[0]] + Below(s[1..], pivot) else Below(s[1..], pivot)
  }

  /** `[x for x in s if x == pivot]`. */
  function Equal(s: seq<int>, pivot: int): (r: seq<int>)
    ensures forall x :: multiset(r)[x] == if x == pivot then multiset(s)[x] else 0
  {
    if s == [] then []
    else
      assert s == [s[0]] + s[1..];
      if s[0] == pivot then [s[0]] + Equal(s[1..], pivot) else Equal(s[1..], pivot)
  }

  /** `[x for x in s if x > pivot]`. */
  function Above(s: seq<int>, pivot: int): (r: seq<int>)
    ensures forall x :: multiset(r)[x] == if x > pivot then multiset(s)[x] else 0
  {
    if s == [] then []
    else
      assert s == [s[0]] + s[1..];
      if s[0] > pivot then [s[0]] + Above(s[1..], pivot) else Above(s[1..], pivot)
  }

  /** The three parts together are the list again, as a multiset. */
  lemma Partition(s: seq<int>, pivot: int)
    ensures multiset(s) == multiset(Below(s, pivot)) + multiset(Equal(s, pivot)) + multiset(Above(s, pivot))
  {
    var m := multiset(Below(s, pivot)) + multiset(Equal(s, pivot)) + multiset(Above(s, pivot));
    forall x ensures multiset(s)[x] == m[x] {
      assert m[x] == multiset(Below(s, pivot))[x] + multiset(Equal(s, pivot))[x] + multiset(Above(s, pivot))[x];
    }
  }

  /**
   * `quick_sort`: a list of at most one element is returned as is; otherwise
   * the three-way partition around the middle element, with the outer parts
   * sorted recursively. The result is a sorted permutation.
   */
  function QuickSort(s: seq<int>): (r: seq<int>)
    ensures multiset(r) == multiset(s)
    ensures Sorted(r)
    decreases |s|
  {
    if |s| <= 1 then s
    else
      var pivot := s[|s| / 2];
      var left, middle, right := Below(s, pivot), Equal(s, pivot), Above(s, pivot);
      PartsShorter(s, pivot);
      var sortedLeft, sortedRight := QuickSort(left), QuickSort(right);
      QuickJoin(s, pivot, sortedLeft, sortedRight);
      sortedLeft + middle + sortedRight
  }

  /** Both outer parts miss the pivot, so each is shorter than the list. */
  lemma PartsShorter(s: seq<int>, pivot: int)
    requires pivot in s
    ensures |Below(s, pivot)| < |s| && |Above(s, pivot)| < |s|
  {
    Partition(s, pivot);
    assert |multiset(s)| == |multiset(Below(s, pivot))| + |multiset(Equal(s, pivot))| + |multiset(Above(s, pivot))|;
    assert multiset(Equal(s, pivot))[pivot] >= 1;
  }

  /** The sorted outer parts around the copies of the pivot are a sorted permutation of the list. */
  lemma QuickJoin(s: seq<int>, pivot: int, sortedLeft: seq<int>, sortedRight: seq<int>)
    requires Sorted(sortedLeft) && multiset(sortedLeft) == multiset(Below(s, pivot))
    requires Sorted(sortedRight) && multiset(sortedRight) == multiset(Above(s, pivot))
    ensures Sorted(sortedLeft + Equal(s, pivot) + sortedRight)
    ensures multiset(sortedLeft + Equal(s, pivot) + sortedRight) == multiset(s)
  {
    Partition(s, pivot);
    var middle := Equal(s, pivot);
    forall x | x in multiset(sortedLeft) ensures x < pivot {
      assert multiset(Below(s, pivot))[x] > 0;
    }
    forall x | x in middle ensures x == pivot {
      assert multiset(middle)[x] > 0;
    }
    forall x | x in multiset(sortedRight) ensures x > pivot {
      assert multiset(Above(s, pivot))[x] > 0;
    }
    JoinSorted(sortedLeft, middle, sortedRight, pivot);
  }

  /** Sorted values below the pivot, copies of it and sorted values above it join into a sorted list. */
  lemma JoinSorted(l: seq<int>, m: seq<int>, r: seq<int>, pivot: int)
    requires Sorted(l) && Sorted(r)
    requires forall x :: x in multiset(l) ==> x < pivot
    requires forall x :: x in m ==> x == pivot
    requires forall x :: x in multiset(r) ==> x > pivot
    ensures Sorted(l + m + r)
  {
    var t := l + m + r;
    forall i, j | 0 <= i < j < |t| ensures t[i] <= t[j] {
      if i < |l| {
        assert t[i] in multiset(l);
      } else if i < |l| + |m| {
        assert t[i] in m;
      }
      if j >= |l| + |m| {
        assert t[j] in multiset(r);
      } else if j >= |l| {
        assert t[j] in m;
      }
    }
  }

  // ---------------------------------------------------------------------
  // Sortedness check
  // ---------------------------------------------------------------------

  /** `is_sorted`: every adjacent pair is in order (so empty and one-element lists are sorted). */
  function IsSorted(s: seq<int>): (r: bool)
    ensures r <==> Sorted(s)
  {
    if |s| < 2 then true
    else
      var rest := IsSorted(s[1..]);
      assert Sorted(s) ==> Sorted(s[1..]) by {
        if Sorted(s) {
          forall i, j | 0 <= i < j < |s| - 1 ensures s[1..][i] <= s[1..][j] {
            assert s[i + 1] <= s[j + 1];
          }
        }
      }
      if s[0] <= s[1] && rest then
        assert Sorted(s) by {
          forall i, j | 0 <= i < j < |s| ensures s[i] <= s[j] {
            if i > 0 {
              assert s[1..][i - 1] <= s[1..][j - 1];
            } else if j > 1 {
              assert s[1..][0] <= s[1..][j - 1];
            }
          }
        }
        true
      else false
  }

  /**
   * The second `is_sorted`, written as a loop in the performance test: False at
   * the first descent, True after the last pair. Both forms are equivalent to
   * `Sorted`, so they always agree.
   */
  method IsSortedScan(s: seq<int>) returns (ok: bool)
    ensures ok <==> Sorted(s)
  {
    var index := 0;
    while index < |s| - 1
      invariant 0 <= index <= |s| || |s| == 0
      invariant forall k :: 0 < k <= index && k < |s| ==> s[k - 1] <= s[k]
    {
      if s[index] > s[index + 1] {
        return false;
      }
      index := index + 1;
    }
    AdjacentSorted(s);
    return true;
  }
}
