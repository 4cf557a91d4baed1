// Lab07 `heapsort.py`: heap sort into a new list through a min-heap, and
// heap sort in place through a max-heap, both built on the sift functions
// of the heap module.

module HeapSorts {
  import opened Ordering
  import opened Heaps

  /** The rank of a min-heap of integers: the value itself. */
  function Ascending(x: int): int
  {
    x
  }

  /** The rank of a max-heap of integers: a larger value ranks lower. */
  function Descending(x: int): int
  {
    -x
  }

  /**
   * `heap_sort_extra`: every element appended to a new list and sifted up,
   * then the root taken out until the list is empty, the last element moved
   * to the root and sifted down each time. The input is not changed (it is
   * a value here) and the result is its sorted permutation.
   */
  method HeapSortExtra(items: seq<int>) returns (sortedResult: seq<int>)
    ensures Sorted(sortedResult)
    ensures multiset(sortedResult) == multiset(items)
  {
    var heapData: seq<int> := [];
    for k := 0 to |items|
      invariant IsHeap(heapData, Ascending)
      invariant multiset(heapData) == multiset(items[..k])
    {
      assert multiset(items[..k + 1]) == multiset(items[..k]) + multiset{items[k]} by {
        PrefixGrows(items, k);
      }
      Pushed(heapData, Ascending, items[k]);
      heapData := heapData + [items[k]];
      heapData := SiftUp(heapData, Ascending, |heapData| - 1);
    }
    assert items[..|items|] == items;
    sortedResult := [];
    while heapData != []
      invariant Draining(heapData, sortedResult, multiset(items))
      decreases |heapData|
    {
      var minElement := heapData[0];
      DrainStep(heapData, sortedResult, multiset(items));
      if |heapData| > 1 {
        var last := heapData[|heapData| - 1];
        heapData := heapData[..|heapData| - 1];
        heapData := heapData[0 := last];
        heapData := SiftDown(heapData, Ascending, |heapData|, 0);
      } else {
        heapData := [];
      }
      sortedResult := sortedResult + [minElement];
    }
  }

  /** One more slot of a prefix adds that slot's element to its bag. */
  lemma PrefixGrows(s: seq<int>, k: nat)
    requires k < |s|
    ensures multiset(s[..k + 1]) == multiset(s[..k]) + multiset{s[k]}
  {
    assert s[..k + 1] == s[..k] + [s[k]];
  }

  /**
   * Between rounds of the extraction: the rest is a min-heap, the output is
   * sorted and no larger than anything left, and together they hold the input.
   */
  ghost predicate Draining(heap: seq<int>, out: seq<int>, whole: multiset<int>)
  {
    IsHeap(heap, Ascending) &&
    multiset(out) + multiset(heap) == whole &&
    Sorted(out) &&
    (out != [] && heap != [] ==> out[|out| - 1] <= heap[0])
  }

  /** What is left after the root is taken out: the last element sifted down from the root. */
  function Remaining(heap: seq<int>): seq<int>
    requires heap != []
  {
    if |heap| > 1 then Sunk(Unrooted(heap), Ascending, |heap| - 1, 0) else []
  }

  /** One round of the extraction keeps the state. */
  lemma DrainStep(heap: seq<int>, out: seq<int>, whole: multiset<int>)
    requires Draining(heap, out, whole) && heap != []
    ensures Draining(Remaining(heap), out + [heap[0]], whole)
  {
    var rest, out' := Remaining(heap), out + [heap[0]];
    assert IsHeap(rest, Ascending) && multiset(rest) == multiset(heap) - multiset{heap[0]} by {
      RemainingHeap(heap);
    }
    assert Sorted(out') by { Appended(out, heap[0]); }
    assert out'[|out'| - 1] == heap[0];
    assert rest != [] ==> heap[0] <= rest[0] by { RemainingAbove(heap); }
    assert multiset(out') + multiset(rest) == whole by {
      assert multiset(out') == multiset(out) + multiset{heap[0]};
      MoveOne(multiset(out), multiset(heap), heap[0]);
    }
    DrainingFrom(rest, out', whole);
  }

  /** The four parts of the extraction state, put together. */
  lemma DrainingFrom(heap: seq<int>, out: seq<int>, whole: multiset<int>)
    requires IsHeap(heap, Ascending) && multiset(out) + multiset(heap) == whole && Sorted(out)
    requires out != [] && heap != [] ==> out[|out| - 1] <= heap[0]
    ensures Draining(heap, out, whole)
  {
  }

  /** Moving one element from one bag to another keeps their sum. */
  lemma MoveOne(a: multiset<int>, b: multiset<int>, x: int)
    requires x in b
    ensures (a + multiset{x}) + (b - multiset{x}) == a + b
  {
  }

  /** What is left is a heap of everything but one copy of the root. */
  lemma RemainingHeap(heap: seq<int>)
    requires IsHeap(heap, Ascending) && heap != []
    ensures IsHeap(Remaining(heap), Ascending)
    ensures multiset(Remaining(heap)) == multiset(heap) - multiset{heap[0]}
  {
    if |heap| > 1 {
      Popped(heap, Ascending);
    } else {
      assert heap == [heap[0]];
    }
  }

  /** The root taken out is no larger than the new root. */
  lemma RemainingAbove(heap: seq<int>)
    requires IsHeap(heap, Ascending) && heap != []
    ensures Remaining(heap) != [] ==> heap[0] <= Remaining(heap)[0]
  {
    var rest := Remaining(heap);
    if rest != [] {
      RemainingHeap(heap);
      assert rest[0] in multiset(heap) by {
        assert rest[0] in multiset(rest);
      }
      RootLowestAll(heap, Ascending);
    }
  }

  /** A sorted list stays sorted when an element no smaller than all of it is appended. */
  lemma Appended(s: seq<int>, x: int)
    requires Sorted(s) && (s != [] ==> s[|s| - 1] <= x)
    ensures Sorted(s + [x])
  {
    var t := s + [x];
    forall i, j | 0 <= i < j < |t| ensures t[i] <= t[j] {
      if j == |s| {
        assert t[i] <= s[|s| - 1];
      }
    }
  }

  /**
   * `heapify_down` of `heap_sort_inplace`: sift-down in a max-heap whose
   * last slot is `boundary` (an inclusive bound), in place.
   */
  method HeapifyDown(data: array<int>, nodeIndex: nat, boundary: nat)
    requires boundary < data.Length
    modifies data
    ensures data[..] == Sunk(old(data[..]), Descending, boundary + 1, nodeIndex)
  {
    var current: nat := nodeIndex;
    while true
      invariant Sunk(data[..], Descending, boundary + 1, current)
             == Sunk(old(data[..]), Descending, boundary + 1, nodeIndex)
      decreases boundary + 1 - current
    {
      ghost var now := data[..];
      var leftChild := 2 * current + 1;
      var largestIndex := current;
      if leftChild <= boundary && data[leftChild] > data[largestIndex] {
        largestIndex := leftChild;
      }
      var rightChild := leftChild + 1;
      if rightChild <= boundary && data[rightChild] > data[largestIndex] {
        largestIndex := rightChild;
      }
      LargestChild(data, boundary + 1, current, largestIndex);
      if largestIndex == current {
        break;
      }
      data[current], data[largestIndex] := data[largestIndex], data[current];
      assert data[..] == Swap(now, current, largestIndex);
      current := largestIndex;
    }
  }

  /**
   * The larger child chosen by `heapify_down` is the sift-down target of the
   * max-heap: the sift stops when it is the node itself and otherwise goes on
   * from that child after the swap.
   */
  lemma LargestChild(data: array<int>, size: nat, i: nat, t: nat)
    requires size <= data.Length
    requires t == (var t1 := if 2 * i + 1 < size && data[2 * i + 1] > data[i] then 2 * i + 1 else i;
                   if 2 * i + 2 < size && data[2 * i + 2] > data[t1] then 2 * i + 2 else t1)
    ensures t == i ==> Sunk(data[..], Descending, size, i) == data[..]
    ensures t != i ==> i < t < size && Sunk(data[..], Descending, size, i)
                                       == Sunk(Swap(data[..], i, t), Descending, size, t)
  {
    assert t == Target(data[..], Descending, size, i);
  }

  /**
   * The state between rounds of the second phase with `boundary` as the last
   * heap slot: a max-heap up to `boundary`, and every slot after it in place,
   * at least everything before it.
   */
  ghost predicate SortState(s: seq<int>, boundary: nat)
  {
    boundary < |s| &&
    HeapFrom(s, Descending, boundary + 1, 0) &&
    Settled(s, boundary)
  }

  /** Every slot after `boundary` is at least every slot before it. */
  ghost predicate Settled(s: seq<int>, boundary: nat)
  {
    forall i, j :: 0 <= i < j < |s| && boundary < j ==> s[i] <= s[j]
  }

  /** A max-heap's root is at least every slot of the heap. */
  lemma RootLargest(s: seq<int>, size: nat, j: nat)
    requires HeapFrom(s, Descending, size, 0) && j < size
    ensures s[j] <= s[0]
  {
    RootLowest(s, Descending, size, j);
  }

  /**
   * One round of the second phase: the root goes to `boundary`, the rest
   * sifts down inside the slots before it, and the state holds one slot
   * further left.
   */
  lemma SortStep(s: seq<int>, boundary: nat)
    requires SortState(s, boundary) && boundary >= 1
    ensures SortState(Sunk(Swap(s, 0, boundary), Descending, boundary, 0), boundary - 1)
  {
    StepHeap(s, boundary);
    StepSettled(s, boundary);
  }

  /** The slots before the boundary form a max-heap again. */
  lemma StepHeap(s: seq<int>, b: nat)
    requires 1 <= b < |s| && HeapFrom(s, Descending, b + 1, 0)
    ensures HeapFrom(Sunk(Swap(s, 0, b), Descending, b, 0), Descending, b, 0)
  {
    var s1 := Swap(s, 0, b);
    assert SinkReady(s1, Descending, b, 0, 0) by {
      forall p: nat, c: nat | 0 <= p && p != 0 && c < b && Edge(p, c)
        ensures Descending(s1[p]) <= Descending(s1[c])
      {
        assert s1[p] == s[p] && s1[c] == s[c];
      }
    }
    SunkHeap(s1, Descending, b, 0, 0);
  }

  /** The old root, now at the boundary, is settled together with everything after it. */
  lemma StepSettled(s: seq<int>, b: nat)
    requires SortState(s, b) && b >= 1
    ensures Settled(Sunk(Swap(s, 0, b), Descending, b, 0), b - 1)
  {
    var s1 := Swap(s, 0, b);
    var s2 := Sunk(s1, Descending, b, 0);
    assert multiset(s2[..b]) == multiset(s1[..b]) && s2[b..] == s1[b..] by {
      SameFrom(s2, s1, b);
      PrefixPermutation(s2, s1, b);
    }
    assert forall i :: 0 <= i < b ==> s1[i] <= s[0] by { PrefixBelowRoot(s, b); }
    assert (forall j :: b <= j < |s1| ==> s[0] <= s1[j]) &&
           (forall i, j :: b <= i < j < |s1| ==> s1[i] <= s1[j]) by {
      SuffixAboveRoot(s, b);
    }
    PivotSettled(s1, s2, b, s[0]);
  }

  /** Two lists of one length that agree slot by slot from `n` on have the same suffix. */
  lemma SameFrom(a: seq<int>, c: seq<int>, n: nat)
    requires n <= |a| == |c| && forall k :: n <= k < |a| ==> a[k] == c[k]
    ensures a[n..] == c[n..]
  {
  }

  /**
   * If the first `b` slots are at most `pivot`, the rest at least `pivot` and
   * in order, permuting the first `b` slots leaves everything from `b` settled.
   */
  lemma PivotSettled(s1: seq<int>, s2: seq<int>, b: nat, pivot: int)
    requires 1 <= b <= |s1| == |s2|
    requires multiset(s2[..b]) == multiset(s1[..b]) && s2[b..] == s1[b..]
    requires forall i :: 0 <= i < b ==> s1[i] <= pivot
    requires forall j :: b <= j < |s1| ==> pivot <= s1[j]
    requires forall i, j :: b <= i < j < |s1| ==> s1[i] <= s1[j]
    ensures Settled(s2, b - 1)
  {
    var p1, p2 := s1[..b], s2[..b];
    BoundedPermutation(p1, p2, pivot);
    forall i, j | 0 <= i < j < |s2| && b - 1 < j ensures s2[i] <= s2[j] {
      assert s2[j] == s2[b..][j - b] == s1[b..][j - b] == s1[j];
      if i < b {
        assert s2[i] == p2[i];
      } else {
        assert s2[i] == s2[b..][i - b] == s1[b..][i - b] == s1[i];
      }
    }
  }

  /** From `b` on, the list after moving the root to `b` is in order and at least the old root. */
  lemma SuffixAboveRoot(s: seq<int>, b: nat)
    requires SortState(s, b)
    ensures forall j :: b <= j < |s| ==> s[0] <= Swap(s, 0, b)[j]
    ensures forall i, j :: b <= i < j < |s| ==> Swap(s, 0, b)[i] <= Swap(s, 0, b)[j]
  {
  }

  /** Every slot before `b` after moving the root to `b` is at most the old root. */
  lemma PrefixBelowRoot(s: seq<int>, b: nat)
    requires SortState(s, b) && b >= 1
    ensures forall i :: 0 <= i < b ==> Swap(s, 0, b)[i] <= s[0]
  {
    forall i | 0 <= i < b ensures Swap(s, 0, b)[i] <= s[0] {
      RootLargest(s, b + 1, if i == 0 then b else i);
    }
  }

  /** Two permutations of each other that agree from `n` on permute their first `n` slots. */
  lemma PrefixPermutation(a: seq<int>, c: seq<int>, n: nat)
    requires n <= |a| == |c| && multiset(a) == multiset(c) && a[n..] == c[n..]
    ensures multiset(a[..n]) == multiset(c[..n])
  {
    assert a == a[..n] + a[n..];
    assert c == c[..n] + c[n..];
    assert multiset(a[..n]) == multiset(a) - multiset(a[n..]);
    assert multiset(c[..n]) == multiset(c) - multiset(c[n..]);
  }

  /** A bound on every element carries over to any permutation. */
  lemma BoundedPermutation(a: seq<int>, c: seq<int>, bound: int)
    requires multiset(a) == multiset(c)
    requires forall i :: 0 <= i < |a| ==> a[i] <= bound
    ensures forall i :: 0 <= i < |c| ==> c[i] <= bound
  {
    forall i | 0 <= i < |c| ensures c[i] <= bound {
      assert c[i] in multiset(a) by {
        assert c[i] in multiset(c);
      }
      var k :| 0 <= k < |a| && a[k] == c[i];
    }
  }

  /** When the boundary reaches the first slot, the whole list is sorted. */
  lemma SortDone(s: seq<int>)
    requires SortState(s, 0)
    ensures Sorted(s)
  {
  }

  /** A list that is a max-heap throughout is the state before the first round. */
  lemma SortStart(s: seq<int>)
    requires HeapFrom(s, Descending, |s|, 0) && |s| > 0
    ensures SortState(s, |s| - 1)
  {
  }

  /**
   * `heap_sort_inplace`: lists of length at most one are returned untouched;
   * otherwise a max-heap is built from the last parent back to the root,
   * then the root is swapped to the boundary and the rest sifted down, the
   * boundary moving left. The list is sorted in place and returned.
   */
  method HeapSortInPlace(collection: array<int>) returns (r: array<int>)
    modifies collection
    ensures r == collection
    ensures Sorted(collection[..])
    ensures multiset(collection[..]) == multiset(old(collection[..]))
  {
    r := collection;
    var size := collection.Length;
    if size <= 1 {
      return;
    }
    var i := size / 2 - 1;
    LeavesHeap(collection[..], Descending, size);
    while i >= 0
      invariant -1 <= i < size
      invariant multiset(collection[..]) == multiset(old(collection[..]))
      invariant HeapFrom(collection[..], Descending, size, i + 1)
      decreases i + 1
    {
      ghost var next := Sunk(collection[..], Descending, size, i);
      assert HeapFrom(next, Descending, size, i) by {
        SunkHeap(collection[..], Descending, size, i, i);
      }
      HeapifyDown(collection, i, size - 1);
      assert collection[..] == next;
      i := i - 1;
    }
    SortStart(collection[..]);
    var boundary := size - 1;
    while boundary > 0
      invariant 0 <= boundary < size
      invariant multiset(collection[..]) == multiset(old(collection[..]))
      invariant SortState(collection[..], boundary)
      decreases boundary
    {
      ghost var before := collection[..];
      ghost var next := Sunk(Swap(before, 0, boundary), Descending, boundary, 0);
      assert SortState(next, boundary - 1) by {
        SortStep(before, boundary);
      }
      collection[0], collection[boundary] := collection[boundary], collection[0];
      assert collection[..] == Swap(before, 0, boundary);
      HeapifyDown(collection, 0, boundary - 1);
      assert collection[..] == next;
      boundary := boundary - 1;
    }
    SortDone(collection[..]);
  }
}
