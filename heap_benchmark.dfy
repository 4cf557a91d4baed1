// Lab07 `benchmark.py`: the in-place heap sort whose sift-down is recursive
// and takes an exclusive size bound, and the merge sort whose merge takes
// the right element on a tie. The other embedded copies in that file (the
// min-heap class, the heap sort through it, the quick sort) behave as the
// canonical members they copy.

module HeapBenchmark {
  import opened Ordering
  import opened Heaps
  import opened HeapSorts
  import Sorts

  /**
   * `_heapify`: compare the node with its children inside the first `size`
   * slots, swap with the larger one and recurse there. It is the sift-down
   * of the max-heap with `size` as an exclusive bound.
   */
  method Heapify(items: array<int>, size: nat, rootIndex: nat)
    requires size <= items.Length
    modifies items
    ensures items[..] == Sunk(old(items[..]), Descending, size, rootIndex)
    decreases size - rootIndex
  {
    var largestIndex := rootIndex;
    var leftChildIndex := 2 * rootIndex + 1;
    var rightChildIndex := 2 * rootIndex + 2;
    if leftChildIndex < size && items[leftChildIndex] > items[largestIndex] {
      largestIndex := leftChildIndex;
    }
    if rightChildIndex < size && items[rightChildIndex] > items[largestIndex] {
      largestIndex := rightChildIndex;
    }
    ghost var before := items[..];
    LargestChild(items, size, rootIndex, largestIndex);
    if largestIndex != rootIndex {
      items[rootIndex], items[largestIndex] := items[largestIndex], items[rootIndex];
      assert items[..] == Swap(before, rootIndex, largestIndex);
      Heapify(items, size, largestIndex);
    }
  }

  /**
   * `perform_inplace_heap_sort`: a max-heap built by sifting down every
   * parent, the last one first, then the root swapped to the end of the
   * shrinking heap and sifted down. No early exit for short lists: both
   * loops are empty then.
   */
  method PerformInplaceHeapSort(items: array<int>)
    modifies items
    ensures Sorted(items[..])
    ensures multiset(items[..]) == multiset(old(items[..]))
  {
    var arraySize := items.Length;
    var currentIndex := arraySize / 2 - 1;
    LeavesHeap(items[..], Descending, arraySize);
    while currentIndex >= 0
      invariant -1 <= currentIndex < arraySize || (arraySize == 0 && currentIndex == -1)
      invariant multiset(items[..]) == multiset(old(items[..]))
      invariant HeapFrom(items[..], Descending, arraySize, currentIndex + 1)
      decreases currentIndex + 1
    {
      ghost var next := Sunk(items[..], Descending, arraySize, currentIndex);
      assert HeapFrom(next, Descending, arraySize, currentIndex) by {
        SunkHeap(items[..], Descending, arraySize, currentIndex, currentIndex);
      }
      Heapify(items, arraySize, currentIndex);
      assert items[..] == next;
      currentIndex := currentIndex - 1;
    }
    if arraySize == 0 {
      return;
    }
    SortStart(items[..]);
    currentIndex := arraySize - 1;
    while currentIndex > 0
      invariant 0 <= currentIndex < arraySize
      invariant multiset(items[..]) == multiset(old(items[..]))
      invariant SortState(items[..], currentIndex)
      decreases currentIndex
    {
      ghost var before := items[..];
      ghost var next := Sunk(Swap(before, 0, currentIndex), Descending, currentIndex, 0);
      assert SortState(next, currentIndex - 1) by {
        SortStep(before, currentIndex);
      }
      items[0], items[currentIndex] := items[currentIndex], items[0];
      assert items[..] == Swap(before, 0, currentIndex);
      Heapify(items, currentIndex, 0);
      assert items[..] == next;
      currentIndex := currentIndex - 1;
    }
    SortDone(items[..]);
  }

  /**
   * The merge of `merge_sorted_sequences`: the smaller head first, the
   * right head on a tie (`<`), then whatever remains of either side.
   */
  function MergedRight(left: seq<int>, right: seq<int>): seq<int>
    decreases |left| + |right|
  {
    if left == [] then right
    else if right == [] then left
    else if left[0] < right[0] then [left[0]] + MergedRight(left[1..], right)
    else [right[0]] + MergedRight(left, right[1..])
  }

  /** The merge holds exactly the elements of both inputs. */
  lemma {:induction false} MergedRightPermutes(left: seq<int>, right: seq<int>)
    ensures multiset(MergedRight(left, right)) == multiset(left) + multiset(right)
    decreases |left| + |right|
  {
    if left == [] || right == [] {
    } else if left[0] < right[0] {
      MergedRightPermutes(left[1..], right);
      assert left == [left[0]] + left[1..];
    } else {
      MergedRightPermutes(left, right[1..]);
      assert right == [right[0]] + right[1..];
    }
  }

  /** Merging two sorted lists gives a sorted list that starts with one of their heads. */
  lemma {:induction false} MergedRightSorted(left: seq<int>, right: seq<int>)
    requires Sorted(left) && Sorted(right)
    ensures Sorted(MergedRight(left, right))
    ensures MergedRight(left, right) != [] ==>
      (left != [] && MergedRight(left, right)[0] == left[0]) ||
      (right != [] && MergedRight(left, right)[0] == right[0])
    decreases |left| + |right|
  {
    if left == [] || right == [] {
    } else if left[0] < right[0] {
      assert Sorted(left[1..]);
      MergedRightSorted(left[1..], right);
      Prepended(left[0], MergedRight(left[1..], right));
    } else {
      assert Sorted(right[1..]);
      MergedRightSorted(left, right[1..]);
      Prepended(right[0], MergedRight(left, right[1..]));
    }
  }

  /** An element no larger than the head of a sorted list can go in front of it. */
  lemma Prepended(x: int, s: seq<int>)
    requires Sorted(s) && (s != [] ==> x <= s[0])
    ensures Sorted([x] + s)
  {
    var t := [x] + s;
    forall i, j | 0 <= i < j < |t| ensures t[i] <= t[j] {
      if i == 0 && j > 1 {
        assert s[0] <= s[j - 1];
      }
    }
  }

  /** Two sorted lists holding the same elements are the same list. */
  lemma {:induction false} SortedUnique(a: seq<int>, b: seq<int>)
    requires Sorted(a) && Sorted(b) && multiset(a) == multiset(b)
    ensures a == b
  {
    if a != [] {
      assert |b| == |a| by { assert |multiset(b)| == |multiset(a)|; }
      assert a[0] in multiset(b) && b[0] in multiset(a) by {
        assert a[0] in multiset(a) && b[0] in multiset(b);
      }
      var i :| 0 <= i < |b| && b[i] == a[0];
      var j :| 0 <= j < |a| && a[j] == b[0];
      assert a[0] <= b[0] by { if j > 0 { assert a[0] <= a[j]; } }
      assert b[0] <= a[0] by { if i > 0 { assert b[0] <= b[i]; } }
      assert multiset(a[1..]) == multiset(b[1..]) by {
        HeadSplit(a);
        HeadSplit(b);
      }
      assert Sorted(a[1..]) && Sorted(b[1..]);
      SortedUnique(a[1..], b[1..]);
    }
  }

  /** The tail of a non-empty list holds everything but its head. */
  lemma HeadSplit(s: seq<int>)
    requires s != []
    ensures multiset(s[1..]) == multiset(s) - multiset{s[0]}
  {
    assert s == [s[0]] + s[1..];
    assert multiset(s) == multiset{s[0]} + multiset(s[1..]);
  }

  /**
   * On sorted integer lists it does not matter which side wins a tie: the
   * benchmark's merge gives the same list as the merge of `merge_sort`.
   */
  lemma MergedRightAgrees(left: seq<int>, right: seq<int>)
    requires Sorted(left) && Sorted(right)
    ensures MergedRight(left, right) == Sorts.Merged(left, right, (x: int) => x)
  {
    var id := (x: int) => x;
    MergedRightSorted(left, right);
    MergedRightPermutes(left, right);
    Sorts.MergedSorted(left, right, id);
    assert Sorted(Sorts.Merged(left, right, id)) by {
      assert SortedBy(Sorts.Merged(left, right, id), id);
    }
    SortedUnique(MergedRight(left, right), Sorts.Merged(left, right, id));
  }

  /** `merge_sorted_sequences`: the loop appends the smaller head (the right one on a tie), then both remainders. */
  method MergeSortedSequences(leftSeq: seq<int>, rightSeq: seq<int>) returns (mergedResult: seq<int>)
    ensures mergedResult == MergedRight(leftSeq, rightSeq)
  {
    mergedResult := [];
    var leftIndex, rightIndex := 0, 0;
    ghost var rest := MergedRight(leftSeq, rightSeq);
    assert leftSeq[0..] == leftSeq && rightSeq[0..] == rightSeq;
    while leftIndex < |leftSeq| && rightIndex < |rightSeq|
      invariant 0 <= leftIndex <= |leftSeq| && 0 <= rightIndex <= |rightSeq|
      invariant rest == MergedRight(leftSeq[leftIndex..], rightSeq[rightIndex..])
      invariant mergedResult + rest == MergedRight(leftSeq, rightSeq)
      decreases |leftSeq| - leftIndex + |rightSeq| - rightIndex
    {
      RightStep(leftSeq, rightSeq, leftIndex, rightIndex);
      var next: int;
      if leftSeq[leftIndex] < rightSeq[rightIndex] {
        next := leftSeq[leftIndex];
        leftIndex := leftIndex + 1;
      } else {
        next := rightSeq[rightIndex];
        rightIndex := rightIndex + 1;
      }
      Sorts.AppendHead(mergedResult, next, rest[1..]);
      mergedResult := mergedResult + [next];
      rest := rest[1..];
    }
    RightRest(leftSeq, rightSeq, leftIndex, rightIndex);
    mergedResult := mergedResult + leftSeq[leftIndex..];
    mergedResult := mergedResult + rightSeq[rightIndex..];
  }

  /** One round of the merge loop: the smaller remaining head comes first, the right one on a tie. */
  lemma RightStep(left: seq<int>, right: seq<int>, i: nat, j: nat)
    requires i < |left| && j < |right|
    ensures left[i] < right[j] ==>
      MergedRight(left[i..], right[j..]) == [left[i]] + MergedRight(left[i + 1..], right[j..])
    ensures left[i] >= right[j] ==>
      MergedRight(left[i..], right[j..]) == [right[j]] + MergedRight(left[i..], right[j + 1..])
  {
    assert left[i..][1..] == left[i + 1..];
    assert right[j..][1..] == right[j + 1..];
  }

  /** Once either side is used up, the merge is the two remainders in order. */
  lemma RightRest(left: seq<int>, right: seq<int>, i: nat, j: nat)
    requires i <= |left| && j <= |right| && (i == |left| || j == |right|)
    ensures MergedRight(left[i..], right[j..]) == left[i..] + right[j..]
  {
  }

  /** `execute_mergesort`: halves sorted recursively and merged; the result is the sorted permutation. */
  method ExecuteMergeSort(sequence: seq<int>) returns (r: seq<int>)
    ensures Sorted(r)
    ensures multiset(r) == multiset(sequence)
    decreases |sequence|
  {
    if |sequence| <= 1 {
      return sequence;
    }
    var middleIndex := |sequence| / 2;
    var leftPart := ExecuteMergeSort(sequence[..middleIndex]);
    var rightPart := ExecuteMergeSort(sequence[middleIndex..]);
    r := MergeSortedSequences(leftPart, rightPart);
    MergedRightSorted(leftPart, rightPart);
    MergedRightPermutes(leftPart, rightPart);
    assert sequence == sequence[..middleIndex] + sequence[middleIndex..];
  }
}
