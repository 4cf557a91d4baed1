// Lab07 `heap.py`: a binary heap stored in a list, the children of index
// `p` at `2p + 1` and `2p + 2`. Every sift loop of the lab (the heap class,
// the sorts, the benchmark and demo heaps) compares through one integer
// rank: the key itself for a min-heap and its negation for a max-heap, so
// "should swap" is always "the child ranks lower than its parent".

module Heaps {
  import opened Wrappers
  import opened Ordering

  /** `c` is a child of `p` in the implicit tree. */
  predicate Edge(p: nat, c: nat)
  {
    c == 2 * p + 1 || c == 2 * p + 2
  }

  /** `(c - 1) // 2`: the one parent of a non-root index. */
  function Parent(c: nat): (p: nat)
    requires c > 0
    ensures Edge(p, c) && p < c
  {
    (c - 1) / 2
  }

  /**
   * The heap property on the first `size` slots for every parent at or
   * after `lo`: no child ranks lower than its parent.
   */
  ghost predicate HeapFrom<T>(s: seq<T>, rank: T -> int, size: nat, lo: nat)
  {
    size <= |s| &&
    forall p: nat, c: nat :: lo <= p && c < size && Edge(p, c) ==> rank(s[p]) <= rank(s[c])
  }

  /** The whole list is a heap: what `validate()` checks. */
  ghost predicate IsHeap<T>(s: seq<T>, rank: T -> int)
  {
    HeapFrom(s, rank, |s|, 0)
  }

  /** The list with two slots exchanged. */
  function Swap<T>(s: seq<T>, i: nat, j: nat): (r: seq<T>)
    requires i < |s| && j < |s|
    ensures |r| == |s| && r[i] == s[j] && r[j] == s[i]
    ensures forall k :: 0 <= k < |s| && k != i && k != j ==> r[k] == s[k]
    ensures multiset(r) == multiset(s)
  {
    s[i := s[j]][j := s[i]]
  }

  /**
   * The slot a sift-down step moves `i` to: the lower-ranked of `i` and its
   * children inside `size`, left child checked first and `i` kept on ties.
   */
  function Target<T>(s: seq<T>, rank: T -> int, size: nat, i: nat): (t: nat)
    requires size <= |s|
    ensures t == i || (Edge(i, t) && t < size && rank(s[t]) < rank(s[i]))
    ensures i < size ==> forall c: nat :: Edge(i, c) && c < size ==> rank(s[t]) <= rank(s[c])
  {
    var l, r := 2 * i + 1, 2 * i + 2;
    var t1 := if l < size && rank(s[l]) < rank(s[i]) then l else i;
    if r < size && rank(s[r]) < rank(s[t1]) then r else t1
  }

  /**
   * Sift-down of slot `i` inside the first `size` slots: swap with the
   * lower-ranked child while one ranks lower. The result is a permutation
   * that leaves every slot from `size` on in place.
   */
  function Sunk<T>(s: seq<T>, rank: T -> int, size: nat, i: nat): (r: seq<T>)
    requires size <= |s|
    ensures |r| == |s| && multiset(r) == multiset(s)
    ensures forall k :: size <= k < |s| ==> r[k] == s[k]
    decreases size - i
  {
    var t := Target(s, rank, size, i);
    if t == i then s else Sunk(Swap(s, i, t), rank, size, t)
  }

  /**
   * Sift-up of slot `i`: swap with the parent while the parent ranks
   * higher. The result is a permutation of the list.
   */
  function Raised<T>(s: seq<T>, rank: T -> int, i: nat): (r: seq<T>)
    requires i < |s|
    ensures |r| == |s| && multiset(r) == multiset(s)
    decreases i
  {
    if i == 0 then s
    else if rank(s[i]) < rank(s[Parent(i)]) then Raised(Swap(s, i, Parent(i)), rank, Parent(i))
    else s
  }

  /**
   * What a sift-down from `start`, now at `k`, relies on: every edge from a
   * parent at or after `start` holds except those leaving `k`, and the
   * parent of `k` ranks no higher than the children of `k`.
   */
  ghost predicate SinkReady<T>(s: seq<T>, rank: T -> int, size: nat, start: nat, k: nat)
  {
    size <= |s| && start <= k &&
    (forall p: nat, c: nat :: start <= p && p != k && c < size && Edge(p, c) ==> rank(s[p]) <= rank(s[c])) &&
    (k > start ==> forall c: nat :: Edge(k, c) && c < size ==> rank(s[Parent(k)]) <= rank(s[c]))
  }

  /** Sift-down restores the heap property below `start`. */
  lemma {:induction false} SunkHeap<T>(s: seq<T>, rank: T -> int, size: nat, start: nat, k: nat)
    requires SinkReady(s, rank, size, start, k)
    ensures HeapFrom(Sunk(s, rank, size, k), rank, size, start)
    decreases size - k
  {
    var t := Target(s, rank, size, k);
    if t == k {
      forall p: nat, c: nat | start <= p && c < size && Edge(p, c) ensures rank(s[p]) <= rank(s[c]) {
      }
    } else {
      var s' := Swap(s, k, t);
      SinkStep(s, rank, size, start, k, t);
      SunkHeap(s', rank, size, start, t);
    }
  }

  /** One swap of a sift-down moves the exception from `k` to its child `t`. */
  lemma SinkStep<T>(s: seq<T>, rank: T -> int, size: nat, start: nat, k: nat, t: nat)
    requires SinkReady(s, rank, size, start, k)
    requires t == Target(s, rank, size, k) && t != k
    ensures SinkReady(Swap(s, k, t), rank, size, start, t)
  {
    var s' := Swap(s, k, t);
    forall p: nat, c: nat | start <= p && p != t && c < size && Edge(p, c) ensures rank(s'[p]) <= rank(s'[c]) {
      if p == k {
      } else if c == k {
        assert p == Parent(k);
      } else {
        assert c != t;
      }
    }
    assert Parent(t) == k;
  }

  /**
   * What a sift-up at `k` relies on: every edge into a slot other than `k`
   * holds, and the parent of `k` ranks no higher than the children of `k`.
   */
  ghost predicate RiseReady<T>(s: seq<T>, rank: T -> int, k: nat)
  {
    k < |s| &&
    (forall p: nat, c: nat :: c != k && c < |s| && Edge(p, c) ==> rank(s[p]) <= rank(s[c])) &&
    (k > 0 ==> forall c: nat :: Edge(k, c) && c < |s| ==> rank(s[Parent(k)]) <= rank(s[c]))
  }

  /** Sift-up restores the heap property of the whole list. */
  lemma {:induction false} RaisedHeap<T>(s: seq<T>, rank: T -> int, k: nat)
    requires RiseReady(s, rank, k)
    ensures IsHeap(Raised(s, rank, k), rank)
    decreases k
  {
    if k == 0 || !(rank(s[k]) < rank(s[Parent(k)])) {
      forall p: nat, c: nat | 0 <= p && c < |s| && Edge(p, c) ensures rank(s[p]) <= rank(s[c]) {
        if c == k {
          assert p == Parent(k);
        }
      }
    } else {
      RiseStep(s, rank, k);
      RaisedHeap(Swap(s, k, Parent(k)), rank, Parent(k));
    }
  }

  /** One swap of a sift-up moves the exception from `k` to its parent. */
  lemma RiseStep<T>(s: seq<T>, rank: T -> int, k: nat)
    requires RiseReady(s, rank, k) && k > 0
    requires rank(s[k]) < rank(s[Parent(k)])
    ensures RiseReady(Swap(s, k, Parent(k)), rank, Parent(k))
  {
    var p0 := Parent(k);
    var s' := Swap(s, k, p0);
    forall p: nat, c: nat | c != p0 && c < |s| && Edge(p, c) ensures rank(s'[p]) <= rank(s'[c]) {
      if p == p0 {
        if c != k {
          assert rank(s[p0]) <= rank(s[c]);
        }
      } else if p == k {
      } else {
        assert c != k;
      }
    }
    if p0 > 0 {
      forall c: nat | Edge(p0, c) && c < |s| ensures rank(s'[Parent(p0)]) <= rank(s'[c]) {
        assert rank(s[Parent(p0)]) <= rank(s[p0]);
        if c != k {
          assert rank(s[p0]) <= rank(s[c]);
        }
      }
    }
  }

  /** A slot appended to a heap is ready to rise. */
  lemma AppendReady<T>(s: seq<T>, rank: T -> int, x: T)
    requires IsHeap(s, rank)
    ensures RiseReady(s + [x], rank, |s|)
  {
    var s' := s + [x];
    forall p: nat, c: nat | c != |s| && c < |s'| && Edge(p, c) ensures rank(s'[p]) <= rank(s'[c]) {
      assert s'[p] == s[p] && s'[c] == s[c];
    }
  }

  /** Appending and sifting up stores one more copy of the value and keeps a heap a heap. */
  lemma Pushed<T>(s: seq<T>, rank: T -> int, x: T)
    ensures multiset(Raised(s + [x], rank, |s|)) == multiset(s) + multiset{x}
    ensures IsHeap(s, rank) ==> IsHeap(Raised(s + [x], rank, |s|), rank)
  {
    if IsHeap(s, rank) {
      AppendReady(s, rank, x);
      RaisedHeap(s + [x], rank, |s|);
    }
  }

  /** The root of a heap ranks no higher than any slot. */
  lemma {:induction false} RootLowest<T>(s: seq<T>, rank: T -> int, size: nat, j: nat)
    requires HeapFrom(s, rank, size, 0) && j < size
    ensures rank(s[0]) <= rank(s[j])
    decreases j
  {
    if j > 0 {
      RootLowest(s, rank, size, Parent(j));
    }
  }

  /** Every element stored in a heap ranks no lower than its root. */
  lemma RootLowestAll<T>(s: seq<T>, rank: T -> int)
    requires IsHeap(s, rank) && s != []
    ensures forall x | x in multiset(s) :: rank(s[0]) <= rank(x)
  {
    forall x | x in multiset(s) ensures rank(s[0]) <= rank(x) {
      var j :| 0 <= j < |s| && s[j] == x;
      RootLowest(s, rank, |s|, j);
    }
  }

  /** Slots from the middle on have no children: a heap from there on by default. */
  lemma LeavesHeap<T>(s: seq<T>, rank: T -> int, size: nat)
    requires size <= |s|
    ensures HeapFrom(s, rank, size, size / 2)
  {
  }

  /** The list left after a pop, before it sifts down: the last element moved to the root. */
  function Unrooted<T>(s: seq<T>): (r: seq<T>)
    requires |s| > 1
    ensures |r| == |s| - 1
    ensures multiset(r) == multiset(s) - multiset{s[0]}
  {
    var last := s[|s| - 1];
    assert s == [s[0]] + s[1..|s| - 1] + [last];
    assert s[..|s| - 1][0 := last] == [last] + s[1..|s| - 1];
    s[..|s| - 1][0 := last]
  }

  /** The list after a pop that moved the last element to the root is ready to sift down. */
  lemma UnrootedReady<T>(s: seq<T>, rank: T -> int)
    requires IsHeap(s, rank) && |s| > 1
    ensures SinkReady(Unrooted(s), rank, |s| - 1, 0, 0)
  {
    var r := Unrooted(s);
    forall p: nat, c: nat | 0 <= p && p != 0 && c < |s| - 1 && Edge(p, c) ensures rank(r[p]) <= rank(r[c]) {
      assert r[p] == s[p] && r[c] == s[c];
    }
  }

  /** Moving the last element to the root and sifting it down keeps a heap a heap. */
  lemma Popped<T>(s: seq<T>, rank: T -> int)
    requires |s| > 1
    ensures IsHeap(s, rank) ==> IsHeap(Sunk(Unrooted(s), rank, |s| - 1, 0), rank)
  {
    if IsHeap(s, rank) {
      UnrootedReady(s, rank);
      SunkHeap(Unrooted(s), rank, |s| - 1, 0, 0);
    }
  }

  /** `_move_up`: the sift-up loop, the `_should_swap` test written as a rank comparison. */
  method SiftUp<T>(s: seq<T>, rank: T -> int, idx: nat) returns (r: seq<T>)
    requires idx < |s|
    ensures r == Raised(s, rank, idx)
  {
    r := s;
    var current: nat := idx;
    while current > 0
      invariant current < |r|
      invariant Raised(r, rank, current) == Raised(s, rank, idx)
      decreases current
    {
      var parent: nat := (current - 1) / 2;
      if !(rank(r[current]) < rank(r[parent])) {
        break;
      }
      r := r[current := r[parent]][parent := r[current]];
      current := parent;
    }
  }

  /**
   * `_move_down`: the sift-down loop over the first `size` slots, checking
   * the left child, then the right one, against the current target.
   */
  method SiftDown<T>(s: seq<T>, rank: T -> int, size: nat, idx: nat) returns (r: seq<T>)
    requires size <= |s|
    ensures r == Sunk(s, rank, size, idx)
  {
    r := s;
    var current: nat := idx;
    while true
      invariant |r| == |s|
      invariant Sunk(r, rank, size, current) == Sunk(s, rank, size, idx)
      decreases size - current
    {
      var left, right := 2 * current + 1, 2 * current + 2;
      var target := current;
      if left < size && rank(r[left]) < rank(r[target]) {
        target := left;
      }
      if right < size && rank(r[right]) < rank(r[target]) {
        target := right;
      }
      assert target == Target(r, rank, size, current);
      if target == current {
        break;
      }
      r := r[current := r[target]][target := r[current]];
      current := target;
    }
  }

  /**
   * `create_from`: the list copied, then every slot with children sifted
   * down, the last parent first. The result is a heap holding exactly the
   * collection.
   */
  method Heapified<T>(collection: seq<T>, rank: T -> int) returns (r: seq<T>)
    ensures multiset(r) == multiset(collection) && |r| == |collection|
    ensures IsHeap(r, rank)
  {
    r := collection;
    var n := |r|;
    var i := n / 2 - 1;
    LeavesHeap(r, rank, n);
    while i >= 0
      invariant -1 <= i < n
      invariant |r| == n && multiset(r) == multiset(collection)
      invariant HeapFrom(r, rank, n, i + 1)
      decreases i + 1
    {
      assert SinkReady(r, rank, n, i, i);
      SunkHeap(r, rank, n, i, i);
      r := SiftDown(r, rank, n, i);
      i := i - 1;
    }
  }

  /** The rank a heap compares by: the key for a min-heap, its negation for a max-heap. */
  function RankOf<T>(isMin: bool, key: T -> int): T -> int
  {
    x => if isMin then key(x) else -key(x)
  }

  /**
   * `Heap`, with `MinHeap` and `MaxHeap` as its two settings of `isMin`.
   * Python compares the stored values directly; here they are compared by
   * an integer `key` (the value itself for a heap of integers).
   */
  class Heap<T> {
    var data: seq<T>
    const isMin: bool
    const key: T -> int

    /** The rank the sift loops compare by. */
    function Rank(): T -> int
    {
      RankOf(isMin, key)
    }

    /** The heap property over the stored list. */
    ghost predicate Valid()
      reads this
    {
      IsHeap(data, Rank())
    }

    /** `Heap(min_heap=...)`: an empty heap of the given kind. */
    constructor (minHeap: bool, key: T -> int)
      ensures data == [] && isMin == minHeap && this.key == key
      ensures Valid()
    {
      data := [];
      isMin := minHeap;
      this.key := key;
    }

    /** `__len__`: the number of stored elements, which pushes raise and pops lower. */
    function Length(): (n: nat)
      reads this
      ensures n == |data|
    {
      |data|
    }

    /** `__bool__`: true exactly when something is stored. */
    function NonEmpty(): (b: bool)
      reads this
      ensures b <==> Length() > 0
    {
      data != []
    }

    /**
     * `_should_swap`: a min-heap swaps a smaller child up, a max-heap a
     * larger one; in both, exactly when the child ranks lower.
     */
    function ShouldSwap(child: T, parent: T): (swap: bool)
      ensures swap <==> Rank()(child) < Rank()(parent)
    {
      if isMin then key(child) < key(parent) else key(child) > key(parent)
    }

    /** `_move_up`. */
    method MoveUp(idx: nat)
      requires idx < |data|
      modifies this
      ensures data == Raised(old(data), Rank(), idx)
    {
      data := SiftUp(data, Rank(), idx);
    }

    /** `_move_down`, over the whole list. */
    method MoveDown(idx: nat)
      modifies this
      ensures data == Sunk(old(data), Rank(), |old(data)|, idx)
    {
      data := SiftDown(data, Rank(), |data|, idx);
    }

    /**
     * `push` (alias `insert`): append, then sift the new slot up. One more
     * copy of `value` is stored, and a heap stays a heap.
     */
    method Push(value: T)
      modifies this
      ensures data == Raised(old(data) + [value], Rank(), |old(data)|)
      ensures multiset(data) == multiset(old(data)) + multiset{value}
      ensures old(Valid()) ==> Valid()
    {
      Pushed(data, Rank(), value);
      data := data + [value];
      MoveUp(|data| - 1);
    }

    /**
     * `pop` (alias `extract`): `IndexError` on an empty heap; otherwise the
     * root comes out, the last element takes its place and sifts down. One
     * copy of the root leaves the heap, and in a valid heap the root ranks
     * no higher than anything stored.
     */
    method Pop() returns (r: Result<T>)
      modifies this
      ensures old(data) == [] ==> r == Err(IndexError) && data == []
      ensures old(data) != [] ==> r == Ok(old(data)[0])
      ensures old(data) != [] ==> multiset(data) == multiset(old(data)) - multiset{old(data)[0]}
      ensures old(data) != [] ==> |data| == |old(data)| - 1
      ensures old(Valid()) ==> Valid()
      ensures old(Valid()) && r.Ok? ==> forall x | x in multiset(old(data)) :: Rank()(r.value) <= Rank()(x)
    {
      if data == [] {
        return Err(IndexError);
      }
      if IsHeap(data, Rank()) {
        RootLowestAll(data, Rank());
      }
      var result := data[0];
      if |data| == 1 {
        data := [];
      } else {
        ghost var before := data;
        Popped(before, Rank());
        var last := data[|data| - 1];
        data := data[..|data| - 1];
        data := data[0 := last];
        assert data == Unrooted(before);
        MoveDown(0);
      }
      return Ok(result);
    }

    /**
     * `top` (alias `peek`): `IndexError` on an empty heap, otherwise the
     * root, which in a valid heap ranks no higher than anything stored.
     */
    function Top(): (r: Result<T>)
      reads this
      ensures data == [] <==> r == Err(IndexError)
      ensures r.Ok? ==> r.value in data
      ensures Valid() && r.Ok? ==> forall i | 0 <= i < |data| :: Rank()(r.value) <= Rank()(data[i])
    {
      if data == [] then Err(IndexError)
      else
        assert Valid() ==> forall i | 0 <= i < |data| :: Rank()(data[0]) <= Rank()(data[i]) by {
          if Valid() {
            forall i | 0 <= i < |data| ensures Rank()(data[0]) <= Rank()(data[i]) {
              RootLowest(data, Rank(), |data|, i);
            }
          }
        }
        Ok(data[0])
    }

    /** `create_from`: the heap rebuilt from a copy of the collection. */
    method CreateFrom(collection: seq<T>)
      modifies this
      ensures multiset(data) == multiset(collection) && |data| == |collection|
      ensures Valid()
    {
      data := Heapified(collection, Rank());
    }

    /** `rebuild`: `create_from` on the stored list; the same elements, now a heap. */
    method Rebuild()
      modifies this
      ensures multiset(data) == multiset(old(data)) && |data| == |old(data)|
      ensures Valid()
    {
      CreateFrom(data);
    }

    /**
     * `validate`: scans every slot and fails at the first child that should
     * swap with its parent. It answers exactly whether the list is a heap.
     */
    method Validate() returns (valid: bool)
      ensures valid <==> Valid()
    {
      var n := |data|;
      for i := 0 to n
        invariant forall p: nat, c: nat :: p < i && c < n && Edge(p, c) ==> Rank()(data[p]) <= Rank()(data[c])
      {
        var left, right := 2 * i + 1, 2 * i + 2;
        if left < n && ShouldSwap(data[left], data[i]) {
          return false;
        }
        if right < n && ShouldSwap(data[right], data[i]) {
          return false;
        }
      }
      return true;
    }

    /** `clear`: nothing stored, which is a valid heap. */
    method Clear()
      modifies this
      ensures data == [] && Valid()
    {
      data := [];
    }

    /** `items`: the stored elements in their list order. */
    function Items(): (r: seq<T>)
      reads this
      ensures |r| == Length() && multiset(r) == multiset(data)
    {
      data
    }
  }

  /**
   * Popping a valid heap until it is empty: the elements come out in
   * non-decreasing rank (ascending for a min-heap, descending keys for a
   * max-heap), each stored copy once.
   */
  method PopAll<T>(heap: Heap<T>) returns (out: seq<T>)
    requires heap.Valid()
    modifies heap
    ensures SortedBy(out, heap.Rank())
    ensures multiset(out) == multiset(old(heap.data))
    ensures heap.data == []
  {
    out := [];
    while heap.NonEmpty()
      invariant heap.Valid()
      invariant multiset(out) + multiset(heap.data) == multiset(old(heap.data))
      invariant SortedBy(out, heap.Rank())
      invariant forall x, y | x in out && y in multiset(heap.data) :: heap.Rank()(x) <= heap.Rank()(y)
      decreases |heap.data|
    {
      ghost var stored := multiset(heap.data);
      var r := heap.Pop();
      var x := r.value;
      assert x in stored;
      forall i, j | 0 <= i < j < |out + [x]| ensures heap.Rank()((out + [x])[i]) <= heap.Rank()((out + [x])[j]) {
        if j == |out| {
          assert out[i] in out;
        }
      }
      out := out + [x];
    }
  }

  /** `heap_sort_with_class`: a min-heap built from the sequence, then popped until empty. */
  method HeapSortWithClass(sequence: seq<int>) returns (sorted: seq<int>)
    ensures Sorted(sorted)
    ensures multiset(sorted) == multiset(sequence)
  {
    var heap := new Heap(true, (x: int) => x);
    heap.CreateFrom(sequence);
    sorted := PopAll(heap);
  }
}
