// Lab08 `greedy_algorithms.py`: `interval_scheduling`, the greedy choice of
// intervals by earliest end. `sorted` is a stable sort by key; here the
// lab's own stable merge sort stands for it.

module Scheduling {
  import opened Wrappers
  import opened Ordering
  import Sorts

  /** An interval `(start, end)`. */
  type Interval = (int, int)

  function Start(x: Interval): int
  {
    x.0
  }

  function End(x: Interval): int
  {
    x.1
  }

  /** A schedule: each interval starts no earlier than the one before it ends (touching is allowed). */
  ghost predicate Chain(c: seq<Interval>)
  {
    forall i, j :: 0 <= i && j == i + 1 && j < |c| ==> End(c[i]) <= Start(c[j])
  }

  /** Every interval ends no earlier than it starts. */
  ghost predicate WellFormed(xs: seq<Interval>)
  {
    forall x | x in xs :: Start(x) <= End(x)
  }

  /** Every interval ends strictly after it starts. */
  ghost predicate Proper(xs: seq<Interval>)
  {
    forall x | x in xs :: Start(x) < End(x)
  }

  /** The schedule uses input intervals only, each at most as often as the input holds it. */
  ghost predicate DrawnFrom(c: seq<Interval>, xs: seq<Interval>)
  {
    multiset(c) <= multiset(xs)
  }

  /**
   * The order the greedy scan needs: ends never decrease, and among
   * intervals of one end an empty interval is followed by empty ones only.
   */
  ghost predicate GreedyOrder(xs: seq<Interval>)
  {
    forall i, j :: 0 <= i < j < |xs| ==>
      End(xs[i]) <= End(xs[j]) &&
      (End(xs[i]) == End(xs[j]) && Start(xs[i]) == End(xs[i]) ==> Start(xs[j]) == End(xs[j]))
  }

  /**
   * The loop of `interval_scheduling` as a function of the intervals in
   * the order it visits them: an interval is kept when it starts no earlier
   * than the last kept one ends (always, while none is kept).
   */
  function Scan(xs: seq<Interval>): (r: seq<Interval>)
    ensures |r| <= |xs|
  {
    if xs == [] then []
    else
      var sel := Scan(xs[..|xs| - 1]);
      var x := xs[|xs| - 1];
      if sel == [] || Start(x) >= End(sel[|sel| - 1]) then sel + [x] else sel
  }

  /** What the scan keeps is a schedule drawn from its input that starts with the first interval visited. */
  lemma {:induction false} ScanSchedule(xs: seq<Interval>)
    ensures Chain(Scan(xs)) && DrawnFrom(Scan(xs), xs)
    ensures xs != [] ==> Scan(xs) != [] && Scan(xs)[0] == xs[0]
  {
    if xs != [] {
      var init, x := xs[..|xs| - 1], xs[|xs| - 1];
      LastSplit(xs);
      ScanSchedule(init);
      ScanUnfold(init, x, xs);
      var sel := Scan(init);
      if sel == [] || Start(x) >= End(sel[|sel| - 1]) {
        Kept(sel, x, init);
      } else {
        assert multiset(init) <= multiset(xs);
      }
    }
  }

  /** Appending an interval that starts after the last kept one ends keeps a schedule drawn from the input. */
  lemma Kept(sel: seq<Interval>, x: Interval, init: seq<Interval>)
    requires Chain(sel) && DrawnFrom(sel, init)
    requires sel != [] ==> End(sel[|sel| - 1]) <= Start(x)
    ensures Chain(sel + [x]) && DrawnFrom(sel + [x], init + [x])
    ensures init == [] ==> sel + [x] == [x]
    ensures sel != [] ==> (sel + [x])[0] == sel[0]
  {
    assert multiset(sel + [x]) == multiset(sel) + multiset{x};
    assert multiset(init + [x]) == multiset(init) + multiset{x};
    if init == [] {
      assert |multiset(sel)| == 0;
    }
  }

  /** The last kept interval ends no later than any interval visited after it. */
  lemma LastKeptEnds(xs: seq<Interval>, x: Interval)
    requires GreedyOrder(xs + [x])
    ensures Scan(xs) != [] ==> End(Scan(xs)[|Scan(xs)| - 1]) <= End(x)
  {
    var sel := Scan(xs);
    if sel != [] {
      ScanSchedule(xs);
      var y := sel[|sel| - 1];
      assert y in multiset(xs) by { assert y in multiset(sel); }
      var q :| 0 <= q < |xs| && xs[q] == y;
      assert (xs + [x])[q] == y && (xs + [x])[|xs|] == x;
    }
  }

  /** In end order, what the scan keeps is in end order too. */
  lemma {:induction false} ScanSorted(xs: seq<Interval>)
    requires SortedBy(xs, End)
    ensures SortedBy(Scan(xs), End)
  {
    if xs != [] {
      var init, x := xs[..|xs| - 1], xs[|xs| - 1];
      assert SortedBy(init, End);
      ScanSorted(init);
      ScanSchedule(init);
      var sel := Scan(init);
      forall y | y in sel ensures End(y) <= End(x) {
        assert y in multiset(init) by { assert y in multiset(sel); }
        var q :| 0 <= q < |init| && init[q] == y;
        assert xs[q] == y;
      }
    }
  }

  /** In a schedule of well-formed intervals, every interval ends before any later one starts. */
  lemma {:induction false} ChainOrder(c: seq<Interval>)
    requires Chain(c) && WellFormed(c)
    ensures forall a, b :: 0 <= a < b < |c| ==> End(c[a]) <= Start(c[b])
  {
    if |c| > 1 {
      var init := c[..|c| - 1];
      assert Chain(init) && WellFormed(init) by {
        forall x | x in init ensures Start(x) <= End(x) { assert x in c; }
      }
      ChainOrder(init);
      var b := |c| - 1;
      forall a | 0 <= a < b ensures End(c[a]) <= Start(c[b]) {
        assert c[b - 1] in c;
        if a < b - 1 {
          assert init[a] == c[a] && init[b - 1] == c[b - 1];
        }
      }
    }
  }

  /**
   * When the last interval of a greedy-ordered input is in a schedule drawn
   * from that input, the schedule ends with it.
   */
  lemma LastIsNewest(xs: seq<Interval>, c: seq<Interval>)
    requires WellFormed(xs) && GreedyOrder(xs) && xs != []
    requires Chain(c) && DrawnFrom(c, xs) && xs[|xs| - 1] in c
    ensures c[|c| - 1] == xs[|xs| - 1]
  {
    var x, y := xs[|xs| - 1], c[|c| - 1];
    var p :| 0 <= p < |c| && c[p] == x;
    assert y in multiset(xs) by { assert y in multiset(c); }
    var q :| 0 <= q < |xs| && xs[q] == y;
    assert WellFormed(c) by {
      forall z | z in c ensures Start(z) <= End(z) {
        assert z in multiset(c);
        assert z in xs;
      }
    }
    ChainOrder(c);
    if p < |c| - 1 && q < |xs| - 1 {
      assert End(x) <= Start(y);
      assert Start(y) <= End(y) by { assert y in xs; }
      assert End(y) <= End(x);
    }
  }

  /**
   * The greedy scan over a well-formed input in greedy order stays ahead
   * of every schedule drawn from it: no schedule is longer, and one as
   * long ends no earlier.
   */
  lemma {:induction false} ScanOptimal(xs: seq<Interval>, c: seq<Interval>)
    requires WellFormed(xs) && GreedyOrder(xs)
    requires Chain(c) && DrawnFrom(c, xs)
    ensures |c| <= |Scan(xs)|
    ensures |c| == |Scan(xs)| && c != [] ==> End(Scan(xs)[|Scan(xs)| - 1]) <= End(c[|c| - 1])
    decreases |xs|, 1
  {
    if xs == [] {
      assert |multiset(c)| == 0;
    } else if xs[|xs| - 1] in c {
      OptimalWithNewest(xs, c);
    } else {
      OptimalWithoutNewest(xs, c);
    }
  }

  /** The inductive step of `ScanOptimal` for a schedule that avoids the newest interval. */
  lemma {:induction false} OptimalWithoutNewest(xs: seq<Interval>, c: seq<Interval>)
    requires WellFormed(xs) && GreedyOrder(xs) && xs != []
    requires Chain(c) && DrawnFrom(c, xs) && xs[|xs| - 1] !in c
    ensures |c| <= |Scan(xs)|
    ensures |c| == |Scan(xs)| && c != [] ==> End(Scan(xs)[|Scan(xs)| - 1]) <= End(c[|c| - 1])
    decreases |xs|, 0
  {
    var init, x := NewestAvoided(xs, c);
    ScanOptimal(init, c);
    KeepsAhead(init, x, xs, c);
  }

  /** The inductive step of `ScanOptimal` for a schedule that uses the newest interval. */
  lemma {:induction false} OptimalWithNewest(xs: seq<Interval>, c: seq<Interval>)
    requires WellFormed(xs) && GreedyOrder(xs) && xs != []
    requires Chain(c) && DrawnFrom(c, xs) && xs[|xs| - 1] in c
    ensures |c| <= |Scan(xs)|
    ensures |c| == |Scan(xs)| && c != [] ==> End(Scan(xs)[|Scan(xs)| - 1]) <= End(c[|c| - 1])
    decreases |xs|, 0
  {
    var init, x, c' := NewestSplit(xs, c);
    ScanOptimal(init, c');
    StaysAhead(init, c', x, xs, c);
  }

  /**
   * A schedule that uses the newest interval `x` of the input: without it,
   * it is a schedule drawn from the earlier intervals that ends in time for `x`.
   */
  lemma NewestSplit(xs: seq<Interval>, c: seq<Interval>) returns (init: seq<Interval>, x: Interval, c': seq<Interval>)
    requires WellFormed(xs) && GreedyOrder(xs) && xs != []
    requires Chain(c) && DrawnFrom(c, xs) && xs[|xs| - 1] in c
    ensures xs == init + [x] && c == c' + [x]
    ensures WellFormed(init) && GreedyOrder(init) && Chain(c') && DrawnFrom(c', init)
    ensures c' != [] ==> End(c'[|c'| - 1]) <= Start(x)
  {
    init, x := xs[..|xs| - 1], xs[|xs| - 1];
    LastIsNewest(xs, c);
    c' := DropLast(c);
    DropShared(c, xs);
    LastSplit(xs);
  }

  /** A schedule that avoids the newest interval `x` of the input is drawn from the earlier intervals. */
  lemma NewestAvoided(xs: seq<Interval>, c: seq<Interval>) returns (init: seq<Interval>, x: Interval)
    requires WellFormed(xs) && GreedyOrder(xs) && xs != []
    requires DrawnFrom(c, xs) && xs[|xs| - 1] !in c
    ensures xs == init + [x] && x !in c
    ensures WellFormed(init) && GreedyOrder(init) && DrawnFrom(c, init)
  {
    init, x := xs[..|xs| - 1], xs[|xs| - 1];
    LastSplit(xs);
    SkipsNewest(c, init, x);
  }

  /** The scan of `init + [x]` in terms of the scan of `init`, whose last kept interval ends no later than `x`. */
  lemma ScanStep(init: seq<Interval>, x: Interval, xs: seq<Interval>)
    requires xs == init + [x] && GreedyOrder(xs)
    ensures var sel := Scan(init);
            Scan(xs) == (if sel == [] || Start(x) >= End(sel[|sel| - 1]) then sel + [x] else sel) &&
            (sel != [] ==> End(sel[|sel| - 1]) <= End(x))
  {
    LastKeptEnds(init, x);
    ScanUnfold(init, x, xs);
  }

  /** The scan of `init + [x]` in terms of the scan of `init`. */
  lemma ScanUnfold(init: seq<Interval>, x: Interval, xs: seq<Interval>)
    requires xs == init + [x]
    ensures var sel := Scan(init);
            Scan(xs) == if sel == [] || Start(x) >= End(sel[|sel| - 1]) then sel + [x] else sel
  {
    assert xs[..|xs| - 1] == init;
    ScanLast(xs);
  }

  /** A non-empty list is its front followed by its last element. */
  lemma LastSplit<T>(xs: seq<T>)
    requires xs != []
    ensures xs == xs[..|xs| - 1] + [xs[|xs| - 1]]
    ensures multiset(xs) == multiset(xs[..|xs| - 1]) + multiset{xs[|xs| - 1]}
  {
    assert xs == xs[..|xs| - 1] + [xs[|xs| - 1]];
  }

  /** One step of the scan: the last interval is kept exactly when it starts no earlier than the last kept one ends. */
  lemma ScanLast(xs: seq<Interval>)
    requires xs != []
    ensures var sel, x := Scan(xs[..|xs| - 1]), xs[|xs| - 1];
            Scan(xs) == if sel == [] || Start(x) >= End(sel[|sel| - 1]) then sel + [x] else sel
  {
  }

  /**
   * The counting step of the greedy argument: a scan of `init` ahead of a
   * schedule `c'` that ends in time for the newest interval `x` stays ahead
   * of `c' + [x]` once it has considered `x`, whether it keeps `x` or not.
   */
  lemma StaysAhead(init: seq<Interval>, c': seq<Interval>, x: Interval, xs: seq<Interval>, c: seq<Interval>)
    requires xs == init + [x] && GreedyOrder(xs)
    requires |c'| <= |Scan(init)|
    requires |c'| == |Scan(init)| && c' != [] ==> End(Scan(init)[|Scan(init)| - 1]) <= End(c'[|c'| - 1])
    requires c' != [] ==> End(c'[|c'| - 1]) <= Start(x)
    requires c == c' + [x]
    ensures |c| <= |Scan(xs)| && (|c| == |Scan(xs)| ==> End(Scan(xs)[|Scan(xs)| - 1]) <= End(c[|c| - 1]))
  {
    ScanStep(init, x, xs);
    CountStep(Scan(init), c', x, Scan(xs), c);
  }

  /** `StaysAhead` on the two scans as plain lists. */
  lemma CountStep(sel: seq<Interval>, c': seq<Interval>, x: Interval, r: seq<Interval>, c: seq<Interval>)
    requires |c'| <= |sel| && (|c'| == |sel| && c' != [] ==> End(sel[|sel| - 1]) <= End(c'[|c'| - 1]))
    requires sel != [] ==> End(sel[|sel| - 1]) <= End(x)
    requires c' != [] ==> End(c'[|c'| - 1]) <= Start(x)
    requires r == if sel == [] || Start(x) >= End(sel[|sel| - 1]) then sel + [x] else sel
    requires c == c' + [x]
    ensures |c| <= |r| && (|c| == |r| ==> End(r[|r| - 1]) <= End(c[|c| - 1]))
  {
  }

  /** A scan of `init` ahead of a schedule stays ahead of it once it has considered one more interval. */
  lemma KeepsAhead(init: seq<Interval>, x: Interval, xs: seq<Interval>, c: seq<Interval>)
    requires xs == init + [x]
    requires |c| <= |Scan(init)|
    requires |c| == |Scan(init)| && c != [] ==> End(Scan(init)[|Scan(init)| - 1]) <= End(c[|c| - 1])
    ensures |c| <= |Scan(xs)| && (|c| == |Scan(xs)| && c != [] ==> End(Scan(xs)[|Scan(xs)| - 1]) <= End(c[|c| - 1]))
  {
    ScanUnfold(init, x, xs);
  }

  /** A schedule and an input that end with the same interval: without it, the schedule is still drawn from the input. */
  lemma DropShared(c: seq<Interval>, xs: seq<Interval>)
    requires c != [] && xs != [] && c[|c| - 1] == xs[|xs| - 1]
    requires DrawnFrom(c, xs)
    ensures DrawnFrom(c[..|c| - 1], xs[..|xs| - 1])
  {
    var a, b, x := multiset(c[..|c| - 1]), multiset(xs[..|xs| - 1]), xs[|xs| - 1];
    LastSplit(c);
    LastSplit(xs);
    forall z ensures a[z] <= b[z] {
      assert (a + multiset{x})[z] <= (b + multiset{x})[z];
    }
  }

  /** A schedule that avoids the newest interval is drawn from the earlier ones. */
  lemma SkipsNewest(c: seq<Interval>, init: seq<Interval>, x: Interval)
    requires DrawnFrom(c, init + [x]) && x !in c
    ensures DrawnFrom(c, init)
  {
    assert multiset(init + [x]) == multiset(init) + multiset{x};
    assert multiset(c)[x] == 0;
    forall z ensures multiset(c)[z] <= multiset(init)[z] {
      assert multiset(init + [x])[z] == multiset(init)[z] + (if z == x then 1 else 0);
    }
  }

  /** A schedule without its last interval is still a schedule. */
  lemma DropLast(c: seq<Interval>) returns (c': seq<Interval>)
    requires Chain(c) && c != []
    ensures c' == c[..|c| - 1] && c == c' + [c[|c| - 1]]
    ensures multiset(c) == multiset(c') + multiset{c[|c| - 1]}
    ensures Chain(c')
    ensures c' != [] ==> End(c'[|c'| - 1]) <= Start(c[|c| - 1])
  {
    c' := c[..|c| - 1];
    assert c == c' + [c[|c| - 1]];
  }

  /** An end-sorted input of intervals of positive length is in greedy order. */
  lemma ProperOrder(xs: seq<Interval>)
    requires SortedBy(xs, End) && Proper(xs)
    ensures GreedyOrder(xs) && WellFormed(xs)
  {
    forall i, j | 0 <= i < j < |xs| ensures End(xs[i]) == End(xs[j]) ==> Start(xs[i]) != End(xs[i]) {
      assert xs[i] in xs;
    }
  }

  /**
   * `interval_scheduling`: the loop over the sorted intervals, with the
   * last end starting at minus infinity (`None`).
   */
  method SelectCompatible(sortedIntervals: seq<Interval>) returns (selected: seq<Interval>)
    ensures selected == Scan(sortedIntervals)
  {
    selected := [];
    var lastEndTime: Option<int> := None;
    for k := 0 to |sortedIntervals|
      invariant selected == Scan(sortedIntervals[..k])
      invariant lastEndTime == if selected == [] then None else Some(End(selected[|selected| - 1]))
    {
      assert sortedIntervals[..k + 1][..k] == sortedIntervals[..k];
      var (start, end) := sortedIntervals[k];
      if lastEndTime.None? || start >= lastEndTime.value {
        selected := selected + [sortedIntervals[k]];
        lastEndTime := Some(end);
      }
    }
    assert sortedIntervals[..|sortedIntervals|] == sortedIntervals;
  }

  /**
   * `interval_scheduling`: nothing for no intervals; otherwise the
   * intervals stably sorted by end (`ordered`), then the greedy loop. The
   * result is a schedule drawn from the input in end order whose first
   * interval ends earliest; when every interval has positive length no
   * schedule drawn from the input is longer.
   */
  method IntervalScheduling(intervals: seq<Interval>) returns (selected: seq<Interval>, ghost ordered: seq<Interval>)
    ensures intervals == [] ==> selected == []
    ensures SortedBy(ordered, End) && multiset(ordered) == multiset(intervals)
    ensures forall k :: Sorts.WithKey(ordered, End, k) == Sorts.WithKey(intervals, End, k)
    ensures selected == Scan(ordered)
    ensures Chain(selected) && DrawnFrom(selected, intervals) && SortedBy(selected, End)
    ensures intervals != [] ==> selected != [] && selected[0] in intervals &&
                                forall x | x in intervals :: End(selected[0]) <= End(x)
    ensures Proper(intervals) ==> forall c | PairwiseCompatible(c) && DrawnFrom(c, intervals) :: |c| <= |selected|
  {
    if intervals == [] {
      return [], [];
    }
    var sortedIntervals := Sorts.MergeSort(intervals, End);
    ordered := sortedIntervals;
    selected := SelectCompatible(sortedIntervals);
    ScanSchedule(sortedIntervals);
    ScanSorted(sortedIntervals);
    Settle(intervals, sortedIntervals, selected);
  }

  /**
   * What a sorted permutation and the scan over it give: the scan's result
   * is drawn from the input, its first interval ends earliest, and under
   * positive lengths it is as long as any schedule.
   */
  lemma Settle(intervals: seq<Interval>, sortedIntervals: seq<Interval>, selected: seq<Interval>)
    requires intervals != [] && SortedBy(sortedIntervals, End)
    requires multiset(sortedIntervals) == multiset(intervals)
    requires selected == Scan(sortedIntervals)
    requires DrawnFrom(selected, sortedIntervals) && selected != [] && selected[0] == sortedIntervals[0]
    ensures DrawnFrom(selected, intervals)
    ensures selected[0] in intervals && forall x | x in intervals :: End(selected[0]) <= End(x)
    ensures Proper(intervals) ==> forall c | PairwiseCompatible(c) && DrawnFrom(c, intervals) :: |c| <= |selected|
  {
    assert sortedIntervals[0] in multiset(intervals);
    forall x | x in intervals ensures End(selected[0]) <= End(x) {
      assert x in multiset(sortedIntervals);
      var q :| 0 <= q < |sortedIntervals| && sortedIntervals[q] == x;
    }
    if Proper(intervals) {
      assert Proper(sortedIntervals) by {
        forall x | x in sortedIntervals ensures Start(x) < End(x) {
          assert x in multiset(intervals);
        }
      }
      ProperOrder(sortedIntervals);
      forall c | PairwiseCompatible(c) && DrawnFrom(c, intervals) ensures |c| <= |selected| {
        CompatibleBound(sortedIntervals, c);
      }
    }
  }

  /** Two intervals do not overlap (touching is allowed). */
  predicate Compatible(a: Interval, b: Interval)
  {
    End(a) <= Start(b) || End(b) <= Start(a)
  }

  /** The intervals of `c` pairwise do not overlap. */
  ghost predicate PairwiseCompatible(c: seq<Interval>)
  {
    forall i, j :: 0 <= i < j < |c| ==> Compatible(c[i], c[j])
  }

  /** `a` comes no later than `b` in order of end, and of start among equal ends. */
  predicate LexAtMost(a: Interval, b: Interval)
  {
    End(a) < End(b) || (End(a) == End(b) && Start(a) <= Start(b))
  }

  /** Neighbours are in order of end, and of start among equal ends. */
  ghost predicate LexNeighbours(s: seq<Interval>)
  {
    forall i, j :: 0 <= i && j == i + 1 && j < |s| ==> LexAtMost(s[i], s[j])
  }

  /** `x` inserted before the first interval that does not come before it. */
  function Insert(x: Interval, s: seq<Interval>): (r: seq<Interval>)
    ensures |r| == |s| + 1 && (r[0] == x || (s != [] && r[0] == s[0]))
    ensures forall y :: y in r <==> y == x || y in s
    ensures multiset(r) == multiset(s) + multiset{x}
  {
    if s == [] || LexAtMost(x, s[0]) then [x] + s
    else
      assert s == [s[0]] + s[1..];
      [s[0]] + Insert(x, s[1..])
  }

  /** Insertion sort in order of end, then start. */
  ghost function LexSort(c: seq<Interval>): (r: seq<Interval>)
    ensures multiset(r) == multiset(c)
  {
    if c == [] then []
    else
      assert c == [c[0]] + c[1..];
      Insert(c[0], LexSort(c[1..]))
  }

  /** Insertion keeps neighbours in order, and keeps pairwise compatibility when `x` fits with all of `s`. */
  lemma {:induction false} InsertOrdered(x: Interval, s: seq<Interval>)
    requires LexNeighbours(s)
    ensures LexNeighbours(Insert(x, s))
    ensures PairwiseCompatible(s) && (forall y | y in s :: Compatible(x, y)) ==> PairwiseCompatible(Insert(x, s))
  {
    if s != [] && !LexAtMost(x, s[0]) {
      var rest := Insert(x, s[1..]);
      assert LexNeighbours(s[1..]);
      InsertOrdered(x, s[1..]);
      var r := [s[0]] + rest;
      assert LexAtMost(s[0], rest[0]) by {
        if rest[0] != x {
          assert s[1] == rest[0];
        }
      }
      forall i, j | 0 <= i && j == i + 1 && j < |r| ensures LexAtMost(r[i], r[j]) {
        if i > 0 {
          assert r[i] == rest[i - 1] && r[j] == rest[j - 1];
        }
      }
      if PairwiseCompatible(s) && (forall y | y in s :: Compatible(x, y)) {
        assert PairwiseCompatible(s[1..]);
        forall i, j | 0 <= i < j < |r| ensures Compatible(r[i], r[j]) {
          if i == 0 {
            assert r[j] in rest && s[0] in s;
            if r[j] != x {
              var m :| 0 <= m < |s[1..]| && s[1..][m] == r[j];
              assert s[m + 1] == r[j];
            }
          } else {
            assert r[i] == rest[i - 1] && r[j] == rest[j - 1];
          }
        }
      }
    } else {
      var r := [x] + s;
      forall i, j | 0 <= i && j == i + 1 && j < |r| ensures LexAtMost(r[i], r[j]) {
        if i > 0 {
          assert r[i] == s[i - 1] && r[j] == s[j - 1];
        }
      }
      if PairwiseCompatible(s) && (forall y | y in s :: Compatible(x, y)) {
        forall i, j | 0 <= i < j < |r| ensures Compatible(r[i], r[j]) {
          if i == 0 {
            assert r[j] in s;
          } else {
            assert r[i] == s[i - 1] && r[j] == s[j - 1];
          }
        }
      }
    }
  }

  /** The sort leaves neighbours in order and keeps pairwise compatibility. */
  lemma {:induction false} LexSortOrdered(c: seq<Interval>)
    ensures LexNeighbours(LexSort(c))
    ensures PairwiseCompatible(c) ==> PairwiseCompatible(LexSort(c))
  {
    if c != [] {
      var rest := LexSort(c[1..]);
      LexSortOrdered(c[1..]);
      if PairwiseCompatible(c) {
        assert PairwiseCompatible(c[1..]);
        forall y | y in rest ensures Compatible(c[0], y) {
          assert y in multiset(c[1..]) by { assert y in multiset(rest); }
          var m :| 0 <= m < |c[1..]| && c[1..][m] == y;
          assert c[m + 1] == y;
        }
      }
      InsertOrdered(c[0], rest);
    }
  }

  /**
   * Pairwise compatible well-formed intervals in order of end, then start,
   * form a schedule: of two neighbours, the later one cannot end before
   * the earlier one starts unless both end where the earlier one starts.
   */
  lemma CompatibleChain(s: seq<Interval>)
    requires LexNeighbours(s) && PairwiseCompatible(s) && WellFormed(s)
    ensures Chain(s)
  {
    forall i, j | 0 <= i && j == i + 1 && j < |s| ensures End(s[i]) <= Start(s[j]) {
      assert LexAtMost(s[i], s[j]) && Compatible(s[i], s[j]);
      assert s[i] in s && s[j] in s;
    }
  }

  /**
   * The greedy scan over a well-formed input in greedy order keeps at
   * least as many intervals as any pairwise compatible selection from it.
   */
  lemma CompatibleBound(xs: seq<Interval>, c: seq<Interval>)
    requires WellFormed(xs) && GreedyOrder(xs)
    requires PairwiseCompatible(c) && DrawnFrom(c, xs)
    ensures |c| <= |Scan(xs)|
  {
    var s := LexSort(c);
    LexSortOrdered(c);
    assert WellFormed(s) by {
      forall y | y in s ensures Start(y) <= End(y) {
        assert y in multiset(s);
        assert y in multiset(xs);
      }
    }
    CompatibleChain(s);
    ScanOptimal(xs, s);
    assert |s| == |c| by { assert |multiset(s)| == |multiset(c)|; }
  }

  /** An element is kept by the filter for its own key. */
  lemma {:induction false} WithKeyKeeps<T>(s: seq<T>, key: T -> int, j: nat)
    requires j < |s|
    ensures s[j] in Sorts.WithKey(s, key, key(s[j]))
  {
    if j > 0 {
      WithKeyKeeps(s[1..], key, j - 1);
      assert s[1..][j - 1] == s[j];
    }
  }

  /** Two elements of one key keep their relative order in the filter for that key. */
  lemma {:induction false} WithKeyOrder<T>(s: seq<T>, key: T -> int, i: nat, j: nat) returns (p: nat, q: nat)
    requires i < j < |s| && key(s[i]) == key(s[j])
    ensures var w := Sorts.WithKey(s, key, key(s[i])); p < q < |w| && w[p] == s[i] && w[q] == s[j]
  {
    var k := key(s[i]);
    var rest := Sorts.WithKey(s[1..], key, k);
    assert s[1..][j - 1] == s[j];
    if i == 0 {
      WithKeyKeeps(s[1..], key, j - 1);
      var q' :| 0 <= q' < |rest| && rest[q'] == s[j];
      p, q := 0, q' + 1;
    } else {
      assert s[1..][i - 1] == s[i];
      var p', q' := WithKeyOrder(s[1..], key, i - 1, j - 1);
      if key(s[0]) == k {
        p, q := p' + 1, q' + 1;
      } else {
        p, q := p', q';
      }
    }
  }

  /** The filter for one key keeps an order by another key. */
  lemma {:induction false} WithKeySorted<T>(s: seq<T>, key: T -> int, k: int, other: T -> int)
    requires SortedBy(s, other)
    ensures SortedBy(Sorts.WithKey(s, key, k), other)
  {
    if s != [] {
      assert SortedBy(s[1..], other);
      WithKeySorted(s[1..], key, k, other);
      var rest := Sorts.WithKey(s[1..], key, k);
      if key(s[0]) == k {
        var w := [s[0]] + rest;
        forall i, j | 0 <= i < j < |w| ensures other(w[i]) <= other(w[j]) {
          if i == 0 {
            assert w[j] == rest[j - 1];
            assert w[j] in s[1..];
            var m :| 0 <= m < |s[1..]| && s[1..][m] == w[j];
            assert s[m + 1] == w[j];
          } else {
            assert w[i] == rest[i - 1] && w[j] == rest[j - 1];
          }
        }
      }
    }
  }

  /** Intervals in order of end, and of start among equal ends. */
  ghost predicate LexOrder(xs: seq<Interval>)
  {
    forall i, j :: 0 <= i < j < |xs| ==> LexAtMost(xs[i], xs[j])
  }

  /** A stable sort by end of a list in start order puts it in order of end, then start. */
  lemma StableByEnd(byStart: seq<Interval>, r: seq<Interval>)
    requires SortedBy(byStart, Start) && SortedBy(r, End)
    requires forall k :: Sorts.WithKey(r, End, k) == Sorts.WithKey(byStart, End, k)
    ensures LexOrder(r)
  {
    forall i, j | 0 <= i < j < |r| ensures LexAtMost(r[i], r[j]) {
      if End(r[i]) == End(r[j]) {
        var p, q := WithKeyOrder(r, End, i, j);
        WithKeySorted(byStart, End, End(r[i]), Start);
      }
    }
  }

  /** Well-formed intervals in order of end, then start, are in greedy order. */
  lemma LexGreedy(xs: seq<Interval>)
    requires LexOrder(xs) && WellFormed(xs)
    ensures GreedyOrder(xs)
  {
    forall i, j | 0 <= i < j < |xs|
      ensures End(xs[i]) == End(xs[j]) && Start(xs[i]) == End(xs[i]) ==> Start(xs[j]) == End(xs[j])
    {
      assert LexAtMost(xs[i], xs[j]) && xs[j] in xs;
    }
  }

  /**
   * `interval_scheduling` with ties on the end broken by the start, as a
   * sort by the key `(end, start)` does: the stable sort by start, then the
   * stable sort by end, then the same loop. Every well-formed input is
   * then scheduled optimally, zero-length intervals included.
   */
  method IntervalSchedulingCorrected(intervals: seq<Interval>) returns (selected: seq<Interval>)
    ensures intervals == [] ==> selected == []
    ensures Chain(selected) && DrawnFrom(selected, intervals) && SortedBy(selected, End)
    ensures WellFormed(intervals) ==> forall c | PairwiseCompatible(c) && DrawnFrom(c, intervals) :: |c| <= |selected|
  {
    if intervals == [] {
      return [];
    }
    var byStart := Sorts.MergeSort(intervals, Start);
    var sortedIntervals := Sorts.MergeSort(byStart, End);
    selected := SelectCompatible(sortedIntervals);
    ScanSchedule(sortedIntervals);
    ScanSorted(sortedIntervals);
    StableByEnd(byStart, sortedIntervals);
    CorrectedSettles(intervals, sortedIntervals);
  }

  /** A well-formed input in order of end, then start, is scheduled optimally. */
  lemma CorrectedSettles(intervals: seq<Interval>, sortedIntervals: seq<Interval>)
    requires LexOrder(sortedIntervals) && multiset(sortedIntervals) == multiset(intervals)
    ensures WellFormed(intervals) ==>
              forall c | PairwiseCompatible(c) && DrawnFrom(c, intervals) :: |c| <= |Scan(sortedIntervals)|
  {
    if WellFormed(intervals) {
      assert WellFormed(sortedIntervals) by {
        forall x | x in sortedIntervals ensures Start(x) <= End(x) {
          assert x in multiset(intervals);
        }
      }
      LexGreedy(sortedIntervals);
      forall c | PairwiseCompatible(c) && DrawnFrom(c, intervals) ensures |c| <= |Scan(sortedIntervals)| {
        CompatibleBound(sortedIntervals, c);
      }
    }
  }

  /**
   * With the end as the only sort key, `[(3, 3), (1, 3)]` stays in that
   * order, and the loop keeps `(3, 3)` alone: `(1, 3)` starts before it
   * ends. Yet `(1, 3)` then `(3, 3)` is a compatible pair drawn from it.
   */
  lemma TieDropsEmptyInterval(ordered: seq<Interval>)
    requires SortedBy(ordered, End) && multiset(ordered) == multiset([(3, 3), (1, 3)])
    requires forall k :: Sorts.WithKey(ordered, End, k) == Sorts.WithKey([(3, 3), (1, 3)], End, k)
    ensures Scan(ordered) == [(3, 3)]
    ensures PairwiseCompatible([(1, 3), (3, 3)]) && DrawnFrom([(1, 3), (3, 3)], [(3, 3), (1, 3)])
  {
    TieKeepsOrder(ordered);
    TieScan();
    TiePair();
  }

  /** The loop over `[(3, 3), (1, 3)]` keeps `(3, 3)` alone. */
  lemma TieScan()
    ensures Scan([(3, 3), (1, 3)]) == [(3, 3)]
  {
    var input: seq<Interval> := [(3, 3), (1, 3)];
    assert input[..1] == [(3, 3)] && input[..1][..0] == [];
  }

  /** `(1, 3)` then `(3, 3)` is a compatible pair drawn from `[(3, 3), (1, 3)]`. */
  lemma TiePair()
    ensures PairwiseCompatible([(1, 3), (3, 3)]) && DrawnFrom([(1, 3), (3, 3)], [(3, 3), (1, 3)])
  {
    assert multiset([(1, 3), (3, 3)]) == multiset([(3, 3), (1, 3)]);
  }

  /** A stable sort by end leaves two intervals of one end in their order. */
  lemma TieKeepsOrder(ordered: seq<Interval>)
    requires multiset(ordered) == multiset([(3, 3), (1, 3)])
    requires Sorts.WithKey(ordered, End, 3) == Sorts.WithKey([(3, 3), (1, 3)], End, 3)
    ensures ordered == [(3, 3), (1, 3)]
  {
    var input: seq<Interval> := [(3, 3), (1, 3)];
    assert |ordered| == 2 by { assert |multiset(ordered)| == 2; }
    assert End(ordered[0]) == 3 && End(ordered[1]) == 3 by {
      assert ordered[0] in multiset(input) && ordered[1] in multiset(input);
    }
    assert Sorts.WithKey(ordered, End, 3) == ordered by {
      assert ordered[1..][1..] == [];
    }
    assert Sorts.WithKey(input, End, 3) == input by {
      assert input[1..][1..] == [];
    }
  }

  /** Two key-sorted lists holding the same elements are equal when the keys of one are distinct. */
  lemma {:induction false} SortedByUnique<T>(a: seq<T>, b: seq<T>, key: T -> int)
    requires SortedBy(a, key) && multiset(a) == multiset(b)
    requires forall i, j :: 0 <= i < j < |b| ==> key(b[i]) < key(b[j])
    ensures a == b
  {
    if a != [] {
      HeadsMatch(a, b, key);
      TailsMatch(a, b);
      assert SortedBy(a[1..], key);
      SortedByUnique(a[1..], b[1..], key);
    }
  }

  /** Under the assumptions of `SortedByUnique`, both lists start alike. */
  lemma HeadsMatch<T>(a: seq<T>, b: seq<T>, key: T -> int)
    requires SortedBy(a, key) && multiset(a) == multiset(b) && a != []
    requires forall i, j :: 0 <= i < j < |b| ==> key(b[i]) < key(b[j])
    ensures b != [] && a[0] == b[0]
  {
    assert a[0] in multiset(b) && b[0] in multiset(a) by {
      assert a[0] in multiset(a) && b != [] && b[0] in multiset(b);
    }
    var i :| 0 <= i < |b| && b[i] == a[0];
    var j :| 0 <= j < |a| && a[j] == b[0];
    assert key(a[0]) <= key(b[0]) by { if j > 0 { assert key(a[0]) <= key(a[j]); } }
    FirstOfKey(b, key, i);
  }

  /** Lists holding the same elements and starting alike have tails holding the same elements. */
  lemma TailsMatch<T>(a: seq<T>, b: seq<T>)
    requires multiset(a) == multiset(b) && a != [] && b != [] && a[0] == b[0]
    ensures multiset(a[1..]) == multiset(b[1..])
  {
    assert a == [a[0]] + a[1..] && b == [b[0]] + b[1..];
    assert multiset(a[1..]) == multiset(a) - multiset{a[0]};
    assert multiset(b[1..]) == multiset(b) - multiset{b[0]};
  }

  /** In a list of strictly increasing keys, only the first element has a key no larger than the first one's. */
  lemma FirstOfKey<T>(b: seq<T>, key: T -> int, i: nat)
    requires forall i, j :: 0 <= i < j < |b| ==> key(b[i]) < key(b[j])
    requires i < |b| && key(b[i]) <= key(b[0])
    ensures i == 0
  {
  }

  /** The ends of the sample list strictly increase. */
  lemma SampleEnds()
    ensures var xs: seq<Interval> := [(1, 3), (2, 5), (3, 6), (5, 7), (6, 8)];
            forall i, j :: 0 <= i < j < |xs| ==> End(xs[i]) < End(xs[j])
  {
    var xs: seq<Interval> := [(1, 3), (2, 5), (3, 6), (5, 7), (6, 8)];
    forall k | 0 <= k < |xs| ensures End(xs[k]) <= k + 4 && (k > 0 ==> End(xs[k]) == k + 4) {
    }
  }

  /** The scan of the sample list keeps the first, third and fifth interval. */
  lemma SampleScan()
    ensures Scan([(1, 3), (2, 5), (3, 6), (5, 7), (6, 8)]) == [(1, 3), (3, 6), (6, 8)]
  {
    var xs: seq<Interval> := [(1, 3), (2, 5), (3, 6), (5, 7), (6, 8)];
    assert xs[..1][..0] == [];
    assert Scan(xs[..1]) == [(1, 3)];
    assert xs[..2][..1] == xs[..1];
    assert Scan(xs[..2]) == [(1, 3)];
    assert xs[..3][..2] == xs[..2];
    assert Scan(xs[..3]) == [(1, 3), (3, 6)];
    assert xs[..4][..3] == xs[..3];
    assert Scan(xs[..4]) == [(1, 3), (3, 6)];
    assert xs[..5] == xs && xs[..5][..4] == xs[..4];
  }

  /** The sample run: `[(1, 3), (2, 5), (3, 6), (5, 7), (6, 8)]` gives `[(1, 3), (3, 6), (6, 8)]`. */
  method Sample() returns (selected: seq<Interval>)
    ensures selected == [(1, 3), (3, 6), (6, 8)]
  {
    SampleEnds();
    selected := ScheduleStrictlyOrdered([(1, 3), (2, 5), (3, 6), (5, 7), (6, 8)]);
    SampleScan();
  }

  /** On intervals whose ends already strictly increase the sort changes nothing, and the loop runs over the input as given. */
  method ScheduleStrictlyOrdered(intervals: seq<Interval>) returns (selected: seq<Interval>)
    requires forall i, j :: 0 <= i < j < |intervals| ==> End(intervals[i]) < End(intervals[j])
    ensures selected == Scan(intervals)
  {
    ghost var ordered;
    selected, ordered := IntervalScheduling(intervals);
    SortedByUnique(ordered, intervals, End);
  }
}
