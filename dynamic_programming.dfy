// Lab09 `dynamic_programming.py`: bottom-up Fibonacci (with a table and
// with two variables) and the 0/1 knapsack table, with and without the
// walk back through the table that recovers the chosen items.

module DynamicProgramming {
  import opened Wrappers
  import Recursion

  /** `max` on two integers. */
  function Max(a: int, b: int): (r: int)
    ensures r >= a && r >= b && (r == a || r == b)
  {
    if a >= b then a else b
  }

  /**
   * `fibonacci_bottom_up`: `n` itself for `n <= 1` (negative values
   * included), otherwise the table `dp` filled upwards from `dp[1] = 1`.
   */
  method FibonacciBottomUp(n: int) returns (r: int)
    ensures n <= 1 ==> r == n
    ensures n >= 0 ==> r == Recursion.Fib(n)
  {
    if n <= 1 {
      return n;
    }
    var dp := new int[n + 1](_ => 0);
    dp[1] := 1;
    for i := 2 to n + 1
      invariant forall k :: 0 <= k < i ==> dp[k] == Recursion.Fib(k)
    {
      dp[i] := dp[i - 1] + dp[i - 2];
    }
    return dp[n];
  }

  /** `fibonacci_optimized`: the same numbers from the last two values only. */
  method FibonacciOptimized(n: int) returns (r: int)
    ensures n <= 1 ==> r == n
    ensures n >= 0 ==> r == Recursion.Fib(n)
  {
    if n <= 1 {
      return n;
    }
    var prev, curr := 0, 1;
    for i := 2 to n + 1
      invariant prev == Recursion.Fib(i - 2) && curr == Recursion.Fib(i - 1)
    {
      prev, curr := curr, prev + curr;
    }
    return curr;
  }

  /** Both Fibonacci versions give the same number; for 10 it is 55. */
  method FibonacciVersions(n: int) returns (table: int, pair: int)
    ensures table == pair
    ensures n == 10 ==> table == 55
  {
    table := FibonacciBottomUp(n);
    pair := FibonacciOptimized(n);
    if n == 10 {
      FibTen();
    }
  }

  /** F(10) = 55. */
  lemma FibTen()
    ensures Recursion.Fib(10) == 55
  {
    assert Recursion.Fib(2) == 1 && Recursion.Fib(3) == 2 && Recursion.Fib(4) == 3;
    assert Recursion.Fib(5) == 5 && Recursion.Fib(6) == 8 && Recursion.Fib(7) == 13;
    assert Recursion.Fib(8) == 21 && Recursion.Fib(9) == 34;
  }

  /** The first `i` weights exist and none is negative: the table loop can read them all. */
  ghost predicate Usable(weights: seq<int>, i: nat)
  {
    i <= |weights| && forall k :: 0 <= k < i ==> weights[k] >= 0
  }

  /**
   * `dp[i][w]` once the table is filled, with the capacity loop starting at
   * `start`: row 0 and the columns below `start` keep their 0; otherwise
   * the better of leaving item `i - 1` out and, when it fits, taking it on
   * top of the best for the capacity left.
   */
  function Cell(values: seq<int>, weights: seq<int>, start: nat, i: nat, w: nat): int
    requires i <= |values| && Usable(weights, i)
    decreases i
  {
    if i == 0 || w < start then 0
    else if weights[i - 1] <= w then
      Max(Cell(values, weights, start, i - 1, w),
          Cell(values, weights, start, i - 1, w - weights[i - 1]) + values[i - 1])
    else Cell(values, weights, start, i - 1, w)
  }

  /** A choice of items: their indices, strictly increasing and below `n`. */
  ghost predicate Choice(items: seq<nat>, n: nat)
  {
    (forall k :: 0 <= k < |items| ==> items[k] < n) &&
    (forall j, k :: 0 <= j < k < |items| ==> items[j] < items[k])
  }

  /** The total weight of the chosen items. */
  function Weight(weights: seq<int>, items: seq<nat>): int
    requires forall k :: 0 <= k < |items| ==> items[k] < |weights|
  {
    if items == [] then 0 else Weight(weights, items[..|items| - 1]) + weights[items[|items| - 1]]
  }

  /** The total value of the chosen items. */
  function Value(values: seq<int>, items: seq<nat>): int
    requires forall k :: 0 <= k < |items| ==> items[k] < |values|
  {
    if items == [] then 0 else Value(values, items[..|items| - 1]) + values[items[|items| - 1]]
  }

  /**
   * The walk of `knapsack_01_with_reconstruction` from row `i` and
   * capacity `w` as a function: item `i - 1` is taken exactly when the
   * cell differs from the one above it, and the walk goes on with the
   * capacity its weight leaves.
   */
  function Reconstruct(values: seq<int>, weights: seq<int>, start: nat, i: nat, w: nat): seq<nat>
    requires i <= |values| && Usable(weights, i)
    decreases i
  {
    if i == 0 then []
    else if Cell(values, weights, start, i, w) != Cell(values, weights, start, i - 1, w) then
      assert weights[i - 1] <= w;
      Reconstruct(values, weights, start, i - 1, w - weights[i - 1]) + [i - 1]
    else Reconstruct(values, weights, start, i - 1, w)
  }

  /**
   * The walk recovers a choice among the first `i` items that fits in `w`
   * and is worth exactly the cell: every cell is the value of some
   * fitting choice.
   */
  lemma ReconstructFits(values: seq<int>, weights: seq<int>, start: nat, i: nat, w: nat)
    requires i <= |values| && Usable(weights, i)
    ensures var items := Reconstruct(values, weights, start, i, w);
            Choice(items, i) && Weight(weights, items) <= w &&
            Value(values, items) == Cell(values, weights, start, i, w)
  {
    ReconstructChoice(values, weights, start, i, w);
    ReconstructWorth(values, weights, start, i, w);
  }

  /** The walk picks a choice among the first `i` items that fits in `w`. */
  lemma {:induction false} ReconstructChoice(values: seq<int>, weights: seq<int>, start: nat, i: nat, w: nat)
    requires i <= |values| && Usable(weights, i)
    ensures var items := Reconstruct(values, weights, start, i, w);
            Choice(items, i) && Weight(weights, items) <= w
    decreases i
  {
    if i > 0 {
      var rest, taken := ReconstructStep(values, weights, start, i, w);
      ReconstructChoice(values, weights, start, i - 1, rest);
      Extended(values, weights, Reconstruct(values, weights, start, i - 1, rest),
               Reconstruct(values, weights, start, i, w), i - 1, taken);
    }
  }

  /** The walk picks items worth exactly the cell it starts from. */
  lemma {:induction false} ReconstructWorth(values: seq<int>, weights: seq<int>, start: nat, i: nat, w: nat)
    requires i <= |values| && Usable(weights, i)
    ensures var items := Reconstruct(values, weights, start, i, w);
            Choice(items, i) && Value(values, items) == Cell(values, weights, start, i, w)
    decreases i
  {
    if i > 0 {
      var rest, taken := ReconstructStep(values, weights, start, i, w);
      ReconstructWorth(values, weights, start, i - 1, rest);
      Extended(values, weights, Reconstruct(values, weights, start, i - 1, rest),
               Reconstruct(values, weights, start, i, w), i - 1, taken);
    }
  }

  /**
   * One step of the walk back from row `i` and capacity `w`: whether it
   * takes item `i - 1`, and the capacity `rest` it goes on with.
   */
  lemma ReconstructStep(values: seq<int>, weights: seq<int>, start: nat, i: nat, w: nat) returns (rest: nat, taken: bool)
    requires 0 < i <= |values| && Usable(weights, i)
    ensures Usable(weights, i - 1) && rest <= w
    ensures taken <==> Cell(values, weights, start, i, w) != Cell(values, weights, start, i - 1, w)
    ensures taken ==> rest + weights[i - 1] == w &&
                      Reconstruct(values, weights, start, i, w) == Reconstruct(values, weights, start, i - 1, rest) + [i - 1] &&
                      Cell(values, weights, start, i, w) == Cell(values, weights, start, i - 1, rest) + values[i - 1]
    ensures !taken ==> rest == w &&
                       Reconstruct(values, weights, start, i, w) == Reconstruct(values, weights, start, i - 1, rest) &&
                       Cell(values, weights, start, i, w) == Cell(values, weights, start, i - 1, rest)
  {
    assert Usable(weights, i - 1);
    taken := Cell(values, weights, start, i, w) != Cell(values, weights, start, i - 1, w);
    rest := if taken then w - weights[i - 1] else w;
  }

  /**
   * A choice among the first `x` items, extended by item `x` or not,
   * is a choice among the first `x + 1` whose weight and value grow by
   * that item's exactly when it is taken.
   */
  lemma Extended(values: seq<int>, weights: seq<int>, prior: seq<nat>, items: seq<nat>, x: nat, taken: bool)
    requires x < |values| && x < |weights| && Choice(prior, x)
    requires items == if taken then prior + [x] else prior
    ensures Choice(items, x + 1)
    ensures Weight(weights, items) == Weight(weights, prior) + (if taken then weights[x] else 0)
    ensures Value(values, items) == Value(values, prior) + (if taken then values[x] else 0)
  {
    if taken {
      Appended(values, weights, prior, x);
    }
  }

  /** Appending the next index to a choice keeps it a choice and adds that item's weight and value. */
  lemma Appended(values: seq<int>, weights: seq<int>, prior: seq<nat>, x: nat)
    requires x < |values| && x < |weights| && Choice(prior, x)
    ensures Choice(prior + [x], x + 1)
    ensures Weight(weights, prior + [x]) == Weight(weights, prior) + weights[x]
    ensures Value(values, prior + [x]) == Value(values, prior) + values[x]
  {
    var items := prior + [x];
    assert items[..|items| - 1] == prior;
  }

  /**
   * The table loop of `knapsack_01_bottom_up` and
   * `knapsack_01_with_reconstruction`, with the capacity loop starting at
   * `start`. It stops (`ok` false) where Python raises `IndexError`: a
   * missing weight, or a negative one, whose column `w - weights[i - 1]`
   * lies past the end of the row at the latest when `w` is the capacity.
   */
  method FillTable(values: seq<int>, weights: seq<int>, capacity: nat, start: nat) returns (dp: array2<int>, ok: bool)
    requires start <= capacity
    ensures dp.Length0 == |values| + 1 && dp.Length1 == capacity + 1
    ensures ok <==> Usable(weights, |values|)
    ensures forall w :: 0 <= w <= capacity ==> dp[0, w] == 0
    ensures forall i, w :: 0 <= i <= |values| && 0 <= w < start ==> dp[i, w] == 0
    ensures ok ==> forall i, w :: 0 <= i <= |values| && 0 <= w <= capacity ==>
                     dp[i, w] == Cell(values, weights, start, i, w)
  {
    var n := |values|;
    dp := new int[n + 1, capacity + 1]((i, w) => 0);
    for i := 1 to n + 1
      invariant Usable(weights, i - 1)
      invariant forall r, c :: 0 <= r < i && 0 <= c <= capacity ==> dp[r, c] == Cell(values, weights, start, r, c)
      invariant forall r, c :: i <= r <= n && 0 <= c <= capacity ==> dp[r, c] == 0
      invariant forall c :: 0 <= c <= capacity ==> dp[0, c] == 0
      invariant forall r, c :: 0 <= r <= n && 0 <= c < start ==> dp[r, c] == 0
    {
      for w := start to capacity + 1
        invariant w > start ==> i - 1 < |weights|
        invariant i - 1 < |weights| && weights[i - 1] < 0 ==> w <= capacity
        invariant Usable(weights, i) ==>
                    forall c :: 0 <= c < w ==> dp[i, c] == Cell(values, weights, start, i, c)
        invariant forall c :: w <= c <= capacity ==> dp[i, c] == 0
        invariant forall r, c :: 0 <= r < i && 0 <= c <= capacity ==> dp[r, c] == Cell(values, weights, start, r, c)
        invariant forall r, c :: i < r <= n && 0 <= c <= capacity ==> dp[r, c] == 0
        invariant forall c :: 0 <= c <= capacity ==> dp[0, c] == 0
        invariant forall r, c :: 0 <= r <= n && 0 <= c < start ==> dp[r, c] == 0
      {
        if i - 1 >= |weights| {
          return dp, false;
        }
        var wt := weights[i - 1];
        if wt <= w {
          if w - wt > capacity {
            return dp, false;
          }
          dp[i, w] := Max(dp[i - 1, w], dp[i - 1, w - wt] + values[i - 1]);
        } else {
          dp[i, w] := dp[i - 1, w];
        }
      }
    }
    return dp, true;
  }

  /**
   * `knapsack_01_bottom_up`: 0 for no items or capacity 0, `IndexError`
   * for a negative capacity (the rows are empty) or an unusable weight,
   * and otherwise the last cell of the table. With every weight at least 1
   * no fitting choice of items is worth more, and the walk back recovers
   * one worth exactly that much.
   */
  method Knapsack01BottomUp(values: seq<int>, weights: seq<int>, capacity: int) returns (r: Result<int>)
    ensures |values| == 0 || capacity == 0 ==> r == Ok(0)
    ensures |values| > 0 && capacity < 0 ==> r == Err(IndexError)
    ensures |values| > 0 && capacity > 0 ==>
              (r.Ok? <==> Usable(weights, |values|)) &&
              (r.Ok? ==> r.value == Cell(values, weights, 1, |values|, capacity))
    ensures r.Ok? && |values| > 0 && capacity > 0 ==>
              var items := Reconstruct(values, weights, 1, |values|, capacity);
              Choice(items, |values|) && Weight(weights, items) <= capacity && Value(values, items) == r.value
    ensures r.Ok? && capacity > 0 && (forall k :: 0 <= k < |values| ==> k < |weights| && weights[k] >= 1) ==>
              forall items | Choice(items, |values|) && Weight(weights, items) <= capacity ::
                Value(values, items) <= r.value
  {
    var n := |values|;
    if n == 0 || capacity == 0 {
      return Ok(0);
    }
    if capacity < 0 {
      return Err(IndexError);
    }
    var dp, ok := FillTable(values, weights, capacity, 1);
    if !ok {
      return Err(IndexError);
    }
    r := Ok(dp[n, capacity]);
    ReconstructFits(values, weights, 1, n, capacity);
    if forall k :: 0 <= k < n ==> weights[k] >= 1 {
      Optimal(values, weights, 1, capacity);
    }
  }

  /** Under weights at least `start`, no fitting choice beats the last cell. */
  lemma Optimal(values: seq<int>, weights: seq<int>, start: nat, capacity: nat)
    requires Usable(weights, |values|)
    requires forall k :: 0 <= k < |values| ==> weights[k] >= start
    ensures forall items | Choice(items, |values|) && Weight(weights, items) <= capacity ::
              Value(values, items) <= Cell(values, weights, start, |values|, capacity)
  {
    forall items | Choice(items, |values|) && Weight(weights, items) <= capacity
      ensures Value(values, items) <= Cell(values, weights, start, |values|, capacity)
    {
      CellOptimal(values, weights, start, |values|, capacity, items);
    }
  }

  /** The list reversed. */
  function Reversed(s: seq<nat>): (r: seq<nat>)
    ensures |r| == |s| && forall k :: 0 <= k < |s| ==> r[k] == s[|s| - 1 - k]
  {
    if s == [] then [] else [s[|s| - 1]] + Reversed(s[..|s| - 1])
  }

  /**
   * The walk back of `knapsack_01_with_reconstruction` through a filled
   * table: from the last row and the full capacity, item `i - 1` is
   * appended when its row differs from the one above, and the capacity
   * drops by its weight; the list is reversed at the end.
   */
  method WalkBack(values: seq<int>, weights: seq<int>, dp: array2<int>, capacity: nat) returns (selected: seq<nat>)
    requires Usable(weights, |values|)
    requires dp.Length0 == |values| + 1 && dp.Length1 == capacity + 1
    requires forall a, b :: 0 <= a <= |values| && 0 <= b <= capacity ==> dp[a, b] == Cell(values, weights, 1, a, b)
    ensures selected == Reconstruct(values, weights, 1, |values|, capacity)
  {
    selected := [];
    var w: nat := capacity;
    var i := |values|;
    while i > 0
      invariant 0 <= i <= |values| && w <= capacity
      invariant Reconstruct(values, weights, 1, |values|, capacity) ==
                Reconstruct(values, weights, 1, i, w) + Reversed(selected)
    {
      var rest, taken := ReconstructStep(values, weights, 1, i, w);
      assert dp[i, w] == Cell(values, weights, 1, i, w) && dp[i - 1, w] == Cell(values, weights, 1, i - 1, w);
      if dp[i, w] != dp[i - 1, w] {
        assert Reversed(selected + [i - 1]) == [i - 1] + Reversed(selected) by {
          assert (selected + [i - 1])[..|selected|] == selected;
        }
        selected := selected + [i - 1];
        w := w - weights[i - 1];
      }
      i := i - 1;
    }
    selected := Reversed(selected);
  }

  /**
   * `knapsack_01_with_reconstruction`: the same best value together with
   * the indices of the chosen items in increasing order, which fit in the
   * capacity and are worth exactly that value.
   */
  method KnapsackWithReconstruction(values: seq<int>, weights: seq<int>, capacity: int) returns (r: Result<(int, seq<nat>)>)
    ensures |values| == 0 || capacity == 0 ==> r == Ok((0, []))
    ensures |values| > 0 && capacity < 0 ==> r == Err(IndexError)
    ensures |values| > 0 && capacity > 0 ==>
              (r.Ok? <==> Usable(weights, |values|)) &&
              (r.Ok? ==> r.value == (Cell(values, weights, 1, |values|, capacity),
                                     Reconstruct(values, weights, 1, |values|, capacity)))
    ensures r.Ok? && capacity >= 0 ==>
              Choice(r.value.1, |values|) &&
              (forall k :: 0 <= k < |r.value.1| ==> r.value.1[k] < |weights|) &&
              Weight(weights, r.value.1) <= capacity && Value(values, r.value.1) == r.value.0
    ensures r.Ok? && capacity > 0 && (forall k :: 0 <= k < |values| ==> k < |weights| && weights[k] >= 1) ==>
              forall items | Choice(items, |values|) && Weight(weights, items) <= capacity ::
                Value(values, items) <= r.value.0
  {
    var n := |values|;
    if n == 0 || capacity == 0 {
      return Ok((0, []));
    }
    if capacity < 0 {
      return Err(IndexError);
    }
    var dp, ok := FillTable(values, weights, capacity, 1);
    if !ok {
      return Err(IndexError);
    }
    var selected := WalkBack(values, weights, dp, capacity);
    r := Ok((dp[n, capacity], selected));
    ReconstructFits(values, weights, 1, n, capacity);
    if forall k :: 0 <= k < n ==> weights[k] >= 1 {
      Optimal(values, weights, 1, capacity);
    }
  }

  /**
   * The knapsack as evidently intended: the capacity loop also fills
   * column 0, so items of weight 0 count at every capacity, and a
   * capacity of 0 goes through the table like any other. The last cell
   * is then the best value of any fitting choice for every list of
   * non-negative weights, and the walk back recovers a choice worth it.
   */
  method Knapsack01Corrected(values: seq<int>, weights: seq<int>, capacity: int) returns (r: Result<int>)
    ensures |values| == 0 ==> r == Ok(0)
    ensures |values| > 0 && capacity < 0 ==> r == Err(IndexError)
    ensures |values| > 0 && capacity >= 0 ==> (r.Ok? <==> Usable(weights, |values|))
    ensures r.Ok? && |values| > 0 ==>
              capacity >= 0 && Usable(weights, |values|) &&
              var items := Reconstruct(values, weights, 0, |values|, capacity);
              Choice(items, |values|) && Weight(weights, items) <= capacity && Value(values, items) == r.value
    ensures r.Ok? && capacity >= 0 ==>
              forall items | Choice(items, |values|) && Weight(weights, items) <= capacity ::
                Value(values, items) <= r.value
  {
    var n := |values|;
    if n == 0 {
      return Ok(0);
    }
    if capacity < 0 {
      return Err(IndexError);
    }
    var dp, ok := FillTable(values, weights, capacity, 0);
    if !ok {
      return Err(IndexError);
    }
    r := Ok(dp[n, capacity]);
    ReconstructFits(values, weights, 0, n, capacity);
    Optimal(values, weights, 0, capacity);
  }

  /**
   * An item of weight 0 is missed by the table as written: for values
   * `[5, 10]`, weights `[0, 3]` and capacity 3 its last cell is 10, yet
   * taking both items fits and is worth 15, which the corrected table
   * finds.
   */
  lemma ZeroWeightCells()
    ensures Cell([5, 10], [0, 3], 1, 2, 3) == 10
    ensures Cell([5, 10], [0, 3], 0, 2, 3) == 15
    ensures Choice([0, 1], 2) && Weight([0, 3], [0, 1]) == 3 && Value([5, 10], [0, 1]) == 15
  {
    assert Usable([0, 3], 2);
    assert Cell([5, 10], [0, 3], 1, 1, 0) == 0;
    assert Cell([5, 10], [0, 3], 1, 1, 3) == 5;
    assert Cell([5, 10], [0, 3], 0, 1, 0) == 5;
    assert Cell([5, 10], [0, 3], 0, 1, 3) == 5;
    assert [0, 1][..1] == [0];
    assert [0][..0] == [];
  }

  /** The table as written on the zero-weight input: 10, not 15. */
  method ZeroWeightMissed() returns (r: Result<int>)
    ensures r == Ok(10)
  {
    ZeroWeightCells();
    r := Knapsack01BottomUp([5, 10], [0, 3], 3);
  }

  /** The corrected table on the zero-weight input: 15. */
  method ZeroWeightCounted() returns (r: Result<int>)
    ensures r == Ok(15)
  {
    ZeroWeightCells();
    r := Knapsack01Corrected([5, 10], [0, 3], 3);
  }

  /** The cells the walk visits on the lab's example. */
  lemma SampleCells()
    ensures Cell([60, 100, 120], [10, 20, 30], 1, 3, 50) == 220
    ensures Reconstruct([60, 100, 120], [10, 20, 30], 1, 3, 50) == [1, 2]
  {
    var v, wt := [60, 100, 120], [10, 20, 30];
    assert Usable(wt, 3);
    assert Cell(v, wt, 1, 1, 0) == 0 && Cell(v, wt, 1, 1, 20) == 60;
    assert Cell(v, wt, 1, 1, 30) == 60 && Cell(v, wt, 1, 1, 50) == 60;
    assert Cell(v, wt, 1, 2, 20) == 100 && Cell(v, wt, 1, 2, 50) == 160;
    assert Reconstruct(v, wt, 1, 1, 0) == [];
    assert Reconstruct(v, wt, 1, 2, 20) == [1];
  }

  /** Values 60, 100, 120, weights 10, 20, 30 and capacity 50: 220, from items 1 and 2, and nothing fitting is worth more. */
  method KnapsackSample() returns (best: Result<int>, chosen: Result<(int, seq<nat>)>)
    ensures best == Ok(220) && chosen == Ok((220, [1, 2]))
    ensures forall items | Choice(items, 3) && Weight([10, 20, 30], items) <= 50 ::
              Value([60, 100, 120], items) <= 220
  {
    SampleCells();
    best := Knapsack01BottomUp([60, 100, 120], [10, 20, 30], 50);
    chosen := KnapsackWithReconstruction([60, 100, 120], [10, 20, 30], 50);
  }

  /**
   * No choice among the first `i` items that fits in `w` is worth more
   * than the cell, provided every weight is at least `start`: positive
   * weights when column 0 is skipped, any non-negative weights when it
   * is filled too.
   */
  lemma {:induction false} CellOptimal(values: seq<int>, weights: seq<int>, start: nat, i: nat, w: nat, items: seq<nat>)
    requires i <= |values| && Usable(weights, i)
    requires forall k :: 0 <= k < i ==> weights[k] >= start
    requires Choice(items, i) && Weight(weights, items) <= w
    ensures Value(values, items) <= Cell(values, weights, start, i, w)
    decreases i
  {
    if items == [] {
      CellAtLeastZero(values, weights, start, i, w);
    } else if i > 0 {
      assert Usable(weights, i - 1);
      var prior, last := items[..|items| - 1], items[|items| - 1];
      assert Choice(prior, i);
      WeightAtLeastZero(weights, prior, i);
      if last == i - 1 {
        assert Choice(prior, i - 1) by {
          forall k | 0 <= k < |prior| ensures prior[k] < i - 1 {
            assert items[k] < items[|items| - 1];
          }
        }
        CellOptimal(values, weights, start, i - 1, w - weights[i - 1], prior);
      } else {
        assert Choice(items, i - 1) by {
          forall k | 0 <= k < |items| ensures items[k] < i - 1 {
            if k < |items| - 1 {
              assert items[k] < items[|items| - 1];
            }
          }
        }
        CellOptimal(values, weights, start, i - 1, w, items);
        CellGrows(values, weights, start, i, w);
      }
    }
  }

  /** Every cell is at least 0: leaving every item out is always possible. */
  lemma {:induction false} CellAtLeastZero(values: seq<int>, weights: seq<int>, start: nat, i: nat, w: nat)
    requires i <= |values| && Usable(weights, i)
    ensures Cell(values, weights, start, i, w) >= 0
    decreases i
  {
    if i > 0 {
      assert Usable(weights, i - 1);
      CellAtLeastZero(values, weights, start, i - 1, w);
    }
  }

  /** A cell is at least the one above it once the column is filled. */
  lemma CellGrows(values: seq<int>, weights: seq<int>, start: nat, i: nat, w: nat)
    requires 0 < i <= |values| && Usable(weights, i) && w >= start
    ensures Cell(values, weights, start, i - 1, w) <= Cell(values, weights, start, i, w)
  {
    assert Usable(weights, i - 1);
  }

  /** Weights of a choice among non-negative weights add up to at least 0. */
  lemma {:induction false} WeightAtLeastZero(weights: seq<int>, items: seq<nat>, n: nat)
    requires Usable(weights, n) && Choice(items, n)
    ensures Weight(weights, items) >= 0
  {
    if items != [] {
      var prior := items[..|items| - 1];
      assert Choice(prior, n);
      WeightAtLeastZero(weights, prior, n);
    }
  }
}
