// Recursive binary lookup and the Towers of Hanoi (lab03).

module RecursionTasks {
  import opened Wrappers
  import opened Ordering

  /**
   * `recursive_binary_lookup` on `collection[start..end]` (inclusive); an
   * absent `end` defaults to the last index. Returns the position found or -1.
   */
  function RecursiveBinaryLookup(collection: seq<int>, item: int, start: nat, end: int): (r: int)
    requires end < |collection|
    ensures r == -1 || (start <= r <= end && collection[r] == item)
    ensures Sorted(collection) ==>
      (r == -1 <==> forall k :: start <= k <= end ==> collection[k] != item)
    decreases end - start + 1
  {
    if start > end then -1
    else
      var middle := (start + end) / 2;
      if collection[middle] == item then middle
      else if collection[middle] < item then RecursiveBinaryLookup(collection, item, middle + 1, end)
      else RecursiveBinaryLookup(collection, item, start, middle - 1)
  }

  /** The call with the default range: the whole list, so an empty list gives -1. */
  function Lookup(collection: seq<int>, item: int): (r: int)
    ensures r == -1 || (0 <= r < |collection| && collection[r] == item)
    ensures Sorted(collection) ==> (r == -1 <==> item !in collection)
  {
    RecursiveBinaryLookup(collection, item, 0, |collection| - 1)
  }

  /** The cases of `validate_algorithms_correctness` on [1, 3, 5, 7, 9, 11]. */
  lemma LookupExamples()
    ensures Lookup([1, 3, 5, 7, 9, 11], 1) == 0 && Lookup([1, 3, 5, 7, 9, 11], 7) == 3
    ensures Lookup([1, 3, 5, 7, 9, 11], 11) == 5
    ensures Lookup([1, 3, 5, 7, 9, 11], 4) == -1 && Lookup([1, 3, 5, 7, 9, 11], 0) == -1
  {
  }

  // ---------------------------------------------------------------------
  // Towers of Hanoi
  // ---------------------------------------------------------------------

  type Rod = string

  /** One step of the solution: move `disk` from rod `from` to rod `to`. */
  datatype Move = Move(disk: nat, from: Rod, to: Rod)

  /** The moves that `solve_hanoi_puzzle` appends for `disks >= 1`. */
  function HanoiMoves(disks: nat, source: Rod, auxiliary: Rod, destination: Rod): seq<Move>
    requires disks >= 1
  {
    if disks == 1 then [Move(1, source, destination)]
    else
      HanoiMoves(disks - 1, source, destination, auxiliary)
      + [Move(disks, source, destination)]
      + HanoiMoves(disks - 1, auxiliary, source, destination)
  }

  function NatToString(n: nat): string
  {
    var digit := ['0', '1', '2', '3', '4', '5', '6', '7', '8', '9'][n % 10];
    if n < 10 then [digit] else NatToString(n / 10) + [digit]
  }

  /** The text the source appends for a move. */
  function Describe(m: Move): string
  {
    "Перенос диска " + NatToString(m.disk) + " со стержня " + m.from + " на стержень " + m.to
  }

  function Render(moves: seq<Move>): (r: seq<string>)
    ensures |r| == |moves|
    ensures forall k :: 0 <= k < |moves| ==> r[k] == Describe(moves[k])
  {
    if moves == [] then [] else [Describe(moves[0])] + Render(moves[1..])
  }

  /** The inner `solve_hanoi_puzzle`, appending to the shared move list. */
  method SolveHanoiPuzzle(disks: nat, source: Rod, auxiliary: Rod, destination: Rod, sequence: seq<Move>)
    returns (extended: seq<Move>)
    requires disks >= 1
    ensures extended == sequence + HanoiMoves(disks, source, auxiliary, destination)
  {
    if disks == 1 {
      return sequence + [Move(1, source, destination)];
    }
    extended := SolveHanoiPuzzle(disks - 1, source, destination, auxiliary, sequence);
    extended := extended + [Move(disks, source, destination)];
    extended := SolveHanoiPuzzle(disks - 1, auxiliary, source, destination, extended);
  }

  /** `generate_tower_of_hanoi_solution`: no moves for `disk_count <= 0`. */
  method GenerateTowerOfHanoiSolution(diskCount: int, sourceRod: Rod, helperRod: Rod, destinationRod: Rod)
    returns (steps: seq<string>, ghost moves: seq<Move>)
    ensures diskCount <= 0 ==> steps == [] && moves == []
    ensures diskCount >= 1 ==> moves == HanoiMoves(diskCount, sourceRod, helperRod, destinationRod)
    ensures steps == Render(moves)
  {
    if diskCount <= 0 {
      return [], [];
    }
    var sequence := SolveHanoiPuzzle(diskCount, sourceRod, helperRod, destinationRod, []);
    moves := sequence;
    steps := Render(sequence);
  }

  function Pow2(n: nat): nat
  {
    if n == 0 then 1 else 2 * Pow2(n - 1)
  }

  /**
   * The solution has 2^n - 1 moves; every move names a disk in 1..n; disk n
   * moves exactly once, from source to destination, between the two halves.
   */
  lemma {:induction false} HanoiShape(n: nat, s: Rod, a: Rod, d: Rod)
    requires n >= 1
    ensures |HanoiMoves(n, s, a, d)| == Pow2(n) - 1
    ensures forall m :: m in HanoiMoves(n, s, a, d) ==> 1 <= m.disk <= n
    ensures HanoiMoves(n, s, a, d)[Pow2(n - 1) - 1] == Move(n, s, d)
    ensures forall k :: 0 <= k < |HanoiMoves(n, s, a, d)| && k != Pow2(n - 1) - 1 ==>
      HanoiMoves(n, s, a, d)[k].disk < n
  {
    if n > 1 {
      HanoiShape(n - 1, s, d, a);
      HanoiShape(n - 1, a, s, d);
      var left, right := HanoiMoves(n - 1, s, d, a), HanoiMoves(n - 1, a, s, d);
      assert HanoiMoves(n, s, a, d) == left + [Move(n, s, d)] + right;
      forall k | 0 <= k < |HanoiMoves(n, s, a, d)| && k != Pow2(n - 1) - 1
        ensures HanoiMoves(n, s, a, d)[k].disk < n
      {
        if k < |left| {
          assert HanoiMoves(n, s, a, d)[k] == left[k] && left[k] in left;
        } else {
          assert HanoiMoves(n, s, a, d)[k] == right[k - |left| - 1] && right[k - |left| - 1] in right;
        }
      }
    }
  }

  // The rods as stacks (top at the end) and the rule that a disk goes onto
  // an empty rod or a larger disk.

  type Rods = map<Rod, seq<nat>>

  /** Disks n, n-1, ..., 1 from bottom to top. */
  function Tower(n: nat): seq<nat>
  {
    if n == 0 then [] else [n] + Tower(n - 1)
  }

  /** The top of the rod, if any, is larger than `n`. */
  predicate Above(rod: seq<nat>, n: nat)
  {
    rod == [] || rod[|rod| - 1] > n
  }

  /** Performs one move if it is legal. */
  function ApplyMove(st: Rods, m: Move): Option<Rods>
  {
    if m.from !in st || m.to !in st || m.from == m.to then None
    else
      var src, dst := st[m.from], st[m.to];
      if src == [] || src[|src| - 1] != m.disk || !Above(dst, m.disk) then None
      else Some(st[m.from := src[..|src| - 1]][m.to := dst + [m.disk]])
  }

  /** Performs the moves in order; None as soon as one is illegal. */
  function ApplyMoves(st: Rods, moves: seq<Move>): Option<Rods>
  {
    if moves == [] then Some(st)
    else match ApplyMove(st, moves[0])
      case None => None
      case Some(next) => ApplyMoves(next, moves[1..])
  }

  lemma {:induction false} ApplyConcat(st: Rods, m1: seq<Move>, m2: seq<Move>)
    ensures ApplyMoves(st, m1 + m2) ==
      match ApplyMoves(st, m1)
      case None => None
      case Some(mid) => ApplyMoves(mid, m2)
  {
    if m1 != [] {
      assert (m1 + m2)[0] == m1[0] && (m1 + m2)[1..] == m1[1..] + m2;
      match ApplyMove(st, m1[0])
      case None =>
      case Some(next) => ApplyConcat(next, m1[1..], m2);
    } else {
      assert m1 + m2 == m2;
    }
  }

  lemma TowerOnTop(below: seq<nat>, n: nat)
    requires n >= 1
    ensures below + [n] + Tower(n - 1) == below + Tower(n)
  {
    assert Tower(n) == [n] + Tower(n - 1);
  }

  /** The rods after the three phases: only `source` and `destination` differ from the start. */
  lemma Restored<K, V>(st: map<K, V>, s: K, a: K, d: K, x: V, y: V, b: V, z: V, w: V)
    requires s != a && a != d && s != d && a in st
    ensures st[s := x][a := y][s := b][d := z][a := st[a]][d := w] == st[s := b][d := w]
  {
  }

  /** A single legal move of the top disk of `from` onto `to`. */
  lemma OneMove(st: Rods, disk: nat, from: Rod, to: Rod, below: seq<nat>)
    requires from in st && to in st && from != to
    requires st[from] == below + [disk] && Above(st[to], disk)
    ensures ApplyMoves(st, [Move(disk, from, to)]) == Some(st[from := below][to := st[to] + [disk]])
  {
    assert (below + [disk])[..|below|] == below;
    assert ApplyMove(st, Move(disk, from, to)) == Some(st[from := below][to := st[to] + [disk]]);
  }

  /**
   * Every move of the solution is legal: with disks n..1 on top of `source`
   * and only larger disks on the other two rods, the moves carry the tower
   * to `destination` and leave everything else as it was.
   */
  lemma {:induction false} HanoiLegal(n: nat, s: Rod, a: Rod, d: Rod, st: Rods, base: seq<nat>)
    requires n >= 1
    requires s != a && a != d && s != d
    requires s in st && a in st && d in st
    requires st[s] == base + Tower(n)
    requires Above(base, n) && Above(st[a], n) && Above(st[d], n)
    ensures ApplyMoves(st, HanoiMoves(n, s, a, d)) == Some(st[s := base][d := st[d] + Tower(n)])
  {
    if n == 1 {
      assert Tower(1) == [1];
      OneMove(st, 1, s, d, base);
    } else {
      assert Tower(n) == [n] + Tower(n - 1);
      var base1 := base + [n];
      assert st[s] == base1 + Tower(n - 1);
      var first, last := HanoiMoves(n - 1, s, d, a), HanoiMoves(n - 1, a, s, d);
      var m := Move(n, s, d);
      // the n-1 smaller disks go to the auxiliary rod
      HanoiLegal(n - 1, s, d, a, st, base1);
      var st1 := st[s := base1][a := st[a] + Tower(n - 1)];
      assert ApplyMoves(st, first) == Some(st1);
      // the largest disk goes to the destination
      OneMove(st1, n, s, d, base);
      var st2 := st1[s := base][d := st[d] + [n]];
      // the n-1 smaller disks go on top of it
      assert st2[a] == st[a] + Tower(n - 1);
      HanoiLegal(n - 1, a, s, d, st2, st[a]);
      var st3 := st2[a := st[a]][d := st[d] + [n] + Tower(n - 1)];
      assert ApplyMoves(st2, last) == Some(st3);
      ApplyConcat(st, first, [m]);
      ApplyConcat(st, first + [m], last);
      assert HanoiMoves(n, s, a, d) == first + [m] + last;
      TowerOnTop(st[d], n);
      Restored(st, s, a, d, base1, st[a] + Tower(n - 1), base, st[d] + [n], st[d] + Tower(n));
    }
  }

  /** From the starting position of the puzzle the whole tower reaches the destination. */
  lemma SolutionIsLegal(n: nat, s: Rod, a: Rod, d: Rod)
    requires n >= 1
    requires s != a && a != d && s != d
    ensures ApplyMoves(map[s := Tower(n), a := [], d := []], HanoiMoves(n, s, a, d))
      == Some(map[s := [], a := [], d := Tower(n)])
  {
    var st := map[s := Tower(n), a := [], d := []];
    assert st[s] == [] + Tower(n);
    HanoiLegal(n, s, a, d, st, []);
    assert st[s := []][d := [] + Tower(n)] == map[s := [], a := [], d := Tower(n)];
  }
}
