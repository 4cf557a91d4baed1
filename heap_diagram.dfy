// Lab07 `visualize.py`: the text diagram of a heap array drawn as a
// sideways tree. The right subtree is drawn above its parent and the left
// subtree below, so the lines follow a reverse in-order walk of the
// implicit tree whose node `i` has children `2i+1` and `2i+2`. How a value
// is written (`str`) is a parameter.

module HeapDiagrams {

  /** The branch piece that continues a vertical line past a left child or the root. */
  const Vertical: string := "│   "
  /** The branch piece under a right child: blank. */
  const Blank: string := "    "
  /** The connector of a left child or the root. */
  const LeftConnector: string := "└── "
  /** The connector of a right child. */
  const RightConnector: string := "┌── "

  /**
   * `represent_heap_as_tree`: nothing past the end of the array; otherwise
   * the right subtree (its prefix extended by a vertical line when this
   * node is a left child or the root, blanks otherwise), this node's line,
   * and the left subtree (blanks after a left child, a vertical line after
   * a right one).
   */
  function Render<T>(data: seq<T>, show: T -> string, index: nat, prefix: string, isLeft: bool): (r: string)
    ensures index >= |data| ==> r == ""
    decreases |data| - index
  {
    if index >= |data| then ""
    else
      var right := 2 * index + 2;
      var rightPart := if right < |data| then Render(data, show, right, prefix + Segment(isLeft, true), false) else "";
      var currentLine := prefix + Connector(isLeft) + show(data[index]);
      var left := 2 * index + 1;
      var leftPart := if left < |data| then Render(data, show, left, prefix + Segment(isLeft, false), true) else "";
      rightPart + (currentLine + "\n") + leftPart
  }

  /** What a child's prefix gains over its parent's. */
  function Segment(parentIsLeft: bool, toRightChild: bool): string
  {
    if toRightChild then (if parentIsLeft then Vertical else Blank)
    else (if parentIsLeft then Blank else Vertical)
  }

  /** The connector of a node drawn as a left child (or the root) or as a right child. */
  function Connector(isLeft: bool): string
  {
    if isLeft then LeftConnector else RightConnector
  }

  /** Node `j` lies in the subtree rooted at node `i`: `i` is on its parent chain. */
  predicate Descends(j: nat, i: nat)
    decreases j
  {
    j == i || (j > i && Descends((j - 1) / 2, i))
  }

  /** The nodes below `n` of the subtree at `i` in reverse in-order: right subtree, node, left subtree. */
  function Order(n: nat, i: nat): seq<nat>
    decreases n - i
  {
    if i >= n then [] else Order(n, 2 * i + 2) + [i] + Order(n, 2 * i + 1)
  }

  /** No index occurs twice. */
  ghost predicate Distinct(s: seq<nat>)
  {
    forall p, q :: 0 <= p < q < |s| ==> s[p] != s[q]
  }

  /**
   * Whether node `j` of the subtree drawn from `i` is drawn as a left
   * child: the start node takes the caller's flag, every other node is a
   * left child exactly when its index is odd.
   */
  function LeftAt(i: nat, isLeft: bool, j: nat): bool
  {
    if j == i then isLeft else j % 2 == 1
  }

  /**
   * The prefix of node `j` when the subtree at `i` is drawn with `prefix`:
   * the caller's prefix followed by one segment per step down the path
   * from `i` to `j`.
   */
  function PrefixOf(i: nat, prefix: string, isLeft: bool, j: nat): string
    requires Descends(j, i)
    decreases j
  {
    if j == i then prefix
    else
      var q := (j - 1) / 2;
      PrefixOf(i, prefix, isLeft, q) + Segment(LeftAt(i, isLeft, q), j % 2 == 0)
  }

  /** The line drawn for node `j`: its prefix, its connector, its value and a line break. */
  function LineOf<T>(data: seq<T>, show: T -> string, i: nat, prefix: string, isLeft: bool, j: nat): string
    requires j < |data| && Descends(j, i)
  {
    PrefixOf(i, prefix, isLeft, j) + Connector(LeftAt(i, isLeft, j)) + show(data[j]) + "\n"
  }

  /** Every listed node is an index of the array and lies in the subtree at `i`. */
  predicate Within(order: seq<nat>, n: nat, i: nat)
  {
    forall k | 0 <= k < |order| :: order[k] < n && Descends(order[k], i)
  }

  /** The lines of the listed nodes, one after the other. */
  function Lines<T>(data: seq<T>, show: T -> string, i: nat, prefix: string, isLeft: bool, order: seq<nat>): string
    requires Within(order, |data|, i)
  {
    if order == [] then ""
    else LineOf(data, show, i, prefix, isLeft, order[0]) + Lines(data, show, i, prefix, isLeft, order[1..])
  }

  /** Lines of two lists of nodes are the lines of the first followed by those of the second. */
  lemma {:induction false} LinesAppend<T>(data: seq<T>, show: T -> string, i: nat, prefix: string, isLeft: bool,
                                          a: seq<nat>, b: seq<nat>)
    requires Within(a, |data|, i) && Within(b, |data|, i)
    ensures Within(a + b, |data|, i)
    ensures Lines(data, show, i, prefix, isLeft, a + b)
         == Lines(data, show, i, prefix, isLeft, a) + Lines(data, show, i, prefix, isLeft, b)
  {
    assert Within(a + b, |data|, i) by {
      forall k | 0 <= k < |a + b| ensures (a + b)[k] < |data| && Descends((a + b)[k], i) {
        if k >= |a| { assert (a + b)[k] == b[k - |a|]; }
      }
    }
    if a != [] {
      assert Within(a[1..], |data|, i) by {
        forall k | 0 <= k < |a| - 1 ensures a[1..][k] == a[k + 1] { }
      }
      assert (a + b)[1..] == a[1..] + b && (a + b)[0] == a[0];
      LinesAppend(data, show, i, prefix, isLeft, a[1..], b);
      var line := LineOf(data, show, i, prefix, isLeft, a[0]);
      assert Lines(data, show, i, prefix, isLeft, a + b) == line + Lines(data, show, i, prefix, isLeft, a[1..] + b);
      assert Lines(data, show, i, prefix, isLeft, a) == line + Lines(data, show, i, prefix, isLeft, a[1..]);
    } else {
      assert a + b == b;
    }
  }

  /** The child of node `i` on one side. */
  function Child(i: nat, toRight: bool): nat
  {
    if toRight then 2 * i + 2 else 2 * i + 1
  }

  /** A node at or below a child of `i` is drawn the same from the child as from `i`. */
  lemma {:induction false} PrefixShift(i: nat, prefix: string, isLeft: bool, toRight: bool, j: nat)
    requires Descends(j, Child(i, toRight))
    ensures Descends(j, i)
    ensures PrefixOf(i, prefix, isLeft, j) == PrefixOf(Child(i, toRight), prefix + Segment(isLeft, toRight), !toRight, j)
    ensures LeftAt(i, isLeft, j) == LeftAt(Child(i, toRight), !toRight, j)
    decreases j
  {
    var c := Child(i, toRight);
    if j != c {
      var q := (j - 1) / 2;
      PrefixShift(i, prefix, isLeft, toRight, q);
      DescendsAtLeast(q, c);
    }
  }

  /** The lines of nodes below a child of `i` are the same drawn from the child as from `i`. */
  lemma {:induction false} LinesShift<T>(data: seq<T>, show: T -> string, i: nat, prefix: string, isLeft: bool,
                                         toRight: bool, order: seq<nat>)
    requires Within(order, |data|, Child(i, toRight))
    ensures Within(order, |data|, i)
    ensures Lines(data, show, Child(i, toRight), prefix + Segment(isLeft, toRight), !toRight, order)
         == Lines(data, show, i, prefix, isLeft, order)
  {
    forall k | 0 <= k < |order| ensures Descends(order[k], i) {
      PrefixShift(i, prefix, isLeft, toRight, order[k]);
    }
    if order != [] {
      PrefixShift(i, prefix, isLeft, toRight, order[0]);
      LinesShift(data, show, i, prefix, isLeft, toRight, order[1..]);
    }
  }

  /**
   * The diagram of the subtree at `i` is the line of every node of that
   * subtree, in reverse in-order, each drawn with the prefix its path from
   * `i` determines.
   */
  lemma {:induction false} RenderLines<T>(data: seq<T>, show: T -> string, i: nat, prefix: string, isLeft: bool)
    ensures Within(Order(|data|, i), |data|, i)
    ensures Render(data, show, i, prefix, isLeft) == Lines(data, show, i, prefix, isLeft, Order(|data|, i))
    decreases |data| - i
  {
    var n := |data|;
    OrderMembers(n, i);
    if i < n {
      var right, left := 2 * i + 2, 2 * i + 1;
      var prefixR, prefixL := prefix + Segment(isLeft, true), prefix + Segment(isLeft, false);
      var orderR, orderL := Order(n, right), Order(n, left);
      var line := LineOf(data, show, i, prefix, isLeft, i);
      assert Child(i, true) == right && Child(i, false) == left;
      RenderSplit(data, show, i, prefix, isLeft);
      RenderLines(data, show, right, prefixR, false);
      RenderLines(data, show, left, prefixL, true);
      LinesShift(data, show, i, prefix, isLeft, true, orderR);
      LinesShift(data, show, i, prefix, isLeft, false, orderL);
      LinesOne(data, show, i, prefix, isLeft);
      LinesAppend(data, show, i, prefix, isLeft, orderR, [i]);
      LinesAppend(data, show, i, prefix, isLeft, orderR + [i], orderL);
    }
  }

  /** The lines of the start node alone are its own line. */
  lemma LinesOne<T>(data: seq<T>, show: T -> string, i: nat, prefix: string, isLeft: bool)
    requires i < |data|
    ensures Within([i], |data|, i)
    ensures Lines(data, show, i, prefix, isLeft, [i]) == LineOf(data, show, i, prefix, isLeft, i)
  {
    assert Within([i], |data|, i);
    assert [i][1..] == [];
  }

  /** One level of the diagram: the right subtree's lines, the node's line, the left subtree's lines. */
  lemma RenderSplit<T>(data: seq<T>, show: T -> string, i: nat, prefix: string, isLeft: bool)
    requires i < |data|
    ensures Render(data, show, i, prefix, isLeft)
         == Render(data, show, 2 * i + 2, prefix + Segment(isLeft, true), false)
          + LineOf(data, show, i, prefix, isLeft, i)
          + Render(data, show, 2 * i + 1, prefix + Segment(isLeft, false), true)
  {
  }

  /** A node in a subtree has an index no smaller than the subtree's root. */
  lemma {:induction false} DescendsAtLeast(j: nat, i: nat)
    requires Descends(j, i)
    ensures j >= i
  {
  }

  /** The nodes of a subtree other than its root are exactly those of its two child subtrees. */
  lemma {:induction false} ChildSubtrees(j: nat, i: nat)
    ensures (Descends(j, i) && j != i) <==> (Descends(j, 2 * i + 1) || Descends(j, 2 * i + 2))
    decreases j
  {
    if j > i && j != 2 * i + 1 && j != 2 * i + 2 {
      var q := (j - 1) / 2;
      ChildSubtrees(q, i);
    }
  }

  /** Every node lies in the subtree of the root. */
  lemma {:induction false} RootReachesAll(j: nat)
    ensures Descends(j, 0)
  {
    if j > 0 {
      RootReachesAll((j - 1) / 2);
    }
  }

  /** The subtrees containing a node are nested: one of their roots lies in the other's subtree. */
  lemma {:induction false} AncestorsNest(j: nat, a: nat, b: nat)
    requires Descends(j, a) && Descends(j, b)
    ensures Descends(a, b) || Descends(b, a)
  {
    if j != a && j != b {
      AncestorsNest((j - 1) / 2, a, b);
    }
  }

  /** The listed nodes of a subtree are exactly its nodes below `n`. */
  lemma {:induction false} OrderMembers(n: nat, i: nat)
    ensures forall j: nat :: j in Order(n, i) <==> j < n && Descends(j, i)
    ensures Within(Order(n, i), n, i)
    decreases n - i
  {
    if i < n {
      OrderMembers(n, 2 * i + 2);
      OrderMembers(n, 2 * i + 1);
      forall j: nat ensures j in Order(n, i) <==> j < n && Descends(j, i) {
        ChildSubtrees(j, i);
      }
    } else {
      forall j: nat | Descends(j, i) ensures j >= n {
        DescendsAtLeast(j, i);
      }
    }
  }

  /** The two child subtrees share no node, and neither holds their parent. */
  lemma ChildrenApart(j: nat, i: nat)
    ensures !(Descends(j, 2 * i + 1) && Descends(j, 2 * i + 2))
    ensures Descends(j, 2 * i + 1) || Descends(j, 2 * i + 2) ==> j != i
  {
    if Descends(j, 2 * i + 1) && Descends(j, 2 * i + 2) {
      AncestorsNest(j, 2 * i + 1, 2 * i + 2);
      assert false;
    }
    if Descends(j, 2 * i + 1) { DescendsAtLeast(j, 2 * i + 1); }
    if Descends(j, 2 * i + 2) { DescendsAtLeast(j, 2 * i + 2); }
  }

  /** Every node of a subtree is listed once. */
  lemma {:induction false} OrderDistinct(n: nat, i: nat)
    ensures Distinct(Order(n, i))
    decreases n - i
  {
    if i < n {
      var right, left := Order(n, 2 * i + 2), Order(n, 2 * i + 1);
      OrderDistinct(n, 2 * i + 2);
      OrderDistinct(n, 2 * i + 1);
      OrderMembers(n, 2 * i + 2);
      OrderMembers(n, 2 * i + 1);
      var s := right + [i] + left;
      forall p, q | 0 <= p < q < |s| ensures s[p] != s[q] {
        ChildrenApart(s[p], i);
        ChildrenApart(s[q], i);
        if p < |right| && q >= |right| + 1 {
          assert s[q] == left[q - |right| - 1];
        } else if q >= |right| + 1 && p >= |right| + 1 {
          assert s[p] == left[p - |right| - 1] && s[q] == left[q - |right| - 1];
        }
      }
    }
  }

  /** A list without repeats of exactly the indices below `n` has `n` entries. */
  lemma {:induction false} DistinctRange(s: seq<nat>, n: nat)
    requires Distinct(s)
    requires forall j: nat :: j in s <==> j < n
    ensures |s| == n
    decreases n
  {
    if n > 0 {
      assert n - 1 in s;
      var k :| 0 <= k < |s| && s[k] == n - 1;
      var t := s[..k] + s[k + 1..];
      forall j: nat ensures j in t <==> j < n - 1 {
        if j in t {
          var p :| 0 <= p < |t| && t[p] == j;
          var p' := if p < k then p else p + 1;
          assert s[p'] == j && p' != k;
          assert j != n - 1 by {
            if p' < k { assert s[p'] != s[k]; } else { assert s[k] != s[p']; }
          }
          assert j in s;
        }
        if j < n - 1 {
          assert j in s;
          var p :| 0 <= p < |s| && s[p] == j;
          if p < k { assert t[p] == j; } else { assert t[p - 1] == j; }
        }
      }
      forall p, q | 0 <= p < q < |t| ensures t[p] != t[q] {
        var p' := if p < k then p else p + 1;
        var q' := if q < k then q else q + 1;
        assert t[p] == s[p'] && t[q] == s[q'];
      }
      DistinctRange(t, n - 1);
    } else {
      HeadIn(s);
      if s != [] {
        assert false;
      }
    }
  }

  /** The head of a non-empty list is one of its elements. */
  lemma HeadIn(s: seq<nat>)
    ensures s != [] ==> s[0] in s
  {
  }

  /**
   * The full diagram (`represent_heap_as_tree` with its defaults: the root,
   * no prefix, drawn as a left child) has one line per element of the
   * array, every element drawn once.
   */
  lemma WholeDiagram<T>(data: seq<T>, show: T -> string)
    ensures |Order(|data|, 0)| == |data|
    ensures forall j: nat :: j in Order(|data|, 0) <==> j < |data|
    ensures Distinct(Order(|data|, 0))
    ensures Within(Order(|data|, 0), |data|, 0)
    ensures Render(data, show, 0, "", true) == Lines(data, show, 0, "", true, Order(|data|, 0))
  {
    OrderMembers(|data|, 0);
    forall j: nat ensures Descends(j, 0) { RootReachesAll(j); }
    OrderDistinct(|data|, 0);
    DistinctRange(Order(|data|, 0), |data|);
    RenderLines(data, show, 0, "", true);
  }
}
