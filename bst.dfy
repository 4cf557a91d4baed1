// The binary search tree of lab06. A tree is a value: `Nil` is Python's
// `None` and `Node` a `TreeNode` with its two children. The
// `BinarySearchTree` object holds the root and replaces it as values are
// inserted and deleted.

module BinarySearchTrees {
  import opened Wrappers
  import opened Ordering

  /** `TreeNode`: a value with a left and a right subtree. */
  datatype Tree = Nil | Node(left: Tree, value: int, right: Tree)

  /** The values stored in a tree. */
  ghost function Elements(t: Tree): set<int>
  {
    match t
    case Nil => {}
    case Node(l, x, r) => Elements(l) + {x} + Elements(r)
  }

  /**
   * The search-tree ordering: every value in a left subtree is smaller than
   * its node, every value in a right subtree larger, at every node.
   */
  ghost predicate Bst(t: Tree)
  {
    match t
    case Nil => true
    case Node(l, x, r) =>
      && Bst(l) && Bst(r)
      && (forall y :: y in Elements(l) ==> y < x)
      && (forall y :: y in Elements(r) ==> x < y)
  }

  /** Left subtree, node, right subtree. */
  function Inorder(t: Tree): seq<int>
  {
    match t
    case Nil => []
    case Node(l, x, r) => Inorder(l) + [x] + Inorder(r)
  }

  /** `_size_recursive`: the number of nodes. */
  function NodeCount(t: Tree): nat
  {
    match t
    case Nil => 0
    case Node(l, _, r) => NodeCount(l) + NodeCount(r) + 1
  }

  /** The in-order walk has one entry per node. */
  lemma {:induction false} InorderLength(t: Tree)
    ensures |Inorder(t)| == NodeCount(t)
  {
    match t
    case Nil =>
    case Node(l, _, r) =>
      InorderLength(l);
      InorderLength(r);
  }

  /** The in-order walk lists exactly the values of the tree. */
  lemma {:induction false} InorderElements(t: Tree)
    ensures forall y :: y in Inorder(t) <==> y in Elements(t)
  {
    match t
    case Nil =>
    case Node(l, x, r) =>
      InorderElements(l);
      InorderElements(r);
  }

  /**
   * A tree is ordered exactly when its in-order walk is strictly
   * increasing.
   */
  lemma BstIffInorderSorted(t: Tree)
    ensures Bst(t) <==> StrictlySorted(Inorder(t))
  {
    if Bst(t) {
      BstInorderSorted(t);
    }
    if StrictlySorted(Inorder(t)) {
      SortedInorderBst(t);
    }
  }

  /** An ordered tree lists its values in strictly increasing order. */
  lemma {:induction false} BstInorderSorted(t: Tree)
    requires Bst(t)
    ensures StrictlySorted(Inorder(t))
  {
    match t
    case Nil =>
    case Node(l, x, r) =>
      BstInorderSorted(l);
      BstInorderSorted(r);
      InorderElements(l);
      InorderElements(r);
      var a, b := Inorder(l), Inorder(r);
      var s := a + [x] + b;
      assert s == Inorder(t);
      forall i, j | 0 <= i < j < |s| ensures s[i] < s[j] {
        if j < |a| {
          assert s[i] == a[i] && s[j] == a[j];
        } else if i > |a| {
          assert s[i] == b[i - |a| - 1] && s[j] == b[j - |a| - 1];
        } else {
          assert i < |a| ==> s[i] == a[i] && s[i] in a;
          assert j > |a| ==> s[j] == b[j - |a| - 1] && s[j] in b;
        }
      }
  }

  /** A tree whose in-order list strictly increases is ordered. */
  lemma {:induction false} SortedInorderBst(t: Tree)
    requires StrictlySorted(Inorder(t))
    ensures Bst(t)
  {
    match t
    case Nil =>
    case Node(l, x, r) =>
      InorderElements(l);
      InorderElements(r);
      var a, b := Inorder(l), Inorder(r);
      var s := a + [x] + b;
      assert s == Inorder(t);
      assert StrictlySorted(a) by {
        forall i, j | 0 <= i < j < |a| ensures a[i] < a[j] {
          assert s[i] == a[i] && s[j] == a[j];
        }
      }
      assert StrictlySorted(b) by {
        forall i, j | 0 <= i < j < |b| ensures b[i] < b[j] {
          assert s[|a| + 1 + i] == b[i] && s[|a| + 1 + j] == b[j];
        }
      }
      SortedInorderBst(l);
      SortedInorderBst(r);
      forall y | y in Elements(l) ensures y < x {
        var i :| 0 <= i < |a| && a[i] == y;
        assert s[i] == y && s[|a|] == x;
      }
      forall y | y in Elements(r) ensures x < y {
        var j :| 0 <= j < |b| && b[j] == y;
        assert s[|a| + 1 + j] == y && s[|a|] == x;
      }
  }

  /** In an ordered tree each value sits in one node only. */
  lemma {:induction false} BstCount(t: Tree)
    ensures Bst(t) ==> NodeCount(t) == |Elements(t)|
  {
    match t
    case Nil =>
    case Node(l, x, r) =>
      if !Bst(t) {
        return;
      }
      BstCount(l);
      BstCount(r);
      assert Elements(l) !! Elements(r) by {
        forall y | y in Elements(l) ensures y !in Elements(r) {
          assert y < x;
        }
      }
      assert |Elements(l) + Elements(r)| == |Elements(l)| + |Elements(r)|;
      assert x !in Elements(l) + Elements(r);
      assert Elements(t) == (Elements(l) + Elements(r)) + {x};
  }

  /**
   * `_search_recursive`: follows the ordering from the root. A value
   * reported found is in the tree, and in an ordered tree every stored
   * value is found.
   */
  function SearchRecursive(t: Tree, v: int): (found: bool)
    ensures found ==> v in Elements(t)
    ensures Bst(t) && v in Elements(t) ==> found
  {
    match t
    case Nil => false
    case Node(l, x, r) =>
      if v == x then true
      else if v < x then
        assert Bst(t) ==> v !in Elements(r);
        SearchRecursive(l, v)
      else
        assert Bst(t) ==> v !in Elements(l);
        SearchRecursive(r, v)
  }

  /**
   * Insertion as `insert` performs it: walk down by comparison and hang a
   * new leaf where the walk falls off; a value equal to a node's stops the
   * walk and changes nothing.
   */
  function Inserted(t: Tree, v: int): (r: Tree)
    ensures Elements(r) == Elements(t) + {v}
    ensures Bst(t) ==> Bst(r)
    ensures Bst(t) && v in Elements(t) ==> r == t
  {
    match t
    case Nil => Node(Nil, v, Nil)
    case Node(l, x, rt) =>
      if v < x then Node(Inserted(l, v), x, rt)
      else if v > x then Node(l, x, Inserted(rt, v))
      else t
  }

  /** Insertion adds one node exactly when the value was absent. */
  lemma InsertedCount(t: Tree, v: int)
    requires Bst(t)
    ensures NodeCount(Inserted(t, v)) == NodeCount(t) + (if v in Elements(t) then 0 else 1)
  {
    BstCount(t);
    BstCount(Inserted(t, v));
  }

  /**
   * The value `_find_min_node` reaches by following left children: the
   * smallest value of an ordered tree.
   */
  function Leftmost(t: Tree): (m: int)
    requires t.Node?
    ensures m in Elements(t)
    ensures Bst(t) ==> forall y :: y in Elements(t) ==> m <= y
  {
    if t.left == Nil then t.value else Leftmost(t.left)
  }

  /** The value `find_max` reaches by following right children: the largest. */
  function Rightmost(t: Tree): (m: int)
    requires t.Node?
    ensures m in Elements(t)
    ensures Bst(t) ==> forall y :: y in Elements(t) ==> y <= m
  {
    if t.right == Nil then t.value else Rightmost(t.right)
  }

  /**
   * `_delete_recursive`. A leaf disappears, a node with one child is
   * replaced by that child, and a node with two children takes the value
   * of its in-order successor, which is then deleted from the right
   * subtree. An absent value leaves the tree as it is; in an ordered tree
   * exactly the value is removed and the ordering is kept.
   */
  function Deleted(t: Tree, v: int): (r: Tree)
    ensures Elements(r) <= Elements(t)
    ensures v !in Elements(t) ==> r == t
    ensures Bst(t) ==> Bst(r) && Elements(r) == Elements(t) - {v}
  {
    match t
    case Nil => Nil
    case Node(l, x, rt) =>
      if v < x then Node(Deleted(l, v), x, rt)
      else if v > x then Node(l, x, Deleted(rt, v))
      else if l == Nil && rt == Nil then Nil
      else if l == Nil then rt
      else if rt == Nil then l
      else
        var m := Leftmost(rt);
        Node(l, m, Deleted(rt, m))
  }

  /** Deletion removes one node exactly when the value was present. */
  lemma DeletedCount(t: Tree, v: int)
    requires Bst(t)
    ensures NodeCount(Deleted(t, v)) == NodeCount(t) - (if v in Elements(t) then 1 else 0)
  {
    BstCount(t);
    BstCount(Deleted(t, v));
  }

  /** `x` is above the lower bound; `None` stands for minus infinity. */
  predicate Above(low: Option<int>, x: int)
  {
    low.None? || low.value < x
  }

  /** `x` is below the upper bound; `None` stands for plus infinity. */
  predicate Below(high: Option<int>, x: int)
  {
    high.None? || x < high.value
  }

  /**
   * `_is_valid_recursive` with the infinite sentinels as `None`: each node
   * must lie strictly between the bounds its ancestors set.
   */
  function ValidBetween(t: Tree, low: Option<int>, high: Option<int>): bool
  {
    match t
    case Nil => true
    case Node(l, x, r) =>
      if !Above(low, x) || !Below(high, x) then false
      else ValidBetween(l, low, Some(x)) && ValidBetween(r, Some(x), high)
  }

  /** The bounded check accepts exactly the ordered trees within the bounds. */
  lemma {:induction false} ValidBetweenIff(t: Tree, low: Option<int>, high: Option<int>)
    ensures ValidBetween(t, low, high) <==>
      Bst(t) && forall y :: y in Elements(t) ==> Above(low, y) && Below(high, y)
  {
    match t
    case Nil =>
    case Node(l, x, r) =>
      ValidBetweenIff(l, low, Some(x));
      ValidBetweenIff(r, Some(x), high);
  }

  /** `_height_recursive`: -1 for an empty subtree, else one more than the taller child. */
  function HeightOf(t: Tree): (h: int)
    ensures h >= -1
    ensures h == -1 <==> t == Nil
  {
    match t
    case Nil => -1
    case Node(l, _, r) =>
      var a, b := HeightOf(l), HeightOf(r);
      (if a >= b then a else b) + 1
  }

  /** Some node of `t` lies `d` edges below its root. */
  ghost predicate HasDepth(t: Tree, d: nat)
  {
    match t
    case Nil => false
    case Node(l, _, r) => d == 0 || HasDepth(l, d - 1) || HasDepth(r, d - 1)
  }

  /** No node lies deeper than the height. */
  lemma {:induction false} DepthAtMostHeight(t: Tree, d: nat)
    requires HasDepth(t, d)
    ensures d <= HeightOf(t)
  {
    if d > 0 {
      if HasDepth(t.left, d - 1) {
        DepthAtMostHeight(t.left, d - 1);
      } else {
        DepthAtMostHeight(t.right, d - 1);
      }
    }
  }

  /**
   * The height of a non-empty tree is the depth of some node, the number of
   * edges on a longest path down from the root, and it is below the node
   * count.
   */
  lemma {:induction false} HeightIsDeepest(t: Tree)
    requires t.Node?
    ensures HasDepth(t, HeightOf(t))
    ensures forall d: nat :: HasDepth(t, d) ==> d <= HeightOf(t)
    ensures HeightOf(t) < NodeCount(t)
  {
    if t.left.Node? {
      HeightIsDeepest(t.left);
    }
    if t.right.Node? {
      HeightIsDeepest(t.right);
    }
    forall d: nat | HasDepth(t, d) ensures d <= HeightOf(t) {
      DepthAtMostHeight(t, d);
    }
  }

  /** A step down from a node, remembering the part of the node not descended into. */
  datatype Frame = WentLeft(value: int, right: Tree) | WentRight(left: Tree, value: int)

  /** Rebuilds the tree from the steps taken down from its root and the subtree reached. */
  function Plug(path: seq<Frame>, t: Tree): Tree
    decreases |path|
  {
    if path == [] then t
    else
      var child := match path[|path| - 1]
        case WentLeft(x, r) => Node(t, x, r)
        case WentRight(l, x) => Node(l, x, t);
      Plug(path[..|path| - 1], child)
  }

  /** `BinarySearchTree`: the root of the tree, `Nil` when it is empty. */
  class BinarySearchTree {
    var root: Tree

    constructor ()
      ensures root == Nil
    {
      root := Nil;
    }

    /** `insert`: a new root for an empty tree, otherwise the iterative walk. */
    method Insert(v: int)
      modifies this
      ensures root == Inserted(old(root), v)
      ensures Elements(root) == old(Elements(root)) + {v}
      ensures old(Bst(root)) ==> Bst(root)
    {
      if root == Nil {
        root := Node(Nil, v, Nil);
      } else {
        InsertIterative(v);
      }
    }

    /**
     * `_insert_iterative`: descends from the root by comparison, returns
     * when it meets the value, and hangs a new leaf under the last node
     * visited. The steps taken are kept so the new tree can be rebuilt.
     */
    method InsertIterative(v: int)
      requires root != Nil
      modifies this
      ensures root == Inserted(old(root), v)
    {
      var current := root;
      var path: seq<Frame> := [];
      while current != Nil
        invariant Plug(path, current) == root
        invariant Plug(path, Inserted(current, v)) == Inserted(root, v)
        decreases current
      {
        if v < current.value {
          path := path + [WentLeft(current.value, current.right)];
          current := current.left;
        } else if v > current.value {
          path := path + [WentRight(current.left, current.value)];
          current := current.right;
        } else {
          return;
        }
      }
      root := Plug(path, Node(Nil, v, Nil));
    }

    /** `search`: true exactly for the stored values when the tree is ordered. */
    function Search(v: int): (found: bool)
      reads this
      ensures found ==> v in Elements(root)
      ensures Bst(root) ==> (found <==> v in Elements(root))
    {
      SearchRecursive(root, v)
    }

    /** `delete`: the root becomes the result of the recursive deletion. */
    method Delete(v: int)
      modifies this
      ensures root == Deleted(old(root), v)
      ensures old(Bst(root)) ==> Bst(root) && Elements(root) == old(Elements(root)) - {v}
      ensures v !in old(Elements(root)) ==> root == old(root)
    {
      root := Deleted(root, v);
    }

    /** `_find_min_node`: follows left children from a node. */
    method FindMinNode(t: Tree) returns (m: int)
      requires t.Node?
      ensures m in Elements(t)
      ensures Bst(t) ==> forall y :: y in Elements(t) ==> m <= y
    {
      var current := t;
      while current.left != Nil
        invariant current.Node? && Leftmost(current) == Leftmost(t)
        decreases current
      {
        current := current.left;
      }
      m := current.value;
    }

    /**
     * `find_min`: the smallest value of the given subtree, or of the whole
     * tree when no node is given (`Nil`); `None` when that tree is empty.
     */
    method FindMin(node: Tree) returns (m: Option<int>)
      ensures var start := if node == Nil then root else node;
        && (m.None? <==> start == Nil)
        && (m.Some? ==> m.value in Elements(start))
        && (m.Some? && Bst(start) ==> forall y :: y in Elements(start) ==> m.value <= y)
    {
      var start := node;
      if start == Nil {
        if root == Nil {
          return None;
        }
        start := root;
      }
      var v := FindMinNode(start);
      m := Some(v);
    }

    /** `find_max`: the largest value, found by following right children. */
    method FindMax(node: Tree) returns (m: Option<int>)
      ensures var start := if node == Nil then root else node;
        && (m.None? <==> start == Nil)
        && (m.Some? ==> m.value in Elements(start))
        && (m.Some? && Bst(start) ==> forall y :: y in Elements(start) ==> y <= m.value)
    {
      var start := node;
      if start == Nil {
        if root == Nil {
          return None;
        }
        start := root;
      }
      var current := start;
      while current.right != Nil
        invariant current.Node? && Rightmost(current) == Rightmost(start)
        decreases current
      {
        current := current.right;
      }
      m := Some(current.value);
    }

    /** `is_valid_bst`: the bounded check started with infinite bounds. */
    function IsValidBst(): (valid: bool)
      reads this
      ensures valid <==> Bst(root)
    {
      ValidBetweenIff(root, None, None);
      ValidBetween(root, None, None)
    }

    /**
     * `height`: of the given subtree, or of the whole tree when no node is
     * given. Unlike `_height_recursive`, an empty tree has height 0, the
     * same as a single node.
     */
    function Height(node: Tree): (h: int)
      reads this
      ensures var start := if node == Nil then root else node;
        && h >= 0
        && (start == Nil ==> h == 0)
        && (start.Node? ==> HasDepth(start, h) && forall d: nat :: HasDepth(start, d) ==> d <= h)
    {
      var start := if node == Nil then root else node;
      if start == Nil then 0
      else
        HeightIsDeepest(start);
        HeightOf(start)
    }

    /** `size`: the node count, which is the number of values when the tree is ordered. */
    function Size(): (n: nat)
      reads this
      ensures n == |Inorder(root)|
      ensures Bst(root) ==> n == |Elements(root)|
    {
      BstCount(root);
      InorderLength(root);
      NodeCount(root)
    }

    /**
     * `to_list_inorder`: the in-order walk, strictly increasing and holding
     * every value when the tree is ordered.
     */
    method ToListInorder() returns (result: seq<int>)
      ensures result == Inorder(root)
      ensures forall y :: y in result <==> y in Elements(root)
      ensures Bst(root) ==> StrictlySorted(result)
    {
      result := InorderInto(root, []);
      InorderElements(root);
      BstIffInorderSorted(root);
    }
  }

  /** `_inorder_recursive`: appends the in-order walk of `t` to `result`. */
  method InorderInto(t: Tree, result: seq<int>) returns (r: seq<int>)
    ensures r == result + Inorder(t)
    decreases t
  {
    r := result;
    if t != Nil {
      r := InorderInto(t.left, r);
      r := r + [t.value];
      r := InorderInto(t.right, r);
    }
  }
}
