// `TreeTraversal` of lab06: the three depth-first orders, written with an
// accumulating result list, the in-order walk driven by an explicit stack,
// and the breadth-first walk driven by a queue.

module TreeTraversals {
  import opened BinarySearchTrees

  /** Node, left subtree, right subtree. */
  function Preorder(t: Tree): seq<int>
  {
    match t
    case Nil => []
    case Node(l, x, r) => [x] + Preorder(l) + Preorder(r)
  }

  /** Left subtree, right subtree, node. */
  function Postorder(t: Tree): seq<int>
  {
    match t
    case Nil => []
    case Node(l, x, r) => Postorder(l) + Postorder(r) + [x]
  }

  /** The values of the nodes, one occurrence per node. */
  ghost function Values(t: Tree): multiset<int>
  {
    match t
    case Nil => multiset{}
    case Node(l, x, r) => Values(l) + multiset{x} + Values(r)
  }

  /** `inorder_recursive`: appends the in-order walk of `t` to `result`. */
  method InorderRecursive(t: Tree, result: seq<int>) returns (r: seq<int>)
    ensures r == result + Inorder(t)
    decreases t
  {
    r := result;
    if t != Nil {
      r := InorderRecursive(t.left, r);
      r := r + [t.value];
      r := InorderRecursive(t.right, r);
    }
  }

  /** `preorder_recursive`: appends the pre-order walk of `t` to `result`. */
  method PreorderRecursive(t: Tree, result: seq<int>) returns (r: seq<int>)
    ensures r == result + Preorder(t)
    decreases t
  {
    r := result;
    if t != Nil {
      r := r + [t.value];
      r := PreorderRecursive(t.left, r);
      r := PreorderRecursive(t.right, r);
    }
  }

  /** `postorder_recursive`: appends the post-order walk of `t` to `result`. */
  method PostorderRecursive(t: Tree, result: seq<int>) returns (r: seq<int>)
    ensures r == result + Postorder(t)
    decreases t
  {
    r := result;
    if t != Nil {
      r := PostorderRecursive(t.left, r);
      r := PostorderRecursive(t.right, r);
      r := r + [t.value];
    }
  }

  /** Every stacked or queued entry is a node, never `None`. */
  predicate AllNodes(forest: seq<Tree>)
  {
    forall i :: 0 <= i < |forest| ==> forest[i].Node?
  }

  /**
   * What the nodes on the stack still contribute to the in-order walk: the
   * top (last) node, its right subtree, then the rest of the stack.
   */
  function Pending(stack: seq<Tree>): seq<int>
    decreases |stack|
  {
    if stack == [] then []
    else
      var rest := Pending(stack[..|stack| - 1]);
      match stack[|stack| - 1]
      case Nil => rest
      case Node(_, x, r) => [x] + Inorder(r) + rest
  }

  /** Pushing a node moves it and its right subtree from the walk still ahead onto the stack. */
  lemma PushStep(stack: seq<Tree>, current: Tree)
    requires current.Node?
    ensures Inorder(current) + Pending(stack) == Inorder(current.left) + Pending(stack + [current])
  {
    var pushed := stack + [current];
    assert pushed[..|stack|] == stack;
    assert Pending(pushed) == [current.value] + Inorder(current.right) + Pending(stack);
  }

  /** Popping the top node emits its value; its right subtree is walked next. */
  lemma PopStep(result: seq<int>, stack: seq<Tree>)
    requires stack != [] && stack[|stack| - 1].Node?
    ensures var top := stack[|stack| - 1];
      result + ([] + Pending(stack)) ==
      (result + [top.value]) + (Inorder(top.right) + Pending(stack[..|stack| - 1]))
  {
    var top, rest := stack[|stack| - 1], stack[..|stack| - 1];
    var x, tail := [top.value], Inorder(top.right) + Pending(rest);
    assert [] + Pending(stack) == x + tail by {
      assert Pending(stack) == x + Inorder(top.right) + Pending(rest);
      Associative(x, Inorder(top.right), Pending(rest));
    }
    Associative(result, x, tail);
  }

  /**
   * `inorder_iterative`: pushes the left spine, pops a node, emits it and
   * moves to its right subtree. It lists the same values as the recursive
   * in-order walk.
   */
  method InorderIterative(root: Tree) returns (result: seq<int>)
    ensures result == Inorder(root)
  {
    result := [];
    var stack: seq<Tree> := [];
    var current := root;
    while current != Nil || stack != []
      invariant AllNodes(stack)
      invariant result + (Inorder(current) + Pending(stack)) == Inorder(root)
      decreases |Inorder(root)| - |result|
    {
      while current != Nil
        invariant AllNodes(stack)
        invariant stack != [] || current != Nil
        invariant result + (Inorder(current) + Pending(stack)) == Inorder(root)
        decreases current
      {
        PushStep(stack, current);
        assert AllNodes(stack + [current]) by {
          AllNodesAppend(stack, [current]);
        }
        stack := stack + [current];
        current := current.left;
      }
      var node := stack[|stack| - 1];
      PopStep(result, stack);
      assert AllNodes(stack[..|stack| - 1]) by {
        assert stack == stack[..|stack| - 1] + [node];
        AllNodesAppend(stack[..|stack| - 1], [node]);
      }
      stack := stack[..|stack| - 1];
      result := result + [node.value];
      current := node.right;
    }
    assert result + ([] + []) == result;
  }

  /** The non-empty children of a node, left before right: what gets queued. */
  function Kids(t: Tree): seq<Tree>
  {
    match t
    case Nil => []
    case Node(l, _, r) => (if l == Nil then [] else [l]) + (if r == Nil then [] else [r])
  }

  /** The non-empty children of every tree of a forest, in order. */
  function Children(forest: seq<Tree>): seq<Tree>
    decreases |forest|
  {
    if forest == [] then [] else Kids(forest[0]) + Children(forest[1..])
  }

  /** The root values of a forest, in order. */
  function Roots(forest: seq<Tree>): seq<int>
    decreases |forest|
  {
    if forest == [] then []
    else (match forest[0] case Nil => [] case Node(_, x, _) => [x]) + Roots(forest[1..])
  }

  /** The number of nodes in a forest. */
  function ForestSize(forest: seq<Tree>): nat
    decreases |forest|
  {
    if forest == [] then 0 else NodeCount(forest[0]) + ForestSize(forest[1..])
  }

  /** The values of a forest, one occurrence per node. */
  ghost function ForestValues(forest: seq<Tree>): multiset<int>
    decreases |forest|
  {
    if forest == [] then multiset{} else Values(forest[0]) + ForestValues(forest[1..])
  }

  lemma {:induction false} ForestSizeAppend(a: seq<Tree>, b: seq<Tree>)
    ensures ForestSize(a + b) == ForestSize(a) + ForestSize(b)
    decreases |a|
  {
    if a == [] {
      assert a + b == b;
    } else {
      assert (a + b)[0] == a[0] && (a + b)[1..] == a[1..] + b;
      ForestSizeAppend(a[1..], b);
    }
  }

  lemma {:induction false} ForestValuesAppend(a: seq<Tree>, b: seq<Tree>)
    ensures ForestValues(a + b) == ForestValues(a) + ForestValues(b)
    decreases |a|
  {
    if a == [] {
      assert a + b == b;
    } else {
      assert (a + b)[0] == a[0] && (a + b)[1..] == a[1..] + b;
      ForestValuesAppend(a[1..], b);
    }
  }

  lemma {:induction false} RootsAppend(a: seq<Tree>, b: seq<Tree>)
    ensures Roots(a + b) == Roots(a) + Roots(b)
    decreases |a|
  {
    if a == [] {
      assert a + b == b;
    } else {
      assert (a + b)[0] == a[0] && (a + b)[1..] == a[1..] + b;
      RootsAppend(a[1..], b);
    }
  }

  lemma {:induction false} ChildrenAppend(a: seq<Tree>, b: seq<Tree>)
    ensures Children(a + b) == Children(a) + Children(b)
    decreases |a|
  {
    if a == [] {
      assert a + b == b;
    } else {
      assert (a + b)[0] == a[0] && (a + b)[1..] == a[1..] + b;
      ChildrenAppend(a[1..], b);
    }
  }

  /** A one-tree forest. */
  lemma Single(t: Tree)
    ensures ForestSize([t]) == NodeCount(t)
    ensures ForestValues([t]) == Values(t)
    ensures Children([t]) == Kids(t)
    ensures Roots([t]) == (if t == Nil then [] else [t.value])
  {
    assert [t][1..] == [];
  }

  /** Both parts of a forest are nodes exactly when the whole is. */
  lemma AllNodesAppend(a: seq<Tree>, b: seq<Tree>)
    ensures AllNodes(a + b) <==> AllNodes(a) && AllNodes(b)
  {
    if AllNodes(a) && AllNodes(b) {
      forall i | 0 <= i < |a + b| ensures (a + b)[i].Node? {
        if i < |a| {
          assert (a + b)[i] == a[i];
        } else {
          assert (a + b)[i] == b[i - |a|];
        }
      }
    }
    if AllNodes(a + b) {
      forall i | 0 <= i < |a| ensures a[i].Node? {
        assert (a + b)[i] == a[i];
      }
      forall i | 0 <= i < |b| ensures b[i].Node? {
        assert (a + b)[|a| + i] == b[i];
      }
    }
  }

  /** A node's queued children hold all its nodes but itself. */
  lemma KidsFacts(t: Tree)
    requires t.Node?
    ensures AllNodes(Kids(t))
    ensures ForestSize(Kids(t)) == NodeCount(t) - 1
    ensures ForestValues(Kids(t)) + multiset{t.value} == Values(t)
  {
    var l, r := t.left, t.right;
    var a: seq<Tree> := if l == Nil then [] else [l];
    var b: seq<Tree> := if r == Nil then [] else [r];
    assert Kids(t) == a + b;
    KidsNodes(t, a, b);
    KidsSize(t, a, b);
    KidsValues(t, a, b);
  }

  lemma KidsNodes(t: Tree, a: seq<Tree>, b: seq<Tree>)
    requires t.Node?
    requires a == (if t.left == Nil then [] else [t.left])
    requires b == (if t.right == Nil then [] else [t.right])
    ensures AllNodes(a + b)
  {
    AllNodesAppend(a, b);
  }

  lemma KidsSize(t: Tree, a: seq<Tree>, b: seq<Tree>)
    requires t.Node?
    requires a == (if t.left == Nil then [] else [t.left])
    requires b == (if t.right == Nil then [] else [t.right])
    ensures ForestSize(a + b) == NodeCount(t) - 1
  {
    Single(t.left);
    Single(t.right);
    assert ForestSize(a) == NodeCount(t.left) && ForestSize(b) == NodeCount(t.right);
    ForestSizeAppend(a, b);
  }

  lemma KidsValues(t: Tree, a: seq<Tree>, b: seq<Tree>)
    requires t.Node?
    requires a == (if t.left == Nil then [] else [t.left])
    requires b == (if t.right == Nil then [] else [t.right])
    ensures ForestValues(a + b) + multiset{t.value} == Values(t)
  {
    Single(t.left);
    Single(t.right);
    assert ForestValues(a) == Values(t.left) && ForestValues(b) == Values(t.right);
    ForestValuesAppend(a, b);
  }

  /** The children of a forest of nodes are nodes and hold all nodes but the roots. */
  lemma {:induction false} ChildrenShrink(forest: seq<Tree>)
    requires AllNodes(forest)
    ensures AllNodes(Children(forest))
    ensures ForestSize(Children(forest)) == ForestSize(forest) - |forest|
    decreases |forest|
  {
    if forest != [] {
      assert AllNodes(forest[1..]) by {
        assert forest == forest[..1] + forest[1..];
        AllNodesAppend(forest[..1], forest[1..]);
      }
      ChildrenShrink(forest[1..]);
      KidsFacts(forest[0]);
      AllNodesAppend(Kids(forest[0]), Children(forest[1..]));
      ForestSizeAppend(Kids(forest[0]), Children(forest[1..]));
    }
  }

  /** The children of a forest hold the values of all its nodes but the roots. */
  lemma {:induction false} ChildrenValues(forest: seq<Tree>)
    requires AllNodes(forest)
    ensures ForestValues(Children(forest)) + multiset(Roots(forest)) == ForestValues(forest)
    decreases |forest|
  {
    if forest != [] {
      assert AllNodes(forest[1..]) by {
        assert forest == forest[..1] + forest[1..];
        AllNodesAppend(forest[..1], forest[1..]);
      }
      ChildrenValues(forest[1..]);
      KidsFacts(forest[0]);
      ForestValuesAppend(Kids(forest[0]), Children(forest[1..]));
    }
  }

  /** The next level down: the children of a non-empty forest of nodes. */
  function Lower(forest: seq<Tree>): (r: seq<Tree>)
    requires AllNodes(forest) && forest != []
    ensures AllNodes(r) && ForestSize(r) < ForestSize(forest)
  {
    ChildrenShrink(forest);
    Children(forest)
  }

  /**
   * Breadth-first order level by level: the roots of the forest, then the
   * same for the forest of their children.
   */
  function Levels(forest: seq<Tree>): seq<int>
    requires AllNodes(forest)
    decreases ForestSize(forest)
  {
    if forest == [] then [] else Roots(forest) + Levels(Lower(forest))
  }

  /** `level_order_traversal` as specified: nothing for an empty tree. */
  function LevelOrder(t: Tree): seq<int>
  {
    if t == Nil then [] else Levels([t])
  }

  /** The queue discipline: take the front node, queue its children at the back. */
  function Bfs(queue: seq<Tree>): seq<int>
    requires AllNodes(queue)
    decreases ForestSize(queue)
  {
    if queue == [] then [] else [queue[0].value] + Bfs(Served(queue))
  }

  /** The queue once its front node is taken and its children are queued. */
  function Served(queue: seq<Tree>): (r: seq<Tree>)
    requires AllNodes(queue) && queue != []
    ensures AllNodes(r) && ForestSize(r) < ForestSize(queue)
  {
    KidsFacts(queue[0]);
    AllNodesAppend(queue[..1], queue[1..]);
    assert queue == queue[..1] + queue[1..];
    AllNodesAppend(queue[1..], Kids(queue[0]));
    ForestSizeAppend(queue[1..], Kids(queue[0]));
    queue[1..] + Kids(queue[0])
  }

  /**
   * Serving the front part `a` of a queue emits its roots and leaves the
   * back part followed by the children of `a`.
   */
  lemma {:induction false} BfsServes(a: seq<Tree>, b: seq<Tree>)
    requires AllNodes(a) && AllNodes(b)
    ensures AllNodes(a + b) && AllNodes(b + Children(a))
    ensures Bfs(a + b) == Roots(a) + Bfs(b + Children(a))
    decreases |a|
  {
    AllNodesAppend(a, b);
    if a == [] {
      assert a + b == b + Children(a);
    } else {
      var front, a' := a[0], a[1..];
      assert AllNodes(a') by {
        assert a == [front] + a';
        AllNodesAppend([front], a');
      }
      var b' := b + Kids(front);
      assert AllNodes(b') by {
        KidsFacts(front);
        AllNodesAppend(b, Kids(front));
      }
      assert Bfs(a + b) == [front.value] + Bfs(a' + b') by {
        assert (a + b)[0] == front && (a + b)[1..] == a' + b;
        assert Served(a + b) == a' + b';
      }
      BfsServes(a', b');
      assert b' + Children(a') == b + Children(a) by {
        assert Children(a) == Kids(front) + Children(a');
        Associative(b, Kids(front), Children(a'));
      }
      assert Roots(a) == [front.value] + Roots(a');
      Associative([front.value], Roots(a'), Bfs(b + Children(a)));
    }
  }

  lemma Associative<T>(x: seq<T>, y: seq<T>, z: seq<T>)
    ensures (x + y) + z == x + (y + z)
  {
  }

  /** The queue discipline lists a forest level by level. */
  lemma {:induction false} BfsIsLevels(forest: seq<Tree>)
    requires AllNodes(forest)
    ensures Bfs(forest) == Levels(forest)
    decreases ForestSize(forest)
  {
    if forest != [] {
      BfsServes(forest, []);
      assert forest + [] == forest && [] + Children(forest) == Children(forest);
      ChildrenShrink(forest);
      BfsIsLevels(Children(forest));
      assert Levels(forest) == Roots(forest) + Levels(Children(forest));
    }
  }

  /**
   * `level_order_traversal`: [] for an empty tree; otherwise a queue that
   * starts with the root, and each dequeued node queues its left and then
   * its right child. The output is the level-by-level order.
   */
  method LevelOrderTraversal(root: Tree) returns (result: seq<int>)
    ensures result == LevelOrder(root)
  {
    if root == Nil {
      return [];
    }
    result := [];
    var queue := [root];
    while queue != []
      invariant AllNodes(queue)
      invariant result + Bfs(queue) == Bfs([root])
      decreases ForestSize(queue)
    {
      var node := queue[0];
      var next := queue[1..];
      if node.left != Nil {
        next := next + [node.left];
      }
      if node.right != Nil {
        next := next + [node.right];
      }
      assert next == Served(queue) by {
        assert Kids(node) == (if node.left == Nil then [] else [node.left]) + (if node.right == Nil then [] else [node.right]);
      }
      assert (result + [node.value]) + Bfs(next) == Bfs([root]) by {
        assert Bfs(queue) == [node.value] + Bfs(next);
        Associative(result, [node.value], Bfs(next));
      }
      result := result + [node.value];
      queue := next;
    }
    BfsIsLevels([root]);
    assert result + [] == result;
  }

  /** The in-order walk lists every node exactly once. */
  lemma {:induction false} InorderEachNodeOnce(t: Tree)
    ensures multiset(Inorder(t)) == Values(t)
  {
    match t
    case Nil =>
    case Node(l, x, r) =>
      InorderEachNodeOnce(l);
      InorderEachNodeOnce(r);
      assert multiset(Inorder(t)) == multiset(Inorder(l)) + multiset{x} + multiset(Inorder(r));
  }

  /** The pre-order walk lists every node exactly once. */
  lemma {:induction false} PreorderEachNodeOnce(t: Tree)
    ensures multiset(Preorder(t)) == Values(t)
  {
    match t
    case Nil =>
    case Node(l, x, r) =>
      PreorderEachNodeOnce(l);
      PreorderEachNodeOnce(r);
      assert multiset(Preorder(t)) == multiset{x} + multiset(Preorder(l)) + multiset(Preorder(r));
  }

  /** The post-order walk lists every node exactly once. */
  lemma {:induction false} PostorderEachNodeOnce(t: Tree)
    ensures multiset(Postorder(t)) == Values(t)
  {
    match t
    case Nil =>
    case Node(l, x, r) =>
      PostorderEachNodeOnce(l);
      PostorderEachNodeOnce(r);
      assert multiset(Postorder(t)) == multiset(Postorder(l)) + multiset(Postorder(r)) + multiset{x};
  }

  /** The level-by-level walk of a forest lists every node exactly once. */
  lemma {:induction false} LevelsEachNodeOnce(forest: seq<Tree>)
    requires AllNodes(forest)
    ensures multiset(Levels(forest)) == ForestValues(forest)
    decreases ForestSize(forest)
  {
    if forest != [] {
      ChildrenShrink(forest);
      ChildrenValues(forest);
      LevelsEachNodeOnce(Children(forest));
      assert Levels(forest) == Roots(forest) + Levels(Children(forest));
    }
  }

  /** The breadth-first walk of a tree lists every node exactly once. */
  lemma LevelOrderEachNodeOnce(t: Tree)
    ensures multiset(LevelOrder(t)) == Values(t)
  {
    if t != Nil {
      LevelsEachNodeOnce([t]);
      assert ForestValues([t]) == Values(t) + ForestValues([]);
    }
  }

  /** The values at depth `d` of a tree, left to right. */
  function Level(t: Tree, d: nat): seq<int>
  {
    match t
    case Nil => []
    case Node(l, x, r) => if d == 0 then [x] else Level(l, d - 1) + Level(r, d - 1)
  }

  /** The values at depths `d`, `d + 1`, ..., `d + k - 1`, level after level. */
  function ByDepth(t: Tree, d: nat, k: nat): seq<int>
    decreases k
  {
    if k == 0 then [] else Level(t, d) + ByDepth(t, d + 1, k - 1)
  }

  /** The values at depth `d` of every tree of a forest, tree after tree. */
  function ForestLevel(forest: seq<Tree>, d: nat): seq<int>
    decreases |forest|
  {
    if forest == [] then [] else Level(forest[0], d) + ForestLevel(forest[1..], d)
  }

  /** `ByDepth` for a forest. */
  function ForestByDepth(forest: seq<Tree>, d: nat, k: nat): seq<int>
    decreases k
  {
    if k == 0 then [] else ForestLevel(forest, d) + ForestByDepth(forest, d + 1, k - 1)
  }

  /** No values lie below the height. */
  lemma {:induction false} LevelBeyond(t: Tree, d: nat)
    requires d > HeightOf(t)
    ensures Level(t, d) == []
  {
    match t
    case Nil =>
    case Node(l, _, r) =>
      LevelBeyond(l, d - 1);
      LevelBeyond(r, d - 1);
  }

  lemma {:induction false} ForestLevelAppend(a: seq<Tree>, b: seq<Tree>, d: nat)
    ensures ForestLevel(a + b, d) == ForestLevel(a, d) + ForestLevel(b, d)
    decreases |a|
  {
    if a == [] {
      assert a + b == b;
    } else {
      assert (a + b)[0] == a[0] && (a + b)[1..] == a[1..] + b;
      ForestLevelAppend(a[1..], b, d);
      Associative(Level(a[0], d), ForestLevel(a[1..], d), ForestLevel(b, d));
    }
  }

  /** A one-tree forest has the levels of its tree. */
  lemma SingleLevel(t: Tree, d: nat)
    ensures ForestLevel([t], d) == Level(t, d)
  {
    assert [t][1..] == [];
  }

  /** Depth 0 of a forest of nodes is its roots. */
  lemma {:induction false} ForestLevelRoots(forest: seq<Tree>)
    requires AllNodes(forest)
    ensures ForestLevel(forest, 0) == Roots(forest)
    decreases |forest|
  {
    if forest != [] {
      assert AllNodes(forest[1..]) by {
        assert forest == forest[..1] + forest[1..];
        AllNodesAppend(forest[..1], forest[1..]);
      }
      ForestLevelRoots(forest[1..]);
    }
  }

  /** One level further down a node is the same level of its queued children. */
  lemma KidsLevel(t: Tree, d: nat)
    requires t.Node?
    ensures Level(t, d + 1) == ForestLevel(Kids(t), d)
  {
    var l, r := t.left, t.right;
    var a: seq<Tree> := if l == Nil then [] else [l];
    var b: seq<Tree> := if r == Nil then [] else [r];
    assert Kids(t) == a + b;
    ForestLevelAppend(a, b, d);
    SingleLevel(l, d);
    SingleLevel(r, d);
    assert ForestLevel(a, d) == Level(l, d) && ForestLevel(b, d) == Level(r, d);
  }

  /** One level further down a forest is the same level of its children. */
  lemma {:induction false} ForestLevelChildren(forest: seq<Tree>, d: nat)
    requires AllNodes(forest)
    ensures ForestLevel(forest, d + 1) == ForestLevel(Children(forest), d)
    decreases |forest|
  {
    if forest != [] {
      assert AllNodes(forest[1..]) by {
        assert forest == forest[..1] + forest[1..];
        AllNodesAppend(forest[..1], forest[1..]);
      }
      ForestLevelChildren(forest[1..], d);
      KidsLevel(forest[0], d);
      ForestLevelAppend(Kids(forest[0]), Children(forest[1..]), d);
    }
  }

  /** The levels of the children are the levels of the forest, one deeper. */
  lemma {:induction false} ChildrenByDepth(forest: seq<Tree>, d: nat, k: nat)
    requires AllNodes(forest)
    ensures ForestByDepth(Children(forest), d, k) == ForestByDepth(forest, d + 1, k)
    decreases k
  {
    if k > 0 {
      ForestLevelChildren(forest, d);
      ChildrenByDepth(forest, d + 1, k - 1);
    }
  }

  /** An empty forest has nothing at any depth. */
  lemma {:induction false} EmptyByDepth(d: nat, k: nat)
    ensures ForestByDepth([], d, k) == []
    decreases k
  {
    if k > 0 {
      EmptyByDepth(d + 1, k - 1);
    }
  }

  /**
   * Level by level equals depth by depth: the walk lists the values at
   * depth 0, then at depth 1, and so on, each level left to right; `k`
   * only needs to cover every depth.
   */
  lemma {:induction false} LevelsByDepth(forest: seq<Tree>, k: nat)
    requires AllNodes(forest) && k >= ForestSize(forest)
    ensures Levels(forest) == ForestByDepth(forest, 0, k)
    decreases ForestSize(forest)
  {
    if forest == [] {
      EmptyByDepth(0, k);
    } else {
      var lower := Children(forest);
      ChildrenShrink(forest);
      assert |forest| >= 1;
      LevelsByDepth(lower, k - 1);
      ChildrenByDepth(forest, 0, k - 1);
      ForestLevelRoots(forest);
      assert Levels(forest) == Roots(forest) + Levels(lower);
    }
  }

  /** `ByDepth` for a one-tree forest. */
  lemma {:induction false} SingleByDepth(t: Tree, d: nat, k: nat)
    ensures ForestByDepth([t], d, k) == ByDepth(t, d, k)
    decreases k
  {
    if k > 0 {
      SingleLevel(t, d);
      SingleByDepth(t, d + 1, k - 1);
    }
  }

  /** Depths below the height add nothing. */
  lemma {:induction false} ByDepthBeyond(t: Tree, d: nat, k: nat)
    requires d > HeightOf(t)
    ensures ByDepth(t, d, k) == []
    decreases k
  {
    if k > 0 {
      LevelBeyond(t, d);
      ByDepthBeyond(t, d + 1, k - 1);
    }
  }

  /** The depth-by-depth list splits at any depth. */
  lemma {:induction false} ByDepthSplit(t: Tree, d: nat, k1: nat, k2: nat)
    ensures ByDepth(t, d, k1 + k2) == ByDepth(t, d, k1) + ByDepth(t, d + k1, k2)
    decreases k1
  {
    if k1 == 0 {
      assert ByDepth(t, d, 0) == [];
    } else {
      ByDepthSplit(t, d + 1, k1 - 1, k2);
      assert ByDepth(t, d, k1 + k2) == Level(t, d) + ByDepth(t, d + 1, (k1 - 1) + k2);
      Associative(Level(t, d), ByDepth(t, d + 1, k1 - 1), ByDepth(t, d + k1, k2));
    }
  }

  /**
   * The breadth-first order of a tree lists the values at depth 0, then at
   * depth 1, down to its height, each depth left to right.
   */
  lemma LevelOrderByDepth(t: Tree)
    ensures LevelOrder(t) == ByDepth(t, 0, HeightOf(t) + 1)
  {
    if t == Nil {
      assert ByDepth(t, 0, 0) == [];
    } else {
      assert HeightOf(t) + 1 <= NodeCount(t) by {
        HeightIsDeepest(t);
      }
      LevelOrderAllDepths(t);
      ByDepthTrim(t, NodeCount(t));
    }
  }

  /** With one depth per node, every depth is covered. */
  lemma LevelOrderAllDepths(t: Tree)
    requires t.Node?
    ensures LevelOrder(t) == ByDepth(t, 0, NodeCount(t))
  {
    var k := NodeCount(t);
    assert ForestSize([t]) == k by {
      assert [t][1..] == [];
    }
    LevelsByDepth([t], k);
    SingleByDepth(t, 0, k);
  }

  /** Depths below the height can be dropped from the depth-by-depth list. */
  lemma ByDepthTrim(t: Tree, k: nat)
    requires HeightOf(t) + 1 <= k
    ensures ByDepth(t, 0, k) == ByDepth(t, 0, HeightOf(t) + 1)
  {
    var h := HeightOf(t) + 1;
    var rest := k - h;
    ByDepthSplit(t, 0, h, rest);
    ByDepthBeyond(t, h, rest);
    assert ByDepth(t, 0, h) + [] == ByDepth(t, 0, h);
  }
}
