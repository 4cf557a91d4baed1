// The unit tests of lab06 (`test_bst.py`), stated as scenarios over the
// tree model. The test file embeds its own copy of the tree and of the
// traversals; they behave as the canonical ones except that the copy's
// `height()` reports -1 for an empty tree, which is `HeightOf` of the root.

module BstTests {
  import opened Wrappers
  import opened BinarySearchTrees
  import opened TreeTraversals

  /** The tree the tests build by inserting 50, 30, 70, 20, 40, 60, 80. */
  const Sample: Tree :=
    Node(Node(Node(Nil, 20, Nil), 30, Node(Nil, 40, Nil)), 50,
         Node(Node(Nil, 60, Nil), 70, Node(Nil, 80, Nil)))

  /** Seven inserts into an empty tree give the full tree of height 2. */
  method BuildSample() returns (tree: BinarySearchTree)
    ensures fresh(tree) && tree.root == Sample
  {
    tree := new BinarySearchTree();
    tree.Insert(50);
    tree.Insert(30);
    tree.Insert(70);
    tree.Insert(20);
    tree.Insert(40);
    tree.Insert(60);
    tree.Insert(80);
  }

  /** `test_insert_and_search_operations`: every inserted value is found, no other. */
  method InsertAndSearchTest() returns (found: seq<bool>, missing: seq<bool>)
    ensures found == [true, true, true, true, true, true, true]
    ensures missing == [false, false, false]
  {
    var tree := BuildSample();
    found := [tree.Search(50), tree.Search(30), tree.Search(70), tree.Search(20),
              tree.Search(40), tree.Search(60), tree.Search(80)];
    missing := [tree.Search(10), tree.Search(90), tree.Search(55)];
  }

  /** `test_inorder_traversal_functionality`: the in-order list is sorted. */
  method InorderTest() returns (result: seq<int>)
    ensures result == [20, 30, 40, 50, 60, 70, 80]
  {
    var tree := BuildSample();
    result := tree.ToListInorder();
  }

  /** The sample tree without the leaf 20. */
  const WithoutLeaf: Tree :=
    Node(Node(Nil, 30, Node(Nil, 40, Nil)), 50, Node(Node(Nil, 60, Nil), 70, Node(Nil, 80, Nil)))

  /** Then without 30, which had only its right child 40. */
  const WithoutOneChild: Tree :=
    Node(Node(Nil, 40, Nil), 50, Node(Node(Nil, 60, Nil), 70, Node(Nil, 80, Nil)))

  /** Then without 50, replaced by its in-order successor 60. */
  const WithoutTwoChildren: Tree :=
    Node(Node(Nil, 40, Nil), 60, Node(Nil, 70, Node(Nil, 80, Nil)))

  /** The three deletions of the test, one node shape each. */
  lemma DeletionShapes()
    ensures Deleted(Sample, 20) == WithoutLeaf
    ensures Deleted(WithoutLeaf, 30) == WithoutOneChild
    ensures Deleted(WithoutOneChild, 50) == WithoutTwoChildren
  {
    assert Deleted(Sample.left, 20) == WithoutLeaf.left by {
      assert Deleted(Sample.left.left, 20) == Nil;
    }
    assert Deleted(WithoutLeaf.left, 30) == Node(Nil, 40, Nil);
    var right := WithoutOneChild.right;
    assert Leftmost(right) == 60;
    assert Deleted(right, 60) == Node(Nil, 70, Node(Nil, 80, Nil)) by {
      assert Deleted(right.left, 60) == Nil;
    }
  }

  /** The in-order lists of the three trees. */
  lemma DeletionLists()
    ensures Inorder(WithoutLeaf) == [30, 40, 50, 60, 70, 80]
    ensures Inorder(WithoutOneChild) == [40, 50, 60, 70, 80]
    ensures Inorder(WithoutTwoChildren) == [40, 60, 70, 80]
  {
  }

  /**
   * `test_delete_operation`: removing the leaf 20, then 30 (now with one
   * child), then 50 (with two children).
   */
  method DeleteTest() returns (afterLeaf: seq<int>, afterOneChild: seq<int>, afterTwoChildren: seq<int>,
                               stillThere: seq<bool>)
    ensures afterLeaf == [30, 40, 50, 60, 70, 80]
    ensures afterOneChild == [40, 50, 60, 70, 80]
    ensures afterTwoChildren == [40, 60, 70, 80]
    ensures stillThere == [false, false, false]
  {
    var tree := BuildSample();
    DeletionShapes();
    DeletionLists();
    tree.Delete(20);
    assert tree.root == WithoutLeaf;
    var gone20 := tree.Search(20);
    afterLeaf := tree.ToListInorder();
    tree.Delete(30);
    assert tree.root == WithoutOneChild;
    var gone30 := tree.Search(30);
    afterOneChild := tree.ToListInorder();
    tree.Delete(50);
    assert tree.root == WithoutTwoChildren;
    var gone50 := tree.Search(50);
    afterTwoChildren := tree.ToListInorder();
    stillThere := [gone20, gone30, gone50];
  }

  /** `test_find_min_max_operations`: 20 and 80 on the sample tree. */
  method FindMinMaxTest() returns (least: Option<int>, greatest: Option<int>)
    ensures least == Some(20) && greatest == Some(80)
  {
    var tree := BuildSample();
    least := tree.FindMin(Nil);
    greatest := tree.FindMax(Nil);
  }

  /**
   * `test_validity_check`: a tree built by inserts is valid; the hand-built
   * tree with 60 as the left child of 50 is not.
   */
  method ValidityTest() returns (built: bool, handBuilt: bool)
    ensures built && !handBuilt
  {
    var tree := new BinarySearchTree();
    tree.Insert(50);
    tree.Insert(30);
    tree.Insert(70);
    built := tree.IsValidBst();
    var invalid := new BinarySearchTree();
    invalid.root := Node(Node(Nil, 60, Nil), 50, Node(Nil, 70, Nil));
    handBuilt := invalid.IsValidBst();
  }

  /**
   * `test_height_computation` on the copy's `height()`, which is
   * `HeightOf` of the root: -1, 0, 1, 2 as the tree grows. The canonical
   * `height()` answers 0 for the empty tree instead.
   */
  method HeightTest() returns (heights: seq<int>, canonicalEmpty: int)
    ensures heights == [-1, 0, 1, 2]
    ensures canonicalEmpty == 0
  {
    var tree := new BinarySearchTree();
    var h0 := HeightOf(tree.root);
    canonicalEmpty := tree.Height(Nil);
    tree.Insert(50);
    var h1 := HeightOf(tree.root);
    tree.Insert(30);
    tree.Insert(70);
    assert tree.root == Node(Node(Nil, 30, Nil), 50, Node(Nil, 70, Nil));
    var h2 := HeightOf(tree.root);
    tree.Insert(20);
    tree.Insert(40);
    assert tree.root.left == Node(Node(Nil, 20, Nil), 30, Node(Nil, 40, Nil));
    var h3 := HeightOf(tree.root);
    assert HeightOf(tree.root.left) == 1 && HeightOf(tree.root.right) == 0;
    heights := [h0, h1, h2, h3];
  }

  /** `test_size_computation`: 0, 1, 3 and 7 nodes. */
  method SizeTest() returns (sizes: seq<int>)
    ensures sizes == [0, 1, 3, 7]
  {
    var tree := new BinarySearchTree();
    var s0 := tree.Size();
    tree.Insert(50);
    var s1 := tree.Size();
    tree.Insert(30);
    tree.Insert(70);
    var s2 := tree.Size();
    tree.Insert(20);
    tree.Insert(40);
    tree.Insert(60);
    tree.Insert(80);
    var s3 := tree.Size();
    sizes := [s0, s1, s2, s3];
  }

  /** `test_traversal_methods`: the five traversals of the sample tree. */
  method TraversalTest() returns (inorder: seq<int>, preorder: seq<int>, postorder: seq<int>,
                                  iterative: seq<int>, levels: seq<int>)
    ensures inorder == [20, 30, 40, 50, 60, 70, 80]
    ensures preorder == [50, 30, 20, 40, 70, 60, 80]
    ensures postorder == [20, 40, 30, 60, 80, 70, 50]
    ensures iterative == [20, 30, 40, 50, 60, 70, 80]
    ensures levels == [50, 30, 70, 20, 40, 60, 80]
  {
    var tree := BuildSample();
    SampleWalks();
    inorder := InorderRecursive(tree.root, []);
    preorder := PreorderRecursive(tree.root, []);
    postorder := PostorderRecursive(tree.root, []);
    iterative := InorderIterative(tree.root);
    levels := LevelOrderTraversal(tree.root);
    SampleLevels();
  }

  /** The depth-first walks of the sample tree. */
  lemma SampleWalks()
    ensures Inorder(Sample) == [20, 30, 40, 50, 60, 70, 80]
    ensures Preorder(Sample) == [50, 30, 20, 40, 70, 60, 80]
    ensures Postorder(Sample) == [20, 40, 30, 60, 80, 70, 50]
  {
    assert Preorder(Sample.left) == [30, 20, 40] && Preorder(Sample.right) == [70, 60, 80];
    assert Postorder(Sample.left) == [20, 40, 30] && Postorder(Sample.right) == [60, 80, 70];
  }

  /** The sample tree level by level: the root, its two children, the four leaves. */
  lemma SampleLevels()
    ensures LevelOrder(Sample) == [50, 30, 70, 20, 40, 60, 80]
  {
    FullTreeLevels(20, 30, 40, 50, 60, 70, 80);
  }

  /** Any full tree of height 2, read level by level. */
  lemma FullTreeLevels(a: int, b: int, c: int, d: int, e: int, f: int, g: int)
    ensures LevelOrder(Node(Node(Node(Nil, a, Nil), b, Node(Nil, c, Nil)), d,
                            Node(Node(Nil, e, Nil), f, Node(Nil, g, Nil))))
            == [d, b, f, a, c, e, g]
  {
    var t := Node(Node(Node(Nil, a, Nil), b, Node(Nil, c, Nil)), d,
                  Node(Node(Nil, e, Nil), f, Node(Nil, g, Nil)));
    assert LevelOrder(t) == ByDepth(t, 0, 3) by {
      LevelOrderByDepth(t);
      assert HeightOf(t.left) == 1 && HeightOf(t.right) == 1;
    }
    assert ByDepth(t, 2, 1) == [a, c, e, g] by {
      assert Level(t.left, 1) == [a] + [c];
      assert Level(t.right, 1) == [e] + [g];
      assert Level(t, 2) == ([a] + [c]) + ([e] + [g]);
    }
    assert ByDepth(t, 0, 3) == [d, b, f, a, c, e, g] by {
      assert ByDepth(t, 1, 2) == [b, f, a, c, e, g] by {
        assert Level(t, 1) == [b] + [f];
      }
      assert Level(t, 0) == [d];
    }
  }

  /** `test_empty_tree_behavior`: nothing found, sizes and lists empty, no extremes, valid. */
  method EmptyTreeTest() returns (found: bool, height: int, size: int, inorder: seq<int>,
                                  least: Option<int>, greatest: Option<int>, valid: bool)
    ensures !found && height == -1 && size == 0 && inorder == []
    ensures least == None && greatest == None && valid
  {
    var tree := new BinarySearchTree();
    found := tree.Search(10);
    height := HeightOf(tree.root);
    size := tree.Size();
    inorder := tree.ToListInorder();
    least := tree.FindMin(Nil);
    greatest := tree.FindMax(Nil);
    valid := tree.IsValidBst();
  }

  /** `test_single_element_tree`: 42 is both extremes of a valid tree of height 0. */
  method SingleElementTest() returns (found: bool, other: bool, height: int, size: int,
                                      least: Option<int>, greatest: Option<int>, valid: bool)
    ensures found && !other && height == 0 && size == 1
    ensures least == Some(42) && greatest == Some(42) && valid
  {
    var tree := new BinarySearchTree();
    tree.Insert(42);
    found := tree.Search(42);
    other := tree.Search(10);
    height := HeightOf(tree.root);
    size := tree.Size();
    least := tree.FindMin(Nil);
    greatest := tree.FindMax(Nil);
    valid := tree.IsValidBst();
  }

  /** `test_duplicate_values_handling`: repeated inserts are ignored. */
  method DuplicatesTest() returns (size: int, inorder: seq<int>)
    ensures size == 2 && inorder == [30, 50]
  {
    var tree := new BinarySearchTree();
    tree.Insert(50);
    tree.Insert(50);
    tree.Insert(30);
    tree.Insert(30);
    size := tree.Size();
    inorder := tree.ToListInorder();
  }

  /** `test_nonexistent_element_deletion`: removing an absent value changes nothing. */
  method AbsentDeletionTest() returns (size: int, inorder: seq<int>)
    ensures size == 3 && inorder == [30, 50, 70]
  {
    var tree := new BinarySearchTree();
    tree.Insert(50);
    tree.Insert(30);
    tree.Insert(70);
    assert tree.root == Node(Node(Nil, 30, Nil), 50, Node(Nil, 70, Nil));
    assert Inorder(tree.root) == [30, 50, 70];
    tree.Delete(100);
    assert tree.root == Node(Node(Nil, 30, Nil), 50, Node(Nil, 70, Nil));
    size := tree.Size();
    inorder := tree.ToListInorder();
  }
}
