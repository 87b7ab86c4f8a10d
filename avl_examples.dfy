/**
 * The concrete trees of the tree's own test scenarios, worked through with the model:
 * the seven-key example tree, the four-key insertion, the [1..6] split and merge, the
 * tampered height and the empty-tree cases.
 */
module AvlExamples {
  import opened AvlNodes
  import opened AvlProofs

  function Leaf(k: int): Tree { Node(k, 1, Nil, Nil) }

  /** The tree built by inserting 10, 20, 5, 6, 15, 30, 25 into an empty tree. */
  function ExampleTree(): Tree {
    Node(10, 4, Node(5, 2, Nil, Leaf(6)), Node(20, 3, Leaf(15), Node(30, 2, Leaf(25), Nil)))
  }

  lemma ExampleStep1() ensures InsertRec(Leaf(10), 20) == Node(10, 2, Nil, Leaf(20)) {}
  lemma ExampleStep2() ensures InsertRec(Node(10, 2, Nil, Leaf(20)), 5) == Node(10, 2, Leaf(5), Leaf(20)) {}
  lemma ExampleStep3()
    ensures InsertRec(Node(10, 2, Leaf(5), Leaf(20)), 6) == Node(10, 3, Node(5, 2, Nil, Leaf(6)), Leaf(20))
  {
    assert InsertRec(Leaf(5), 6) == Node(5, 2, Nil, Leaf(6));
  }
  lemma ExampleStep4()
    ensures InsertRec(Node(10, 3, Node(5, 2, Nil, Leaf(6)), Leaf(20)), 15)
         == Node(10, 3, Node(5, 2, Nil, Leaf(6)), Node(20, 2, Leaf(15), Nil))
  {
    assert InsertRec(Leaf(20), 15) == Node(20, 2, Leaf(15), Nil);
  }
  lemma ExampleStep5()
    ensures InsertRec(Node(10, 3, Node(5, 2, Nil, Leaf(6)), Node(20, 2, Leaf(15), Nil)), 30)
         == Node(10, 3, Node(5, 2, Nil, Leaf(6)), Node(20, 2, Leaf(15), Leaf(30)))
  {
    assert InsertRec(Node(20, 2, Leaf(15), Nil), 30) == Node(20, 2, Leaf(15), Leaf(30));
  }
  lemma ExampleStep6()
    ensures InsertRec(Node(10, 3, Node(5, 2, Nil, Leaf(6)), Node(20, 2, Leaf(15), Leaf(30))), 25) == ExampleTree()
  {
    assert InsertRec(Leaf(30), 25) == Node(30, 2, Leaf(25), Nil);
    assert InsertRec(Node(20, 2, Leaf(15), Leaf(30)), 25) == Node(20, 3, Leaf(15), Node(30, 2, Leaf(25), Nil));
  }

  /** Inserting 10, 20, 5, 6, 15, 30, 25 in turn into an empty tree gives `ExampleTree`. */
  lemma ExampleBuild()
    ensures InsertRec(InsertRec(InsertRec(InsertRec(InsertRec(InsertRec(InsertRec(
              Nil, 10), 20), 5), 6), 15), 30), 25) == ExampleTree()
  {
    assert InsertRec(Nil, 10) == Leaf(10);
    ExampleStep1();
    ExampleStep2();
    ExampleStep3();
    ExampleStep4();
    ExampleStep5();
    ExampleStep6();
  }

  // Facts about the example tree, one computation each.
  lemma ExampleInorder() ensures Inorder(ExampleTree()) == [5, 6, 10, 15, 20, 25, 30] {}
  lemma ExampleHeights() ensures HeightsConsistent(ExampleTree()) {}
  lemma ExampleBalanced() ensures Balanced(ExampleTree()) {}
  lemma ExampleIncreasing() ensures Increasing([5, 6, 10, 15, 20, 25, 30]) {}
  lemma ExampleCount() ensures CountNodesRec(ExampleTree()) == 7 {}
  lemma ExampleSearch() ensures SearchRec(ExampleTree(), 15) && !SearchRec(ExampleTree(), 100) {}

  /** The example tree lists its keys in order, is a valid AVL tree with seven nodes; 15 is found and 100 is not. */
  lemma ExampleFacts()
    ensures Inorder(ExampleTree()) == [5, 6, 10, 15, 20, 25, 30]
    ensures ValidAvl(ExampleTree())
    ensures CountNodesRec(ExampleTree()) == 7
    ensures SearchRec(ExampleTree(), 15) && !SearchRec(ExampleTree(), 100)
  {
    ExampleInorder();
    ExampleHeights();
    ExampleBalanced();
    ExampleIncreasing();
    ExampleCount();
    ExampleSearch();
    BstIffIncreasing(ExampleTree());
  }

  /** The example tree with the stored height of the root's left child set to 1000. */
  function TamperedTree(): Tree {
    Node(10, 4, Node(5, 1000, Nil, Leaf(6)), Node(20, 3, Leaf(15), Node(30, 2, Leaf(25), Nil)))
  }

  /** The tampered tree keeps its keys and order but fails the balance check. */
  lemma TamperedHeightFails()
    ensures Inorder(TamperedTree()) == Inorder(ExampleTree())
    ensures !Balanced(TamperedTree())
  {
    ExampleInorder();
    assert Inorder(TamperedTree()) == [5, 6, 10, 15, 20, 25, 30];
  }

  /** A wrong stored height on a leaf goes unnoticed: only the children's stored heights are compared. */
  lemma LeafHeightNotChecked()
    ensures Balanced(Node(7, 1000, Nil, Nil)) && !HeightsConsistent(Node(7, 1000, Nil, Nil))
  {
  }

  // Deleting 20, then (from the example tree again) 10 and 5, one step each.
  lemma DeleteStep20Inner() ensures DeleteRec(Node(30, 2, Leaf(25), Nil), 25) == Leaf(30) {}
  lemma DeleteStep20Right()
    ensures DeleteRec(Node(20, 3, Leaf(15), Node(30, 2, Leaf(25), Nil)), 20) == Node(25, 2, Leaf(15), Leaf(30))
  {
    DeleteStep20Inner();
  }
  lemma DeleteStep20() ensures DeleteRec(ExampleTree(), 20) == Node(10, 3, Node(5, 2, Nil, Leaf(6)), Node(25, 2, Leaf(15), Leaf(30)))
  {
    DeleteStep20Right();
  }
  lemma DeleteStep10Inner()
    ensures DeleteRec(Node(20, 3, Leaf(15), Node(30, 2, Leaf(25), Nil)), 15) == Node(25, 2, Leaf(20), Leaf(30))
  {}
  lemma DeleteStep10() ensures DeleteRec(ExampleTree(), 10) == Node(15, 3, Node(5, 2, Nil, Leaf(6)), Node(25, 2, Leaf(20), Leaf(30)))
  {
    DeleteStep10Inner();
  }
  lemma DeleteStep5()
    ensures DeleteRec(Node(15, 3, Node(5, 2, Nil, Leaf(6)), Node(25, 2, Leaf(20), Leaf(30))), 5)
         == Node(15, 3, Leaf(6), Node(25, 2, Leaf(20), Leaf(30)))
  {}

  function WithoutTwenty(): Tree { Node(10, 3, Node(5, 2, Nil, Leaf(6)), Node(25, 2, Leaf(15), Leaf(30))) }

  lemma WithoutTwentyInorder() ensures Inorder(WithoutTwenty()) == [5, 6, 10, 15, 25, 30] {}
  lemma WithoutTwentyIncreasing() ensures Increasing([5, 6, 10, 15, 25, 30]) {}
  lemma WithoutTwentyHeights() ensures HeightsConsistent(WithoutTwenty()) {
    ExampleHeights();
    ExampleBalanced();
    DeleteAvl(ExampleTree(), 20);
    DeleteStep20();
  }
  lemma WithoutTwentyBalanced() ensures Balanced(WithoutTwenty()) {}
  lemma WithoutTwentySearch() ensures !SearchRec(WithoutTwenty(), 20) {}

  /** Deleting 20 leaves a valid tree of six nodes in which 20 is not found; deleting 10 and then 5 leaves five. */
  lemma ExampleDeletions()
    ensures DeleteRec(ExampleTree(), 20) == WithoutTwenty()
    ensures ValidAvl(WithoutTwenty()) && !SearchRec(WithoutTwenty(), 20)
    ensures CountNodesRec(WithoutTwenty()) == 6
    ensures CountNodesRec(DeleteRec(DeleteRec(ExampleTree(), 10), 5)) == 5
  {
    DeleteStep20();
    WithoutTwentyInorder();
    WithoutTwentyIncreasing();
    WithoutTwentyHeights();
    WithoutTwentyBalanced();
    WithoutTwentySearch();
    BstIffIncreasing(WithoutTwenty());
    WithoutTwentyCount();
    DeleteTenFiveCount();
  }

  lemma WithoutTwentyCount() ensures CountNodesRec(WithoutTwenty()) == 6 {}
  lemma DeleteTenFiveCount() ensures CountNodesRec(DeleteRec(DeleteRec(ExampleTree(), 10), 5)) == 5 {
    DeleteStep10();
    DeleteStep5();
    assert CountNodesRec(Node(15, 3, Leaf(6), Node(25, 2, Leaf(20), Leaf(30)))) == 5;
  }

  // Inserting 10, 5, 20, 15, one step each.
  lemma FourStep1() ensures InsertRec(Nil, 10) == Leaf(10) {}
  lemma FourStep2() ensures InsertRec(Leaf(10), 5) == Node(10, 2, Leaf(5), Nil) {}
  lemma FourStep3() ensures InsertRec(Node(10, 2, Leaf(5), Nil), 20) == Node(10, 2, Leaf(5), Leaf(20)) {}
  lemma FourStep4()
    ensures InsertRec(Node(10, 2, Leaf(5), Leaf(20)), 15) == Node(10, 3, Leaf(5), Node(20, 2, Leaf(15), Nil))
  {}

  function FourTree(): Tree { Node(10, 3, Leaf(5), Node(20, 2, Leaf(15), Nil)) }

  lemma FourInorder() ensures Inorder(FourTree()) == [5, 10, 15, 20] {}
  lemma FourIncreasing() ensures Increasing([5, 10, 15, 20]) {}
  lemma FourHeights() ensures HeightsConsistent(FourTree()) {}
  lemma FourBalanced() ensures Balanced(FourTree()) {}

  /** Inserting 10, 5, 20, 15 gives the keys [5, 10, 15, 20] in a valid AVL tree. */
  lemma FourKeyInsertion()
    ensures InsertRec(InsertRec(InsertRec(InsertRec(Nil, 10), 5), 20), 15) == FourTree()
    ensures Inorder(FourTree()) == [5, 10, 15, 20]
    ensures ValidAvl(FourTree())
  {
    FourStep1();
    FourStep2();
    FourStep3();
    FourStep4();
    FourInorder();
    FourIncreasing();
    FourHeights();
    FourBalanced();
    BstIffIncreasing(FourTree());
  }

  /** The tree built by inserting 1, 2, 3, 4, 5, 6 into an empty tree. */
  function SixTree(): Tree {
    Node(4, 3, Node(2, 2, Leaf(1), Leaf(3)), Node(5, 2, Nil, Leaf(6)))
  }

  lemma SixStep1() ensures InsertRec(Nil, 1) == Leaf(1) {}
  lemma SixStep2() ensures InsertRec(Leaf(1), 2) == Node(1, 2, Nil, Leaf(2)) {}
  lemma SixStep3() ensures InsertRec(Node(1, 2, Nil, Leaf(2)), 3) == Node(2, 2, Leaf(1), Leaf(3)) {}
  lemma SixStep4()
    ensures InsertRec(Node(2, 2, Leaf(1), Leaf(3)), 4) == Node(2, 3, Leaf(1), Node(3, 2, Nil, Leaf(4)))
  {}
  lemma SixStep5Inner() ensures InsertRec(Node(3, 2, Nil, Leaf(4)), 5) == Node(4, 2, Leaf(3), Leaf(5)) {}
  lemma SixStep5()
    ensures InsertRec(Node(2, 3, Leaf(1), Node(3, 2, Nil, Leaf(4))), 5) == Node(2, 3, Leaf(1), Node(4, 2, Leaf(3), Leaf(5)))
  {
    SixStep5Inner();
  }
  lemma SixStep6Inner() ensures InsertRec(Node(4, 2, Leaf(3), Leaf(5)), 6) == Node(4, 3, Leaf(3), Node(5, 2, Nil, Leaf(6))) {}
  lemma SixStep6() ensures InsertRec(Node(2, 3, Leaf(1), Node(4, 2, Leaf(3), Leaf(5))), 6) == SixTree() {
    SixStep6Inner();
  }

  /** Inserting 1, 2, 3, 4, 5, 6 in turn into an empty tree gives `SixTree`. */
  lemma SixBuild()
    ensures InsertRec(InsertRec(InsertRec(InsertRec(InsertRec(InsertRec(Nil, 1), 2), 3), 4), 5), 6) == SixTree()
  {
    SixStep1();
    SixStep2();
    SixStep3();
    SixStep4();
    SixStep5();
    SixStep6();
  }

  function LowTree(): Tree { Node(2, 2, Leaf(1), Leaf(3)) }
  function HighTree(): Tree { Node(5, 2, Leaf(4), Leaf(6)) }
  function MergedTree(): Tree { Node(3, 3, Node(2, 2, Leaf(1), Nil), HighTree()) }

  lemma SplitSixLeaf() ensures SplitRec(Leaf(3), 3) == (Leaf(3), Nil) {}
  lemma SplitSixLeft() ensures SplitRec(LowTree(), 3) == (LowTree(), Nil) { SplitSixLeaf(); }
  lemma SplitSixRoot() ensures BalanceNode(Node(4, 3, Nil, Node(5, 2, Nil, Leaf(6)))) == HighTree() {}
  lemma SplitSix() ensures SplitRec(SixTree(), 3) == (LowTree(), HighTree()) {
    SplitSixLeft();
    SplitSixRoot();
  }
  lemma LowAndHighInorder() ensures Inorder(LowTree()) == [1, 2, 3] && Inorder(HighTree()) == [4, 5, 6] {}
  lemma MaxOfLow() ensures RightmostNode(LowTree()).key == 3 {}
  lemma DeleteMaxOfLow() ensures DeleteRec(LowTree(), 3) == Node(2, 2, Leaf(1), Nil) {}
  lemma BalanceMergedRoot() ensures BalanceNode(Node(3, 1, Node(2, 2, Leaf(1), Nil), HighTree())) == MergedTree() {}
  lemma MergedInorder() ensures Inorder(MergedTree()) == [1, 2, 3, 4, 5, 6] {}
  lemma SixIncreasing() ensures Increasing([1, 2, 3, 4, 5, 6]) {}
  lemma LowRestHeights() ensures HeightsConsistent(Node(2, 2, Leaf(1), Nil)) {}
  lemma LowRestBalanced() ensures Balanced(Node(2, 2, Leaf(1), Nil)) {}
  lemma HighHeights() ensures HeightsConsistent(HighTree()) {}
  lemma HighBalanced() ensures Balanced(HighTree()) {}
  lemma MergedHeights() ensures HeightsConsistent(MergedTree()) {
    LowRestHeights();
    LowRestBalanced();
    HighHeights();
    HighBalanced();
    BalanceNodeAvl(Node(3, 1, Node(2, 2, Leaf(1), Nil), HighTree()));
    BalanceMergedRoot();
  }
  lemma MergedBalanced() ensures Balanced(MergedTree()) {}

  /** Splitting the six-key tree at 3 gives [1, 2, 3] and [4, 5, 6]; merging them back gives a valid tree of all six. */
  lemma SixSplitMerge()
    ensures SplitRec(SixTree(), 3) == (LowTree(), HighTree())
    ensures Inorder(LowTree()) == [1, 2, 3] && Inorder(HighTree()) == [4, 5, 6]
    ensures MergeRoots(LowTree(), HighTree()) == MergedTree()
    ensures Inorder(MergedTree()) == [1, 2, 3, 4, 5, 6]
    ensures ValidAvl(MergedTree())
  {
    SplitSix();
    LowAndHighInorder();
    MaxOfLow();
    DeleteMaxOfLow();
    BalanceMergedRoot();
    MergedInorder();
    SixIncreasing();
    MergedHeights();
    MergedBalanced();
    BstIffIncreasing(MergedTree());
  }

  /** Merging an empty tree with the one-key tree gives that tree; the empty tree splits into two empty trees. */
  lemma EmptyCases()
    ensures MergeRoots(Nil, Leaf(5)) == Leaf(5) && Inorder(Leaf(5)) == [5]
    ensures SplitRec(Nil, 10) == (Nil, Nil)
    ensures DeleteRec(Nil, 10) == Nil && CountNodesRec(Nil) == 0 && !SearchRec(Nil, 10)
    ensures ValidAvl(Nil)
  {
  }
}
