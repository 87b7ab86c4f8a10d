/**
 * The `AVLTree` object: a mutable holder of the root subtree. Each public operation
 * reassigns `root` to the subtree its recursive helper returns; the cursor walks of
 * `_get_min_node` / `_get_max_node`, the accumulating in-order traversal and the index
 * loop of `validate_avl` are written as the loops and recursion the tree uses.
 */
module AVL {
  import opened AvlNodes
  import opened AvlProofs

  /** The outcome of `insert`: done, or the `ValueError` raised for a key that is not > 0. */
  datatype InsertOutcome = Inserted | InvalidKey

  class AVLTree {
    var root: Tree

    constructor ()
      ensures root == Nil
    {
      root := Nil;
    }

    /** `search`: on a BST, true exactly when the key is stored; false on an empty tree. */
    method Search(key: int) returns (found: bool)
      ensures found == SearchRec(root, key)
      ensures Bst(root) ==> (found <==> key in Inorder(root))
      ensures root == Nil ==> !found
    {
      found := SearchRec(root, key);
      if Bst(root) {
        SearchCorrect(root, key);
      }
    }

    /**
     * `insert`: a key <= 0 is rejected before anything changes; otherwise the root is
     * replaced by the rebalanced tree, which on a valid AVL tree is again valid and
     * holds one more key (none more when the key was already there).
     */
    method Insert(key: int) returns (outcome: InsertOutcome)
      modifies this
      ensures outcome == InvalidKey <==> key <= 0
      ensures outcome == InvalidKey ==> root == old(root)
      ensures outcome == Inserted ==> root == InsertRec(old(root), key)
      ensures outcome == Inserted && ValidAvl(old(root)) ==>
                && ValidAvl(root)
                && Keys(root) == Keys(old(root)) + {key}
                && Increasing(Inorder(root))
                && Height(old(root)) <= Height(root) <= Height(old(root)) + 1
      ensures outcome == Inserted && ValidAvl(old(root)) && key in Keys(old(root)) ==> root == old(root)
    {
      if key <= 0 {
        return InvalidKey;
      }
      ghost var before := root;
      root := InsertRec(root, key);
      if ValidAvl(before) {
        InsertValid(before, key);
        InsertAvl(before, key);
        if key in Keys(before) {
          InsertPresent(before, key);
        }
      }
      return Inserted;
    }

    /**
     * `delete`: on a valid AVL tree the result is valid, has the key removed and one
     * node fewer when it was present; an absent key or an empty tree changes nothing.
     */
    method Delete(key: int)
      modifies this
      ensures root == DeleteRec(old(root), key)
      ensures old(root) == Nil ==> root == Nil
      ensures ValidAvl(old(root)) ==>
                && ValidAvl(root)
                && Keys(root) == Keys(old(root)) - {key}
                && CountNodesRec(root) == CountNodesRec(old(root)) - (if key in Keys(old(root)) then 1 else 0)
                && Inorder(root) == Without(Inorder(old(root)), key)
      ensures ValidAvl(old(root)) && key !in Keys(old(root)) ==> root == old(root)
    {
      ghost var before := root;
      root := DeleteRec(root, key);
      if ValidAvl(before) {
        DeleteValid(before, key);
        DeleteInorder(before, key);
        if key !in Keys(before) {
          DeleteAbsent(before, key);
        }
      }
    }

    /**
     * `split`: two new trees; on a BST the first holds the keys <= pivot and the second
     * the keys > pivot, and their in-order sequences concatenate to this tree's. This
     * tree's own root is left as it was: nodes are values here, so the relinking of the
     * shared nodes that leaves the source's root pointing into one of the parts is not
     * modelled.
     */
    method Split(pivot: int) returns (t1: AVLTree, t2: AVLTree)
      ensures fresh(t1) && fresh(t2) && t1 != t2
      ensures (t1.root, t2.root) == SplitRec(root, pivot)
      ensures Inorder(t1.root) + Inorder(t2.root) == Inorder(root)
      ensures root == Nil ==> t1.root == Nil && t2.root == Nil
      ensures Bst(root) ==>
                && (forall x :: x in Keys(t1.root) ==> x <= pivot)
                && (forall x :: x in Keys(t2.root) ==> x > pivot)
                && Keys(t1.root) + Keys(t2.root) == Keys(root)
                && Bst(t1.root) && Bst(t2.root)
    {
      t1 := new AVLTree();
      t2 := new AVLTree();
      var parts := SplitRec(root, pivot);
      t1.root, t2.root := parts.0, parts.1;
      SplitInorder(root, pivot);
      if Bst(root) {
        SplitPartition(root, pivot);
      }
    }

    /**
     * `merge`: an empty first tree yields the second object and an empty second tree the
     * first; otherwise the maximum of the first tree is removed from it (its root is
     * reassigned) and becomes the root of a new tree over both roots. On a BST first
     * tree the result's in-order is the concatenation, increasing when every key of the
     * first tree is below every key of the second. The first tree's new root is the one
     * the deletion of its maximum leaves; later relinking of those shared nodes by the
     * final balancing, which can also change what the second tree lists, is not modelled.
     */
    static method Merge(t1: AVLTree, t2: AVLTree) returns (merged: AVLTree)
      modifies t1
      ensures old(t1.root) == Nil ==> merged == t2 && t1.root == old(t1.root)
      ensures old(t1.root) != Nil && old(t2.root) == Nil ==> merged == t1 && t1.root == old(t1.root)
      ensures old(t1.root) != Nil && old(t2.root) != Nil ==>
                && fresh(merged)
                && t1.root == DeleteRec(old(t1.root), RightmostNode(old(t1.root)).key)
      ensures t1 != t2 ==> merged.root == MergeRoots(old(t1.root), old(t2.root))
      ensures t1 != t2 && Bst(old(t1.root)) ==>
                Inorder(merged.root) == Inorder(old(t1.root)) + Inorder(old(t2.root))
      ensures t1 != t2 && Bst(old(t1.root)) && Bst(old(t2.root))
                && (forall a, b :: a in Keys(old(t1.root)) && b in Keys(old(t2.root)) ==> a < b) ==>
                  && Increasing(Inorder(merged.root))
                  && Keys(merged.root) == Keys(old(t1.root)) + Keys(old(t2.root))
    {
      if t1.root == Nil {
        BstIffIncreasing(t2.root);
        return t2;
      }
      if t2.root == Nil {
        BstIffIncreasing(t1.root);
        return t1;
      }
      ghost var left, right := t1.root, t2.root;
      var maxNode := GetMaxNode(t1.root);
      var maxKey := maxNode.key;
      t1.root := DeleteRec(t1.root, maxKey);
      var newRoot := Node(maxKey, 1, t1.root, t2.root);
      merged := new AVLTree();
      merged.root := BalanceNode(newRoot);
      if t1 != t2 {
        if Bst(left) {
          MergeInorder(left, right);
          if Bst(right) && (forall a, b :: a in Keys(left) && b in Keys(right) ==> a < b) {
            MergeOrdered(left, right);
          }
        }
      }
    }

    /** `_get_min_node`: walk left links; on a BST the node reached holds the smallest key. */
    static method GetMinNode(node: Tree) returns (current: Tree)
      requires node.Node?
      ensures current == LeftmostNode(node)
      ensures current.Node? && current.left.Nil? && current.key in Keys(node)
      ensures Bst(node) ==> forall x :: x in Keys(node) ==> current.key <= x
    {
      current := node;
      while current.left.Node?
        invariant current.Node? && LeftmostNode(current) == LeftmostNode(node)
        decreases current
      {
        current := current.left;
      }
      LeftmostInKeys(node);
      if Bst(node) {
        LeftmostIsMin(node);
      }
    }

    /** `_get_max_node`: walk right links; on a BST the node reached holds the largest key. */
    static method GetMaxNode(node: Tree) returns (current: Tree)
      requires node.Node?
      ensures current == RightmostNode(node)
      ensures current.Node? && current.right.Nil? && current.key in Keys(node)
      ensures Bst(node) ==> forall x :: x in Keys(node) ==> x <= current.key
    {
      current := node;
      while current.right.Node?
        invariant current.Node? && RightmostNode(current) == RightmostNode(node)
        decreases current
      {
        current := current.right;
      }
      RightmostInKeys(node);
      if Bst(node) {
        RightmostIsMax(node);
      }
    }

    /** `count_nodes`: the number of keys the in-order traversal lists. */
    method CountNodes() returns (n: nat)
      ensures n == |Inorder(root)|
      ensures Bst(root) ==> n == |Keys(root)|
      ensures root == Nil ==> n == 0
    {
      n := CountNodesRec(root);
      CountIsInorderLength(root);
    }

    /** `inorder_traversal`: the keys in symmetric order, increasing on a BST. */
    method InorderTraversal() returns (keys: seq<int>)
      ensures keys == Inorder(root)
      ensures Bst(root) ==> Increasing(keys)
      ensures forall x :: x in keys <==> x in Keys(root)
    {
      keys := InorderInto(root, []);
      BstIffIncreasing(root);
      InorderKeys(root);
    }

    /** `_inorder_traversal_recursive`: appends the subtree's keys, left to right, to `result`. */
    static method InorderInto(node: Tree, result: seq<int>) returns (extended: seq<int>)
      ensures extended == result + Inorder(node)
      decreases node
    {
      extended := result;
      if node.Node? {
        extended := InorderInto(node.left, extended);
        extended := extended + [node.key];
        extended := InorderInto(node.right, extended);
      }
    }

    /**
     * `validate_avl`: neighbours of the in-order sequence are compared, then every
     * stored balance factor is checked. True exactly when the tree is a BST whose
     * stored heights give a balance factor in [-1, 1] everywhere.
     */
    method ValidateAvl() returns (ok: bool)
      ensures ok == (Increasing(Inorder(root)) && Balanced(root))
      ensures ok == (Bst(root) && Balanced(root))
      ensures ValidAvl(root) ==> ok
      ensures root == Nil ==> ok
    {
      BstIffIncreasing(root);
      var keys := InorderTraversal();
      var i := 0;
      while i + 1 < |keys|
        invariant 0 <= i && (i == 0 || i < |keys|)
        invariant forall j :: 0 <= j < i ==> keys[j] < keys[j + 1]
      {
        if keys[i] >= keys[i + 1] {
          return false;
        }
        i := i + 1;
      }
      AdjacentIncreasing(keys);
      ok := Balanced(root);
    }
  }
}
