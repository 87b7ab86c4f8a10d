/**
 * What the recursive helpers of the AVL tree guarantee: search against the in-order
 * sequence, the three structural invariants after insert and delete, the local effect
 * of balancing, and the partition and concatenation laws of split and merge.
 */
module AvlProofs {
  import opened AvlNodes

  // ---------- keys, order and the in-order sequence ----------

  lemma {:induction false} InorderKeys(t: Tree)
    ensures forall x :: x in Inorder(t) <==> x in Keys(t)
  {
    match t
    case Nil =>
    case Node(_, _, l, r) => InorderKeys(l); InorderKeys(r);
  }

  lemma {:induction false} IncreasingJoin(a: seq<int>, k: int, b: seq<int>)
    ensures Increasing(a + [k] + b) <==>
            Increasing(a) && Increasing(b) && (forall x :: x in a ==> x < k) && (forall x :: x in b ==> k < x)
  {
    var s := a + [k] + b;
    if Increasing(s) {
      forall i, j | 0 <= i < j < |a| ensures a[i] < a[j] { assert a[i] == s[i] && a[j] == s[j]; }
      forall i, j | 0 <= i < j < |b| ensures b[i] < b[j] { assert b[i] == s[|a| + 1 + i] && b[j] == s[|a| + 1 + j]; }
      forall x | x in a ensures x < k { var i :| 0 <= i < |a| && a[i] == x; assert s[i] == x && s[|a|] == k; }
      forall x | x in b ensures k < x { var i :| 0 <= i < |b| && b[i] == x; assert s[|a| + 1 + i] == x && s[|a|] == k; }
    }
    if Increasing(a) && Increasing(b) && (forall x :: x in a ==> x < k) && (forall x :: x in b ==> k < x) {
      forall i, j | 0 <= i < j < |s| ensures s[i] < s[j] {
        if j < |a| {
          assert s[i] == a[i] && s[j] == a[j];
        } else if i > |a| {
          assert s[i] == b[i - |a| - 1] && s[j] == b[j - |a| - 1];
        } else {
          assert i < |a| ==> s[i] == a[i] && s[i] in a;
          assert j > |a| ==> s[j] == b[j - |a| - 1] && s[j] in b;
        }
      }
    }
  }

  /** The ordering invariant I1 holds exactly when the in-order sequence strictly increases. */
  lemma {:induction false} BstIffIncreasing(t: Tree)
    ensures Bst(t) <==> Increasing(Inorder(t))
  {
    match t
    case Nil =>
    case Node(k, _, l, r) =>
      BstIffIncreasing(l);
      BstIffIncreasing(r);
      InorderKeys(l);
      InorderKeys(r);
      IncreasingJoin(Inorder(l), k, Inorder(r));
  }

  lemma {:induction false} SameInorderBst(a: Tree, b: Tree)
    requires Inorder(a) == Inorder(b)
    ensures Bst(a) <==> Bst(b)
  {
    BstIffIncreasing(a);
    BstIffIncreasing(b);
  }

  /** `_search_recursive` finds exactly the keys of the in-order sequence of a BST. */
  lemma {:induction false} SearchCorrect(t: Tree, key: int)
    requires Bst(t)
    ensures SearchRec(t, key) <==> key in Inorder(t)
  {
    InorderKeys(t);
    match t
    case Nil =>
    case Node(k, _, l, r) =>
      SearchCorrect(l, key);
      SearchCorrect(r, key);
      InorderKeys(l);
      InorderKeys(r);
  }

  /** `count_nodes` is the length of `inorder_traversal`; the in-order sequence lists every node once. */
  lemma {:induction false} CountIsInorderLength(t: Tree)
    ensures CountNodesRec(t) == |Inorder(t)|
    ensures Bst(t) ==> |Keys(t)| == CountNodesRec(t)
  {
    match t
    case Nil =>
    case Node(k, _, l, r) =>
      CountIsInorderLength(l);
      CountIsInorderLength(r);
      if Bst(t) {
        assert Keys(l) !! Keys(r) by {
          forall x | x in Keys(l) ensures x !in Keys(r) { assert x < k; }
        }
        assert k !in Keys(l) + Keys(r);
        assert |Keys(l) + Keys(r)| == |Keys(l)| + |Keys(r)|;
        assert Keys(t) == (Keys(l) + Keys(r)) + {k};
      }
  }

  /** With consistent height fields, the stored height is the height of the shape. */
  lemma {:induction false} ConsistentHeightIsShapeHeight(t: Tree)
    requires HeightsConsistent(t)
    ensures Height(t) == ShapeHeight(t)
  {
    match t
    case Nil =>
    case Node(_, _, l, r) =>
      ConsistentHeightIsShapeHeight(l);
      ConsistentHeightIsShapeHeight(r);
  }

  // ---------- balancing ----------

  /** On a node that is already consistent and balanced, `balance_node` changes nothing. */
  lemma {:induction false} BalanceNodeIdentity(t: Tree)
    requires t.Node? && t.height == Max(Height(t.left), Height(t.right)) + 1
    requires -1 <= BalanceFactor(t) <= 1
    ensures BalanceNode(t) == t
  {
  }

  ghost predicate Avl(t: Tree) {
    HeightsConsistent(t) && Balanced(t)
  }

  /** Trees with the same in-order sequence hold the same keys. */
  lemma {:induction false} SameInorderKeys(a: Tree, b: Tree)
    requires Inorder(a) == Inorder(b)
    ensures Keys(a) == Keys(b)
  {
    InorderKeys(a);
    InorderKeys(b);
    forall x ensures x in Keys(a) <==> x in Keys(b) {
      assert x in Keys(a) <==> x in Inorder(a);
    }
  }

  /**
   * `rotate_right` keeps the in-order sequence, and recomputing the two moved nodes'
   * heights (the old root first) makes them consistent when the subtrees were.
   */
  lemma {:induction false} RotateRightPreserves(y: Tree)
    requires y.Node? && y.left.Node?
    ensures Inorder(RotateRight(y)) == Inorder(y)
    ensures HeightsConsistent(y.left) && HeightsConsistent(y.right) ==> HeightsConsistent(RotateRight(y))
  {
    var x := y.left;
    var newY := UpdateHeight(y.(left := x.right));
    assert RotateRight(y) == UpdateHeight(x.(right := newY));
    assert Inorder(newY) == Inorder(x.right) + [y.key] + Inorder(y.right);
    assert Inorder(RotateRight(y)) == Inorder(x.left) + [x.key] + (Inorder(x.right) + [y.key] + Inorder(y.right));
  }

  /** `rotate_left`, the mirror image of `rotate_right`. */
  lemma {:induction false} RotateLeftPreserves(x: Tree)
    requires x.Node? && x.right.Node?
    ensures Inorder(RotateLeft(x)) == Inorder(x)
    ensures HeightsConsistent(x.left) && HeightsConsistent(x.right) ==> HeightsConsistent(RotateLeft(x))
  {
    var y := x.right;
    var newX := UpdateHeight(x.(right := y.left));
    assert RotateLeft(x) == UpdateHeight(y.(left := newX));
    assert Inorder(newX) == Inorder(x.left) + [x.key] + Inorder(y.left);
    assert Inorder(RotateLeft(x)) == (Inorder(x.left) + [x.key] + Inorder(y.left)) + [y.key] + Inorder(y.right);
  }

  /**
   * `balance_node` keeps the in-order sequence (so the keys and the ordering), and its
   * result has consistent heights whenever the node's two subtrees had.
   */
  lemma {:induction false} BalanceNodePreserves(t: Tree)
    requires t.Node?
    ensures Inorder(BalanceNode(t)) == Inorder(t)
    ensures Keys(BalanceNode(t)) == Keys(t)
    ensures HeightsConsistent(t.left) && HeightsConsistent(t.right) ==> HeightsConsistent(BalanceNode(t))
  {
    var n := UpdateHeight(t);
    if BalanceFactor(n) > 1 {
      var n' := if BalanceFactor(n.left) < 0 then n.(left := RotateLeft(n.left)) else n;
      if BalanceFactor(n.left) < 0 {
        RotateLeftPreserves(n.left);
      }
      RotateRightPreserves(n');
      assert BalanceNode(t) == RotateRight(n');
    } else if BalanceFactor(n) < -1 {
      var n' := if BalanceFactor(n.right) > 0 then n.(right := RotateRight(n.right)) else n;
      if BalanceFactor(n.right) > 0 {
        RotateRightPreserves(n.right);
      }
      RotateLeftPreserves(n');
      assert BalanceNode(t) == RotateLeft(n');
    }
    SameInorderKeys(BalanceNode(t), t);
  }

  lemma {:induction false} RightRotationRestores(t: Tree)
    requires t.Node? && t.left.Node? && Avl(t.left) && Avl(t.right)
    requires Height(t.left) == Height(t.right) + 2
    ensures Avl(BalanceNode(t))
    ensures Height(t.left) <= Height(BalanceNode(t)) <= Height(t.left) + 1
  {
    BalanceNodePreserves(t);
    var n := UpdateHeight(t);
    if BalanceFactor(n.left) < 0 {
      assert BalanceNode(t) == RotateRight(n.(left := RotateLeft(n.left)));
      LeftRightCase(n);
    } else {
      assert BalanceNode(t) == RotateRight(n);
      LeftLeftCase(n);
    }
  }

  /** LL case: one right rotation of a left-heavy node whose left child is not right-heavy. */
  lemma {:induction false} LeftLeftCase(n: Tree)
    requires n.Node? && n.left.Node? && Avl(n.left) && Avl(n.right)
    requires Height(n.left) == Height(n.right) + 2 && BalanceFactor(n.left) >= 0
    requires HeightsConsistent(RotateRight(n))
    ensures Balanced(RotateRight(n))
    ensures Height(n.left) <= Height(RotateRight(n)) <= Height(n.left) + 1
  {
    var x := n.left;
    var newY := UpdateHeight(n.(left := x.right));
    assert RotateRight(n) == UpdateHeight(x.(right := newY));
    assert Balanced(x.left) && Balanced(x.right);
    assert Balanced(newY);
  }

  /** LR case: a left rotation of the right-heavy left child, then a right rotation. */
  lemma {:induction false} LeftRightCase(n: Tree)
    requires n.Node? && n.left.Node? && Avl(n.left) && Avl(n.right)
    requires Height(n.left) == Height(n.right) + 2 && BalanceFactor(n.left) < 0
    requires HeightsConsistent(RotateRight(n.(left := RotateLeft(n.left))))
    ensures Balanced(RotateRight(n.(left := RotateLeft(n.left))))
    ensures Height(n.left) <= Height(RotateRight(n.(left := RotateLeft(n.left)))) <= Height(n.left) + 1
  {
    var a := n.left;
    var b := a.right;
    assert Balanced(a.left) && Balanced(b);
    assert Balanced(b.left) && Balanced(b.right);
    assert HeightsConsistent(b) && b.height == Max(Height(b.left), Height(b.right)) + 1;
    assert Height(a.left) == Height(n.right) && Height(b) == Height(n.right) + 1;
    var newA := UpdateHeight(a.(right := b.left));
    assert RotateLeft(a) == UpdateHeight(b.(left := newA));
    var newN := UpdateHeight(n.(left := b.right));
    assert RotateRight(n.(left := RotateLeft(a))) == UpdateHeight(RotateLeft(a).(right := newN));
    assert Balanced(newA) && Balanced(newN);
  }

  lemma {:induction false} LeftRotationRestores(t: Tree)
    requires t.Node? && t.right.Node? && Avl(t.left) && Avl(t.right)
    requires Height(t.right) == Height(t.left) + 2
    ensures Avl(BalanceNode(t))
    ensures Height(t.right) <= Height(BalanceNode(t)) <= Height(t.right) + 1
  {
    BalanceNodePreserves(t);
    var n := UpdateHeight(t);
    if BalanceFactor(n.right) > 0 {
      assert BalanceNode(t) == RotateLeft(n.(right := RotateRight(n.right)));
      RightLeftCase(n);
    } else {
      assert BalanceNode(t) == RotateLeft(n);
      RightRightCase(n);
    }
  }

  /** RR case: one left rotation of a right-heavy node whose right child is not left-heavy. */
  lemma {:induction false} RightRightCase(n: Tree)
    requires n.Node? && n.right.Node? && Avl(n.left) && Avl(n.right)
    requires Height(n.right) == Height(n.left) + 2 && BalanceFactor(n.right) <= 0
    requires HeightsConsistent(RotateLeft(n))
    ensures Balanced(RotateLeft(n))
    ensures Height(n.right) <= Height(RotateLeft(n)) <= Height(n.right) + 1
  {
    var y := n.right;
    var newX := UpdateHeight(n.(right := y.left));
    assert RotateLeft(n) == UpdateHeight(y.(left := newX));
    assert Balanced(y.left) && Balanced(y.right);
    assert Balanced(newX);
  }

  /** RL case: a right rotation of the left-heavy right child, then a left rotation. */
  lemma {:induction false} RightLeftCase(n: Tree)
    requires n.Node? && n.right.Node? && Avl(n.left) && Avl(n.right)
    requires Height(n.right) == Height(n.left) + 2 && BalanceFactor(n.right) > 0
    requires HeightsConsistent(RotateLeft(n.(right := RotateRight(n.right))))
    ensures Balanced(RotateLeft(n.(right := RotateRight(n.right))))
    ensures Height(n.right) <= Height(RotateLeft(n.(right := RotateRight(n.right)))) <= Height(n.right) + 1
  {
    var a := n.right;
    var b := a.left;
    assert Balanced(a.right) && Balanced(b);
    assert Balanced(b.left) && Balanced(b.right);
    assert HeightsConsistent(b) && b.height == Max(Height(b.left), Height(b.right)) + 1;
    assert Height(a.right) == Height(n.left) && Height(b) == Height(n.left) + 1;
    var newA := UpdateHeight(a.(left := b.right));
    assert RotateRight(a) == UpdateHeight(b.(right := newA));
    var newN := UpdateHeight(n.(right := b.left));
    assert RotateLeft(n.(right := RotateRight(a))) == UpdateHeight(RotateRight(a).(left := newN));
    assert Balanced(newA) && Balanced(newN);
  }

  /**
   * Given AVL children whose stored heights differ by at most 2, `balance_node`
   * yields an AVL subtree whose height is the larger child height plus 0 or 1
   * (exactly plus 1 when no rotation is needed).
   */
  lemma {:induction false} BalanceNodeAvl(t: Tree)
    requires t.Node? && Avl(t.left) && Avl(t.right)
    requires -2 <= Height(t.left) - Height(t.right) <= 2
    ensures Avl(BalanceNode(t))
    ensures Max(Height(t.left), Height(t.right)) <= Height(BalanceNode(t)) <= Max(Height(t.left), Height(t.right)) + 1
    ensures -1 <= Height(t.left) - Height(t.right) <= 1 ==>
              Height(BalanceNode(t)) == Max(Height(t.left), Height(t.right)) + 1
  {
    BalanceNodePreserves(t);
    if Height(t.left) == Height(t.right) + 2 {
      RightRotationRestores(t);
    } else if Height(t.right) == Height(t.left) + 2 {
      LeftRotationRestores(t);
    }
  }

  // ---------- insert ----------

  /** Insertion keeps I2 and I3 and grows the height by at most one. */
  lemma {:induction false} InsertAvl(t: Tree, key: int)
    requires Avl(t)
    ensures Avl(InsertRec(t, key))
    ensures Height(t) <= Height(InsertRec(t, key)) <= Height(t) + 1
  {
    match t
    case Nil =>
    case Node(k, _, l, r) =>
      if key < k {
        InsertAvl(l, key);
        BalanceNodeAvl(t.(left := InsertRec(l, key)));
      } else if key > k {
        InsertAvl(r, key);
        BalanceNodeAvl(t.(right := InsertRec(r, key)));
      }
  }

  /** Insertion keeps I1. */
  lemma {:induction false} InsertBst(t: Tree, key: int)
    requires Bst(t)
    ensures Bst(InsertRec(t, key))
  {
    match t
    case Nil =>
    case Node(k, _, l, r) =>
      if key < k {
        var n := t.(left := InsertRec(l, key));
        assert InsertRec(t, key) == BalanceNode(n);
        InsertBst(l, key);
        InsertKeys(l, key);
        assert Bst(n);
        BalanceNodePreserves(n);
        SameInorderBst(n, BalanceNode(n));
      } else if key > k {
        var n := t.(right := InsertRec(r, key));
        assert InsertRec(t, key) == BalanceNode(n);
        InsertBst(r, key);
        InsertKeys(r, key);
        assert Bst(n);
        BalanceNodePreserves(n);
        SameInorderBst(n, BalanceNode(n));
      }
  }

  /** On a valid AVL tree, insert yields a valid AVL tree holding the old keys and `key`. */
  lemma {:induction false} InsertValid(t: Tree, key: int)
    requires ValidAvl(t)
    ensures ValidAvl(InsertRec(t, key))
    ensures Keys(InsertRec(t, key)) == Keys(t) + {key}
    ensures Increasing(Inorder(InsertRec(t, key)))
  {
    InsertAvl(t, key);
    InsertBst(t, key);
    InsertKeys(t, key);
    BstIffIncreasing(InsertRec(t, key));
  }

  /** Insertion adds exactly `key` to the key set, on any tree. */
  lemma {:induction false} InsertKeys(t: Tree, key: int)
    ensures Keys(InsertRec(t, key)) == Keys(t) + {key}
  {
    match t
    case Nil =>
    case Node(k, _, l, r) =>
      if key < k {
        InsertKeys(l, key);
        BalanceNodePreserves(t.(left := InsertRec(l, key)));
      } else if key > k {
        InsertKeys(r, key);
        BalanceNodePreserves(t.(right := InsertRec(r, key)));
      }
  }

  /** Inserting a key that is already present returns the very same tree. */
  lemma {:induction false} InsertPresent(t: Tree, key: int)
    requires ValidAvl(t) && key in Keys(t)
    ensures InsertRec(t, key) == t
  {
    match t
    case Node(k, _, l, r) =>
      if key < k {
        assert key !in Keys(r);
        InsertPresent(l, key);
        BalanceNodeIdentity(t);
      } else if key > k {
        assert key !in Keys(l);
        InsertPresent(r, key);
        BalanceNodeIdentity(t);
      }
  }

  // ---------- minimum, maximum and Without ----------

  lemma {:induction false} LeftmostInKeys(t: Tree)
    requires t.Node?
    ensures LeftmostNode(t).key in Keys(t)
  {
    if t.left.Node? { LeftmostInKeys(t.left); }
  }

  lemma {:induction false} RightmostInKeys(t: Tree)
    requires t.Node?
    ensures RightmostNode(t).key in Keys(t)
  {
    if t.right.Node? { RightmostInKeys(t.right); }
  }

  lemma {:induction false} LeftmostIsFirst(t: Tree)
    requires t.Node?
    ensures |Inorder(t)| > 0 && Inorder(t)[0] == LeftmostNode(t).key
  {
    if t.left.Node? { LeftmostIsFirst(t.left); }
  }

  lemma {:induction false} RightmostIsLast(t: Tree)
    requires t.Node?
    ensures |Inorder(t)| > 0 && Inorder(t)[|Inorder(t)| - 1] == RightmostNode(t).key
  {
    if t.right.Node? { RightmostIsLast(t.right); }
  }

  /** In a BST the leftmost node holds the smallest key. */
  lemma {:induction false} LeftmostIsMin(t: Tree)
    requires t.Node? && Bst(t)
    ensures forall x :: x in Keys(t) ==> LeftmostNode(t).key <= x
  {
    if t.left.Node? { LeftmostIsMin(t.left); }
  }

  /** In a BST the rightmost node holds the largest key. */
  lemma {:induction false} RightmostIsMax(t: Tree)
    requires t.Node? && Bst(t)
    ensures forall x :: x in Keys(t) ==> x <= RightmostNode(t).key
  {
    if t.right.Node? { RightmostIsMax(t.right); }
  }

  /** Comparing neighbours is enough: adjacent order gives pairwise order. */
  lemma {:induction false} AdjacentIncreasing(s: seq<int>)
    requires forall j :: 0 <= j < |s| - 1 ==> s[j] < s[j + 1]
    ensures Increasing(s)
  {
    if |s| > 1 {
      var tl := s[1..];
      assert forall j :: 0 <= j < |tl| - 1 ==> tl[j] < tl[j + 1] by {
        forall j | 0 <= j < |tl| - 1 ensures tl[j] < tl[j + 1] { assert tl[j] == s[j + 1] && tl[j + 1] == s[j + 2]; }
      }
      AdjacentIncreasing(tl);
      forall i, j | 0 <= i < j < |s| ensures s[i] < s[j] {
        if i == 0 {
          if j > 1 { assert tl[0] < tl[j - 1]; }
        } else {
          assert tl[i - 1] < tl[j - 1];
        }
      }
    }
  }

  lemma {:induction false} WithoutConcat(a: seq<int>, b: seq<int>, x: int)
    ensures Without(a + b, x) == Without(a, x) + Without(b, x)
  {
    if a == [] {
      assert a + b == b;
    } else {
      assert (a + b)[0] == a[0] && (a + b)[1..] == a[1..] + b;
      WithoutConcat(a[1..], b, x);
    }
  }

  lemma {:induction false} WithoutJoin(a: seq<int>, k: int, b: seq<int>, x: int)
    ensures Without(a + [k] + b, x) == Without(a, x) + (if k == x then [] else [k]) + Without(b, x)
  {
    WithoutConcat(a + [k], b, x);
    WithoutConcat(a, [k], x);
    assert Without([k], x) == (if k == x then [] else [k]) + Without([], x);
  }

  lemma {:induction false} WithoutAbsent(s: seq<int>, x: int)
    requires x !in s
    ensures Without(s, x) == s
  {
    if s != [] {
      WithoutAbsent(s[1..], x);
    }
  }

  lemma {:induction false} WithoutLength(s: seq<int>, x: int)
    requires Increasing(s)
    ensures |Without(s, x)| == |s| - (if x in s then 1 else 0)
    ensures forall y :: y in Without(s, x) <==> y in s && y != x
  {
    if s != [] {
      assert Increasing(s[1..]);
      WithoutLength(s[1..], x);
      if s[0] == x {
        assert x !in s[1..];
      }
      assert forall y :: y in s <==> y == s[0] || y in s[1..];
    }
  }

  lemma {:induction false} WithoutFirst(s: seq<int>)
    requires Increasing(s) && |s| > 0
    ensures Without(s, s[0]) == s[1..]
  {
    assert s[0] !in s[1..];
    WithoutAbsent(s[1..], s[0]);
  }

  lemma {:induction false} WithoutLast(s: seq<int>)
    requires Increasing(s) && |s| > 0
    ensures Without(s, s[|s| - 1]) == s[..|s| - 1]
  {
    var n := |s| - 1;
    assert s == s[..n] + [s[n]];
    assert s[n] !in s[..n];
    WithoutConcat(s[..n], [s[n]], s[n]);
    WithoutAbsent(s[..n], s[n]);
    assert Without([s[n]], s[n]) == [] + Without([], s[n]);
  }

  // ---------- delete ----------

  /** On a BST, delete drops exactly the occurrence of `key` from the in-order sequence. */
  lemma {:induction false} DeleteInorder(t: Tree, key: int)
    requires Bst(t)
    ensures Inorder(DeleteRec(t, key)) == Without(Inorder(t), key)
  {
    match t
    case Nil =>
    case Node(k, _, l, r) =>
      if key < k {
        DeleteInorder(l, key);
        DeleteLeftInorder(t, key);
      } else if key > k {
        DeleteInorder(r, key);
        DeleteRightInorder(t, key);
      } else {
        if l.Node? && r.Node? {
          DeleteInorder(r, LeftmostNode(r).key);
          DeleteSuccessorInorder(t);
        }
        DeleteHereInorder(t);
      }
  }

  lemma {:induction false} DeleteLeftInorder(t: Tree, key: int)
    requires t.Node? && Bst(t) && key < t.key
    requires Inorder(DeleteRec(t.left, key)) == Without(Inorder(t.left), key)
    ensures Inorder(DeleteRec(t, key)) == Without(Inorder(t), key)
  {
    WithoutJoin(Inorder(t.left), t.key, Inorder(t.right), key);
    BalanceNodePreserves(t.(left := DeleteRec(t.left, key)));
    KeyAbsentRight(t, key);
    WithoutAbsent(Inorder(t.right), key);
    assert Inorder(DeleteRec(t, key)) == Inorder(DeleteRec(t.left, key)) + [t.key] + Inorder(t.right);
  }

  lemma {:induction false} DeleteRightInorder(t: Tree, key: int)
    requires t.Node? && Bst(t) && key > t.key
    requires Inorder(DeleteRec(t.right, key)) == Without(Inorder(t.right), key)
    ensures Inorder(DeleteRec(t, key)) == Without(Inorder(t), key)
  {
    WithoutJoin(Inorder(t.left), t.key, Inorder(t.right), key);
    BalanceNodePreserves(t.(right := DeleteRec(t.right, key)));
    KeyAbsentLeft(t, key);
    WithoutAbsent(Inorder(t.left), key);
    assert Inorder(DeleteRec(t, key)) == Inorder(t.left) + [t.key] + Inorder(DeleteRec(t.right, key));
  }

  lemma {:induction false} DeleteHereInorder(t: Tree)
    requires t.Node? && Bst(t)
    requires t.left.Node? && t.right.Node? ==> Inorder(DeleteRec(t, t.key)) == Inorder(t.left) + Inorder(t.right)
    ensures Inorder(DeleteRec(t, t.key)) == Without(Inorder(t), t.key)
  {
    WithoutRoot(t);
    if t.left.Nil? {
      assert DeleteRec(t, t.key) == t.right;
      assert Inorder(t.left) + Inorder(t.right) == Inorder(t.right);
    } else if t.right.Nil? {
      assert DeleteRec(t, t.key) == t.left;
      assert Inorder(t.left) + Inorder(t.right) == Inorder(t.left);
    }
  }

  /** Dropping a BST's root key from its in-order sequence leaves the two subtrees' sequences. */
  lemma {:induction false} WithoutRoot(t: Tree)
    requires t.Node? && Bst(t)
    ensures Without(Inorder(t), t.key) == Inorder(t.left) + Inorder(t.right)
  {
    KeyAbsentLeft(t, t.key);
    KeyAbsentRight(t, t.key);
    WithoutMiddle(Inorder(t.left), t.key, Inorder(t.right));
  }

  lemma {:induction false} WithoutMiddle(a: seq<int>, k: int, b: seq<int>)
    requires k !in a && k !in b
    ensures Without(a + [k] + b, k) == a + b
  {
    WithoutJoin(a, k, b, k);
    WithoutAbsent(a, k);
    WithoutAbsent(b, k);
  }

  lemma {:induction false} KeyAbsentRight(t: Tree, key: int)
    requires t.Node? && Bst(t) && key <= t.key
    ensures key !in Inorder(t.right)
  {
    InorderKeys(t.right);
  }

  lemma {:induction false} KeyAbsentLeft(t: Tree, key: int)
    requires t.Node? && Bst(t) && key >= t.key
    ensures key !in Inorder(t.left)
  {
    InorderKeys(t.left);
  }

  /** The two-children case: the node takes its successor's key, which leaves the right subtree. */
  lemma {:induction false} DeleteSuccessorInorder(t: Tree)
    requires t.Node? && t.left.Node? && t.right.Node? && Bst(t)
    requires Inorder(DeleteRec(t.right, LeftmostNode(t.right).key)) == Without(Inorder(t.right), LeftmostNode(t.right).key)
    ensures Inorder(DeleteRec(t, t.key)) == Inorder(t.left) + Inorder(t.right)
  {
    var r := t.right;
    var m := LeftmostNode(r).key;
    DropFirst(r);
    var n := t.(key := m, right := DeleteRec(r, m));
    assert DeleteRec(t, t.key) == BalanceNode(n);
    BalanceNodePreserves(n);
    RejoinFirst(Inorder(t.left), Inorder(r));
  }

  lemma {:induction false} DropFirst(r: Tree)
    requires r.Node? && Bst(r)
    requires Inorder(DeleteRec(r, LeftmostNode(r).key)) == Without(Inorder(r), LeftmostNode(r).key)
    ensures |Inorder(r)| > 0 && Inorder(r)[0] == LeftmostNode(r).key
    ensures Inorder(DeleteRec(r, LeftmostNode(r).key)) == Inorder(r)[1..]
  {
    LeftmostIsFirst(r);
    BstIffIncreasing(r);
    WithoutFirst(Inorder(r));
  }

  lemma RejoinFirst(a: seq<int>, s: seq<int>)
    requires |s| > 0
    ensures a + [s[0]] + s[1..] == a + s
  {
    assert [s[0]] + s[1..] == s;
  }

  /** Deletion keeps I2 and I3 and lowers the height by at most one. */
  lemma {:induction false} DeleteAvl(t: Tree, key: int)
    requires Avl(t)
    ensures Avl(DeleteRec(t, key))
    ensures Height(t) - 1 <= Height(DeleteRec(t, key)) <= Height(t)
  {
    match t
    case Nil =>
    case Node(k, _, l, r) =>
      if key < k {
        DeleteAvl(l, key);
        BalanceNodeAvl(t.(left := DeleteRec(l, key)));
      } else if key > k {
        DeleteAvl(r, key);
        BalanceNodeAvl(t.(right := DeleteRec(r, key)));
      } else if l.Node? && r.Node? {
        var m := LeftmostNode(r).key;
        DeleteAvl(r, m);
        BalanceNodeAvl(t.(key := m, right := DeleteRec(r, m)));
      }
  }

  /** Deleting a key that is absent returns the very same tree. */
  lemma {:induction false} DeleteAbsent(t: Tree, key: int)
    requires ValidAvl(t) && key !in Keys(t)
    ensures DeleteRec(t, key) == t
  {
    match t
    case Nil =>
    case Node(k, _, l, r) =>
      if key < k {
        DeleteAbsent(l, key);
        BalanceNodeIdentity(t);
      } else if key > k {
        DeleteAbsent(r, key);
        BalanceNodeIdentity(t);
      }
  }

  /**
   * On a valid AVL tree, delete yields a valid AVL tree holding the old keys less
   * `key`, with one node fewer exactly when `key` was present.
   */
  lemma {:induction false} DeleteValid(t: Tree, key: int)
    requires ValidAvl(t)
    ensures ValidAvl(DeleteRec(t, key))
    ensures Keys(DeleteRec(t, key)) == Keys(t) - {key}
    ensures CountNodesRec(DeleteRec(t, key)) == CountNodesRec(t) - (if key in Keys(t) then 1 else 0)
  {
    DeleteAvl(t, key);
    DeleteBst(t, key);
    DeleteKeys(t, key);
    DeleteCount(t, key);
  }

  lemma {:induction false} DeleteBst(t: Tree, key: int)
    requires Bst(t)
    ensures Bst(DeleteRec(t, key))
  {
    DeleteInorder(t, key);
    BstIffIncreasing(t);
    WithoutIncreasing(Inorder(t), key);
    BstIffIncreasing(DeleteRec(t, key));
  }

  lemma {:induction false} DeleteKeys(t: Tree, key: int)
    requires Bst(t)
    ensures Keys(DeleteRec(t, key)) == Keys(t) - {key}
  {
    var d := DeleteRec(t, key);
    DeleteInorder(t, key);
    BstIffIncreasing(t);
    WithoutLength(Inorder(t), key);
    InorderKeys(t);
    InorderKeys(d);
    forall x ensures x in Keys(d) <==> x in Keys(t) - {key} {
      assert x in Keys(d) <==> x in Inorder(d);
      assert x in Inorder(d) <==> x in Inorder(t) && x != key;
    }
  }

  lemma {:induction false} DeleteCount(t: Tree, key: int)
    requires Bst(t)
    ensures CountNodesRec(DeleteRec(t, key)) == CountNodesRec(t) - (if key in Keys(t) then 1 else 0)
  {
    DeleteInorder(t, key);
    BstIffIncreasing(t);
    WithoutLength(Inorder(t), key);
    InorderKeys(t);
    CountIsInorderLength(t);
    CountIsInorderLength(DeleteRec(t, key));
  }

  lemma {:induction false} WithoutIncreasing(s: seq<int>, x: int)
    requires Increasing(s)
    ensures Increasing(Without(s, x))
  {
    if s != [] {
      assert Increasing(s[1..]);
      WithoutIncreasing(s[1..], x);
      WithoutLength(s[1..], x);
      var w := Without(s[1..], x);
      if s[0] != x {
        assert forall y :: y in w ==> y in s[1..];
        assert forall y :: y in s[1..] ==> s[0] < y;
        IncreasingJoin([], s[0], w);
        assert [] + [s[0]] + w == [s[0]] + w;
      }
    }
  }

  lemma {:induction false} IncreasingConcat(a: seq<int>, b: seq<int>)
    requires Increasing(a) && Increasing(b)
    requires forall x, y :: x in a && y in b ==> x < y
    ensures Increasing(a + b)
  {
    forall i, j | 0 <= i < j < |a + b| ensures (a + b)[i] < (a + b)[j] {
      if j < |a| {
        assert (a + b)[i] == a[i] && (a + b)[j] == a[j];
      } else if i >= |a| {
        assert (a + b)[i] == b[i - |a|] && (a + b)[j] == b[j - |a|];
      } else {
        assert (a + b)[i] == a[i] && (a + b)[j] == b[j - |a|];
        assert a[i] in a && b[j - |a|] in b;
      }
    }
  }

  // ---------- split and merge ----------

  /**
   * On a BST, split puts every key <= pivot in the first tree and every key > pivot
   * in the second; both are BSTs and together they hold exactly the original keys.
   */
  lemma {:induction false} SplitPartition(t: Tree, pivot: int)
    requires Bst(t)
    ensures forall x :: x in Keys(SplitRec(t, pivot).0) ==> x <= pivot
    ensures forall x :: x in Keys(SplitRec(t, pivot).1) ==> x > pivot
    ensures Keys(SplitRec(t, pivot).0) + Keys(SplitRec(t, pivot).1) == Keys(t)
    ensures Bst(SplitRec(t, pivot).0) && Bst(SplitRec(t, pivot).1)
  {
    SplitBounds(t, pivot);
    SplitInorder(t, pivot);
    var (lo, hi) := SplitRec(t, pivot);
    BstIffIncreasing(t);
    IncreasingParts(Inorder(lo), Inorder(hi));
    BstIffIncreasing(lo);
    BstIffIncreasing(hi);
  }

  lemma {:induction false} SplitBounds(t: Tree, pivot: int)
    requires Bst(t)
    ensures forall x :: x in Keys(SplitRec(t, pivot).0) ==> x <= pivot
    ensures forall x :: x in Keys(SplitRec(t, pivot).1) ==> x > pivot
    ensures Keys(SplitRec(t, pivot).0) + Keys(SplitRec(t, pivot).1) == Keys(t)
  {
    match t
    case Nil =>
    case Node(k, _, l, r) =>
      if k <= pivot {
        var parts := SplitRec(r, pivot);
        SplitBounds(r, pivot);
        var n := t.(right := parts.0);
        assert SplitRec(t, pivot) == (BalanceNode(n), parts.1);
        BalanceNodePreserves(n);
        LowSideBounds(Keys(l), k, Keys(parts.0), Keys(parts.1), Keys(r), pivot);
      } else {
        var parts := SplitRec(l, pivot);
        SplitBounds(l, pivot);
        var n := t.(left := parts.1);
        assert SplitRec(t, pivot) == (parts.0, BalanceNode(n));
        BalanceNodePreserves(n);
        HighSideBounds(Keys(parts.0), Keys(parts.1), Keys(l), k, Keys(r), pivot);
      }
  }

  /** A node <= pivot keeps its left keys and gains the low part of its right subtree. */
  lemma LowSideBounds(left: set<int>, k: int, lo: set<int>, hi: set<int>, right: set<int>, pivot: int)
    requires k <= pivot && (forall x :: x in left ==> x < k)
    requires (forall x :: x in lo ==> x <= pivot) && lo + hi == right
    ensures forall x :: x in left + {k} + lo ==> x <= pivot
    ensures (left + {k} + lo) + hi == left + {k} + right
  {
  }

  /** A node > pivot keeps its right keys and gains the high part of its left subtree. */
  lemma HighSideBounds(lo: set<int>, hi: set<int>, left: set<int>, k: int, right: set<int>, pivot: int)
    requires k > pivot && (forall x :: x in right ==> k < x)
    requires (forall x :: x in hi ==> x > pivot) && lo + hi == left
    ensures forall x :: x in hi + {k} + right ==> x > pivot
    ensures lo + (hi + {k} + right) == left + {k} + right
  {
  }

  /** The two parts of a split list the original in-order sequence, low part first. */
  lemma {:induction false} SplitInorder(t: Tree, pivot: int)
    ensures Inorder(SplitRec(t, pivot).0) + Inorder(SplitRec(t, pivot).1) == Inorder(t)
  {
    match t
    case Nil =>
    case Node(k, _, l, r) =>
      if k <= pivot {
        var parts := SplitRec(r, pivot);
        SplitInorder(r, pivot);
        var n := t.(right := parts.0);
        assert SplitRec(t, pivot) == (BalanceNode(n), parts.1);
        BalanceNodePreserves(n);
        Regroup(Inorder(l), k, Inorder(parts.0), Inorder(parts.1));
      } else {
        var parts := SplitRec(l, pivot);
        SplitInorder(l, pivot);
        var n := t.(left := parts.1);
        assert SplitRec(t, pivot) == (parts.0, BalanceNode(n));
        BalanceNodePreserves(n);
        Regroup'(Inorder(parts.0), Inorder(parts.1), k, Inorder(r));
      }
  }

  lemma Regroup(a: seq<int>, k: int, b: seq<int>, c: seq<int>)
    ensures (a + [k] + b) + c == a + [k] + (b + c)
  {
  }

  lemma Regroup'(a: seq<int>, b: seq<int>, k: int, c: seq<int>)
    ensures a + (b + [k] + c) == (a + b) + [k] + c
  {
  }

  lemma {:induction false} IncreasingParts(a: seq<int>, b: seq<int>)
    requires Increasing(a + b)
    ensures Increasing(a) && Increasing(b)
  {
    var s := a + b;
    forall i, j | 0 <= i < j < |a| ensures a[i] < a[j] { assert a[i] == s[i] && a[j] == s[j]; }
    forall i, j | 0 <= i < j < |b| ensures b[i] < b[j] { assert b[i] == s[|a| + i] && b[j] == s[|a| + j]; }
  }

  /** When the first tree is a BST, merge lists the first tree's keys, then the second's. */
  lemma {:induction false} MergeInorder(t1: Tree, t2: Tree)
    requires Bst(t1)
    ensures Inorder(MergeRoots(t1, t2)) == Inorder(t1) + Inorder(t2)
  {
    if t1.Node? && t2.Node? {
      var maxKey := RightmostNode(t1).key;
      DeleteMaxInorder(t1);
      var n := Node(maxKey, 1, DeleteRec(t1, maxKey), t2);
      assert MergeRoots(t1, t2) == BalanceNode(n);
      BalanceNodePreserves(n);
      RejoinLast(Inorder(t1), Inorder(t2));
    }
  }

  /** Deleting the maximum of a nonempty BST drops the last element of its in-order sequence. */
  lemma {:induction false} DeleteMaxInorder(t: Tree)
    requires t.Node? && Bst(t)
    ensures |Inorder(t)| > 0 && Inorder(t)[|Inorder(t)| - 1] == RightmostNode(t).key
    ensures Inorder(DeleteRec(t, RightmostNode(t).key)) == Inorder(t)[..|Inorder(t)| - 1]
  {
    RightmostIsLast(t);
    DeleteInorder(t, RightmostNode(t).key);
    BstIffIncreasing(t);
    WithoutLast(Inorder(t));
  }

  lemma RejoinLast(s: seq<int>, c: seq<int>)
    requires |s| > 0
    ensures s[..|s| - 1] + [s[|s| - 1]] + c == s + c
  {
    assert s[..|s| - 1] + [s[|s| - 1]] == s;
  }

  /** When every key of the first BST is below every key of the second, merge is a BST. */
  lemma {:induction false} MergeOrdered(t1: Tree, t2: Tree)
    requires Bst(t1) && Bst(t2)
    requires forall a, b :: a in Keys(t1) && b in Keys(t2) ==> a < b
    ensures Increasing(Inorder(MergeRoots(t1, t2)))
    ensures Bst(MergeRoots(t1, t2))
    ensures Keys(MergeRoots(t1, t2)) == Keys(t1) + Keys(t2)
  {
    var m := MergeRoots(t1, t2);
    MergeInorder(t1, t2);
    BstIffIncreasing(t1);
    BstIffIncreasing(t2);
    InorderKeys(t1);
    InorderKeys(t2);
    IncreasingConcat(Inorder(t1), Inorder(t2));
    BstIffIncreasing(m);
    MergeKeys(t1, t2);
  }

  lemma {:induction false} MergeKeys(t1: Tree, t2: Tree)
    requires Bst(t1)
    ensures Keys(MergeRoots(t1, t2)) == Keys(t1) + Keys(t2)
  {
    var m := MergeRoots(t1, t2);
    MergeInorder(t1, t2);
    InorderKeys(t1);
    InorderKeys(t2);
    InorderKeys(m);
    forall x ensures x in Keys(m) <==> x in Keys(t1) + Keys(t2) {
      assert x in Keys(m) <==> x in Inorder(t1) + Inorder(t2);
    }
  }

  /** Splitting a BST and merging the two halves gives back the original in-order sequence. */
  lemma {:induction false} SplitMergeRoundTrip(t: Tree, pivot: int)
    requires Bst(t)
    ensures Inorder(MergeRoots(SplitRec(t, pivot).0, SplitRec(t, pivot).1)) == Inorder(t)
  {
    SplitPartition(t, pivot);
    SplitInorder(t, pivot);
    MergeInorder(SplitRec(t, pivot).0, SplitRec(t, pivot).1);
  }
}
