/**
 * Nodes of the AVL tree and the recursive helpers that rebuild them.
 *
 * A subtree is a value: `Nil` for an absent child, or a `Node` with its key, its
 * cached `height` field and its two children. Every helper of the tree that relinks
 * nodes in place and returns the new subtree root is modelled as a function from the
 * old subtree to the new one. The height stays a stored field, so a tree whose
 * heights disagree with its shape can be represented (and is what the validator is
 * sensitive to).
 */
module AvlNodes {

  datatype Tree = Nil | Node(key: int, height: nat, left: Tree, right: Tree)

  function Max(a: nat, b: nat): nat { if a >= b then a else b }

  // ---------- the specification vocabulary ----------

  /** The keys of a subtree in symmetric (left, node, right) order. */
  function Inorder(t: Tree): seq<int> {
    match t
    case Nil => []
    case Node(k, _, l, r) => Inorder(l) + [k] + Inorder(r)
  }

  ghost function Keys(t: Tree): set<int> {
    match t
    case Nil => {}
    case Node(k, _, l, r) => Keys(l) + {k} + Keys(r)
  }

  /** Invariant I1: left keys < node key < right keys, at every node. */
  ghost predicate Bst(t: Tree) {
    match t
    case Nil => true
    case Node(k, _, l, r) =>
      && Bst(l) && Bst(r)
      && (forall x :: x in Keys(l) ==> x < k)
      && (forall x :: x in Keys(r) ==> k < x)
  }

  /** Invariant I3: every stored height is one more than the larger stored child height. */
  ghost predicate HeightsConsistent(t: Tree) {
    t.Node? ==>
      && t.height == Max(Height(t.left), Height(t.right)) + 1
      && HeightsConsistent(t.left) && HeightsConsistent(t.right)
  }

  /** The height of a subtree recomputed from its shape, ignoring the stored fields. */
  ghost function ShapeHeight(t: Tree): nat {
    match t
    case Nil => 0
    case Node(_, _, l, r) => Max(ShapeHeight(l), ShapeHeight(r)) + 1
  }

  ghost predicate Increasing(s: seq<int>) {
    forall i, j :: 0 <= i < j < |s| ==> s[i] < s[j]
  }

  /** `s` with every occurrence of `x` dropped. */
  function Without(s: seq<int>, x: int): seq<int> {
    if s == [] then []
    else (if s[0] == x then [] else [s[0]]) + Without(s[1..], x)
  }

  ghost predicate ValidAvl(t: Tree) {
    Bst(t) && HeightsConsistent(t) && Balanced(t)
  }

  // ---------- helpers for balancing ----------

  /** `get_height`: 0 for an absent child, otherwise the stored field. */
  function Height(t: Tree): nat {
    if t.Nil? then 0 else t.height
  }

  /** `get_balance_factor`: stored height of the left child minus that of the right child. */
  function BalanceFactor(t: Tree): int {
    if t.Nil? then 0 else Height(t.left) - Height(t.right)
  }

  /** `update_height`: recompute the node's own field from its children's stored fields. */
  function UpdateHeight(t: Tree): (r: Tree)
    requires t.Node?
    ensures r.Node? && r.key == t.key && r.left == t.left && r.right == t.right
  {
    t.(height := Max(Height(t.left), Height(t.right)) + 1)
  }

  /** `rotate_right(y)`: the left child becomes the subtree root; y's height is recomputed first. */
  function RotateRight(y: Tree): (x: Tree)
    requires y.Node? && y.left.Node?
    ensures x.Node? && x.key == y.left.key && x.right.Node? && x.right.key == y.key
  {
    var l := y.left;
    var newY := UpdateHeight(y.(left := l.right));
    UpdateHeight(l.(right := newY))
  }

  /** `rotate_left(x)`: the right child becomes the subtree root; x's height is recomputed first. */
  function RotateLeft(x: Tree): (y: Tree)
    requires x.Node? && x.right.Node?
    ensures y.Node? && y.key == x.right.key && y.left.Node? && y.left.key == x.key
  {
    var r := x.right;
    var newX := UpdateHeight(x.(right := r.left));
    UpdateHeight(r.(left := newX))
  }

  /**
   * `balance_node`: refresh the height, then do the LL/LR (left-heavy) or RR/RL
   * (right-heavy) rotation. The preconditions of the rotations, checked at each call,
   * show that no absent child is ever rotated, whatever the stored heights are.
   */
  function BalanceNode(t: Tree): (r: Tree)
    requires t.Node?
    ensures r.Node?
  {
    var n := UpdateHeight(t);
    var balance := BalanceFactor(n);
    if balance > 1 then
      var n' := if BalanceFactor(n.left) < 0 then n.(left := RotateLeft(n.left)) else n;
      RotateRight(n')
    else if balance < -1 then
      var n' := if BalanceFactor(n.right) > 0 then n.(right := RotateRight(n.right)) else n;
      RotateLeft(n')
    else
      n
  }

  // ---------- basic operations ----------

  /** `_search_recursive`: descend by comparison. */
  function SearchRec(t: Tree, key: int): bool {
    match t
    case Nil => false
    case Node(k, _, l, r) =>
      if k == key then true
      else if key < k then SearchRec(l, key)
      else SearchRec(r, key)
  }

  /** `_insert_recursive`: a new leaf of height 1 at the absent slot; an equal key is left alone. */
  function InsertRec(t: Tree, key: int): (r: Tree)
    ensures r.Node?
  {
    match t
    case Nil => Node(key, 1, Nil, Nil)
    case Node(k, _, l, rt) =>
      if key < k then BalanceNode(t.(left := InsertRec(l, key)))
      else if key > k then BalanceNode(t.(right := InsertRec(rt, key)))
      else t
  }

  /** The node `_get_min_node` walks to: follow left links while there is a left child. */
  function LeftmostNode(t: Tree): (m: Tree)
    requires t.Node?
    ensures m.Node? && m.left.Nil?
  {
    if t.left.Nil? then t else LeftmostNode(t.left)
  }

  /** The node `_get_max_node` walks to: follow right links while there is a right child. */
  function RightmostNode(t: Tree): (m: Tree)
    requires t.Node?
    ensures m.Node? && m.right.Nil?
  {
    if t.right.Nil? then t else RightmostNode(t.right)
  }

  /**
   * `_delete_recursive`: a matched node with at most one child is replaced by that
   * child; one with two children takes the key of the in-order successor, which is
   * then deleted from the right subtree.
   */
  function DeleteRec(t: Tree, key: int): Tree
  {
    match t
    case Nil => Nil
    case Node(k, _, l, rt) =>
      if key < k then BalanceNode(t.(left := DeleteRec(l, key)))
      else if key > k then BalanceNode(t.(right := DeleteRec(rt, key)))
      else if l.Nil? then rt
      else if rt.Nil? then l
      else
        var successor := LeftmostNode(rt).key;
        BalanceNode(t.(key := successor, right := DeleteRec(rt, successor)))
  }

  // ---------- split and merge ----------

  /**
   * `_split_recursive`: a node with key <= pivot keeps its left subtree and takes the
   * low part of its split right subtree; otherwise it keeps its right subtree and takes
   * the high part of its split left subtree. Each node on the path is rebalanced once.
   */
  function SplitRec(t: Tree, pivot: int): (Tree, Tree)
  {
    match t
    case Nil => (Nil, Nil)
    case Node(k, _, l, rt) =>
      if k <= pivot then
        var (lo, hi) := SplitRec(rt, pivot);
        (BalanceNode(t.(right := lo)), hi)
      else
        var (lo, hi) := SplitRec(l, pivot);
        (lo, BalanceNode(t.(left := hi)))
  }

  /**
   * The roots `merge` combines: either root alone when the other is absent; otherwise
   * the maximum key of the first tree is deleted from it and becomes a fresh node
   * (height 1) over the two roots, which is then balanced once.
   */
  function MergeRoots(t1: Tree, t2: Tree): Tree {
    if t1.Nil? then t2
    else if t2.Nil? then t1
    else
      var maxKey := RightmostNode(t1).key;
      BalanceNode(Node(maxKey, 1, DeleteRec(t1, maxKey), t2))
  }

  // ---------- traversal and validation ----------

  /** `_count_nodes_recursive`. */
  function CountNodesRec(t: Tree): nat
  {
    match t
    case Nil => 0
    case Node(_, _, l, r) => 1 + CountNodesRec(l) + CountNodesRec(r)
  }

  /** `_validate_balances`: every stored balance factor lies in [-1, 1]. */
  predicate Balanced(t: Tree) {
    match t
    case Nil => true
    case Node(_, _, l, r) => -1 <= BalanceFactor(t) <= 1 && Balanced(l) && Balanced(r)
  }
}
