# AVL tree and separate-chaining hash map

A Dafny model of two in-memory containers, with proofs about both.

**The AVL tree with stored heights (`AVL.py`).**
- A node is the value `Node(key, height, left, right)` of the datatype `AvlNodes.Tree`.
- The cached `height` is kept as data: it is rewritten only where `update_height` rewrites it, and never derived from the shape when read. So the validator can still see a tampered height.
- Every recursive helper of the source returns the new subtree root, and so does each function here. This covers the rotations, `balance_node`, `_insert_recursive`, `_delete_recursive` and `_split_recursive`.
- The class `AVL.AVLTree` holds the `root` and reassigns it in its public methods.
- `_get_min_node` and `_get_max_node` are `while` loops over a cursor. `inorder_traversal` appends into an accumulator. `validate_avl` is an index loop over the in-order list. Each method is proved equal to a specification function.
- The vocabulary:
  - `Bst` is the ordering invariant.
  - `HeightsConsistent` says each stored height is one more than the larger child height.
  - `Balanced` is what `_validate_balances` checks, computed from the stored heights.
  - `ValidAvl` is all three together.
  - `Inorder` and `Keys` are the abstractions.
- The proofs show these facts:
  - `insert` and `delete` preserve `ValidAvl` and change the key set by exactly the one key.
  - `balance_node` restores balance in all four rotation cases.
  - `split` partitions the keys at the pivot and keeps the in-order sequence.
  - `merge` concatenates the in-order sequences.

**The separate-chaining hash map (`MyHashMap.py`).**
- The class `HashMaps.MyHashMap` has these fields:
  - an `array` of buckets, each a sequence of `(key, value)` pairs;
  - the `size` counter;
  - the hash function, a constructor parameter;
  - a ghost finite map `Contents`, the abstraction.
- The object invariant `Valid()` says four things:
  - every pair sits in the bucket `hash(key) % capacity`;
  - no bucket holds a key twice;
  - scanning a key's bucket gives the key's lookup in `Contents`;
  - `size` is both the number of pairs and the number of keys.
- `HasRoom()` is the load-factor bound `4 * size <= 3 * capacity`, which holds between operations.
- `put` and `_rehash` call each other, just as the source does. Their termination measure shows that the puts inside `_rehash` never rehash again.
- Two lemmas state facts on their own, and no other contract depends on them. `HashMaps.MyHashMap.KeysUnique` says no key occurs twice in the whole table. `AvlProofs.ConsistentHeightIsShapeHeight` says consistent stored heights equal the real heights.

The examples modules replay the scenarios of `test_AVL.py` and `test_MyHashMap.py`: as lemmas on concrete trees, and as scenario methods that exercise the map on string keys with a fixed string hash.

## Model

| member | source | states |
|---|---|---|
| AvlNodes.UpdateHeight | AVL.py:46-51 | the node keeps its key and children; only its stored height changes |
| AvlNodes.RotateRight | AVL.py:53-69 | the left child becomes the root and the old root becomes its right child |
| AvlNodes.RotateLeft | AVL.py:71-87 | the right child becomes the root and the old root becomes its left child |
| AvlNodes.BalanceNode | AVL.py:89-115 | balancing a node always yields a node; that no absent child is rotated follows from the rotations' requires (a present child on the rotated side), which are discharged at each call in the body |
| AvlNodes.InsertRec | AVL.py:144-163 | insertion always yields a non-empty subtree |
| AvlNodes.LeftmostNode | AVL.py:198-206 | the leftmost node has no left child |
| AvlNodes.RightmostNode | AVL.py:280-288 | the rightmost node has no right child |
| AvlNodes.Height | AVL.py:28-35 | defined by its body (0 for an absent child, else the stored field); AvlProofs.ConsistentHeightIsShapeHeight shows it is the real height when the stored heights are consistent |
| AvlNodes.BalanceFactor | AVL.py:37-44 | defined by its body from the stored child heights; the rotation case lemmas and AvlProofs.BalanceNodeAvl state what balancing makes of it |
| AvlNodes.SearchRec | AVL.py:126-134 | defined by its body; AvlProofs.SearchCorrect shows that on an ordered tree it is true exactly for the keys in the in-order list |
| AvlNodes.DeleteRec | AVL.py:171-196 | defined by its body; AvlProofs.DeleteValid and AvlProofs.DeleteInorder give its properties |
| AvlNodes.SplitRec | AVL.py:223-242 | defined by its body; AvlProofs.SplitPartition and AvlProofs.SplitInorder give its properties |
| AvlNodes.MergeRoots | AVL.py:257-277 | defined by its body; AvlProofs.MergeInorder and AvlProofs.MergeOrdered give its properties |
| AvlNodes.CountNodesRec | AVL.py:298-301 | defined by its body; AvlProofs.CountIsInorderLength shows it is the length of the in-order list |
| AvlNodes.Balanced | AVL.py:337-348 | defined by its body (every stored balance factor within 1); AVL.AVLTree.ValidateAvl ties it to the validator's result |
| AvlProofs.InorderKeys | AVL.py:303-316 | a key occurs in the in-order list exactly when it is in the tree |
| AvlProofs.BstIffIncreasing | AVL.py:320-335 | a tree is ordered at every node exactly when its in-order list is strictly increasing |
| AvlProofs.IncreasingJoin | AVL.py:303-316 | `a + [k] + b` is strictly increasing iff both sides are and they lie below and above `k` |
| AvlProofs.SameInorderBst | AVL.py:53-87 | trees with the same in-order list are both ordered or both not |
| AvlProofs.SameInorderKeys | AVL.py:53-87 | trees with the same in-order list hold the same keys |
| AvlProofs.SearchCorrect | AVL.py:126-134 | on an ordered tree, search finds a key exactly when it is in the in-order list |
| AvlProofs.CountIsInorderLength | AVL.py:292-301 | the node count is the length of the in-order list, and on an ordered tree the number of distinct keys |
| AvlProofs.ConsistentHeightIsShapeHeight | AVL.py:28-35 | when the stored heights are consistent, the root's stored height is the tree's real height |
| AvlProofs.BalanceNodeIdentity | AVL.py:89-115 | a node with a correct height that is already balanced comes back unchanged |
| AvlProofs.RotateRightPreserves | AVL.py:53-69 | a right rotation keeps the in-order list and recomputes consistent heights, child first |
| AvlProofs.RotateLeftPreserves | AVL.py:71-87 | a left rotation keeps the in-order list and recomputes consistent heights, child first |
| AvlProofs.BalanceNodePreserves | AVL.py:89-115 | balancing keeps the in-order list and the key set, and gives consistent heights over consistent children |
| AvlProofs.LeftLeftCase | AVL.py:98-100 | LL case: one right rotation of a left-heavy node by 2 gives a balanced subtree with bounded height |
| AvlProofs.LeftRightCase | AVL.py:101-104 | LR case: left rotation of the child and right rotation of the node give a balanced subtree with bounded height |
| AvlProofs.RightRightCase | AVL.py:107-109 | RR case: one left rotation of a right-heavy node by 2 gives a balanced subtree with bounded height |
| AvlProofs.RightLeftCase | AVL.py:110-113 | RL case: right rotation of the child and left rotation of the node give a balanced subtree with bounded height |
| AvlProofs.RightRotationRestores | AVL.py:96-104 | a node whose left side is two higher than its right, over AVL children, balances to an AVL subtree |
| AvlProofs.LeftRotationRestores | AVL.py:105-113 | a node whose right side is two higher than its left, over AVL children, balances to an AVL subtree |
| AvlProofs.BalanceNodeAvl | AVL.py:89-115 | over AVL children whose heights differ by at most 2, balancing yields an AVL subtree whose height is the children's maximum or one more |
| AvlProofs.InsertAvl | AVL.py:144-163 | insertion keeps heights consistent and balance at most 1, and raises the height by at most one |
| AvlProofs.InsertBst | AVL.py:144-163 | insertion keeps the ordering invariant |
| AvlProofs.InsertKeys | AVL.py:144-163 | the new key set is the old one plus the key |
| AvlProofs.InsertValid | AVL.py:144-163 | on a valid AVL tree, insertion gives a valid AVL tree with keys old + {key} and a strictly increasing in-order list |
| AvlProofs.InsertPresent | AVL.py:156-160 | inserting a key already in a valid tree returns that same tree |
| AvlProofs.LeftmostInKeys | AVL.py:198-206 | the leftmost key is a key of the tree |
| AvlProofs.RightmostInKeys | AVL.py:280-288 | the rightmost key is a key of the tree |
| AvlProofs.LeftmostIsFirst | AVL.py:198-206 | the leftmost key comes first in the in-order list |
| AvlProofs.RightmostIsLast | AVL.py:280-288 | the rightmost key comes last in the in-order list |
| AvlProofs.LeftmostIsMin | AVL.py:198-206 | in an ordered tree, the leftmost key is the least key |
| AvlProofs.RightmostIsMax | AVL.py:280-288 | in an ordered tree, the rightmost key is the greatest key |
| AvlProofs.WithoutLength | AVL.py:171-196 | removing a key from an increasing list shortens it by one exactly when the key was there, and keeps every other key |
| AvlProofs.DeleteInorder | AVL.py:171-196 | on an ordered tree, the in-order list after deletion is the old list with the key removed |
| AvlProofs.DeleteLeftInorder | AVL.py:180-181 | deleting on the left side keeps the in-order specification |
| AvlProofs.DeleteRightInorder | AVL.py:182-183 | deleting on the right side keeps the in-order specification |
| AvlProofs.DeleteHereInorder | AVL.py:184-195 | deleting the node's own key leaves the left list followed by the right list |
| AvlProofs.DeleteSuccessorInorder | AVL.py:191-195 | splicing out a two-child node by copying its in-order successor leaves the left list followed by the right list |
| AvlProofs.DropFirst | AVL.py:191-195 | removing the leftmost key of a subtree drops the first element of its in-order list |
| AvlProofs.DeleteAvl | AVL.py:171-196 | deletion keeps heights consistent and balance at most 1, and lowers the height by at most one |
| AvlProofs.DeleteBst | AVL.py:171-196 | deletion keeps the ordering invariant |
| AvlProofs.DeleteKeys | AVL.py:171-196 | on an ordered tree, the new key set is the old one minus the key |
| AvlProofs.DeleteCount | AVL.py:171-196 | on an ordered tree, the node count drops by one exactly when the key was present |
| AvlProofs.DeleteValid | AVL.py:171-196 | on a valid AVL tree, deletion gives a valid AVL tree with keys old - {key} and a count one lower iff the key was present |
| AvlProofs.DeleteAbsent | AVL.py:171-196 | deleting an absent key from a valid tree returns that same tree |
| AvlProofs.WithoutIncreasing | AVL.py:171-196 | removing a key keeps a list strictly increasing |
| AvlProofs.SplitPartition | AVL.py:223-242 | on an ordered tree, the first part holds the keys <= pivot, the second the keys > pivot, together all keys, and both parts are ordered |
| AvlProofs.SplitBounds | AVL.py:223-242 | on an ordered tree, split partitions the key set at the pivot: the first part holds the keys <= pivot, the second the keys > pivot, together all keys |
| AvlProofs.SplitInorder | AVL.py:223-242 | the two parts' in-order lists concatenate to the original in-order list |
| AvlProofs.MergeInorder | AVL.py:245-278 | when the first tree is ordered, the merged in-order list is the first list followed by the second |
| AvlProofs.DeleteMaxInorder | AVL.py:262-268 | removing the greatest key of T1 drops the last element of its in-order list |
| AvlProofs.MergeOrdered | AVL.py:245-278 | merging ordered trees whose keys lie all below / all above gives an ordered tree with a strictly increasing in-order list and the union of the keys |
| AvlProofs.MergeKeys | AVL.py:245-278 | when the first tree is ordered, the merged tree holds exactly the keys of both trees |
| AvlProofs.SplitMergeRoundTrip | AVL.py:210-278 | on an ordered tree, merging the two parts of a split gives back the original in-order list |
| AVL.AVLTree.constructor | AVL.py:23-24 | a new tree is empty |
| AVL.AVLTree.Search | AVL.py:119-134 | on an ordered tree, true exactly when the key is in the in-order list; false on the empty tree |
| AVL.AVLTree.Insert | AVL.py:136-142 | a key <= 0 is rejected and leaves the tree unchanged; otherwise, on a valid AVL tree, the result is valid with keys old + {key}, a strictly increasing in-order list and a height that grows by at most one; a present key leaves the tree unchanged |
| AVL.AVLTree.Delete | AVL.py:165-169 | on a valid AVL tree, the result is valid with keys old - {key}, its in-order list is the old one without the key, and the count drops by one iff the key was there; an absent key or an empty tree leaves the tree unchanged |
| AVL.AVLTree.Split | AVL.py:210-221 | two new, distinct trees whose in-order lists concatenate to the original (on any tree); on an ordered tree, the first holds the keys <= pivot and the second the keys > pivot, together all keys, both ordered; the empty tree splits into two empty trees |
| AVL.AVLTree.Merge | AVL.py:245-278 | returns T2 when T1 is empty and T1 when T2 is empty; otherwise a new tree, and T1's root becomes the tree that deleting its greatest key leaves, as at AVL.py:268 (before the balancing at :277 may relink those nodes); for two distinct objects whose T1 is ordered, the merged in-order list is T1's followed by T2's; when in addition T2 is ordered and every T1 key is below every T2 key, that list is strictly increasing and the keys are the union |
| AVL.AVLTree.GetMinNode | AVL.py:198-206 | the node reached has no left child and holds the least key of an ordered subtree |
| AVL.AVLTree.GetMaxNode | AVL.py:280-288 | the node reached has no right child and holds the greatest key of an ordered subtree |
| AVL.AVLTree.CountNodes | AVL.py:292-301 | the count is the length of the in-order list, the number of keys of an ordered tree, and 0 for the empty tree |
| AVL.AVLTree.InorderTraversal | AVL.py:303-310 | the keys in order; exactly the tree's keys, and strictly increasing when the tree is ordered |
| AVL.AVLTree.InorderInto | AVL.py:312-316 | appending the traversal of a subtree to `result` appends that subtree's in-order list |
| AVL.AVLTree.ValidateAvl | AVL.py:320-348 | true iff the in-order list is strictly increasing and every stored balance factor is within 1; true on every valid AVL tree and on the empty tree |
| AvlExamples.ExampleBuild | test_AVL.py:5-10 | inserting 10, 20, 5, 6, 15, 30, 25 gives the example tree |
| AvlExamples.ExampleFacts | test_AVL.py:13-19 | the example tree has the in-order list [5, 6, 10, 15, 20, 25, 30], is a valid AVL tree of seven nodes; 15 is found and 100 is not |
| AvlExamples.FourKeyInsertion | test_AVL.py:22-41 | inserting 10, 5, 20, 15 gives [5, 10, 15, 20] in a valid AVL tree |
| AvlExamples.ExampleDeletions | test_AVL.py:44-73 | deleting 20 leaves a valid tree of six without 20; deleting 10 and then 5 leaves five nodes |
| AvlExamples.SixBuild | test_AVL.py:89-91 | inserting 1 through 6 gives the six-key tree |
| AvlExamples.SixSplitMerge | test_AVL.py:85-106 | split at 3 gives [1, 2, 3] and [4, 5, 6]; merging them gives [1..6] in a valid AVL tree |
| AvlExamples.TamperedHeightFails | test_AVL.py:109-116 | overwriting a stored height with 1000 keeps the keys but fails the balance check |
| AvlExamples.LeafHeightNotChecked | AVL.py:337-348 | a leaf's own wrong height passes the balance check, since only the children's heights are compared |
| AvlExamples.EmptyCases | test_AVL.py:119-143 | on the empty tree: count 0, nothing found, valid, delete and split give empty trees, merge with {5} gives [5] |
| HashMaps.Find | MyHashMap.py:65-68 | defined by its body (the first pair of the key, as the scans at lines 45-48 and 65-68 find it); HashMaps.FindAt, HashMaps.FindMissing and HashMaps.MyHashMap.Get give its properties |
| HashMaps.OverThreshold | MyHashMap.py:55 | defined by its body, the growth test in integers; HashMaps.MyHashMap.Put shows the table doubles exactly when it holds |
| HashMaps.TotalPairs | MyHashMap.py:30-34 | defined by its body, the number of pairs over all buckets; HashMaps.TotalUpdate and HashMaps.MyHashMap.Size tie it to the counter |
| HashMaps.FindAt | MyHashMap.py:45-48 | the scan finds the first pair of a key |
| HashMaps.FindMissing | MyHashMap.py:65-68 | the scan of a bucket without the key gives None |
| HashMaps.FindInKeys | MyHashMap.py:65-68 | a key the scan finds is a key of the bucket |
| HashMaps.NotInPrefix | MyHashMap.py:32-34 | in a bucket with distinct keys, no pair's key occurs before it |
| HashMaps.FindSetValue | MyHashMap.py:47 | overwriting a pair's value changes the scan for that key only |
| HashMaps.FindAppend | MyHashMap.py:51 | appending a pair makes the scan find it when the key was not found before |
| HashMaps.FindRemoveAt | MyHashMap.py:80 | popping the pair of a key makes the scan miss that key and leaves the others unchanged |
| HashMaps.TotalUpdate | MyHashMap.py:51-52 | replacing a bucket changes the total pair count by the difference of the bucket lengths |
| HashMaps.TotalPrefixBound | MyHashMap.py:32-34 | the pairs of a prefix of the buckets are at most all pairs |
| HashMaps.MyHashMap.BucketIndex | MyHashMap.py:15-20 | the bucket index lies in [0, capacity) |
| HashMaps.MyHashMap.constructor | MyHashMap.py:7-13 | `initialCapacity >= 1` empty buckets, size 0, the empty map, satisfying the invariant and the load bound |
| HashMaps.MyHashMap.EmptyTable | MyHashMap.py:9 | a table of empty buckets stands for the empty map and holds no pairs |
| HashMaps.MyHashMap.KeysUnique | MyHashMap.py:41-52 | no key occurs at two places in the whole table |
| HashMaps.MyHashMap.Put | MyHashMap.py:36-56 | the map becomes old[key := value]; size grows by 1 exactly for a new key; a present key is overwritten in the same array, other buckets untouched; the table doubles exactly when the new load passes 3/4; afterwards 4*size <= 3*capacity |
| HashMaps.MyHashMap.SetValueRepresents | MyHashMap.py:45-48 | overwriting a stored pair's value updates the map at that key only |
| HashMaps.MyHashMap.AppendRepresents | MyHashMap.py:51-52 | appending a pair whose key is absent from its bucket adds that key to the map |
| HashMaps.MyHashMap.RemoveRepresents | MyHashMap.py:78-81 | popping a stored pair removes its key from the map |
| HashMaps.MyHashMap.Rehash | MyHashMap.py:22-34 | a fresh table of twice the capacity with the same map and size, under the load bound |
| HashMaps.MyHashMap.RehashBucket | MyHashMap.py:33-34 | re-putting one old bucket's pairs moves exactly that bucket's keys, without growing the table |
| HashMaps.MyHashMap.RehashedPair | MyHashMap.py:32-34 | every pair of an old bucket is in the map with that value and placed by its hash |
| HashMaps.MyHashMap.BucketKeys | MyHashMap.py:32-34 | every key of the map that hashes to a bucket is in that bucket |
| HashMaps.MyHashMap.MovedPut | MyHashMap.py:34 | re-putting a pair of the current bucket extends the moved part of the map by that key |
| HashMaps.MyHashMap.MovedExcludes | MyHashMap.py:34 | a key not yet re-put is absent from the new table |
| HashMaps.MyHashMap.MovedNext | MyHashMap.py:32 | once all of a bucket's keys are re-put, the next bucket starts |
| HashMaps.MyHashMap.MovedAll | MyHashMap.py:32-34 | after all buckets, the new map equals the old map |
| HashMaps.MyHashMap.Get | MyHashMap.py:58-68 | the value stored for the key, or None when the key is absent |
| HashMaps.MyHashMap.Remove | MyHashMap.py:70-82 | the map loses the key; size drops by 1 exactly when the key was present; only the key's bucket changes; an absent key leaves every bucket unchanged |
| HashMaps.MyHashMap.Size | MyHashMap.py:84-88 | the count is the number of keys and the total number of pairs in the buckets |
| HashMapExamples.FilledMap | test_MyHashMap.py:9-14 | putting apple, banana and orange gives exactly those three pairs in eight buckets |
| HashMapExamples.PutAndGet | test_MyHashMap.py:17-26 | each stored key gives its value; kiwi gives None |
| HashMapExamples.Overwrite | test_MyHashMap.py:28-30 | putting banana again replaces its value with 42 and keeps three pairs |
| HashMapExamples.RemoveScenario | test_MyHashMap.py:33-44 | removing apple makes it absent and leaves two; removing kiwi changes nothing |
| HashMapExamples.SizeScenario | test_MyHashMap.py:47-57 | sizes 0, 1, and 2 after a removal from the filled map |
| HashMapExamples.UpdateValue | test_MyHashMap.py:60-72 | a second put of x overwrites 10 with 999 and keeps one pair |
| HashMapExamples.TwoBucketsGrown | test_MyHashMap.py:79-83 | with two buckets, the second put passes the load 3/4 and doubles the table to four |
| HashMapExamples.RehashKeepsPairs | test_MyHashMap.py:85-88 | after growth both pairs are found and the size is two |
| HashMapExamples.RehashThenMore | test_MyHashMap.py:90-98 | a third put keeps four buckets with size 3; removing b leaves two and b gives None |

## Left out

- Node identity, aliasing and `__slots__`: nodes are values, so no two trees share a node.
- AVL.AVLTree.Split: its frame keeps the split tree's `root` unchanged. In the source the two parts are built from that tree's own nodes, which `balance_node` relinks. So the source tree's `root` ends up pointing into one of the parts: after `split(3)` of the six-key tree it lists only [4].
- AVL.AVLTree.Merge: its frame keeps T2 unchanged and gives T1 the root left by the deletion at AVL.py:268. In the source the merged tree shares nodes with both. The rotations of `balance_node` at :277 may relink T2's root node or T1's remaining root. T2 or T1 can then list more keys: merging {1} with 3(2, 4) makes the source's T2 list [1, 2, 3, 4].
- AVL.AVLTree.Merge: the contract says nothing about `merge(t, t)` with one object passed twice. Its merged-tree facts are stated under `t1 != t2`.
- AVL.AVLTree.Split: makes no AVL balance claim for the two parts. The source calls `balance_node` once per node on the path (AVL.py:235, :241), which does not restore balance when the attached subtrees differ in height by more than 2. Only key and in-order facts are proved.
- AVL.AVLTree.Merge: makes no AVL balance claim for the result. The source balances the new root once (AVL.py:277), which does not restore balance when T1 and T2 differ in height by more than 2. Only key and in-order facts are proved.
- Stored heights are natural numbers. A negative height can only come from tampering and is not modelled.
- The `ValueError` raised by `insert` is the `InvalidKey` outcome, handled before any change to the tree.
- Python's built-in `hash()` is randomized for strings, so it is an abstract constructor parameter `hash: K -> int`. Dafny's `%` with a positive divisor is non-negative, like Python's.
- The float test `size / len > 0.75` is the exact integer comparison `4 * size > 3 * capacity`. Float rounding for astronomically large sizes is not modelled.
- `MyHashMap.__str__` is debug formatting and is not part of this model.
- A stored `None` value cannot be told apart from a missing key by the source's `get`. The model's `get` returns an `Option`.
- The inner loop of `_rehash` is a separate method, `RehashBucket`, called once per old bucket, with the same effect.
- The `bucket` in `put`/`remove` is a Python list aliased into `_buckets`. Each in-place change writes the new sequence back to that bucket's slot of the array.
- The constructor's `initialCapacity >= 1` is a precondition, since capacity 0 makes `_get_bucket_index` divide by zero.
