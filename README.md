# Binary trees, BSTs, AVL trees and linked max-heaps in Dafny

This project models a collection of C exercises that all work on one linked node type. The type is `binary_tree_t`: an `int n`, a `parent` back-pointer and `left`/`right` children. `bst_t`, `avl_t` and `heap_t` are names for the same type. The exercises cover the following:

- building nodes and splicing children in;
- read-only metrics and checks: leaf, root, depth, height, size, leaves, internal nodes, balance factor, full, perfect, complete, BST, AVL, heap, sibling, uncle and lowest common ancestor;
- the four traversals;
- the two rotations;
- BST insert, search, remove and building from an array;
- AVL insert, remove, building from an array and building from a sorted array;
- a max-heap kept as a linked complete tree: insert, extract, building from an array and draining into a sorted array.

The model has two layers.

**Tree values** (`Trees.Tree = Nil | Node(left, n, right)`) are what a linked structure denotes once its parent pointers are forgotten. Every recursive operation of the repository is a function on this value:

- the checks and metrics;
- traversals, where a visitor is the sequence of values it is called with;
- the BST, AVL and heap algorithms.

Each function is tied to an independent reference definition, and the contracts are stated against those definitions:

- a node reached by a path, giving "every node satisfies …";
- heap-array indices `0, 1, 2, …`, giving completeness and the last node;
- the in-order sequence, giving search order;
- the multiset of values, giving "no value is lost or invented".

A loop in the C code stays a loop in Dafny, proved against such a function. These loops are the depth climb, `binary_tree_levelorder`, `find_leftmost_node`, `trickle_down`, and the array loops of `array_to_bst`, `array_to_avl`, `array_to_heap` and `heap_to_sorted_array`.

**Linked nodes** (`Linking.TreeNode`) form a class with the four fields of the C struct. Some operations change pointers in place or read them:

- `binary_tree_node`, `binary_tree_insert_left` and `binary_tree_insert_right`;
- the two rotations;
- `binary_tree_is_root`, `binary_tree_depth`, `binary_tree_sibling`, `binary_tree_uncle` and `binary_trees_ancestor`.

These are modelled as methods and functions over `TreeNode` objects, with `modifies` and `reads` frames at field level.

A ghost `Layout` records which node object sits in each cell of a tree shape. Two predicates connect the layers:

- `Linked(L)` says that the child and parent pointers agree with that shape and that no node occurs twice;
- `Abs(L)` is the tree value the nodes hold.

Twostate lemmas show that the pointer writes of each mutator leave a linked layout. They also show that this layout holds exactly the tree the value layer computes: the grafted tree for the child inserts and `Rotations.RotateLeft`/`RotateRight` for the rotations. The methods `InsertLeftInto`, `InsertRightInto`, `RotateLeftAt` and `RotateRightAt` call each pointer operation on the root of a linked subtree and apply those lemmas to the result. They state the whole effect of the call.

For the parent-climbing operations, a ghost parent chain (the nodes met by following `parent` up to a node without one) says that the climb ends.

The code is followed where the repository's own description and the code differ:

- `bst_remove` (114) does not use the right-hand in-order successor in its two-child case.
- `avl_remove` (123) rebalances with single rotations only, and it uses 0 to mean "no successor".
- `heap_insert` (131) accepts duplicate values: the swap happens only on a strictly larger child.
- `heap_extract` (133) moves to the left child on ties.

These are listed under Findings where they are defects. Each defect is modelled as written, with a counterexample, and next to it the corrected definition with its property proved.

## Model

| member | source | states |
|---|---|---|
| Linking.TreeNode.constructor | 0-binary_tree_node.c:13-32 | the new node holds `value`, has the given parent and no children; the parent is not linked to it |
| Linking.InsertLeft | 1-binary_tree_insert_left.c:18-51 | NULL parent gives NULL and writes nothing; otherwise a fresh node holding `value` becomes the parent's left child, takes the old left child as its own left child (whose parent pointer now names it) and has no right child; only those fields change |
| Linking.InsertLeftLinked | 1-binary_tree_insert_left.c:37-47 | after those writes, a linked subtree with the new node spliced in on the left is again linked and has exactly one node more |
| Linking.InsertLeftValues | 1-binary_tree_insert_left.c:31-47 | the spliced subtree holds the old tree with the new value put above the old left subtree |
| Linking.InsertLeftInto | 1-binary_tree_insert_left.c:18-51 | called on the root of a linked subtree, insert_left returns a fresh node that is the root's left child, and the subtree with it spliced in is linked, has one node more and holds the old tree with `value` put above the old left subtree |
| Linking.GraftLeftSpec | 1-binary_tree_insert_left.c:18-51 | splicing a left child keeps every old value and adds exactly one copy of the new one; size grows by one |
| Linking.InsertRight | 2-binary_tree_insert_right.c:18-53 | mirror of InsertLeft on the right side |
| Linking.InsertRightLinked | 2-binary_tree_insert_right.c:39-49 | mirror of InsertLeftLinked |
| Linking.InsertRightValues | 2-binary_tree_insert_right.c:33-49 | mirror of InsertLeftValues |
| Linking.InsertRightInto | 2-binary_tree_insert_right.c:18-53 | mirror of InsertLeftInto on the right side |
| Linking.GraftRightSpec | 2-binary_tree_insert_right.c:18-53 | mirror of GraftLeftSpec |
| Linking.LinkedSize | 11-binary_tree_size.c:14-20 | a linked layout has exactly as many node objects as the tree value it holds has nodes |
| Trees.IsLeafSpec | 4-binary_tree_is_leaf.c:12-28 | a node is a leaf exactly when its tree has one node; a leaf counts one leaf, no internal node and height 0 |
| Family.IsRootInLayout | 5-binary_tree_is_root.c:13-26 | in a linked tree whose root has no parent, exactly the root answers 1 and every other node answers 0 |
| Traversals.PreOrderVisitsEachNodeOnce | 6-binary_tree_preorder.c:18-38 | pre-order visits every stored value as often as it is stored, once per node, the root first |
| Traversals.InOrderVisitsEachNodeOnce | 7-binary_tree_inorder.c:16-30 | in-order visits every stored value as often as it is stored, once per node |
| Traversals.PostOrderVisitsEachNodeOnce | 8-binary_tree_postorder.c:16-36 | post-order visits every stored value as often as it is stored, once per node, the root last |
| Traversals.PostOrderIsReversedMirrorPreOrder | 8-binary_tree_postorder.c:28-34 | post-order is the reverse of pre-order on the mirrored tree |
| Trees.BinaryTreeHeightSpec | 9-binary_tree_height.c:15-57 | 0 for NULL; otherwise no downward path reaches a node deeper than the height, and some path reaches a node exactly that deep |
| Trees.PathsWithinHeight | 9-binary_tree_height.c:15-35 | no downward path reaches a node deeper than the height |
| Trees.DeepestPathReachesHeight | 9-binary_tree_height.c:15-35 | some downward path reaches a node exactly as deep as the height |
| Family.Depth | 10-binary_tree_depth.c:13-33 | the climb counts the parent links up to the root: 0 for NULL and for a root, otherwise the length of the parent chain less one |
| Family.DepthStep | 10-binary_tree_depth.c:25-29 | a root has depth 0 and any other node is one link deeper than its parent |
| Family.DepthInLayout | 10-binary_tree_depth.c:13-33 | in a linked tree the parent chain is the path up the shape, and depth 0 means the root |
| Trees.SizeIsBagSize | 11-binary_tree_size.c:14-20 | the size is the number of stored values counted with multiplicity |
| Trees.LeavesPlusInternal | 13-binary_tree_nodes.c:12-19 | leaves plus nodes with a child make up the size |
| Trees.NonEmptyHasLeaf | 12-binary_tree_leaves.c:13-33 | a non-empty tree has at least one leaf |
| Trees.BalanceIsHeightDifference | 14-binary_tree_balance.c:66-87 | the balance factor of any node is left height minus right height (empty side at -1), and is positive exactly when the left side is taller |
| Trees.IsFullRecMeansNoOneChild | 15-binary_tree_is_full.c:12-29 | the helper accepts exactly the trees in which no node has exactly one child |
| Trees.IsFullSpec | 15-binary_tree_is_full.c:42-50 | answers 0 or 1, and 1 exactly for a non-empty tree in which no node has exactly one child |
| Trees.FullLeavesExceedInternal | 15-binary_tree_is_full.c:12-29 | a full tree has one more leaf than internal nodes |
| Trees.PerfectCheckZero | 16-binary_tree_is_perfect.c:83-101 | on a perfect tree the balance sweep reports 0 |
| Trees.CheckZeroIsPerfect | 16-binary_tree_is_perfect.c:83-101 | a non-empty tree the balance sweep reports 0 for is perfect of its own height |
| Trees.IsPerfectSpec | 16-binary_tree_is_perfect.c:114-125 | answers 0 or 1, and 1 exactly for a non-empty tree whose leaves all sit at its height and whose other nodes all have two children |
| Trees.PerfectSize | 16-binary_tree_is_perfect.c:114-125 | a tree the check accepts holds 2^(h+1) - 1 nodes |
| Family.SiblingInLayout | 17-binary_tree_sibling.c:13-30 | in a linked tree the sibling of a node below the root is never the node itself; it is NULL exactly when the parent has only that one child, and otherwise it is the parent's other child, whose sibling is the node again |
| Family.UncleInLayout | 18-binary_tree_uncle.c:42-59 | in a linked tree an uncle is never the parent; it is NULL exactly for a child of the root or when the grandparent has only the one child, and otherwise it is the grandparent's other child |
| Family.Ancestor | 100-binary_trees_ancestor.c:19-46 | NULL when either node is NULL; any node found lies on both parent chains; a node is always found when the chains end at the same root |
| Family.AncestorOfParent | 100-binary_trees_ancestor.c:34-43 | a node and its parent, in either order, give the parent |
| Family.AncestorOfSiblings | 100-binary_trees_ancestor.c:30-45 | two different children of one parent give that parent |
| Family.AncestorOfRoot | 100-binary_trees_ancestor.c:34-37 | the root of the second node's tree, given first, is returned |
| Family.ChainDistinct | 10-binary_tree_depth.c:25-29 | no node occurs twice on a parent chain, so every climb ends |
| Family.ChainInLayout | 10-binary_tree_depth.c:25-29 | in a linked tree whose root has no parent, every node's parent chain exists and is the path up the shape |
| Traversals.LevelsBelowEmpty | 101-binary_tree_levelorder.c:15-26 | the level helper visits nothing below zero (the wrapped `size_t`) or past the height |
| Traversals.LevelsBelowCoverAll | 101-binary_tree_levelorder.c:15-26 | once the level count reaches the height, the levels visited hold every stored value once per node |
| Traversals.LevelsBelowPrefix | 101-binary_tree_levelorder.c:100-108 | the visits of the first j levels are a prefix of those of the first k levels, for j <= k |
| Traversals.PathsOfLengthSpec | 101-binary_tree_levelorder.c:15-26 | the reference list of paths for a depth holds every path of exactly that many steps, once each |
| Traversals.LevelVisitsAtDepth | 101-binary_tree_levelorder.c:15-26 | the level helper visits exactly the nodes at the given depth, left to right: the values at the ends of the paths of that many steps |
| Traversals.LevelsBelowByDepth | 101-binary_tree_levelorder.c:100-108 | the first k rounds of the level loop visit the nodes of depth 0, then depth 1, and so on up to depth k - 1 |
| Traversals.LevelOrder | 101-binary_tree_levelorder.c:91-109 | the loop visits every node exactly once, the root first, and in depth order: all nodes of depth 0, then of depth 1, up to the height, each depth left to right |
| Completeness.IsCompleteRecBounds | 102-binary_tree_is_complete.c:36-53 | the helper accepts exactly when every heap index of the subtree is below the size |
| Completeness.IndicesCount | 102-binary_tree_is_complete.c:46-47 | distinct nodes receive distinct heap indices |
| Completeness.IsCompleteSpec | 102-binary_tree_is_complete.c:67-75 | answers 0 or 1, and 1 exactly for a non-empty tree whose n nodes carry the indices 0 .. n - 1 |
| Completeness.CompleteIffDense | 102-binary_tree_is_complete.c:67-75 | equivalently, 1 exactly when every slot below the size is filled and no other one is |
| Completeness.CompleteNoRightOnly | 102-binary_tree_is_complete.c:36-53 | in a complete tree no node has a right child without a left one |
| Completeness.CompleteIndexBound | 102-binary_tree_is_complete.c:36-53 | a complete tree of height h fills 2^h - 1 upper positions and a non-empty prefix of the bottom level, and its indices respect that bound |
| Completeness.CompleteOfHeightIsComplete | 102-binary_tree_is_complete.c:67-75 | every tree built level by level, left to right, passes the check |
| Rotations.RotateLeft | 103-binary_tree_rotate_left.c:14-47 | the rotated tree has the same in-order sequence, the same values and the same size, and is empty exactly when the input is |
| Rotations.RotateRight | 104-binary_tree_rotate_right.c:14-47 | the rotated tree has the same in-order sequence, the same values and the same size, and is empty exactly when the input is |
| Rotations.RotationsInverse | 103-binary_tree_rotate_left.c:23-44 | a right rotation undoes a left rotation and vice versa |
| Rotations.RotateLeftKeepsOrder | 103-binary_tree_rotate_left.c:23-44 | the left rotation keeps a BST a BST (and a non-BST a non-BST) and keeps the set of values |
| Rotations.RotateRightKeepsOrder | 104-binary_tree_rotate_right.c:23-44 | the right rotation keeps a BST a BST (and a non-BST a non-BST) and keeps the set of values |
| PointerRotations.RotateLeft | 103-binary_tree_rotate_left.c:14-47 | NULL or a childless node comes back untouched; otherwise the right child is returned as the new subtree root, takes the old parent and that parent's link, the old root becomes its left child, and its former left subtree moves under the old root with its parent pointer updated |
| PointerRotations.RotateLeftLinked | 103-binary_tree_rotate_left.c:23-44 | those writes turn a linked subtree `(a x (b y c))` into the linked subtree `((a x b) y c)` over the same nodes |
| PointerRotations.RotateLeftValues | 103-binary_tree_rotate_left.c:23-44 | the rotated layout holds exactly the value-level left rotation of the old tree |
| PointerRotations.RotateLeftAt | 103-binary_tree_rotate_left.c:14-47 | called on the root of a linked subtree `(a x (b y c))`, rotate_left returns `y`, which takes over the old root's parent, and leaves `((a x b) y c)` linked over the same nodes, holding the value-level left rotation of the old tree |
| PointerRotations.RotateRight | 104-binary_tree_rotate_right.c:14-47 | mirror of PointerRotations.RotateLeft |
| PointerRotations.RotateRightLinked | 104-binary_tree_rotate_right.c:23-44 | mirror of RotateLeftLinked |
| PointerRotations.RotateRightValues | 104-binary_tree_rotate_right.c:23-44 | mirror of RotateLeftValues |
| PointerRotations.RotateRightAt | 104-binary_tree_rotate_right.c:14-47 | mirror of RotateLeftAt |
| SearchTrees.IsBstRecSpec | 110-binary_tree_is_bst.c:19-31 | the bounded check accepts exactly the trees ordered without duplicates whose values lie within the bounds |
| SearchTrees.IsBstSpec | 110-binary_tree_is_bst.c:45-53 | answers 0 or 1, and 1 exactly for a non-empty strictly ordered tree of C `int` values |
| SearchTrees.SingleNodeIsBst | 110-binary_tree_is_bst.c:19-31 | a single node is accepted |
| SearchTrees.OrderedIffInOrderIncreasing | 7-binary_tree_inorder.c:23-29 | a tree is strictly ordered exactly when its in-order sequence is strictly increasing |
| BstOps.InsertionPointSpec | 111-bst_insert.c:15-42 | on a BST the descent finds a receiving node exactly when the value is absent, and the child slot it will use is free |
| BstOps.BstIns | 111-bst_insert.c:56-88 | the value set grows by exactly the value; an absent value is added exactly once |
| BstOps.BstInsSpec | 111-bst_insert.c:21-38 | insertion keeps a BST ordered and leaves it unchanged for a value already stored |
| BstOps.BstInsertReturnsNode | 111-bst_insert.c:73-85 | on a BST a node is returned exactly when the value was absent |
| BstOps.BstOfSeq | 112-array_to_bst.c:17-36 | the tree built from values is a BST holding exactly the distinct values, empty only for no values |
| BstOps.BstOfSeqSnoc | 112-array_to_bst.c:30-34 | building from one value more is inserting that value into the tree built so far |
| BstOps.ArrayToBst | 112-array_to_bst.c:17-36 | the loop builds exactly that tree: a BST of the array's distinct values, NULL for an empty array |
| SearchTrees.BstSearchSpec | 113-bst_search.c:16-40 | on a BST the search finds a node exactly when the value is stored, that node holds the value, and it looks at no more nodes than the height plus one |
| SearchTrees.BstSearchSubtree | 113-bst_search.c:16-40 | whatever the search returns is a subtree of the tree |
| BstOps.FindLeftmostNode | 114-bst_remove.c:14-22 | the loop returns NULL for an empty tree, otherwise the leftmost node |
| BstOps.MinSpec | 114-bst_remove.c:14-22 | the leftmost value is stored, and on a BST no stored value is smaller |
| BstOps.BstRemoveAbsent | 114-bst_remove.c:39-104 | removing an absent value changes nothing |
| BstOps.BstRemoveAgrees | 114-bst_remove.c:39-93 | whenever the node holding the value has at most one child, or the value is absent, the removal as written is the correct removal |
| BstOps.BstRemoveTwoChildren | 114-bst_remove.c:96-101 | the two-child case as written copies the smallest value of the left subtree into the node, stores it twice and breaks the order |
| BstOps.BstRemoveCounterexample | 114-bst_remove.c:96-101 | removing 2 from the BST 1 2 3 leaves 1 at the root above a leaf 1 |
| BstOps.BstDeleteSpec | 114-bst_remove.c:39-104 | the corrected removal keeps a BST ordered and takes away exactly the one stored copy of the value |
| SearchTrees.AvlBalanceCheckSpec | 120-binary_tree_is_avl.c:111-129 | the balance sweep reports 0 exactly when every node's subtrees differ in height by at most one |
| SearchTrees.IsAvlSpec | 120-binary_tree_is_avl.c:144-162 | answers 0 or 1, and 1 exactly for a non-empty strictly ordered tree of C `int` values that is balanced within one level everywhere |
| AvlInsert.RebalanceKeepsOrder | 121-avl_insert.c:52-65 | the rotation step keeps the order and the values |
| AvlInsert.SingleRightBalanced | 121-avl_insert.c:52-54 | the left-left case: one right rotation restores balance at the old height |
| AvlInsert.DoubleRightBalanced | 121-avl_insert.c:55-58 | the left-right case: the two rotations restore balance at the old height |
| AvlInsert.SingleLeftBalanced | 121-avl_insert.c:59-61 | the right-right case, mirror of the left-left one |
| AvlInsert.DoubleLeftBalanced | 121-avl_insert.c:62-65 | the right-left case, mirror of the left-right one |
| AvlInsert.InsertedLeft | 121-avl_insert.c:33-66 | after an insertion into the left subtree the rotation step restores the AVL promise at the node |
| AvlInsert.InsertedRight | 121-avl_insert.c:33-66 | after an insertion into the right subtree the rotation step restores the AVL promise at the node |
| AvlInsert.AvlIns | 121-avl_insert.c:24-67 | an ordered AVL tree stays an ordered AVL tree; the value set grows by exactly the value, added once, or the tree is unchanged for a duplicate; the height grows by at most one |
| AvlInsert.AvlInsert | 121-avl_insert.c:85-101 | the tree is AvlIns's, and a node is returned exactly when the value was absent |
| AvlInsert.AvlOfSeq | 122-array_to_avl.c:15-50 | the tree built from values is an ordered AVL tree of exactly the distinct values, empty only for no values |
| AvlInsert.AvlOfSeqSnoc | 122-array_to_avl.c:29-46 | one more value is one more insertion, and a repeated value changes nothing |
| AvlInsert.ArrayToAvl | 122-array_to_avl.c:15-50 | the loop builds exactly that tree: an ordered AVL tree of the array's distinct values, NULL for an empty array |
| AvlRemove.InorderSuccessorIsMin | 123-avl_remove.c:53-70 | when 0 is not stored, the successor search returns the smallest value |
| AvlRemove.RemoveBelowAgrees | 123-avl_remove.c:83-123 | when 0 is not stored, this file's removal is the correct BST removal |
| AvlRemove.BalanceSweep | 123-avl_remove.c:14-38 | the post-order sweep keeps the in-order sequence and the values, and keeps the tree non-empty |
| AvlRemove.BalanceSweepOfBalanced | 123-avl_remove.c:14-38 | the sweep leaves an AVL-balanced tree alone |
| AvlRemove.BalanceSweepKeepsOrder | 123-avl_remove.c:14-38 | the sweep keeps a BST a BST and keeps the set of values |
| AvlRemove.AvlRemoveKeepsOrder | 123-avl_remove.c:186-198 | on a BST not storing 0, removal keeps the order and takes away exactly the one stored copy of the value |
| AvlRemove.ZeroSuccessorCounterexample | 123-avl_remove.c:53-70 | removing -1 from the AVL tree -5 -1 0 stores 0 twice and breaks the order |
| AvlRemove.SingleRotationCounterexample | 123-avl_remove.c:30-37 | removing 4 from the AVL tree (1 (2)) 3 (4) leaves a tree that is not AVL-balanced |
| AvlRemove.RebalanceAfterDelete | 123-avl_remove.c:30-37 | the corrected rebalancing keeps the in-order sequence and the values |
| AvlRemove.RebalanceAfterDeleteShape | 123-avl_remove.c:30-37 | with double rotations, a node whose balanced sides differ by at most two levels comes out balanced, and a node already balanced is untouched |
| AvlRemove.AvlDelete | 123-avl_remove.c:140-198 | the corrected removal keeps an ordered AVL tree, takes away exactly the one stored copy of the value, and lowers the height by at most one |
| SortedToAvl.CreateBalancedAvlInOrder | 124-sorted_array_to_avl.c:21-49 | the in-order sequence of the tree built from a range is that range |
| SortedToAvl.CreateBalancedAvlSplit | 124-sorted_array_to_avl.c:32-46 | the tree built from n elements has n nodes, and at every node the right side has as many nodes as the left or one more |
| SortedToAvl.EvenlySplitShape | 124-sorted_array_to_avl.c:43-46 | such an evenly split tree is AVL-balanced and floor(log2 n) levels tall |
| SortedToAvl.CreateBalancedAvlShape | 124-sorted_array_to_avl.c:21-49 | the tree built from a range of n elements is AVL-balanced and floor(log2 n) levels tall |
| SortedToAvl.SortedArrayToAvlInOrder | 124-sorted_array_to_avl.c:68-75 | the in-order sequence of the result is the array, and the result is empty exactly for an empty array |
| SortedToAvl.SortedArrayToAvlShape | 124-sorted_array_to_avl.c:68-75 | the result is AVL-balanced and floor(log2 n) levels tall |
| SortedToAvl.HeightAtLeastLog2 | 124-sorted_array_to_avl.c:68-75 | no tree of n nodes is shorter than floor(log2 n), so the result has the least possible height |
| SortedToAvl.SortedArrayToAvlSpec | 124-sorted_array_to_avl.c:68-75 | from a strictly increasing array: an ordered AVL tree of exactly its values and size, no taller than any tree of that size |
| Heaps.HeapRootMax | 130-binary_tree_is_heap.c:88-109 | in a heap-ordered tree no value exceeds the root's |
| Heaps.CompleteDefined | 130-binary_tree_is_heap.c:124-131 | the completeness check, run first, admits only trees on which is_heap does not dereference NULL |
| Heaps.IsHeapRecSpec | 130-binary_tree_is_heap.c:88-109 | on a complete tree is_heap answers exactly whether it is non-empty and every node is at least its children |
| Heaps.IsHeapSpec | 130-binary_tree_is_heap.c:124-131 | answers 0 or 1, and 1 exactly for a non-empty complete tree in which every node is at least its children |
| Heaps.HeapMaxAtRoot | 130-binary_tree_is_heap.c:124-131 | the root of an accepted tree holds its largest value |
| Heaps.SameShapeProperties | 131-heap_insert.c:78-120 | trees with the same shape agree on size, height, completeness and perfectness, whatever values they hold |
| HeapInsertion.HeightWrapped | 131-heap_insert.c:15-35 | -1 exactly for the empty tree and never below -1 |
| HeapInsertion.HeightWrappedOfPerfect | 131-heap_insert.c:15-35 | on a perfect tree the wrapped height is the true height |
| HeapInsertion.IsPerfectHeapSpec | 131-heap_insert.c:47-65 | despite the wrapped heights, answers 0 or 1, and 1 exactly for non-empty perfect trees |
| HeapInsertion.SwapLeft | 131-heap_insert.c:78-120 | after swap_nodes with the left child, the node holds the larger of the two values |
| HeapInsertion.SwapLeftBag | 131-heap_insert.c:78-120 | the swap with the left child moves values and never adds or drops one |
| HeapInsertion.SwapRight | 131-heap_insert.c:78-120 | after swap_nodes with the right child, the node holds the larger of the two values |
| HeapInsertion.SwapRightBag | 131-heap_insert.c:78-120 | the swap with the right child moves values and never adds or drops one |
| HeapInsertion.HeapInsert | 131-heap_insert.c:136-178 | the result is never empty |
| HeapInsertion.HeapInsertBag | 131-heap_insert.c:136-178 | exactly one copy of the value is added and every other value is kept, duplicates included |
| HeapInsertion.HeapInsertReturnsNewNode | 131-heap_insert.c:152-176 | the node returned lies in the new heap and holds the inserted value |
| HeapInsertion.HeapInsertOrder | 131-heap_insert.c:136-178 | a heap-ordered tree stays heap-ordered, and the root ends up holding the larger of the old root and the value |
| HeapInsertion.HeapInsertShape | 131-heap_insert.c:148-176 | the new node takes the next free slot: a complete tree stays complete, one level taller exactly when it was perfect |
| HeapInsertion.HeapInsertKeepsComplete | 131-heap_insert.c:148-176 | the same, without naming the height |
| HeapFromArray.HeapOfSeqOrdered | 132-array_to_heap.c:23-26 | every prefix of insertions builds a heap-ordered tree |
| HeapFromArray.HeapOfSeqComplete | 132-array_to_heap.c:23-26 | every prefix of insertions builds a complete tree |
| HeapFromArray.HeapOfSeqBag | 132-array_to_heap.c:23-26 | every prefix of insertions builds a tree holding exactly the values inserted so far |
| HeapFromArray.HeapOfSeqSpec | 132-array_to_heap.c:15-29 | non-empty input gives a tree the heap check accepts, of exactly the input's values and size |
| HeapFromArray.ArrayToHeap | 132-array_to_heap.c:15-29 | the loop builds exactly that tree: a heap of the array's values, duplicates included |
| HeapExtraction.CDiv | 133-heap_extract.c:165-166 | C division truncates toward zero: the remainder is smaller than the divisor in magnitude and never has the opposite sign to the dividend |
| HeapExtraction.SiftDown | 133-heap_extract.c:32-58 | trickle_down never empties or fills a tree |
| HeapExtraction.TrickleDown | 133-heap_extract.c:32-58 | the loop computes SiftDown |
| HeapExtraction.SiftDownBag | 133-heap_extract.c:41-57 | trickle_down only moves values |
| HeapExtraction.SiftDownDense | 133-heap_extract.c:41-57 | trickle_down keeps every node where it was |
| HeapExtraction.SiftDownOfHeap | 133-heap_extract.c:43-56 | on a heap-ordered tree trickle_down swaps nothing |
| HeapExtraction.SiftDownHeap | 133-heap_extract.c:43-56 | from a node whose subtrees are heap-ordered, trickle_down leaves a heap-ordered tree |
| HeapExtraction.FindParentOutside | 133-heap_extract.c:74-93 | find_parent finds nothing outside the subtree of the target index |
| HeapExtraction.FindParentDense | 133-heap_extract.c:74-93 | in a complete tree find_parent finds the node at every index below the size |
| HeapExtraction.CutChildDense | 133-heap_extract.c:117-132 | unlinking the last node leaves a complete tree of one node fewer |
| HeapExtraction.CutChildBag | 133-heap_extract.c:117-132 | unlinking the last node removes exactly its value |
| HeapExtraction.DeleteLastNodeHeap | 133-heap_extract.c:104-136 | on a heap of n >= 2 nodes, delete_last_node leaves a heap of n - 1 nodes holding the old values less the root's |
| HeapExtraction.HeapExtractSpec | 133-heap_extract.c:149-176 | on an accepted heap, returns the root value, which is the largest; leaves a heap holding the other values, or the empty tree for a single node |
| HeapToArray.ExtractKeepsHeap | 133-heap_extract.c:149-176 | extraction stays defined and leaves a heap (or nothing) of one node fewer |
| HeapToArray.ExtractAllBag | 134-heap_to_sorted_array.c:57-61 | extracting as many values as the heap holds yields each value as often as it is stored |
| HeapToArray.ExtractAllSorted | 134-heap_to_sorted_array.c:57-61 | those values come out largest first |
| HeapToArray.HeapToSortedArray | 134-heap_to_sorted_array.c:38-65 | size 0 and NULL for an empty heap; otherwise an array of the heap's size holding the successive extractions, non-increasing and a permutation of the heap's values |
| HeapToArray.HeapToSortedArraySorted | 134-heap_to_sorted_array.c:38-65 | the successive extractions are non-increasing, a permutation of the heap's values, and as many as the heap's nodes |

## Left out

- The pointer-level form of the mutators in 111-114, 121-124 and 131-134 is not modelled. These are the BST, AVL and heap inserts and removals, the builders and the heap extraction. They are modelled on tree values. The parent pointers they maintain, their in-place updates, and the caller's root handle (`bst_t **`) are not modelled. The pointer-level model covers the node constructor, the child splices and the rotations.
- HeapInsertion.SwapLeft, HeapInsertion.SwapRight: swap_nodes relinks the two nodes so that node identity moves up. On values this is the two nodes trading values. The node returned by heap_insert is tracked by its path (HeapInsertion.HeapInsertReturnsNewNode), not by object identity.
- 3-binary_tree_delete.c is not part of this model. It only frees memory. The `free` calls elsewhere appear as the node disappearing from the tree value. Dangling pointers and leaks are not modelled: avl_remove's return of a freed node, and the heap pointer left dangling by heap_to_sorted_array.
- Allocation failure, the `malloc` NULL paths, is not modelled. Allocation always succeeds.
- Visitor callbacks: only the sequence of values passed to the callback is modelled. A NULL callback, and the callback's own effects, are not modelled.
- C integer limits are modelled only in part. Values are unbounded integers. The BST and AVL checks start from INT_MIN and INT_MAX, but the overflow of `n - 1` and `n + 1` at those bounds is not modelled. `size_t` is an unbounded `nat`. The `size_t` wrap-arounds that matter are written out where they change a result: the height of an empty side read as -1, the negative levels of the level-order helper, the wrapped heights of heap_insert, and C's truncating division in heap_extract.
- The count_nodes helpers of 133 and 134, and the binary_tree_size copies in 102 and 130, are all modelled by Trees.Size.
- The helpers copied into several files are modelled once when the copies agree. The copies that differ are modelled separately: the two calculate_tree_balance functions, the two binary_tree_is_perfect functions and the two bst_remove functions.
- AvlRemove.AvlRemoveKeepsOrder: no AVL balance is claimed after avl_remove as written, because its single-rotation sweep does not guarantee it (see Findings). The ordering and value facts are proved only when 0 is not stored.
- Family.Ancestor: the general "lowest common ancestor" property is not claimed. It holds only for the special cases listed in the table; see Findings.
- The crash paths are modelled as preconditions:
  - rotating without the needed child;
  - removing the tree root with fewer than two children in 123, which dereferences its parent;
  - is_heap on a node with only a right child;
  - heap_extract on a tree where find_parent fails.
- A parent chain must be supplied to the parent-climbing operations. It says the climb ends, which the C code silently assumes.
- array_to_avl's NULL return when avl_insert fails for a first occurrence is not reachable: in the model, avl_insert returns NULL only for a value already stored.

## Findings

| source | as written | input that shows it | evidently intended | confidence | as-written member | corrected member |
|---|---|---|---|---|---|---|
| 114-bst_remove.c:96-101 | the two-child case copies `find_leftmost_node(root)` (the smallest value of the LEFT subtree) into the node, then removes that value from the right subtree, where it is never found | removing 2 from the BST with root 2 and leaves 1 and 3 leaves root 1 above the leaf 1 | copy the in-order successor (smallest value of the right subtree) and remove it from there | high, not executed | BstOps.BstRemoveCounterexample | BstOps.BstDeleteSpec |
| 123-avl_remove.c:53-70 | `find_inorder_successor` uses 0 as "no successor", so a stored 0 is taken as the successor but never removed below | removing -1 from the AVL tree with root -1 and leaves -5 and 0 stores 0 twice | return the smallest value itself | high, not executed | AvlRemove.ZeroSuccessorCounterexample | AvlRemove.AvlDelete |
| 123-avl_remove.c:30-37 | balance_avl_tree applies only single rotations | removing 4 from the AVL tree with root 3, left child 1 (right child 2) and right leaf 4 leaves a tree out of balance by two | a double rotation when the taller child leans inward | high, not executed | AvlRemove.SingleRotationCounterexample | AvlRemove.RebalanceAfterDeleteShape |
| 100-binary_trees_ancestor.c:45 | when neither special case holds, both nodes climb one step at once, which can step past the lowest common ancestor when they sit at different depths | below root - a - b, a node five links deep under b's left child and b's right child (three links deep) give a, not b | climb the deeper node until both are equally deep, then climb both | high, not executed | Family.AncestorOvershoots | Family.LowestCommonAncestorIsLowest |
