/**
 * The two rotations, on tree values.  The pointer surgery on linked nodes is in the
 * PointerRotations module; here each rotation is the tree it leaves behind.
 */
module Rotations {
  import opened Trees
  import opened Traversals
  import opened SearchTrees

  /** binary_tree_rotate_left dereferences the right child of any node with children. */
  predicate CanRotateLeft(t: Tree)
  {
    !(t.Node? && t.left != Nil && t.right == Nil)
  }

  /** binary_tree_rotate_right dereferences the left child of any node with children. */
  predicate CanRotateRight(t: Tree)
  {
    !(t.Node? && t.right != Nil && t.left == Nil)
  }

  /**
   * binary_tree_rotate_left: the right child becomes the root, the old root its left
   * child, and the right child's former left subtree the old root's right subtree.  The
   * empty tree and a leaf come back unchanged.
   */
  function RotateLeft(t: Tree): (s: Tree)
    requires CanRotateLeft(t)
    ensures InOrder(s) == InOrder(t)
    ensures Bag(s) == Bag(t) && Size(s) == Size(t)
    ensures s.Node? <==> t.Node?
  {
    if t == Nil || (t.left == Nil && t.right == Nil) then t
    else Node(Node(t.left, t.n, t.right.left), t.right.n, t.right.right)
  }

  /** binary_tree_rotate_right: the mirror image of the left rotation. */
  function RotateRight(t: Tree): (s: Tree)
    requires CanRotateRight(t)
    ensures InOrder(s) == InOrder(t)
    ensures Bag(s) == Bag(t) && Size(s) == Size(t)
    ensures s.Node? <==> t.Node?
  {
    if t == Nil || (t.left == Nil && t.right == Nil) then t
    else Node(t.left.left, t.left.n, Node(t.left.right, t.n, t.right))
  }

  /** Rotations undo each other on every tree they rotate. */
  lemma RotationsInverse(t: Tree)
    ensures t.Node? && t.right.Node? ==> RotateRight(RotateLeft(t)) == t
    ensures t.Node? && t.left.Node? ==> RotateLeft(RotateRight(t)) == t
  {
  }

  /** A rotation keeps the binary-search-tree order and the set of values. */
  lemma RotateLeftKeepsOrder(t: Tree)
    requires CanRotateLeft(t)
    ensures Ordered(RotateLeft(t)) <==> Ordered(t)
    ensures Contents(RotateLeft(t)) == Contents(t)
  {
    OrderedIffInOrderIncreasing(t);
    OrderedIffInOrderIncreasing(RotateLeft(t));
    BagSameContents(RotateLeft(t), t);
  }

  lemma RotateRightKeepsOrder(t: Tree)
    requires CanRotateRight(t)
    ensures Ordered(RotateRight(t)) <==> Ordered(t)
    ensures Contents(RotateRight(t)) == Contents(t)
  {
    OrderedIffInOrderIncreasing(t);
    OrderedIffInOrderIncreasing(RotateRight(t));
    BagSameContents(RotateRight(t), t);
  }
}
