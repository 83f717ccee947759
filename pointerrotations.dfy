/**
 * binary_tree_rotate_left and binary_tree_rotate_right on linked nodes.  Each method
 * states the handful of pointer writes it makes; the twostate lemmas beside it show
 * that, on a linked subtree, those writes leave a linked subtree holding exactly the
 * rotation of the Rotations module.
 */
module PointerRotations {
  import opened Trees
  import opened Linking
  import Rotations

  /**
   * binary_tree_rotate_left: NULL or a node without children comes back unchanged.
   * Otherwise the right child `pivot` becomes the subtree root: it takes the old root's
   * parent (and that parent's link on the old root's side), the old root becomes its
   * left child, and its former left subtree moves under the old root on the right.
   * A node with only a left child makes the C code dereference NULL, hence the first
   * precondition; the second says the nodes involved are distinct, as in any tree.
   */
  method RotateLeft(tree: TreeNode?) returns (root: TreeNode?)
    requires tree != null && tree.left != null ==> tree.right != null
    requires tree != null && tree.right != null ==>
      tree.right != tree && tree.parent != tree && tree.parent != tree.right &&
      (tree.right.left != null ==>
        tree.right.left != tree && tree.right.left != tree.right && tree.right.left != tree.parent)
    modifies (if tree != null then {tree} else {})`right, (if tree != null then {tree} else {})`parent
    modifies (if tree != null && tree.right != null then {tree.right} else {})`left
    modifies (if tree != null && tree.right != null then {tree.right} else {})`parent
    modifies (if tree != null && tree.right != null && tree.right.left != null then {tree.right.left} else {})`parent
    modifies (if tree != null && tree.parent != null then {tree.parent} else {})`left
    modifies (if tree != null && tree.parent != null then {tree.parent} else {})`right
    ensures tree == null || old(tree.right) == null ==> root == tree
    ensures tree != null && old(tree.right) == null ==>
      unchanged(tree) && (old(tree.parent) != null ==> unchanged(old(tree.parent)))
    ensures tree != null && old(tree.right) != null ==>
      root == old(tree.right) &&
      tree.right == old(tree.right.left) && tree.parent == old(tree.right) &&
      root.left == tree && root.parent == old(tree.parent) &&
      (old(tree.right.left) != null ==> old(tree.right.left).parent == tree)
    ensures tree != null && old(tree.right) != null && old(tree.parent) != null ==>
      if old(tree.parent.left) == tree
      then old(tree.parent).left == old(tree.right) && old(tree.parent).right == old(tree.parent.right)
      else old(tree.parent).right == old(tree.right) && old(tree.parent).left == old(tree.parent.left)
  {
    if tree == null || (tree.left == null && tree.right == null) {
      return tree;
    }
    var pivot := tree.right;
    tree.right := pivot.left;
    if pivot.left != null {
      pivot.left.parent := tree;
    }
    pivot.parent := tree.parent;
    var newRoot: TreeNode? := null;
    if tree.parent == null {
      newRoot := pivot;
    } else if tree == tree.parent.left {
      tree.parent.left := pivot;
    } else {
      tree.parent.right := pivot;
    }
    pivot.left := tree;
    tree.parent := pivot;
    root := if newRoot != null then newRoot else pivot;
  }

  /**
   * The writes of RotateLeft, made on the root of a linked subtree `Cell(a, x, Cell(b, y, c))`,
   * leave the subtree `Cell(Cell(a, x, b), y, c)` linked, over the same nodes.
   */
  twostate lemma RotateLeftLinked(L: Layout)
    requires L.Cell? && L.right.Cell? && old(Linked(L))
    requires forall z | z in Nodes(L) :: old(allocated(z))
    requires var x, y, b := L.node, L.right.node, L.right.left;
      x.right == Root(b) && x.parent == y && y.left == x && (b.Cell? ==> b.node.parent == x)
    requires var a, x, y, b, c := L.left, L.node, L.right.node, L.right.left, L.right.right;
      unchanged(Nodes(a)`left, Nodes(a)`right, Nodes(a)`parent, Nodes(c)`left, Nodes(c)`right, Nodes(c)`parent) &&
      unchanged(Nodes(b)`left, Nodes(b)`right, Inner(b)`parent, x`left, y`right)
    ensures var L' := Cell(Cell(L.left, L.node, L.right.left), L.right.node, L.right.right);
      Linked(L') && Nodes(L') == Nodes(L)
  {
    var a, x, y, b, c := L.left, L.node, L.right.node, L.right.left, L.right.right;
    assert Nodes(L) == Nodes(a) + {x} + (Nodes(b) + {y} + Nodes(c));
    assert old(Linked(L.right));
    LinkedUnchanged(a);
    LinkedUnchanged(b);
    LinkedUnchanged(c);
    assert old(x.left) == Root(a) && old(y.right) == Root(c);
    assert a.Cell? ==> a.node.parent == x;
    assert c.Cell? ==> c.node.parent == y;
    LinkCell(a, x, b);
    assert Nodes(Cell(a, x, b)) == Nodes(a) + {x} + Nodes(b);
    LinkCell(Cell(a, x, b), y, c);
  }

  /** Values only move with their nodes: the rotated layout holds the rotated tree. */
  twostate lemma RotateLeftValues(L: Layout)
    requires L.Cell? && L.right.Cell?
    requires forall z | z in Nodes(L) :: old(allocated(z))
    requires unchanged(Nodes(L)`n)
    ensures Rotations.CanRotateLeft(old(Abs(L)))
    ensures Abs(Cell(Cell(L.left, L.node, L.right.left), L.right.node, L.right.right)) ==
      Rotations.RotateLeft(old(Abs(L)))
  {
    var a, x, y, b, c := L.left, L.node, L.right.node, L.right.left, L.right.right;
    assert Nodes(L) == Nodes(a) + {x} + (Nodes(b) + {y} + Nodes(c));
    AbsUnchanged(a);
    AbsUnchanged(b);
    AbsUnchanged(c);
    assert old(Abs(L.right)) == Node(old(Abs(b)), old(y.n), old(Abs(c)));
    assert old(Abs(L)) == Node(old(Abs(a)), old(x.n), old(Abs(L.right)));
    assert x.n == old(x.n) && y.n == old(y.n);
    assert Abs(Cell(a, x, b)) == Node(Abs(a), x.n, Abs(b));
  }

  /**
   * RotateLeft called on `tree`, the root of a linked subtree `L = Cell(a, x, Cell(b, y, c))`
   * hanging below a node outside it (or below nothing): the right child comes back as the
   * new root, with the old root's parent, and `Cell(Cell(a, x, b), y, c)` is linked over
   * the same nodes and holds `Rotations.RotateLeft` of the old tree.
   */
  method RotateLeftAt(tree: TreeNode, ghost L: Layout) returns (root: TreeNode?)
    requires L.Cell? && L.right.Cell? && L.node == tree && Linked(L)
    requires tree.parent !in Nodes(L)
    modifies {tree}`right, {tree}`parent, {tree.right}`left, {tree.right}`parent
    modifies {tree.right.left}`parent, {tree.parent}`left, {tree.parent}`right
    ensures root == L.right.node && root.parent == old(tree.parent)
    ensures Rotations.CanRotateLeft(old(Abs(L)))
    ensures var L' := Cell(Cell(L.left, L.node, L.right.left), L.right.node, L.right.right);
      Linked(L') && Nodes(L') == Nodes(L) && Abs(L') == Rotations.RotateLeft(old(Abs(L)))
  {
    NodesAllocated(L);
    assert Nodes(L) == Nodes(L.left) + {tree} + (Nodes(L.right.left) + {L.right.node} + Nodes(L.right.right));
    assert tree.right == L.right.node && tree.right.left == Root(L.right.left);
    label before:
    root := RotateLeft(tree);
    RotateLeftLinked@before(L);
    RotateLeftValues@before(L);
  }

  /** binary_tree_rotate_right: the mirror image of RotateLeft. */
  method RotateRight(tree: TreeNode?) returns (root: TreeNode?)
    requires tree != null && tree.right != null ==> tree.left != null
    requires tree != null && tree.left != null ==>
      tree.left != tree && tree.parent != tree && tree.parent != tree.left &&
      (tree.left.right != null ==>
        tree.left.right != tree && tree.left.right != tree.left && tree.left.right != tree.parent)
    modifies (if tree != null then {tree} else {})`left, (if tree != null then {tree} else {})`parent
    modifies (if tree != null && tree.left != null then {tree.left} else {})`right
    modifies (if tree != null && tree.left != null then {tree.left} else {})`parent
    modifies (if tree != null && tree.left != null && tree.left.right != null then {tree.left.right} else {})`parent
    modifies (if tree != null && tree.parent != null then {tree.parent} else {})`left
    modifies (if tree != null && tree.parent != null then {tree.parent} else {})`right
    ensures tree == null || old(tree.left) == null ==> root == tree
    ensures tree != null && old(tree.left) == null ==>
      unchanged(tree) && (old(tree.parent) != null ==> unchanged(old(tree.parent)))
    ensures tree != null && old(tree.left) != null ==>
      root == old(tree.left) &&
      tree.left == old(tree.left.right) && tree.parent == old(tree.left) &&
      root.right == tree && root.parent == old(tree.parent) &&
      (old(tree.left.right) != null ==> old(tree.left.right).parent == tree)
    ensures tree != null && old(tree.left) != null && old(tree.parent) != null ==>
      if old(tree.parent.right) == tree
      then old(tree.parent).right == old(tree.left) && old(tree.parent).left == old(tree.parent.left)
      else old(tree.parent).left == old(tree.left) && old(tree.parent).right == old(tree.parent.right)
  {
    if tree == null || (tree.left == null && tree.right == null) {
      return tree;
    }
    var pivot := tree.left;
    tree.left := pivot.right;
    if pivot.right != null {
      pivot.right.parent := tree;
    }
    pivot.parent := tree.parent;
    var newRoot: TreeNode? := null;
    if tree.parent == null {
      newRoot := pivot;
    } else if tree == tree.parent.right {
      tree.parent.right := pivot;
    } else {
      tree.parent.left := pivot;
    }
    pivot.right := tree;
    tree.parent := pivot;
    root := if newRoot != null then newRoot else pivot;
  }

  /** The mirror image of RotateLeftLinked: `Cell(Cell(a, y, b), x, c)` becomes `Cell(a, y, Cell(b, x, c))`. */
  twostate lemma RotateRightLinked(L: Layout)
    requires L.Cell? && L.left.Cell? && old(Linked(L))
    requires forall z | z in Nodes(L) :: old(allocated(z))
    requires var x, y, b := L.node, L.left.node, L.left.right;
      x.left == Root(b) && x.parent == y && y.right == x && (b.Cell? ==> b.node.parent == x)
    requires var a, x, y, b, c := L.left.left, L.node, L.left.node, L.left.right, L.right;
      unchanged(Nodes(a)`left, Nodes(a)`right, Nodes(a)`parent, Nodes(c)`left, Nodes(c)`right, Nodes(c)`parent) &&
      unchanged(Nodes(b)`left, Nodes(b)`right, Inner(b)`parent, x`right, y`left)
    ensures var L' := Cell(L.left.left, L.left.node, Cell(L.left.right, L.node, L.right));
      Linked(L') && Nodes(L') == Nodes(L)
  {
    var a, x, y, b, c := L.left.left, L.node, L.left.node, L.left.right, L.right;
    assert Nodes(L) == (Nodes(a) + {y} + Nodes(b)) + {x} + Nodes(c);
    assert old(Linked(L.left));
    LinkedUnchanged(a);
    LinkedUnchanged(b);
    LinkedUnchanged(c);
    assert old(y.left) == Root(a) && old(x.right) == Root(c);
    assert a.Cell? ==> a.node.parent == y;
    assert c.Cell? ==> c.node.parent == x;
    LinkCell(b, x, c);
    assert Nodes(Cell(b, x, c)) == Nodes(b) + {x} + Nodes(c);
    LinkCell(a, y, Cell(b, x, c));
  }

  /** The mirror image of RotateLeftValues. */
  twostate lemma RotateRightValues(L: Layout)
    requires L.Cell? && L.left.Cell?
    requires forall z | z in Nodes(L) :: old(allocated(z))
    requires unchanged(Nodes(L)`n)
    ensures Rotations.CanRotateRight(old(Abs(L)))
    ensures Abs(Cell(L.left.left, L.left.node, Cell(L.left.right, L.node, L.right))) ==
      Rotations.RotateRight(old(Abs(L)))
  {
    var a, x, y, b, c := L.left.left, L.node, L.left.node, L.left.right, L.right;
    assert Nodes(L) == (Nodes(a) + {y} + Nodes(b)) + {x} + Nodes(c);
    AbsUnchanged(a);
    AbsUnchanged(b);
    AbsUnchanged(c);
    assert old(Abs(L.left)) == Node(old(Abs(a)), old(y.n), old(Abs(b)));
    assert old(Abs(L)) == Node(old(Abs(L.left)), old(x.n), old(Abs(c)));
    assert x.n == old(x.n) && y.n == old(y.n);
    assert Abs(Cell(b, x, c)) == Node(Abs(b), x.n, Abs(c));
  }

  /**
   * RotateRight called on `tree`, the root of a linked subtree `L = Cell(Cell(a, y, b), x, c)`:
   * the mirror image of RotateLeftAt.
   */
  method RotateRightAt(tree: TreeNode, ghost L: Layout) returns (root: TreeNode?)
    requires L.Cell? && L.left.Cell? && L.node == tree && Linked(L)
    requires tree.parent !in Nodes(L)
    modifies {tree}`left, {tree}`parent, {tree.left}`right, {tree.left}`parent
    modifies {tree.left.right}`parent, {tree.parent}`left, {tree.parent}`right
    ensures root == L.left.node && root.parent == old(tree.parent)
    ensures Rotations.CanRotateRight(old(Abs(L)))
    ensures var L' := Cell(L.left.left, L.left.node, Cell(L.left.right, L.node, L.right));
      Linked(L') && Nodes(L') == Nodes(L) && Abs(L') == Rotations.RotateRight(old(Abs(L)))
  {
    NodesAllocated(L);
    assert Nodes(L) == (Nodes(L.left.left) + {L.left.node} + Nodes(L.left.right)) + {tree} + Nodes(L.right);
    assert tree.left == L.left.node && tree.left.right == Root(L.left.right);
    label before:
    root := RotateRight(tree);
    RotateRightLinked@before(L);
    RotateRightValues@before(L);
  }
}
