/**
 * The linked node of binary_trees.h and the operations that work on the pointers
 * themselves: construction, splicing a child in, the depth loop, sibling, uncle,
 * root test, the parent-chain ancestor search and the two rotations.
 *
 * A tree of linked nodes is described by a ghost `Layout`: the shape, with the node
 * object sitting in each cell.  `Linked(L)` says the pointers agree with the shape and
 * no node occurs twice; `Abs(L)` is the tree value the nodes hold, so the results of
 * the pointer operations can be compared with the value model of the Trees module.
 */
module Linking {
  import opened Trees

  /** binary_tree_t: a value, the parent back-pointer and the two children. */
  class TreeNode {
    var n: int
    var parent: TreeNode?
    var left: TreeNode?
    var right: TreeNode?

    /**
     * binary_tree_node: a node holding `value` whose parent is `parent` and which
     * has no children; the parent itself is not linked to it.
     */
    constructor (parent: TreeNode?, value: int)
      ensures n == value && this.parent == parent
      ensures left == null && right == null
    {
      n := value;
      this.parent := parent;
      left := null;
      right := null;
    }
  }

  /** The shape of a linked tree, with the node object of every cell. */
  datatype Layout = Void | Cell(left: Layout, node: TreeNode, right: Layout)

  function Root(L: Layout): TreeNode?
  {
    if L.Void? then null else L.node
  }

  ghost function Nodes(L: Layout): set<TreeNode>
  {
    match L
    case Void => {}
    case Cell(l, x, r) => Nodes(l) + {x} + Nodes(r)
  }

  /** The nodes below the root of `L`: those whose parent pointer `Linked` constrains. */
  ghost function Inner(L: Layout): set<TreeNode>
  {
    if L.Void? then {} else Nodes(L) - {L.node}
  }

  /**
   * The child pointers of every cell name the roots of its sub-layouts, every node
   * below the root points back at its cell's node, and no node occurs twice.  The
   * root's own parent pointer is left free, so a subtree of a larger tree is linked.
   */
  ghost predicate Linked(L: Layout)
    reads Nodes(L)`left, Nodes(L)`right, Inner(L)`parent
  {
    match L
    case Void => true
    case Cell(l, x, r) =>
      x !in Nodes(l) && x !in Nodes(r) && Nodes(l) !! Nodes(r) &&
      x.left == Root(l) && x.right == Root(r) &&
      (l.Cell? ==> l.node.parent == x) && (r.Cell? ==> r.node.parent == x) &&
      Linked(l) && Linked(r)
  }

  /** The tree value held by the nodes of `L`. */
  ghost function Abs(L: Layout): Tree
    reads Nodes(L)`n
  {
    match L
    case Void => Nil
    case Cell(l, x, r) => Node(Abs(l), x.n, Abs(r))
  }

  /** Every node of a layout already exists, so a freshly allocated node is not one of them. */
  lemma {:induction false} NodesAllocated(L: Layout)
    ensures forall y | y in Nodes(L) :: allocated(y)
  {
    if L.Cell? {
      NodesAllocated(L.left);
      NodesAllocated(L.right);
    }
  }

  /** A linked layout has as many nodes as the tree it holds. */
  lemma {:induction false} LinkedSize(L: Layout)
    requires Linked(L)
    ensures Size(Abs(L)) == |Nodes(L)|
  {
    if L.Cell? {
      LinkedSize(L.left);
      LinkedSize(L.right);
      assert Nodes(L) == Nodes(L.left) + {L.node} + Nodes(L.right);
    }
  }

  /** Linkage survives any change that leaves the pointer fields it depends on alone. */
  twostate lemma {:induction false} LinkedUnchanged(L: Layout)
    requires old(Linked(L))
    requires forall y | y in Nodes(L) :: old(allocated(y))
    requires unchanged(Nodes(L)`left, Nodes(L)`right, Inner(L)`parent)
    ensures Linked(L)
  {
    if L.Cell? {
      assert Inner(L.left) <= Nodes(L.left) <= Inner(L);
      assert Inner(L.right) <= Nodes(L.right) <= Inner(L);
      LinkedUnchanged(L.left);
      LinkedUnchanged(L.right);
    }
  }

  /** The held values depend on the value fields alone. */
  twostate lemma {:induction false} AbsUnchanged(L: Layout)
    requires forall y | y in Nodes(L) :: old(allocated(y))
    requires unchanged(Nodes(L)`n)
    ensures Abs(L) == old(Abs(L))
  {
    if L.Cell? {
      assert Nodes(L) == Nodes(L.left) + {L.node} + Nodes(L.right);
      AbsUnchanged(L.left);
      AbsUnchanged(L.right);
    }
  }

  /** Two linked layouts with disjoint nodes hang linked below a node that points at them. */
  lemma LinkCell(l: Layout, x: TreeNode, r: Layout)
    requires Linked(l) && Linked(r)
    requires x !in Nodes(l) && x !in Nodes(r) && Nodes(l) !! Nodes(r)
    requires x.left == Root(l) && x.right == Root(r)
    requires (l.Cell? ==> l.node.parent == x) && (r.Cell? ==> r.node.parent == x)
    ensures Linked(Cell(l, x, r))
  {
  }

  // ---------------------------------------------------------------------------
  // Splicing a new child in (binary_tree_insert_left, binary_tree_insert_right)

  /** The tree after a new left child holding `value` is put above the old left subtree. */
  function GraftLeft(t: Tree, value: int): Tree
    requires t.Node?
  {
    Node(Node(t.left, value, Nil), t.n, t.right)
  }

  /** The tree after a new right child holding `value` is put above the old right subtree. */
  function GraftRight(t: Tree, value: int): Tree
    requires t.Node?
  {
    Node(t.left, t.n, Node(Nil, value, t.right))
  }

  /** Splicing a left child keeps every old value and adds `value` once: the tree grows by one node. */
  lemma GraftLeftSpec(t: Tree, value: int)
    requires t.Node?
    ensures Bag(GraftLeft(t, value)) == Bag(t) + multiset{value}
    ensures Size(GraftLeft(t, value)) == Size(t) + 1
  {
    assert Bag(Node(t.left, value, Nil)) == Bag(t.left) + multiset{value};
    assert Size(Node(t.left, value, Nil)) == Size(t.left) + 1;
  }

  /** Splicing a right child keeps every old value and adds `value` once. */
  lemma GraftRightSpec(t: Tree, value: int)
    requires t.Node?
    ensures Bag(GraftRight(t, value)) == Bag(t) + multiset{value}
    ensures Size(GraftRight(t, value)) == Size(t) + 1
  {
    assert Bag(Node(Nil, value, t.right)) == multiset{value} + Bag(t.right);
    assert Size(Node(Nil, value, t.right)) == 1 + Size(t.right);
  }

  /**
   * binary_tree_insert_left: NULL for a NULL parent; otherwise a new node holding
   * `value` becomes `parent`'s left child and takes the old left child, if any, as
   * its own left child, whose parent pointer now names the new node.  Nothing else
   * is written.
   */
  method InsertLeft(parent: TreeNode?, value: int) returns (node: TreeNode?)
    modifies (if parent != null then {parent} else {})`left
    modifies (if parent != null then {parent.left} else {})`parent
    ensures parent == null ==> node == null
    ensures parent != null ==>
      node != null && fresh(node) && node.n == value && node.parent == parent &&
      node.left == old(parent.left) && node.right == null && parent.left == node
    ensures parent != null && old(parent.left) != null ==> old(parent.left).parent == node
  {
    if parent == null {
      return null;
    }
    node := new TreeNode(parent, value);
    if parent.left != null {
      node.left := parent.left;
      parent.left.parent := node;
    }
    parent.left := node;
  }

  /**
   * After InsertLeft on the root of a linked subtree, the subtree with the new node
   * spliced in is linked and holds exactly one node more.
   */
  twostate lemma InsertLeftLinked(L: Layout, new node: TreeNode)
    requires L.Cell? && old(Linked(L))
    requires forall y | y in Nodes(L) :: old(allocated(y))
    requires node !in Nodes(L)
    requires node.parent == L.node && node.left == old(L.node.left) && node.right == null
    requires L.node.left == node
    requires old(L.node.left) != null ==> old(L.node.left).parent == node
    requires unchanged(Nodes(L)`right, Nodes(L)`n, Inner(L)`left, Inner(L.right)`parent)
    requires unchanged(Inner(L.left)`parent)
    requires L.right.Cell? ==> unchanged(L.right.node`parent)
    ensures var L' := Cell(Cell(L.left, node, Void), L.node, L.right);
      Linked(L') && Nodes(L') == Nodes(L) + {node}
  {
    var l, x, r := L.left, L.node, L.right;
    assert Nodes(L) == Nodes(l) + {x} + Nodes(r);
    LinkedUnchanged(l);
    LinkedUnchanged(r);
    assert old(x.left) == Root(l) && old(x.right) == Root(r);
    assert node.left == Root(l) && node !in Nodes(l);
    assert l.Cell? ==> l.node.parent == node;
    LinkCell(l, node, Void);
    assert Nodes(Cell(l, node, Void)) == Nodes(l) + {node};
    LinkCell(Cell(l, node, Void), x, r);
  }

  /** The spliced subtree holds the old tree with the new value put above the old left subtree. */
  twostate lemma InsertLeftValues(L: Layout, new node: TreeNode)
    requires L.Cell? && node !in Nodes(L)
    requires forall y | y in Nodes(L) :: old(allocated(y))
    requires unchanged(Nodes(L)`n)
    ensures Abs(Cell(Cell(L.left, node, Void), L.node, L.right)) == GraftLeft(old(Abs(L)), node.n)
  {
    var l, x, r := L.left, L.node, L.right;
    assert Nodes(L) == Nodes(l) + {x} + Nodes(r);
    AbsUnchanged(l);
    AbsUnchanged(r);
    assert old(Abs(L)) == Node(old(Abs(l)), old(x.n), old(Abs(r)));
    assert x.n == old(x.n);
    assert Abs(Cell(l, node, Void)) == Node(Abs(l), node.n, Nil);
    assert Abs(Cell(Cell(l, node, Void), x, r)) == Node(Abs(Cell(l, node, Void)), x.n, Abs(r));
  }

  /**
   * binary_tree_insert_left called on `parent`, the root of a linked subtree `L`: the subtree with
   * the new node spliced in on the left is linked, has one node more, and holds the
   * old tree with `value` put above the old left subtree.
   */
  method InsertLeftInto(parent: TreeNode, value: int, ghost L: Layout) returns (node: TreeNode?)
    requires L.Cell? && L.node == parent && Linked(L)
    modifies {L.node}`left, {L.node.left}`parent
    ensures node != null && fresh(node) && node.parent == L.node && L.node.left == node
    ensures var L' := Cell(Cell(L.left, node, Void), L.node, L.right);
      Linked(L') && Nodes(L') == Nodes(L) + {node} &&
      Abs(L') == GraftLeft(old(Abs(L)), value)
  {
    NodesAllocated(L);
    assert L.node.left == Root(L.left);
    assert Nodes(L) == Nodes(L.left) + {L.node} + Nodes(L.right);
    label before:
    node := InsertLeft(parent, value);
    InsertLeftLinked@before(L, node);
    InsertLeftValues@before(L, node);
  }

  /** binary_tree_insert_right: the mirror image of InsertLeft. */
  method InsertRight(parent: TreeNode?, value: int) returns (node: TreeNode?)
    modifies (if parent != null then {parent} else {})`right
    modifies (if parent != null then {parent.right} else {})`parent
    ensures parent == null ==> node == null
    ensures parent != null ==>
      node != null && fresh(node) && node.n == value && node.parent == parent &&
      node.right == old(parent.right) && node.left == null && parent.right == node
    ensures parent != null && old(parent.right) != null ==> old(parent.right).parent == node
  {
    if parent == null {
      return null;
    }
    var rightChild := new TreeNode(parent, value);
    if parent.right != null {
      rightChild.right := parent.right;
      parent.right.parent := rightChild;
    }
    parent.right := rightChild;
    return rightChild;
  }

  /** The mirror image of InsertLeftLinked. */
  twostate lemma InsertRightLinked(L: Layout, new node: TreeNode)
    requires L.Cell? && old(Linked(L))
    requires forall y | y in Nodes(L) :: old(allocated(y))
    requires node !in Nodes(L)
    requires node.parent == L.node && node.right == old(L.node.right) && node.left == null
    requires L.node.right == node
    requires old(L.node.right) != null ==> old(L.node.right).parent == node
    requires unchanged(Nodes(L)`left, Nodes(L)`n, Inner(L)`right, Inner(L.left)`parent)
    requires unchanged(Inner(L.right)`parent)
    requires L.left.Cell? ==> unchanged(L.left.node`parent)
    ensures var L' := Cell(L.left, L.node, Cell(Void, node, L.right));
      Linked(L') && Nodes(L') == Nodes(L) + {node}
  {
    var l, x, r := L.left, L.node, L.right;
    assert Nodes(L) == Nodes(l) + {x} + Nodes(r);
    LinkedUnchanged(l);
    LinkedUnchanged(r);
    assert old(x.right) == Root(r) && old(x.left) == Root(l);
    assert node.right == Root(r) && node !in Nodes(r);
    assert r.Cell? ==> r.node.parent == node;
    LinkCell(Void, node, r);
    assert Nodes(Cell(Void, node, r)) == {node} + Nodes(r);
    LinkCell(l, x, Cell(Void, node, r));
  }

  /** The mirror image of InsertLeftValues. */
  twostate lemma InsertRightValues(L: Layout, new node: TreeNode)
    requires L.Cell? && node !in Nodes(L)
    requires forall y | y in Nodes(L) :: old(allocated(y))
    requires unchanged(Nodes(L)`n)
    ensures Abs(Cell(L.left, L.node, Cell(Void, node, L.right))) == GraftRight(old(Abs(L)), node.n)
  {
    var l, x, r := L.left, L.node, L.right;
    assert Nodes(L) == Nodes(l) + {x} + Nodes(r);
    AbsUnchanged(l);
    AbsUnchanged(r);
    assert old(Abs(L)) == Node(old(Abs(l)), old(x.n), old(Abs(r)));
    assert x.n == old(x.n);
    assert Abs(Cell(Void, node, r)) == Node(Nil, node.n, Abs(r));
    assert Abs(Cell(l, x, Cell(Void, node, r))) == Node(Abs(l), x.n, Abs(Cell(Void, node, r)));
  }

  /** binary_tree_insert_right called on the root of a linked subtree: the mirror image of InsertLeftInto. */
  method InsertRightInto(parent: TreeNode, value: int, ghost L: Layout) returns (node: TreeNode?)
    requires L.Cell? && L.node == parent && Linked(L)
    modifies {L.node}`right, {L.node.right}`parent
    ensures node != null && fresh(node) && node.parent == L.node && L.node.right == node
    ensures var L' := Cell(L.left, L.node, Cell(Void, node, L.right));
      Linked(L') && Nodes(L') == Nodes(L) + {node} &&
      Abs(L') == GraftRight(old(Abs(L)), value)
  {
    NodesAllocated(L);
    assert L.node.right == Root(L.right);
    assert Nodes(L) == Nodes(L.left) + {L.node} + Nodes(L.right);
    label before:
    node := InsertRight(parent, value);
    InsertRightLinked@before(L, node);
    InsertRightValues@before(L, node);
  }
}
