/**
 * AVL removal (123), on tree values: the binary-search-tree removal of that file with
 * its 0-as-"no successor" convention, then a post-order sweep that applies one single
 * rotation at every node out of balance.  Both are modelled as written; next to them
 * stands the removal they evidently mean, proved to keep an ordered AVL tree.
 */
module AvlRemove {
  import opened Trees
  import opened Traversals
  import opened SearchTrees
  import opened Rotations
  import opened BstOps
  import opened AvlInsert

  /**
   * find_inorder_successor: 0 for the empty tree; otherwise the value found further down
   * the left children, or this node's value when that search answers 0.
   */
  function InorderSuccessor(t: Tree): int
  {
    match t
    case Nil => 0
    case Node(l, x, _) =>
      var below := InorderSuccessor(l);
      if below == 0 then x else below
  }

  /** When 0 is not stored, the successor search finds the smallest value. */
  lemma {:induction false} InorderSuccessorIsMin(t: Tree)
    requires t.Node? && 0 !in Contents(t)
    ensures InorderSuccessor(t) == Min(t)
  {
    if t.left != Nil {
      InorderSuccessorIsMin(t.left);
      MinStored(t.left);
    }
  }

  /**
   * bst_remove of the AVL file, at a node that has a parent to unlink it from: a node
   * without children disappears, a node with one child is replaced by it, and a node with
   * two children takes the successor value, which is then removed from the right subtree
   * unless it is 0.
   */
  function RemoveBelow(t: Tree, value: int): Tree
  {
    match t
    case Nil => Nil
    case Node(l, x, r) =>
      if value < x then Node(RemoveBelow(l, value), x, r)
      else if value > x then Node(l, x, RemoveBelow(r, value))
      else if l == Nil && r == Nil then Nil
      else if l == Nil then r
      else if r == Nil then l
      else
        var s := InorderSuccessor(r);
        Node(l, s, if s != 0 then RemoveBelow(r, s) else r)
  }

  /** When 0 is not stored, the removal is the one with the true in-order successor. */
  lemma {:induction false} RemoveBelowAgrees(t: Tree, value: int)
    requires 0 !in Contents(t)
    ensures RemoveBelow(t, value) == BstDelete(t, value)
  {
    if t.Node? {
      var l, x, r := t.left, t.n, t.right;
      if value < x {
        RemoveBelowAgrees(l, value);
      } else if value > x {
        RemoveBelowAgrees(r, value);
      } else if l != Nil && r != Nil {
        InorderSuccessorIsMin(r);
        MinStored(r);
        RemoveBelowAgrees(r, Min(r));
      }
    }
  }

  /**
   * balance_avl_tree: the empty tree and a leaf stay; otherwise both subtrees are swept
   * first, then a right rotation when the node's balance factor exceeds 1 and a left
   * rotation when it is below -1.
   */
  function BalanceSweep(t: Tree): (s: Tree)
    ensures InOrder(s) == InOrder(t) && Bag(s) == Bag(t)
    ensures s.Node? <==> t.Node?
  {
    if t == Nil || (t.left == Nil && t.right == Nil) then t
    else
      var u := Node(BalanceSweep(t.left), t.n, BalanceSweep(t.right));
      BalanceIsHeightDifference(u);
      if Balance(u) > 1 then RotateRight(u)
      else if Balance(u) < -1 then RotateLeft(u)
      else u
  }

  /** The sweep leaves an AVL-balanced tree alone. */
  lemma {:induction false} BalanceSweepOfBalanced(t: Tree)
    requires AvlBalanced(t)
    ensures BalanceSweep(t) == t
  {
    if t.Node? && !(t.left == Nil && t.right == Nil) {
      BalanceSweepOfBalanced(t.left);
      BalanceSweepOfBalanced(t.right);
      BalanceIsHeightDifference(t);
    }
  }

  /** The sweep keeps the search order and the values. */
  lemma BalanceSweepKeepsOrder(t: Tree)
    ensures Ordered(BalanceSweep(t)) <==> Ordered(t)
    ensures Contents(BalanceSweep(t)) == Contents(t)
  {
    OrderedIffInOrderIncreasing(t);
    OrderedIffInOrderIncreasing(BalanceSweep(t));
    BagSameContents(BalanceSweep(t), t);
  }

  /** bst_remove dereferences the parent of the removed node, so the root may not be removed with fewer than two children. */
  predicate CanRemove(t: Tree, value: int)
  {
    !(t.Node? && t.n == value && (t.left == Nil || t.right == Nil))
  }

  /** avl_remove as written: the removal below the root, then the sweep; NULL for the empty tree. */
  function AvlRemove(t: Tree, value: int): Tree
    requires CanRemove(t, value)
  {
    if t == Nil then Nil
    else BalanceSweep(RemoveBelow(t, value))
  }

  /**
   * On an ordered tree that does not store 0, avl_remove keeps the order and takes away
   * exactly the one stored copy of the value.
   */
  lemma AvlRemoveKeepsOrder(t: Tree, value: int)
    requires CanRemove(t, value) && Ordered(t) && 0 !in Contents(t)
    ensures Ordered(AvlRemove(t, value))
    ensures Contents(AvlRemove(t, value)) == Contents(t) - {value}
    ensures value in Contents(t) ==> Bag(AvlRemove(t, value)) + multiset{value} == Bag(t)
  {
    RemoveBelowAgrees(t, value);
    BstDeleteSpec(t, value);
    BalanceSweepKeepsOrder(RemoveBelow(t, value));
  }

  /**
   * The 0 convention: removing -1 from the tree -5 -1 0 puts the stored 0 in the root as
   * "successor" without removing it below, so 0 is stored twice and the order breaks.
   */
  lemma ZeroSuccessorCounterexample()
    ensures var t := Node(Node(Nil, -5, Nil), -1, Node(Nil, 0, Nil));
            Ordered(t) && AvlBalanced(t) &&
            AvlRemove(t, -1) == Node(Node(Nil, -5, Nil), 0, Node(Nil, 0, Nil)) &&
            !Ordered(AvlRemove(t, -1))
  {
    var t := Node(Node(Nil, -5, Nil), -1, Node(Nil, 0, Nil));
    assert Contents(t.left) == {-5} && Contents(t.right) == {0};
    var s := Node(Node(Nil, -5, Nil), 0, Node(Nil, 0, Nil));
    assert RemoveBelow(t, -1) == s;
    assert BalanceSweep(s) == s by {
      assert Balance(s) == 0;
    }
    assert 0 in Contents(s.right);
  }

  /**
   * Single rotations only: removing 4 from the AVL tree (1 (2)) 3 (4) leaves the left side
   * two levels taller, whose taller child leans right; the right rotation the sweep applies
   * leaves the root two levels out of balance the other way.
   */
  lemma SingleRotationCounterexample()
    ensures var t := Node(Node(Nil, 1, Node(Nil, 2, Nil)), 3, Node(Nil, 4, Nil));
            Ordered(t) && AvlBalanced(t) &&
            AvlRemove(t, 4) == Node(Nil, 1, Node(Node(Nil, 2, Nil), 3, Nil)) &&
            !AvlBalanced(AvlRemove(t, 4))
  {
    var t := Node(Node(Nil, 1, Node(Nil, 2, Nil)), 3, Node(Nil, 4, Nil));
    assert Contents(t.left) == {1, 2} && Contents(t.right) == {4};
    assert Contents(t.left.right) == {2};
    var u := Node(Node(Nil, 1, Node(Nil, 2, Nil)), 3, Nil);
    assert RemoveBelow(t, 4) == u;
    assert BalanceSweep(u.left) == u.left by {
      assert Balance(u.left) == -1;
    }
    assert Balance(u) == 2;
    assert BalanceSweep(u) == RotateRight(u);
  }

  /**
   * The rebalancing avl_remove evidently means: when one side is two levels taller, a
   * single rotation if that side's outer subtree is at least as tall as its inner one,
   * otherwise the double rotation.
   */
  function RebalanceAfterDelete(t: Tree): (s: Tree)
    requires t.Node?
    ensures InOrder(s) == InOrder(t) && Bag(s) == Bag(t)
  {
    BalanceIsHeightDifference(t);
    var bf := Balance(t);
    if bf > 1 then
      if Height(t.left.left) >= Height(t.left.right) then RotateRight(t)
      else RotateRight(Node(RotateLeft(t.left), t.n, t.right))
    else if bf < -1 then
      if Height(t.right.right) >= Height(t.right.left) then RotateLeft(t)
      else RotateLeft(Node(t.left, t.n, RotateRight(t.right)))
    else t
  }

  /** The left-left case when both children of the taller child are equally tall. */
  lemma SingleRightBalancedEven(a: Tree, y: int, b: Tree, x: int, r: Tree)
    requires AvlBalanced(a) && AvlBalanced(b) && AvlBalanced(r)
    requires Height(a) == Height(r) + 1 && Height(b) == Height(r) + 1
    ensures AvlBalanced(RotateRight(Node(Node(a, y, b), x, r)))
    ensures Height(RotateRight(Node(Node(a, y, b), x, r))) == Height(r) + 3
  {
    var inner := Node(b, x, r);
    assert RotateRight(Node(Node(a, y, b), x, r)) == Node(a, y, inner);
    HeightOfNode(b, x, r);
    HeightOfNode(a, y, inner);
  }

  lemma SingleLeftBalancedEven(l: Tree, x: int, b: Tree, y: int, a: Tree)
    requires AvlBalanced(l) && AvlBalanced(b) && AvlBalanced(a)
    requires Height(a) == Height(l) + 1 && Height(b) == Height(l) + 1
    ensures AvlBalanced(RotateLeft(Node(l, x, Node(b, y, a))))
    ensures Height(RotateLeft(Node(l, x, Node(b, y, a)))) == Height(l) + 3
  {
    var inner := Node(l, x, b);
    assert RotateLeft(Node(l, x, Node(b, y, a))) == Node(inner, y, a);
    HeightOfNode(l, x, b);
    HeightOfNode(inner, y, a);
  }

  /**
   * A node whose balanced subtrees differ in height by at most two comes out of the
   * rebalancing balanced, as tall as its taller subtree or one level more, and untouched
   * when it was already balanced.
   */
  lemma RebalanceAfterDeleteShape(l: Tree, x: int, r: Tree)
    requires AvlBalanced(l) && AvlBalanced(r) && -2 <= Height(l) - Height(r) <= 2
    ensures AvlBalanced(RebalanceAfterDelete(Node(l, x, r)))
    ensures var m := if Height(l) > Height(r) then Height(l) else Height(r);
            m <= Height(RebalanceAfterDelete(Node(l, x, r))) <= m + 1
    ensures -1 <= Height(l) - Height(r) <= 1 ==> RebalanceAfterDelete(Node(l, x, r)) == Node(l, x, r)
  {
    var t := Node(l, x, r);
    BalanceIsHeightDifference(t);
    HeightOfNode(l, x, r);
    if Height(l) - Height(r) == 2 {
      var a, y, b := l.left, l.n, l.right;
      HeightOfNode(a, y, b);
      if Height(a) >= Height(b) {
        if Height(b) == Height(r) {
          SingleRightBalanced(a, y, b, x, r);
        } else {
          SingleRightBalancedEven(a, y, b, x, r);
        }
      } else {
        DoubleRightBalanced(a, y, b, x, r);
      }
    } else if Height(r) - Height(l) == 2 {
      var b, y, a := r.left, r.n, r.right;
      HeightOfNode(b, y, a);
      if Height(a) >= Height(b) {
        if Height(b) == Height(l) {
          SingleLeftBalanced(l, x, b, y, a);
        } else {
          SingleLeftBalancedEven(l, x, b, y, a);
        }
      } else {
        DoubleLeftBalanced(l, x, b, y, a);
      }
    }
  }

  /** Two trees with the same in-order sequence and the same values are ordered together. */
  lemma SameInOrderKeepsOrder(u: Tree, s: Tree)
    requires InOrder(s) == InOrder(u) && Bag(s) == Bag(u)
    ensures Ordered(s) <==> Ordered(u)
    ensures Contents(s) == Contents(u)
  {
    OrderedIffInOrderIncreasing(u);
    OrderedIffInOrderIncreasing(s);
    BagSameContents(s, u);
  }

  /** The rebalancing keeps the search order and the values. */
  lemma RebalanceAfterDeleteKeepsOrder(u: Tree)
    requires u.Node? && Ordered(u)
    ensures Ordered(RebalanceAfterDelete(u))
    ensures Bag(RebalanceAfterDelete(u)) == Bag(u) && Contents(RebalanceAfterDelete(u)) == Contents(u)
  {
    SameInOrderKeepsOrder(u, RebalanceAfterDelete(u));
  }

  /** What the corrected removal promises about `s`, removed from `t`. */
  ghost predicate AvlDeletePost(t: Tree, value: int, s: Tree)
  {
    DeletePost(t, value, s) && AvlBalanced(s) && Height(t) - 1 <= Height(s) <= Height(t)
  }

  /** The shape after a removal that shrank one subtree by at most one level. */
  lemma ShrunkShape(t: Tree, u: Tree)
    requires t.Node? && u.Node? && AvlBalanced(t) && AvlBalanced(u.left) && AvlBalanced(u.right)
    requires (u.right == t.right && Height(t.left) - 1 <= Height(u.left) <= Height(t.left)) ||
             (u.left == t.left && Height(t.right) - 1 <= Height(u.right) <= Height(t.right))
    ensures AvlBalanced(RebalanceAfterDelete(u))
    ensures Height(t) - 1 <= Height(RebalanceAfterDelete(u)) <= Height(t)
    ensures u.left == t.left && u.right == t.right ==> RebalanceAfterDelete(u) == u
  {
    HeightOfNode(t.left, t.n, t.right);
    HeightOfNode(u.left, u.n, u.right);
    RebalanceAfterDeleteShape(u.left, u.n, u.right);
  }

  /** A removal below a node, followed by the rebalancing, keeps the promise at the node. */
  lemma DeletedBelow(t: Tree, u: Tree, value: int)
    requires t.Node? && Ordered(t) && AvlBalanced(t) && u.Node? && u.n == t.n
    requires (value < t.n && u.right == t.right && AvlDeletePost(t.left, value, u.left)) ||
             (t.n < value && u.left == t.left && AvlDeletePost(t.right, value, u.right))
    ensures AvlDeletePost(t, value, RebalanceAfterDelete(u))
  {
    assert RemovedBelow(t, value, u);
    ShrunkShape(t, u);
    DeleteBelowOrder(t, u, value);
    DeleteBelowBag(t, u, value);
    RebalanceAfterDeleteKeepsOrder(u);
  }

  /** Replacing a node's value by its successor, removed from the right, keeps the promise at the node. */
  lemma DeletedTwoChildren(t: Tree, r': Tree)
    requires t.Node? && Ordered(t) && AvlBalanced(t) && t.left.Node? && t.right.Node?
    requires AvlDeletePost(t.right, Min(t.right), r')
    ensures AvlDeletePost(t, t.n, RebalanceAfterDelete(Node(t.left, Min(t.right), r')))
  {
    var u := Node(t.left, Min(t.right), r');
    MinStored(t.right);
    ShrunkShape(t, u);
    DeleteTwoChildrenOrder(t, r');
    DeleteTwoChildrenBag(t, r');
    RebalanceAfterDeleteKeepsOrder(u);
    assert t.n in Contents(t);
  }

  /** Removing the value of a node with at most one child keeps the promise at the node. */
  lemma DeletedOneChild(t: Tree)
    requires t.Node? && Ordered(t) && AvlBalanced(t) && (t.left == Nil || t.right == Nil)
    ensures AvlDeletePost(t, t.n, if t.left == Nil then t.right else t.left)
  {
    if t.left == Nil {
      DeletedOnlyRight(t);
    } else {
      DeletedOnlyLeft(t);
    }
    assert Height(t) - 1 <= Height(if t.left == Nil then t.right else t.left) <= Height(t) by {
      HeightOfNode(t.left, t.n, t.right);
    }
  }

  lemma DeletedOnlyRight(t: Tree)
    requires t.Node? && Ordered(t) && t.left == Nil
    ensures DeletePost(t, t.n, t.right)
  {
    assert Contents(t) == {t.n} + Contents(t.right);
    assert Bag(t) == multiset{t.n} + Bag(t.right);
  }

  lemma DeletedOnlyLeft(t: Tree)
    requires t.Node? && Ordered(t) && t.right == Nil
    ensures DeletePost(t, t.n, t.left)
  {
    assert Contents(t) == Contents(t.left) + {t.n};
    assert Bag(t) == Bag(t.left) + multiset{t.n};
  }

  /**
   * The removal avl_remove evidently means: the in-order successor for a node with two
   * children, and at every node on the way back the rebalancing with double rotations.
   * It keeps an ordered AVL tree, takes away exactly the one stored copy of the value, and
   * lowers the height by at most one.
   */
  function AvlDelete(t: Tree, value: int): (s: Tree)
    requires Ordered(t) && AvlBalanced(t)
    ensures Ordered(s) && AvlBalanced(s)
    ensures Contents(s) == Contents(t) - {value}
    ensures value in Contents(t) ==> Bag(s) + multiset{value} == Bag(t)
    ensures value !in Contents(t) ==> s == t
    ensures Height(t) - 1 <= Height(s) <= Height(t)
  {
    match t
    case Nil => Nil
    case Node(l, x, r) =>
      if value < x then
        var u := Node(AvlDelete(l, value), x, r);
        DeletedBelow(t, u, value);
        RebalanceAfterDelete(u)
      else if value > x then
        var u := Node(l, x, AvlDelete(r, value));
        DeletedBelow(t, u, value);
        RebalanceAfterDelete(u)
      else if l == Nil || r == Nil then
        DeletedOneChild(t);
        if l == Nil then r else l
      else
        var m := Min(r);
        var r' := AvlDelete(r, m);
        MinStored(r);
        DeletedTwoChildren(t, r');
        RebalanceAfterDelete(Node(l, m, r'))
  }
}
