/**
 * AVL insertion (121), on tree values: the recursive descent, then at every node on
 * the way back the four rotation cases chosen by the balance factor and by the
 * inserted value.
 */
module AvlInsert {
  import opened Trees
  import opened Traversals
  import opened SearchTrees
  import opened Rotations

  /** What the rebalancing step dereferences is there. */
  predicate RebalanceOk(t: Tree, value: int)
  {
    t.Node? &&
    (Balance(t) > 1 ==> t.left.Node? && (t.left.n < value ==> CanRotateLeft(t.left))) &&
    (Balance(t) < -1 ==> t.right.Node? && (t.right.n > value ==> CanRotateRight(t.right)))
  }

  /**
   * The rebalancing step of insert_avl_node: a right rotation when the left side is
   * too tall and the value went left of the left child, a left-right rotation when
   * it went right of it, and the mirror cases.
   */
  function Rebalance(t: Tree, value: int): Tree
    requires RebalanceOk(t, value)
  {
    var bf := Balance(t);
    if bf > 1 && t.left.n > value then RotateRight(t)
    else if bf > 1 && t.left.n < value then RotateRight(Node(RotateLeft(t.left), t.n, t.right))
    else if bf < -1 && t.right.n < value then RotateLeft(t)
    else if bf < -1 && t.right.n > value then RotateLeft(Node(t.left, t.n, RotateRight(t.right)))
    else t
  }

  /** Height of a node from the heights of its subtrees. */
  lemma HeightOfNode(l: Tree, x: int, r: Tree)
    ensures Height(Node(l, x, r)) == (if Height(l) > Height(r) then Height(l) else Height(r)) + 1
  {
  }

  /** The left-left case: one right rotation restores balance at the old height. */
  lemma SingleRightBalanced(a: Tree, y: int, b: Tree, x: int, r: Tree)
    requires AvlBalanced(a) && AvlBalanced(b) && AvlBalanced(r)
    requires Height(a) == Height(r) + 1 && Height(b) == Height(r)
    ensures AvlBalanced(RotateRight(Node(Node(a, y, b), x, r)))
    ensures Height(RotateRight(Node(Node(a, y, b), x, r))) == Height(r) + 2
  {
    var inner := Node(b, x, r);
    assert RotateRight(Node(Node(a, y, b), x, r)) == Node(a, y, inner);
    HeightOfNode(b, x, r);
    HeightOfNode(a, y, inner);
  }

  /** The right-right case, mirror of the left-left one. */
  lemma SingleLeftBalanced(l: Tree, x: int, b: Tree, y: int, a: Tree)
    requires AvlBalanced(l) && AvlBalanced(b) && AvlBalanced(a)
    requires Height(a) == Height(l) + 1 && Height(b) == Height(l)
    ensures AvlBalanced(RotateLeft(Node(l, x, Node(b, y, a))))
    ensures Height(RotateLeft(Node(l, x, Node(b, y, a)))) == Height(l) + 2
  {
    var inner := Node(l, x, b);
    assert RotateLeft(Node(l, x, Node(b, y, a))) == Node(inner, y, a);
    HeightOfNode(l, x, b);
    HeightOfNode(inner, y, a);
  }

  /** The left-right case: a left rotation of the left child, then a right rotation. */
  lemma DoubleRightBalanced(a: Tree, y: int, c: Tree, x: int, r: Tree)
    requires AvlBalanced(a) && AvlBalanced(c) && AvlBalanced(r) && c.Node?
    requires Height(a) == Height(r) && Height(c) == Height(r) + 1
    ensures CanRotateLeft(Node(a, y, c))
    ensures AvlBalanced(RotateRight(Node(RotateLeft(Node(a, y, c)), x, r)))
    ensures Height(RotateRight(Node(RotateLeft(Node(a, y, c)), x, r))) == Height(r) + 2
  {
    var c1, z, c2 := c.left, c.n, c.right;
    HeightOfNode(c1, z, c2);
    var left, right := Node(a, y, c1), Node(c2, x, r);
    assert RotateLeft(Node(a, y, c)) == Node(left, z, c2);
    assert RotateRight(Node(Node(left, z, c2), x, r)) == Node(left, z, right);
    HeightOfNode(a, y, c1);
    HeightOfNode(c2, x, r);
    HeightOfNode(left, z, right);
  }

  /** The right-left case, mirror of the left-right one. */
  lemma DoubleLeftBalanced(l: Tree, x: int, c: Tree, y: int, a: Tree)
    requires AvlBalanced(l) && AvlBalanced(c) && AvlBalanced(a) && c.Node?
    requires Height(a) == Height(l) && Height(c) == Height(l) + 1
    ensures CanRotateRight(Node(c, y, a))
    ensures AvlBalanced(RotateLeft(Node(l, x, RotateRight(Node(c, y, a)))))
    ensures Height(RotateLeft(Node(l, x, RotateRight(Node(c, y, a))))) == Height(l) + 2
  {
    var c1, z, c2 := c.left, c.n, c.right;
    HeightOfNode(c1, z, c2);
    var left, right := Node(l, x, c1), Node(c2, y, a);
    assert RotateRight(Node(c, y, a)) == Node(c1, z, right);
    assert RotateLeft(Node(l, x, Node(c1, z, right))) == Node(left, z, right);
    HeightOfNode(l, x, c1);
    HeightOfNode(c2, y, a);
    HeightOfNode(left, z, right);
  }

  /** What insert_avl_node promises about the tree `s` it makes from `t` and `value`. */
  ghost predicate InsertPost(t: Tree, value: int, s: Tree)
  {
    InsertOrderPost(t, value, s) && InsertShapePost(t, value, s)
  }

  /** The values and their order: one more value, or the same tree for a duplicate. */
  ghost predicate InsertOrderPost(t: Tree, value: int, s: Tree)
  {
    Ordered(s) &&
    Contents(s) == Contents(t) + {value} &&
    (value in Contents(t) ==> s == t) &&
    (value !in Contents(t) ==> Bag(s) == Bag(t) + multiset{value})
  }

  /**
   * The shape: balanced, at most one level taller, and when taller rooted at the old
   * root and heavier on the side the value went to.
   */
  ghost predicate InsertShapePost(t: Tree, value: int, s: Tree)
  {
    AvlBalanced(s) &&
    Height(t) <= Height(s) <= Height(t) + 1 &&
    (t == Nil ==> s == Node(Nil, value, Nil)) &&
    (t.Node? && Height(s) == Height(t) + 1 ==>
       s.n == t.n &&
       (value < t.n ==> Height(s.left) == Height(s.right) + 1) &&
       (value > t.n ==> Height(s.right) == Height(s.left) + 1))
  }

  /** InsertPost from its parts. */
  lemma InsertPostIntro(t: Tree, value: int, s: Tree)
    requires Ordered(s) && AvlBalanced(s)
    requires Contents(s) == Contents(t) + {value}
    requires value in Contents(t) ==> s == t
    requires value !in Contents(t) ==> Bag(s) == Bag(t) + multiset{value}
    requires Height(t) <= Height(s) <= Height(t) + 1
    requires t == Nil ==> s == Node(Nil, value, Nil)
    requires t.Node? && Height(s) == Height(t) + 1 ==>
               s.n == t.n &&
               (value < t.n ==> Height(s.left) == Height(s.right) + 1) &&
               (value > t.n ==> Height(s.right) == Height(s.left) + 1)
    ensures InsertPost(t, value, s)
  {
  }

  /** The rebalancing step leaves a node that is balanced within one level alone. */
  lemma RebalanceBalanced(t: Tree, value: int)
    requires t.Node? && AvlBalanced(t)
    ensures RebalanceOk(t, value) && Rebalance(t, value) == t
  {
    BalanceIsHeightDifference(t);
  }

  /** The rebalancing step keeps the search order and the values. */
  lemma RebalanceKeepsOrder(u: Tree, value: int)
    requires RebalanceOk(u, value) && Ordered(u)
    ensures Ordered(Rebalance(u, value))
    ensures Bag(Rebalance(u, value)) == Bag(u) && Contents(Rebalance(u, value)) == Contents(u)
  {
    var bf := Balance(u);
    if bf > 1 && u.left.n > value {
      RotateRightKeepsOrder(u);
    } else if bf > 1 && u.left.n < value {
      var lr := RotateLeft(u.left);
      RotateLeftKeepsOrder(u.left);
      assert Contents(Node(lr, u.n, u.right)) == Contents(u);
      RotateRightKeepsOrder(Node(lr, u.n, u.right));
    } else if bf < -1 && u.right.n < value {
      RotateLeftKeepsOrder(u);
    } else if bf < -1 && u.right.n > value {
      var rr := RotateRight(u.right);
      RotateRightKeepsOrder(u.right);
      assert Contents(Node(u.left, u.n, rr)) == Contents(u);
      RotateLeftKeepsOrder(Node(u.left, u.n, rr));
    }
  }

  /**
   * Putting the subtree that received a new value back under the node keeps the order
   * and adds the value to the node's values.
   */
  lemma GrownNodeOrder(t: Tree, u: Tree, value: int)
    requires t.Node? && u.Node? && u.n == t.n && Ordered(t) && value !in Contents(t)
    requires (value < t.n && u.right == t.right && InsertOrderPost(t.left, value, u.left)) ||
             (t.n < value && u.left == t.left && InsertOrderPost(t.right, value, u.right))
    ensures Ordered(u) && Contents(u) == Contents(t) + {value}
  {
    assert Contents(t) == Contents(t.left) + {t.n} + Contents(t.right);
    assert Contents(u) == Contents(u.left) + {u.n} + Contents(u.right);
  }

  /** The same step adds the value once to the node's multiset of values. */
  lemma GrownNodeBag(t: Tree, u: Tree, value: int)
    requires t.Node? && u.Node? && u.n == t.n && value !in Contents(t)
    requires (value < t.n && u.right == t.right && InsertOrderPost(t.left, value, u.left)) ||
             (t.n < value && u.left == t.left && InsertOrderPost(t.right, value, u.right))
    ensures Bag(u) == Bag(t) + multiset{value}
  {
    assert value !in Contents(t.left) && value !in Contents(t.right);
    BagGrows(t.left, t.n, t.right, u.left, u.right, value);
  }

  /** The order part of an insertion of a new value below a node. */
  lemma InsertedOrder(t: Tree, u: Tree, value: int)
    requires t.Node? && u.Node? && u.n == t.n && Ordered(t) && value !in Contents(t)
    requires (value < t.n && u.right == t.right && InsertOrderPost(t.left, value, u.left)) ||
             (t.n < value && u.left == t.left && InsertOrderPost(t.right, value, u.right))
    requires RebalanceOk(u, value)
    ensures InsertOrderPost(t, value, Rebalance(u, value))
  {
    GrownNodeOrder(t, u, value);
    GrownNodeBag(t, u, value);
    RebalanceKeepsOrder(u, value);
  }

  /** A value added to one subtree is added to the tree. */
  lemma BagGrows(l: Tree, x: int, r: Tree, l': Tree, r': Tree, value: int)
    requires Bag(l') + Bag(r') == Bag(l) + Bag(r) + multiset{value}
    ensures Bag(Node(l', x, r')) == Bag(Node(l, x, r)) + multiset{value}
  {
    assert Bag(Node(l', x, r')) == Bag(l') + multiset{x} + Bag(r');
    assert Bag(Node(l, x, r)) == Bag(l) + multiset{x} + Bag(r);
    AddAround(Bag(l), Bag(r), Bag(l'), Bag(r'), x, value);
  }

  /** Putting the same value between both sides of an equation of sums keeps it. */
  lemma AddAround(a: multiset<int>, b: multiset<int>, a': multiset<int>, b': multiset<int>, x: int, v: int)
    requires a' + b' == a + b + multiset{v}
    ensures a' + multiset{x} + b' == a + multiset{x} + b + multiset{v}
  {
    forall y ensures (a' + multiset{x} + b')[y] == (a + multiset{x} + b + multiset{v})[y] {
      assert (a' + b')[y] == (a + b + multiset{v})[y];
    }
  }

  /**
   * The heights after an insertion into the left subtree: either the node stays within
   * one level and is left alone, or the left side is two levels taller and the rotation
   * the inserted value selects brings the node back to its old height.
   */
  lemma InsertedLeftShape(l: Tree, x: int, r: Tree, l': Tree, value: int)
    requires AvlBalanced(Node(l, x, r)) && value < x
    requires InsertShapePost(l, value, l') && (l.Node? ==> value != l.n)
    ensures RebalanceOk(Node(l', x, r), value)
    ensures InsertShapePost(Node(l, x, r), value, Rebalance(Node(l', x, r), value))
  {
    var u := Node(l', x, r);
    HeightOfNode(l, x, r);
    HeightOfNode(l', x, r);
    BalanceIsHeightDifference(u);
    if Height(l') - Height(r) > 1 {
      assert l.Node?;
      var a, y, b := l'.left, l'.n, l'.right;
      if value < y {
        SingleRightBalanced(a, y, b, x, r);
      } else {
        DoubleRightBalanced(a, y, b, x, r);
      }
    }
  }

  lemma InsertedRightShape(l: Tree, x: int, r: Tree, r': Tree, value: int)
    requires AvlBalanced(Node(l, x, r)) && x < value
    requires InsertShapePost(r, value, r') && (r.Node? ==> value != r.n)
    ensures RebalanceOk(Node(l, x, r'), value)
    ensures InsertShapePost(Node(l, x, r), value, Rebalance(Node(l, x, r'), value))
  {
    var u := Node(l, x, r');
    HeightOfNode(l, x, r);
    HeightOfNode(l, x, r');
    BalanceIsHeightDifference(u);
    if Height(r') - Height(l) > 1 {
      assert r.Node?;
      var b, y, a := r'.left, r'.n, r'.right;
      if y < value {
        SingleLeftBalanced(l, x, b, y, a);
      } else {
        DoubleLeftBalanced(l, x, b, y, a);
      }
    }
  }

  /** An insertion into the left subtree of a value already stored changes nothing. */
  lemma InsertedLeftDuplicate(l: Tree, x: int, r: Tree, l': Tree, value: int)
    requires Ordered(Node(l, x, r)) && AvlBalanced(Node(l, x, r)) && value < x
    requires InsertPost(l, value, l')
    requires value in Contents(Node(l, x, r))
    ensures RebalanceOk(Node(l', x, r), value)
    ensures InsertPost(Node(l, x, r), value, Rebalance(Node(l', x, r), value))
  {
    var t := Node(l, x, r);
    assert value in Contents(l);
    RebalanceBalanced(t, value);
    InsertPostIntro(t, value, t);
  }

  /** After an insertion of a new value into the left subtree, the rebalancing step restores the AVL shape. */
  lemma InsertedLeftNew(l: Tree, x: int, r: Tree, l': Tree, value: int)
    requires Ordered(Node(l, x, r)) && AvlBalanced(Node(l, x, r)) && value < x
    requires InsertPost(l, value, l')
    requires value !in Contents(Node(l, x, r))
    ensures RebalanceOk(Node(l', x, r), value)
    ensures InsertPost(Node(l, x, r), value, Rebalance(Node(l', x, r), value))
  {
    assert value !in Contents(l);
    if l.Node? {
      assert l.n in Contents(l);
    }
    InsertedLeftShape(l, x, r, l', value);
    InsertedOrder(Node(l, x, r), Node(l', x, r), value);
  }


  /** After an insertion into the left subtree, the rebalancing step restores the AVL shape. */
  lemma InsertedLeft(l: Tree, x: int, r: Tree, l': Tree, value: int)
    requires Ordered(Node(l, x, r)) && AvlBalanced(Node(l, x, r)) && value < x
    requires InsertPost(l, value, l')
    ensures RebalanceOk(Node(l', x, r), value)
    ensures InsertPost(Node(l, x, r), value, Rebalance(Node(l', x, r), value))
  {
    if value in Contents(Node(l, x, r)) {
      InsertedLeftDuplicate(l, x, r, l', value);
    } else {
      InsertedLeftNew(l, x, r, l', value);
    }
  }



  /** An insertion into the right subtree of a value already stored changes nothing. */
  lemma InsertedRightDuplicate(l: Tree, x: int, r: Tree, r': Tree, value: int)
    requires Ordered(Node(l, x, r)) && AvlBalanced(Node(l, x, r)) && x < value
    requires InsertPost(r, value, r')
    requires value in Contents(Node(l, x, r))
    ensures RebalanceOk(Node(l, x, r'), value)
    ensures InsertPost(Node(l, x, r), value, Rebalance(Node(l, x, r'), value))
  {
    var t := Node(l, x, r);
    assert value in Contents(r);
    RebalanceBalanced(t, value);
    InsertPostIntro(t, value, t);
  }

  /** After an insertion of a new value into the right subtree, the rebalancing step restores the AVL shape. */
  lemma InsertedRightNew(l: Tree, x: int, r: Tree, r': Tree, value: int)
    requires Ordered(Node(l, x, r)) && AvlBalanced(Node(l, x, r)) && x < value
    requires InsertPost(r, value, r')
    requires value !in Contents(Node(l, x, r))
    ensures RebalanceOk(Node(l, x, r'), value)
    ensures InsertPost(Node(l, x, r), value, Rebalance(Node(l, x, r'), value))
  {
    assert value !in Contents(r);
    if r.Node? {
      assert r.n in Contents(r);
    }
    InsertedRightShape(l, x, r, r', value);
    InsertedOrder(Node(l, x, r), Node(l, x, r'), value);
  }


  /** After an insertion into the right subtree, the rebalancing step restores the AVL shape. */
  lemma InsertedRight(l: Tree, x: int, r: Tree, r': Tree, value: int)
    requires Ordered(Node(l, x, r)) && AvlBalanced(Node(l, x, r)) && x < value
    requires InsertPost(r, value, r')
    ensures RebalanceOk(Node(l, x, r'), value)
    ensures InsertPost(Node(l, x, r), value, Rebalance(Node(l, x, r'), value))
  {
    if value in Contents(Node(l, x, r)) {
      InsertedRightDuplicate(l, x, r, r', value);
    } else {
      InsertedRightNew(l, x, r, r', value);
    }
  }



  /**
   * insert_avl_node: the tree after inserting `value` into an AVL tree.  The result is
   * again an ordered AVL tree holding one more value, or the same tree when the value was
   * already there; it is at most one level taller, and when it grew its root is the old
   * root, heavier on the side the value went to.
   */
  function AvlIns(t: Tree, value: int): (s: Tree)
    requires Ordered(t) && AvlBalanced(t)
    ensures Ordered(s) && AvlBalanced(s)
    ensures Contents(s) == Contents(t) + {value}
    ensures value in Contents(t) ==> s == t
    ensures value !in Contents(t) ==> Bag(s) == Bag(t) + multiset{value}
    ensures Height(t) <= Height(s) <= Height(t) + 1
    ensures t == Nil ==> s == Node(Nil, value, Nil)
    ensures t.Node? && Height(s) == Height(t) + 1 ==>
              s.n == t.n &&
              (value < t.n ==> Height(s.left) == Height(s.right) + 1) &&
              (value > t.n ==> Height(s.right) == Height(s.left) + 1)
  {
    match t
    case Nil => Node(Nil, value, Nil)
    case Node(l, x, r) =>
      if x > value then
        var l' := AvlIns(l, value);
        InsertedLeft(l, x, r, l', value);
        Rebalance(Node(l', x, r), value)
      else if x < value then
        var r' := AvlIns(r, value);
        InsertedRight(l, x, r, r', value);
        Rebalance(Node(l, x, r'), value)
      else
        t
  }

  /**
   * avl_insert: the new tree, and whether the C function returns a node (the node it
   * created) rather than NULL (the value was already stored).  A node is created exactly
   * when the descent falls off the tree.
   */
  function AvlInsert(t: Tree, value: int): (r: (Tree, bool))
    requires Ordered(t) && AvlBalanced(t)
    ensures r.0 == AvlIns(t, value)
    ensures r.1 <==> value !in Contents(t)
  {
    BstSearchSpec(t, value);
    (AvlIns(t, value), BstSearch(t, value) == Nil)
  }

  /** The tree array_to_avl builds: the values inserted one after the other. */
  function AvlOfSeq(s: seq<int>): (t: Tree)
    ensures Ordered(t) && AvlBalanced(t)
    ensures Contents(t) == set x | x in s
    ensures t == Nil <==> |s| == 0
  {
    if |s| == 0 then Nil
    else
      var init := s[..|s| - 1];
      assert s == init + [s[|s| - 1]];
      AvlIns(AvlOfSeq(init), s[|s| - 1])
  }

  /** Inserting one more value extends the sequence of inserted values. */
  lemma AvlOfSeqSnoc(s: seq<int>, v: int)
    ensures AvlOfSeq(s + [v]) == AvlIns(AvlOfSeq(s), v)
    ensures v in s ==> AvlOfSeq(s + [v]) == AvlOfSeq(s)
  {
    assert (s + [v])[..|s|] == s;
  }

  /**
   * array_to_avl: every value of the array inserted in order, skipping a value that
   * occurs earlier in the array; the empty tree for an empty array.
   */
  method ArrayToAvl(a: array<int>) returns (t: Tree)
    ensures t == AvlOfSeq(a[..])
    ensures Ordered(t) && AvlBalanced(t)
    ensures Contents(t) == set x | x in a[..]
    ensures t == Nil <==> a.Length == 0
  {
    t := Nil;
    if a.Length == 0 {
      return;
    }
    var x := 0;
    while x < a.Length
      invariant 0 <= x <= a.Length
      invariant t == AvlOfSeq(a[..x])
    {
      var y := 0;
      while y < x && a[y] != a[x]
        invariant 0 <= y <= x
        invariant a[x] !in a[..y]
      {
        assert a[..y + 1] == a[..y] + [a[y]];
        y := y + 1;
      }
      assert a[..x + 1] == a[..x] + [a[x]];
      AvlOfSeqSnoc(a[..x], a[x]);
      if y == x {
        t := AvlIns(t, a[x]);
      } else {
        assert a[x] in a[..x] by {
          assert a[y] == a[..x][y];
        }
      }
      x := x + 1;
    }
    assert a[..a.Length] == a[..];
  }
}
