/**
 * Binary-search-tree insertion (111), building from an array (112) and removal (114),
 * on tree values.  The removal is modelled as written, including what its two-child
 * case does, next to the removal it evidently means.
 */
module BstOps {
  import opened Trees
  import opened Traversals
  import opened SearchTrees

  /**
   * bst_insert_recursive: the node that receives the new value as a child, found by
   * descending left of larger values and right of smaller ones; the empty tree when the
   * descent meets the value.
   */
  function InsertionPoint(t: Tree, value: int): Tree
  {
    match t
    case Nil => Nil
    case Node(l, x, r) =>
      if value < x then (if l != Nil then InsertionPoint(l, value) else t)
      else if value > x then (if r != Nil then InsertionPoint(r, value) else t)
      else Nil
  }

  /**
   * In a non-empty ordered tree a receiving node is found exactly when the value is not
   * stored, and the child it receives the value in is free.
   */
  lemma {:induction false} InsertionPointSpec(t: Tree, value: int)
    requires Ordered(t) && t.Node?
    ensures InsertionPoint(t, value).Node? <==> value !in Contents(t)
    ensures InsertionPoint(t, value).Node? ==>
              (value < InsertionPoint(t, value).n ==> InsertionPoint(t, value).left == Nil) &&
              (value > InsertionPoint(t, value).n ==> InsertionPoint(t, value).right == Nil) &&
              value != InsertionPoint(t, value).n
  {
    var l, x, r := t.left, t.n, t.right;
    assert Contents(t) == Contents(l) + {x} + Contents(r);
    if value < x && l != Nil {
      InsertionPointSpec(l, value);
    } else if value > x && r != Nil {
      InsertionPointSpec(r, value);
    }
  }

  /** The tree bst_insert leaves: a new leaf where the descent falls off, or the same tree. */
  function BstIns(t: Tree, value: int): (s: Tree)
    ensures Contents(s) == Contents(t) + {value}
    ensures value !in Contents(t) ==> Bag(s) == Bag(t) + multiset{value}
  {
    match t
    case Nil => Node(Nil, value, Nil)
    case Node(l, x, r) =>
      if value < x then Node(BstIns(l, value), x, r)
      else if value > x then Node(l, x, BstIns(r, value))
      else t
  }

  /** On an ordered tree, insertion keeps the order and leaves the tree alone for a stored value. */
  lemma BstInsSpec(t: Tree, value: int)
    requires Ordered(t)
    ensures Ordered(BstIns(t, value))
    ensures value in Contents(t) ==> BstIns(t, value) == t
  {
    BstInsOrdered(t, value);
    if value in Contents(t) {
      BstInsStored(t, value);
    }
  }

  lemma {:induction false} BstInsOrdered(t: Tree, value: int)
    requires Ordered(t)
    ensures Ordered(BstIns(t, value))
  {
    if t.Node? {
      BstInsOrdered(t.left, value);
      BstInsOrdered(t.right, value);
    }
  }

  lemma {:induction false} BstInsStored(t: Tree, value: int)
    requires Ordered(t) && value in Contents(t)
    ensures BstIns(t, value) == t
  {
    if t.Node? && t.n != value {
      assert Contents(t) == Contents(t.left) + {t.n} + Contents(t.right);
      if value < t.n {
        BstInsStored(t.left, value);
      } else {
        BstInsStored(t.right, value);
      }
    }
  }

  /**
   * bst_insert: the new tree, and whether the C function returns a node (the one it
   * created) rather than NULL.
   */
  function BstInsert(t: Tree, value: int): (r: (Tree, bool))
    ensures r.0 == BstIns(t, value)
  {
    if t == Nil then (Node(Nil, value, Nil), true)
    else (BstIns(t, value), InsertionPoint(t, value).Node?)
  }

  /** On an ordered tree bst_insert returns a node exactly when the value was not stored. */
  lemma BstInsertReturnsNode(t: Tree, value: int)
    requires Ordered(t)
    ensures BstInsert(t, value).1 <==> value !in Contents(t)
  {
    if t.Node? {
      InsertionPointSpec(t, value);
    }
  }

  /** The tree array_to_bst builds: the values inserted one after the other. */
  function BstOfSeq(s: seq<int>): (t: Tree)
    ensures Ordered(t)
    ensures Contents(t) == set x | x in s
    ensures t == Nil <==> |s| == 0
  {
    if |s| == 0 then Nil
    else
      var init := s[..|s| - 1];
      assert s == init + [s[|s| - 1]];
      BstInsSpec(BstOfSeq(init), s[|s| - 1]);
      BstIns(BstOfSeq(init), s[|s| - 1])
  }

  lemma BstOfSeqSnoc(s: seq<int>, v: int)
    ensures BstOfSeq(s + [v]) == BstIns(BstOfSeq(s), v)
  {
    assert (s + [v])[..|s|] == s;
  }

  /** array_to_bst: the first value makes the root, then every further value is inserted. */
  method ArrayToBst(a: array<int>) returns (t: Tree)
    ensures t == BstOfSeq(a[..])
    ensures Ordered(t) && Contents(t) == set x | x in a[..]
    ensures t == Nil <==> a.Length == 0
  {
    if a.Length == 0 {
      return Nil;
    }
    var i := 0;
    BstOfSeqSnoc([], a[0]);
    assert a[..1] == [] + [a[0]];
    t := BstIns(Nil, a[i]);
    i := i + 1;
    while i < a.Length
      invariant 1 <= i <= a.Length
      invariant t == BstOfSeq(a[..i])
    {
      assert a[..i + 1] == a[..i] + [a[i]];
      BstOfSeqSnoc(a[..i], a[i]);
      t := BstIns(t, a[i]);
      i := i + 1;
    }
    assert a[..a.Length] == a[..];
  }

  /** The node reached by following left children from the root. */
  function Leftmost(t: Tree): (m: Tree)
    requires t.Node?
    ensures m.Node? && m.left == Nil
  {
    if t.left == Nil then t else Leftmost(t.left)
  }

  /** The smallest value of a non-empty tree, read at its leftmost node. */
  function Min(t: Tree): int
    requires t.Node?
  {
    Leftmost(t).n
  }

  /** The leftmost node holds a stored value, and on an ordered tree no stored value is smaller. */
  lemma MinSpec(t: Tree)
    requires t.Node?
    ensures Min(t) in Contents(t)
    ensures Ordered(t) ==> forall y :: y in Contents(t) ==> Min(t) <= y
  {
    MinStored(t);
    if Ordered(t) {
      MinLeast(t);
    }
  }

  lemma {:induction false} MinStored(t: Tree)
    requires t.Node?
    ensures Min(t) in Contents(t)
  {
    if t.left != Nil {
      MinStored(t.left);
    }
  }

  lemma {:induction false} MinLeast(t: Tree)
    requires t.Node? && Ordered(t)
    ensures forall y :: y in Contents(t) ==> Min(t) <= y
  {
    if t.left != Nil {
      MinLeast(t.left);
      MinStored(t.left);
    }
  }

  /**
   * find_leftmost_node: the while loop down the left children; NULL for the empty tree.
   */
  method FindLeftmostNode(t: Tree) returns (m: Tree)
    ensures t == Nil ==> m == Nil
    ensures t.Node? ==> m == Leftmost(t)
  {
    m := t;
    while m.Node? && m.left.Node?
      invariant t.Node? ==> m.Node? && Leftmost(m) == Leftmost(t)
      invariant t == Nil ==> m == Nil
      decreases m
    {
      m := m.left;
    }
  }

  /**
   * bst_remove as written: a node without children disappears, a node with one child is
   * replaced by it, and a node with two children takes the value of the leftmost node of
   * its own subtree, which is then looked for (and never found) in the right subtree.
   */
  function BstRemove(t: Tree, value: int): Tree
  {
    match t
    case Nil => Nil
    case Node(l, x, r) =>
      if x > value then Node(BstRemove(l, value), x, r)
      else if x < value then Node(l, x, BstRemove(r, value))
      else if l == Nil && r == Nil then Nil
      else if l == Nil then r
      else if r == Nil then l
      else
        var m := Leftmost(t).n;
        Node(l, m, BstRemove(r, m))
  }

  /** Removing a value that is not stored changes nothing. */
  lemma {:induction false} BstRemoveAbsent(t: Tree, value: int)
    requires value !in Contents(t)
    ensures BstRemove(t, value) == t
  {
    if t.Node? {
      BstRemoveAbsent(t.left, value);
      BstRemoveAbsent(t.right, value);
    }
  }

  /**
   * The two-child case of bst_remove: the removed value is replaced by the smallest value
   * of the LEFT subtree, which is then stored twice and breaks the search order.
   */
  lemma BstRemoveTwoChildren(t: Tree)
    requires Ordered(t) && t.Node? && t.left.Node? && t.right.Node?
    ensures BstRemove(t, t.n) == Node(t.left, Min(t.left), t.right)
    ensures !Ordered(BstRemove(t, t.n))
    ensures Bag(BstRemove(t, t.n))[Min(t.left)] == 2
  {
    var l, x, r := t.left, t.n, t.right;
    var m := Min(l);
    MinSpec(l);
    assert Leftmost(t) == Leftmost(l);
    assert m !in Contents(r);
    BstRemoveAbsent(r, m);
    ContentsOfBag(l);
    ContentsOfBag(r);
    assert Bag(l)[m] == 1 by {
      OrderedBagOnce(l, m);
    }
  }

  /** In an ordered tree every stored value is stored once. */
  lemma {:induction false} OrderedBagOnce(t: Tree, v: int)
    requires Ordered(t)
    ensures Bag(t)[v] <= 1
  {
    if t.Node? {
      OrderedBagOnce(t.left, v);
      OrderedBagOnce(t.right, v);
      ContentsOfBag(t.left);
      ContentsOfBag(t.right);
    }
  }

  /** Removing 2 from the tree 1 2 3 leaves 1 at the root above the leaf 1. */
  lemma BstRemoveCounterexample()
    ensures var t := Node(Node(Nil, 1, Nil), 2, Node(Nil, 3, Nil));
            Ordered(t) &&
            BstRemove(t, 2) == Node(Node(Nil, 1, Nil), 1, Node(Nil, 3, Nil)) &&
            !Ordered(BstRemove(t, 2))
  {
    var t := Node(Node(Nil, 1, Nil), 2, Node(Nil, 3, Nil));
    assert Contents(t.left) == {1} && Contents(t.right) == {3};
    assert Leftmost(t) == Node(Nil, 1, Nil);
    assert 1 in Contents(Node(Nil, 1, Nil));
  }

  /**
   * The removal bst_remove evidently means: the two-child case takes the smallest value
   * of the RIGHT subtree (the in-order successor) and removes it from there.
   */
  function BstDelete(t: Tree, value: int): Tree
  {
    match t
    case Nil => Nil
    case Node(l, x, r) =>
      if x > value then Node(BstDelete(l, value), x, r)
      else if x < value then Node(l, x, BstDelete(r, value))
      else if l == Nil && r == Nil then Nil
      else if l == Nil then r
      else if r == Nil then l
      else
        var m := Min(r);
        Node(l, m, BstDelete(r, m))
  }

  /** What removing `value` from an ordered tree `t` should give: `s`. */
  ghost predicate DeletePost(t: Tree, value: int, s: Tree)
  {
    Ordered(s) && Contents(s) == Contents(t) - {value} && DeleteBag(t, value, s)
  }

  /** Exactly the one stored copy of the value goes; nothing changes when there is none. */
  ghost predicate DeleteBag(t: Tree, value: int, s: Tree)
  {
    (value in Contents(t) ==> Bag(s) + multiset{value} == Bag(t)) &&
    (value !in Contents(t) ==> s == t)
  }

  /** The corrected removal keeps the order and takes away exactly the one stored copy of the value. */
  lemma {:induction false} BstDeleteSpec(t: Tree, value: int)
    requires Ordered(t)
    ensures DeletePost(t, value, BstDelete(t, value))
  {
    if t.Node? {
      var l, x, r := t.left, t.n, t.right;
      if x > value {
        BstDeleteSpec(l, value);
        DeleteBelowOrder(t, Node(BstDelete(l, value), x, r), value);
        DeleteBelowBag(t, Node(BstDelete(l, value), x, r), value);
      } else if x < value {
        BstDeleteSpec(r, value);
        DeleteBelowOrder(t, Node(l, x, BstDelete(r, value)), value);
        DeleteBelowBag(t, Node(l, x, BstDelete(r, value)), value);
      } else if l == Nil || r == Nil {
        assert Contents(t) == Contents(l) + {x} + Contents(r);
      } else {
        var m := Min(r);
        BstDeleteSpec(r, m);
        DeleteTwoChildrenOrder(t, BstDelete(r, m));
        MinStored(r);
        DeleteTwoChildrenBag(t, BstDelete(r, m));
      }
    }
  }

  /** `s` is `t` with the removal done in the subtree on the value's side. */
  ghost predicate RemovedBelow(t: Tree, value: int, s: Tree)
  {
    t.Node? && s.Node? && s.n == t.n &&
    ((value < t.n && s.right == t.right && DeletePost(t.left, value, s.left)) ||
     (t.n < value && s.left == t.left && DeletePost(t.right, value, s.right)))
  }

  lemma DeleteBelowOrder(t: Tree, s: Tree, value: int)
    requires Ordered(t) && RemovedBelow(t, value, s)
    ensures Ordered(s) && Contents(s) == Contents(t) - {value}
  {
    assert Contents(t) == Contents(t.left) + {t.n} + Contents(t.right);
    assert Contents(s) == Contents(s.left) + {s.n} + Contents(s.right);
  }

  lemma DeleteBelowBag(t: Tree, s: Tree, value: int)
    requires Ordered(t) && RemovedBelow(t, value, s)
    ensures DeleteBag(t, value, s)
  {
    assert Contents(t) == Contents(t.left) + {t.n} + Contents(t.right);
    if value in Contents(t) {
      if value < t.n {
        assert value in Contents(t.left);
        BagLoses(t.left, t.n, t.right, s.left, t.right, value);
      } else {
        assert value in Contents(t.right);
        BagLoses(t.left, t.n, t.right, t.left, s.right, value);
      }
    }
  }

  /** A value taken from one subtree is taken from the tree. */
  lemma BagLoses(l: Tree, x: int, r: Tree, l': Tree, r': Tree, value: int)
    requires Bag(l') + Bag(r') + multiset{value} == Bag(l) + Bag(r)
    ensures Bag(Node(l', x, r')) + multiset{value} == Bag(Node(l, x, r))
  {
    assert Bag(Node(l', x, r')) == Bag(l') + multiset{x} + Bag(r');
    assert Bag(Node(l, x, r)) == Bag(l) + multiset{x} + Bag(r);
    RemoveAround(Bag(l), Bag(r), Bag(l'), Bag(r'), x, value);
  }

  /** Putting the same value between both sides of an equation of sums keeps it. */
  lemma RemoveAround(a: multiset<int>, b: multiset<int>, a': multiset<int>, b': multiset<int>, x: int, v: int)
    requires a' + b' + multiset{v} == a + b
    ensures a' + multiset{x} + b' + multiset{v} == a + multiset{x} + b
  {
    forall y ensures (a' + multiset{x} + b' + multiset{v})[y] == (a + multiset{x} + b)[y] {
      assert (a' + b' + multiset{v})[y] == (a + b)[y];
    }
  }

  lemma DeleteTwoChildrenOrder(t: Tree, r': Tree)
    requires t.Node? && Ordered(t) && t.right.Node?
    requires DeletePost(t.right, Min(t.right), r')
    ensures Ordered(Node(t.left, Min(t.right), r'))
    ensures Contents(Node(t.left, Min(t.right), r')) == Contents(t) - {t.n}
  {
    var l, x, r := t.left, t.n, t.right;
    var m := Min(r);
    MinSpec(r);
    assert Contents(t) == Contents(l) + {x} + Contents(r);
    assert Contents(Node(l, m, r')) == Contents(l) + {m} + Contents(r');
  }

  lemma DeleteTwoChildrenBag(t: Tree, r': Tree)
    requires t.Node? && t.right.Node?
    requires Bag(r') + multiset{Min(t.right)} == Bag(t.right)
    ensures Bag(Node(t.left, Min(t.right), r')) + multiset{t.n} == Bag(t)
  {
    var l, x, r := t.left, t.n, t.right;
    var m := Min(r);
    var b, b' := Bag(t), Bag(Node(l, m, r')) + multiset{x};
    forall y ensures b'[y] == b[y] {
      assert (Bag(r') + multiset{m})[y] == Bag(r)[y];
    }
  }

  /**
   * Away from the two-child case bst_remove does what it means: when the value is not
   * stored, or the node holding it has at most one child, it agrees with BstDelete.
   */
  lemma {:induction false} BstRemoveAgrees(t: Tree, value: int)
    requires var f := BstSearch(t, value); !(f.Node? && f.left.Node? && f.right.Node?)
    ensures BstRemove(t, value) == BstDelete(t, value)
  {
    if t.Node? && t.n > value {
      BstRemoveAgrees(t.left, value);
    } else if t.Node? && t.n < value {
      BstRemoveAgrees(t.right, value);
    }
  }
}
