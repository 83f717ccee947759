/**
 * heap_insert (131) and array_to_heap (132), on tree values.  swap_nodes relinks the
 * parent and the child so that the child's node moves up; as a tree value that is the
 * two nodes trading values, the shape staying the same.
 */
module HeapInsertion {
  import opened Trees
  import opened Completeness
  import opened Heaps

  /**
   * calculate_binary_treeHeight of the heap file: -1 for the empty tree.  The subtree
   * heights are held in `size_t`, so an empty child reads as SIZE_MAX, wins the
   * comparison and wraps to 0 when one is added: a node missing a child has height 0.
   */
  function HeightWrapped(t: Tree): (h: int)
    ensures h >= -1 && (h == -1 <==> t == Nil)
  {
    match t
    case Nil => -1
    case Node(l, _, r) =>
      if l == Nil || r == Nil then 0
      else
        var hl, hr := HeightWrapped(l), HeightWrapped(r);
        if hl > hr then hl + 1 else hr + 1
  }

  /** On a perfect tree the wrapped height is the height. */
  lemma {:induction false} HeightWrappedOfPerfect(t: Tree, h: int)
    requires PerfectOfHeight(t, h)
    ensures HeightWrapped(t) == h
  {
    if t.Node? {
      HeightWrappedOfPerfect(t.left, h - 1);
      HeightWrappedOfPerfect(t.right, h - 1);
    }
  }

  /**
   * binary_tree_is_perfect of the heap file: both subtrees of equal wrapped height, and
   * then either both empty, both leaves, or both perfect.
   */
  function IsPerfectHeap(t: Tree): int
  {
    if t.Node? && HeightWrapped(t.left) == HeightWrapped(t.right) then
      if HeightWrapped(t.left) == -1 then 1
      else if IsLeaf(t.left) && IsLeaf(t.right) then 1
      else if t.left.Node? && t.right.Node? then
        (if IsPerfectHeap(t.left) == 1 && IsPerfectHeap(t.right) == 1 then 1 else 0)
      else 0
    else 0
  }

  /** Despite the wrapped heights, the check answers 1 exactly for the non-empty perfect trees. */
  lemma {:induction false} IsPerfectHeapSpec(t: Tree)
    ensures IsPerfectHeap(t) == 1 <==> t.Node? && PerfectOfHeight(t, Height(t))
    ensures IsPerfectHeap(t) == 0 || IsPerfectHeap(t) == 1
  {
    if t.Node? {
      var l, r := t.left, t.right;
      IsPerfectHeapSpec(l);
      IsPerfectHeapSpec(r);
      if PerfectOfHeight(t, Height(t)) {
        var h := Height(t);
        PerfectOfHeightIsHeight(l, h - 1);
        PerfectOfHeightIsHeight(r, h - 1);
        HeightWrappedOfPerfect(l, h - 1);
        HeightWrappedOfPerfect(r, h - 1);
        assert IsPerfectHeap(t) == 1;
      }
      if IsPerfectHeap(t) == 1 {
        if l.Node? && r.Node? && !(IsLeaf(l) && IsLeaf(r)) {
          assert IsPerfectHeap(l) == 1 && IsPerfectHeap(r) == 1;
          HeightWrappedOfPerfect(l, Height(l));
          HeightWrappedOfPerfect(r, Height(r));
          assert Height(t) == Height(l) + 1;
        } else if l == Nil {
          assert HeightWrapped(r) == -1;
        }
        assert PerfectOfHeight(t, Height(t));
      }
    }
  }

  /**
   * swap_nodes on a node whose left child is `c`: when the child holds the larger value
   * the two nodes trade places, which on values is the two trading values.
   */
  function SwapLeft(c: Tree, x: int, r: Tree): (s: Tree)
    requires c.Node?
    ensures s.Node? && s.n == (if c.n > x then c.n else x)
  {
    if c.n > x then Node(Node(c.left, x, c.right), c.n, r) else Node(c, x, r)
  }

  /** swap_nodes moves values, never adds or drops one. */
  lemma SwapLeftBag(c: Tree, x: int, r: Tree)
    requires c.Node?
    ensures Bag(SwapLeft(c, x, r)) == Bag(c) + multiset{x} + Bag(r)
  {
    if c.n > x {
      var b, y, d := Bag(c.left), c.n, Bag(c.right);
      assert Bag(SwapLeft(c, x, r)) == (b + multiset{x} + d) + multiset{y} + Bag(r);
      assert Bag(c) == b + multiset{y} + d;
      Exchange(b, d, Bag(r), x, y);
    }
  }

  lemma ExchangeRight(e: multiset<int>, b: multiset<int>, d: multiset<int>, x: int, y: int)
    ensures e + multiset{y} + (b + multiset{x} + d) == e + multiset{x} + (b + multiset{y} + d)
  {
  }

  /** Swapping two single values between the parts of a sum leaves the sum unchanged. */
  lemma Exchange(b: multiset<int>, d: multiset<int>, e: multiset<int>, x: int, y: int)
    ensures (b + multiset{x} + d) + multiset{y} + e == (b + multiset{y} + d) + multiset{x} + e
  {
  }

  /** swap_nodes on a node whose right child is `c`. */
  function SwapRight(l: Tree, x: int, c: Tree): (s: Tree)
    requires c.Node?
    ensures s.Node? && s.n == (if c.n > x then c.n else x)
  {
    if c.n > x then Node(l, c.n, Node(c.left, x, c.right)) else Node(l, x, c)
  }

  lemma SwapRightBag(l: Tree, x: int, c: Tree)
    requires c.Node?
    ensures Bag(SwapRight(l, x, c)) == Bag(l) + multiset{x} + Bag(c)
  {
    if c.n > x {
      var b, y, d := Bag(c.left), c.n, Bag(c.right);
      assert Bag(SwapRight(l, x, c)) == Bag(l) + multiset{y} + (b + multiset{x} + d);
      assert Bag(c) == b + multiset{y} + d;
      ExchangeRight(Bag(l), b, d, x, y);
    }
  }

  /**
   * Where the node found at `p` below the child `c` (on side `right`) sits after the swap:
   * at the root if it was the child itself and moved up, one step below otherwise.
   */
  function SwapPath(c: Tree, x: int, right: bool, p: seq<bool>): seq<bool>
    requires c.Node?
  {
    if c.n > x && p == [] then [] else [right] + p
  }

  /** heap_insert goes left when the heap is perfect or its left subtree is not. */
  predicate GoesLeft(t: Tree)
    requires t.Node?
  {
    IsPerfectHeap(t) == 1 || IsPerfectHeap(t.left) != 1
  }

  /**
   * heap_insert: a leaf for the empty heap; otherwise into the left or the right subtree
   * (an empty one becoming the new leaf), then swap_nodes with the child that received
   * the value.  The second component is the path from the root to the node created for
   * the value, the node heap_insert returns.
   */
  function HeapInsert(t: Tree, value: int): (r: (Tree, seq<bool>))
    ensures r.0.Node?
  {
    if t == Nil then (Node(Nil, value, Nil), [])
    else if GoesLeft(t) then
      var (c, p) := HeapInsert(t.left, value);
      (SwapLeft(c, t.n, t.right), SwapPath(c, t.n, false, p))
    else
      var (c, p) := HeapInsert(t.right, value);
      (SwapRight(t.left, t.n, c), SwapPath(c, t.n, true, p))
  }

  /** heap_insert adds exactly one copy of the value and keeps every other one. */
  lemma {:induction false} HeapInsertBag(t: Tree, value: int)
    ensures Bag(HeapInsert(t, value).0) == Bag(t) + multiset{value}
  {
    if t.Node? {
      if GoesLeft(t) {
        var c := HeapInsert(t.left, value).0;
        HeapInsertBag(t.left, value);
        SwapLeftBag(c, t.n, t.right);
      } else {
        var c := HeapInsert(t.right, value).0;
        HeapInsertBag(t.right, value);
        SwapRightBag(t.left, t.n, c);
      }
    }
  }

  /** One step down a path, with `true` going right. */
  lemma SubtreeStep(t: Tree, right: bool, p: seq<bool>)
    requires t.Node?
    ensures Subtree(t, [right] + p) == Subtree(if right then t.right else t.left, p)
  {
    assert ([right] + p)[1..] == p;
  }

  /** The swap carries the node at `p` below the child along to SwapPath. */
  lemma SwapLeftPath(c: Tree, x: int, r: Tree, p: seq<bool>)
    requires c.Node? && Subtree(c, p).Node?
    ensures Subtree(SwapLeft(c, x, r), SwapPath(c, x, false, p)).Node?
    ensures Subtree(SwapLeft(c, x, r), SwapPath(c, x, false, p)).n == Subtree(c, p).n
  {
    var s := SwapLeft(c, x, r);
    if c.n > x && p != [] {
      SubtreeStep(s, false, p);
      SubtreeStep(c, p[0], p[1..]);
      assert [p[0]] + p[1..] == p;
      SubtreeStep(s.left, p[0], p[1..]);
    } else if !(c.n > x) {
      SubtreeStep(s, false, p);
    }
  }

  lemma SwapRightPath(l: Tree, x: int, c: Tree, p: seq<bool>)
    requires c.Node? && Subtree(c, p).Node?
    ensures Subtree(SwapRight(l, x, c), SwapPath(c, x, true, p)).Node?
    ensures Subtree(SwapRight(l, x, c), SwapPath(c, x, true, p)).n == Subtree(c, p).n
  {
    var s := SwapRight(l, x, c);
    if c.n > x && p != [] {
      SubtreeStep(s, true, p);
      SubtreeStep(c, p[0], p[1..]);
      assert [p[0]] + p[1..] == p;
      SubtreeStep(s.right, p[0], p[1..]);
    } else if !(c.n > x) {
      SubtreeStep(s, true, p);
    }
  }

  /** The node heap_insert returns is in the new heap and holds the inserted value. */
  lemma {:induction false} HeapInsertReturnsNewNode(t: Tree, value: int)
    ensures Subtree(HeapInsert(t, value).0, HeapInsert(t, value).1).Node?
    ensures Subtree(HeapInsert(t, value).0, HeapInsert(t, value).1).n == value
  {
    if t.Node? {
      if GoesLeft(t) {
        var (c, p) := HeapInsert(t.left, value);
        HeapInsertReturnsNewNode(t.left, value);
        SwapLeftPath(c, t.n, t.right, p);
      } else {
        var (c, p) := HeapInsert(t.right, value);
        HeapInsertReturnsNewNode(t.right, value);
        SwapRightPath(t.left, t.n, c, p);
      }
    }
  }

  function Max(a: int, b: int): int
  {
    if a >= b then a else b
  }

  /** The children of a node holding `v` together hold what `l` holds, when `c` is `l` plus `v`. */
  lemma ChildrenBags(c: Tree, l: Tree, v: int)
    requires c.Node? && c.n == v && Bag(c) == Bag(l) + multiset{v}
    ensures Bag(c.left) <= Bag(l) && Bag(c.right) <= Bag(l)
  {
    PartsBelow(Bag(c.left), Bag(c.right), Bag(l), v);
  }

  lemma PartsBelow(a: multiset<int>, b: multiset<int>, m: multiset<int>, v: int)
    requires a + multiset{v} + b == m + multiset{v}
    ensures a <= m && b <= m
  {
    forall y ensures a[y] <= m[y] && b[y] <= m[y] {
      assert (a + multiset{v} + b)[y] == (m + multiset{v})[y];
    }
  }

  /** A tree whose values are among those of the heap-ordered `l` has its root at most l's root. */
  lemma BelowHeapRoot(u: Tree, l: Tree, x: int)
    requires Bag(u) <= Bag(l) && HeapOrdered(l) && (l.Node? ==> l.n <= x)
    ensures u.Node? ==> u.n <= x
  {
    if u.Node? {
      assert u.n in Bag(u);
      assert u.n in Bag(l);
      assert l.Node?;
      HeapRootMax(l);
      ContentsOfBag(l);
    }
  }

  /** After inserting `value` below a node holding x, the new child's children stay at most x. */
  lemma GrandchildrenBelow(c: Tree, l: Tree, x: int, value: int)
    requires HeapOrdered(l) && (l.Node? ==> l.n <= x) && c.Node? && c.n == value
    requires Bag(c) == Bag(l) + multiset{value}
    ensures c.left.Node? ==> c.left.n <= x
    ensures c.right.Node? ==> c.right.n <= x
  {
    ChildrenBags(c, l, value);
    BelowHeapRoot(c.left, l, x);
    BelowHeapRoot(c.right, l, x);
  }

  /** swap_nodes after inserting `value` into a left subtree `l` keeps the node heap-ordered. */
  lemma SwapLeftOrder(l: Tree, x: int, r: Tree, c: Tree, value: int)
    requires HeapOrdered(Node(l, x, r)) && HeapOrdered(c) && c.Node?
    requires Bag(c) == Bag(l) + multiset{value}
    requires c.n == if l == Nil then value else Max(l.n, value)
    ensures HeapOrdered(SwapLeft(c, x, r)) && SwapLeft(c, x, r).n == Max(x, value)
  {
    if c.n > x {
      GrandchildrenBelow(c, l, x, value);
      assert HeapOrdered(Node(c.left, x, c.right));
    }
  }

  lemma SwapRightOrder(l: Tree, x: int, r: Tree, c: Tree, value: int)
    requires HeapOrdered(Node(l, x, r)) && HeapOrdered(c) && c.Node?
    requires Bag(c) == Bag(r) + multiset{value}
    requires c.n == if r == Nil then value else Max(r.n, value)
    ensures HeapOrdered(SwapRight(l, x, c)) && SwapRight(l, x, c).n == Max(x, value)
  {
    if c.n > x {
      GrandchildrenBelow(c, r, x, value);
      assert HeapOrdered(Node(c.left, x, c.right));
    }
  }

  /**
   * A heap-ordered tree stays heap-ordered, and its root ends up holding the larger of
   * the old root and the new value.
   */
  lemma {:induction false} HeapInsertOrder(t: Tree, value: int)
    requires HeapOrdered(t)
    ensures HeapOrdered(HeapInsert(t, value).0)
    ensures HeapInsert(t, value).0.n == if t == Nil then value else Max(t.n, value)
  {
    if t.Node? {
      if GoesLeft(t) {
        HeapInsertOrder(t.left, value);
        HeapInsertBag(t.left, value);
        SwapLeftOrder(t.left, t.n, t.right, HeapInsert(t.left, value).0, value);
      } else {
        HeapInsertOrder(t.right, value);
        HeapInsertBag(t.right, value);
        SwapRightOrder(t.left, t.n, t.right, HeapInsert(t.right, value).0, value);
      }
    }
  }

  lemma {:induction false} SameShapeRefl(t: Tree)
    ensures SameShape(t, t)
  {
    if t.Node? {
      SameShapeRefl(t.left);
      SameShapeRefl(t.right);
    }
  }

  /** The swap changes values only. */
  lemma SwapLeftShape(c: Tree, x: int, r: Tree)
    requires c.Node?
    ensures SameShape(SwapLeft(c, x, r), Node(c, x, r))
  {
    SameShapeRefl(c);
    SameShapeRefl(r);
  }

  lemma SwapRightShape(l: Tree, x: int, c: Tree)
    requires c.Node?
    ensures SameShape(SwapRight(l, x, c), Node(l, x, c))
  {
    SameShapeRefl(c);
    SameShapeRefl(l);
  }

  /**
   * heap_insert puts the new node at the next free slot of a complete tree: the tree
   * stays complete, one level taller exactly when it was perfect.
   */
  lemma {:induction false} HeapInsertShape(t: Tree, h: int, value: int)
    requires CompleteOfHeight(t, h)
    ensures CompleteOfHeight(HeapInsert(t, value).0, if PerfectOfHeight(t, h) then h + 1 else h)
    decreases Size(t), 1
  {
    if t.Node? {
      var l, x, r := t.left, t.n, t.right;
      CompleteHeight(t, h);
      IsPerfectHeapSpec(t);
      IsPerfectHeapSpec(l);
      if GoesLeft(t) {
        var c := HeapInsert(l, value).0;
        if PerfectOfHeight(t, h) {
          InsertedLeftOfPerfect(l, x, r, h, value);
        } else {
          InsertedLeftOfPartial(l, x, r, h, value);
        }
        SwapLeftShape(c, x, r);
        SameShapeProperties(SwapLeft(c, x, r), Node(c, x, r));
      } else {
        var c := HeapInsert(r, value).0;
        RightCases(l, x, r, h);
        InsertedRightShape(l, x, r, h, value);
        SwapRightShape(l, x, c);
        SameShapeProperties(SwapRight(l, x, c), Node(l, x, c));
      }
    }
  }

  /** The height-free form of HeapInsertShape. */
  lemma HeapInsertKeepsComplete(t: Tree, value: int)
    requires CompleteOfHeight(t, Height(t))
    ensures CompleteOfHeight(HeapInsert(t, value).0, Height(HeapInsert(t, value).0))
  {
    var h := if PerfectOfHeight(t, Height(t)) then Height(t) + 1 else Height(t);
    HeapInsertShape(t, Height(t), value);
    CompleteHeight(HeapInsert(t, value).0, h);
  }

  /** The step of HeapInsertShape that goes left from a perfect tree, before the swap. */
  lemma InsertedLeftOfPerfect(l: Tree, x: int, r: Tree, h: int, value: int)
    requires h >= 0 && PerfectOfHeight(l, h - 1) && PerfectOfHeight(r, h - 1)
    ensures CompleteOfHeight(Node(HeapInsert(l, value).0, x, r), h + 1)
    decreases Size(l) + 1, 0
  {
    var c := HeapInsert(l, value).0;
    PerfectIsComplete(l, h - 1);
    HeapInsertShape(l, h - 1, value);
    GrowLeft(c, x, r, h);
  }

  /** The step of HeapInsertShape that goes left into a subtree that is not perfect, before the swap. */
  lemma InsertedLeftOfPartial(l: Tree, x: int, r: Tree, h: int, value: int)
    requires CompleteOfHeight(Node(l, x, r), h) && !PerfectOfHeight(Node(l, x, r), h)
    requires !(l.Node? && PerfectOfHeight(l, Height(l)))
    ensures CompleteOfHeight(Node(HeapInsert(l, value).0, x, r), h)
    decreases Size(Node(l, x, r)), 0
  {
    var c := HeapInsert(l, value).0;
    LeftNotPerfect(l, x, r, h);
    HeapInsertShape(l, h - 1, value);
    KeepLeft(c, x, r, h);
  }

  lemma GrowLeft(c: Tree, x: int, r: Tree, h: int)
    requires h >= 0 && CompleteOfHeight(c, h) && PerfectOfHeight(r, h - 1)
    ensures CompleteOfHeight(Node(c, x, r), h + 1)
  {
  }

  lemma KeepLeft(c: Tree, x: int, r: Tree, h: int)
    requires h >= 0 && CompleteOfHeight(c, h - 1) && PerfectOfHeight(r, h - 2)
    ensures CompleteOfHeight(Node(c, x, r), h)
  {
  }

  /** A complete tree that is not perfect, with a left subtree that is not perfect, is in the second form. */
  lemma LeftNotPerfect(l: Tree, x: int, r: Tree, h: int)
    requires CompleteOfHeight(Node(l, x, r), h) && !PerfectOfHeight(Node(l, x, r), h)
    requires !(l.Node? && PerfectOfHeight(l, Height(l)))
    ensures CompleteOfHeight(l, h - 1) && PerfectOfHeight(r, h - 2) && !PerfectOfHeight(l, h - 1)
  {
    if PerfectOfHeight(l, h - 1) {
      PerfectOfHeightIsHeight(l, h - 1);
    }
  }

  /** A complete tree that is not perfect, with a perfect left subtree, is in one of two forms. */
  lemma RightCases(l: Tree, x: int, r: Tree, h: int)
    requires CompleteOfHeight(Node(l, x, r), h)
    requires !PerfectOfHeight(Node(l, x, r), h) && l.Node? && PerfectOfHeight(l, Height(l))
    ensures h >= 0 && PerfectOfHeight(l, h - 1)
    ensures (CompleteOfHeight(r, h - 1) && !PerfectOfHeight(r, h - 1)) || PerfectOfHeight(r, h - 2)
  {
    if !(PerfectOfHeight(l, h - 1) && CompleteOfHeight(r, h - 1)) {
      CompleteHeight(l, h - 1);
    }
  }

  /** The step of HeapInsertShape that goes right, before the swap. */
  lemma InsertedRightShape(l: Tree, x: int, r: Tree, h: int, value: int)
    requires h >= 0 && PerfectOfHeight(l, h - 1)
    requires (CompleteOfHeight(r, h - 1) && !PerfectOfHeight(r, h - 1)) || PerfectOfHeight(r, h - 2)
    ensures CompleteOfHeight(Node(l, x, HeapInsert(r, value).0), h)
    decreases Size(r) + 1, 0
  {
    var c := HeapInsert(r, value).0;
    if PerfectOfHeight(r, h - 2) {
      PerfectIsComplete(r, h - 2);
      HeapInsertShape(r, h - 2, value);
    } else {
      HeapInsertShape(r, h - 1, value);
    }
    KeepRight(l, x, c, h);
  }

  lemma KeepRight(l: Tree, x: int, c: Tree, h: int)
    requires h >= 0 && PerfectOfHeight(l, h - 1) && CompleteOfHeight(c, h - 1)
    ensures CompleteOfHeight(Node(l, x, c), h)
  {
  }
}
