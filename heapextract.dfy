/**
 * heap_extract (133): the root's value is taken out, the last node in level order is
 * unlinked and its value written into the root, and trickle_down sifts that value down.
 * Nodes are found by their level-order index (root 0, children of i at 2i + 1 and
 * 2i + 2), as find_parent does.
 */
module HeapExtraction {
  import opened Trees
  import opened Completeness
  import opened Heaps

  /**
   * C's integer division, which truncates toward zero: the remainder is smaller than the
   * divisor in magnitude and is never of the opposite sign to the dividend.
   */
  function CDiv(a: int, b: int): (q: int)
    requires b > 0
    ensures -b < a - b * q < b
    ensures a - b * q == 0 || (a - b * q < 0 <==> a < 0)
  {
    if a >= 0 then a / b else -((-a) / b)
  }

  /**
   * find_parent: the node of index `k` in the subtree numbered from `i`, searching the
   * left subtree first; `Nil` when there is none or the search has passed `k`.
   */
  function FindParent(t: Tree, i: nat, k: int): Tree
  {
    if t == Nil || i > k then Nil
    else if i == k then t
    else
      var l := FindParent(t.left, 2 * i + 1, k);
      if l != Nil then l else FindParent(t.right, 2 * i + 2, k)
  }

  /**
   * delete_last_node, as far as the node of index `p` is concerned: its right child is
   * unlinked if it has one, its left child otherwise.
   */
  function CutChild(t: Tree, i: nat, p: int): (s: Tree)
    ensures s.Node? == t.Node? && (t.Node? ==> s.n == t.n)
  {
    if t == Nil || i > p then t
    else if i == p then
      if t.right != Nil then Node(t.left, t.n, Nil)
      else if t.left != Nil then Node(Nil, t.n, Nil)
      else t
    else Node(CutChild(t.left, 2 * i + 1, p), t.n, CutChild(t.right, 2 * i + 2, p))
  }

  /** The child delete_last_node unlinks from the node `q`. */
  function RemovedChild(q: Tree): Tree
    requires q.Node?
  {
    if q.right != Nil then q.right else q.left
  }

  /** The node `c` holding `x` in place of its own value. */
  function Relabel(c: Tree, x: int): (s: Tree)
    requires c.Node?
    ensures s.Node? && Size(s) == Size(c)
  {
    Node(c.left, x, c.right)
  }

  /**
   * The loop of trickle_down: while the node has a left child, take the larger child
   * (the right one only when strictly larger), swap values when that child is larger
   * than the node, and move to that child whether or not a swap happened.
   */
  function SiftDown(t: Tree): (s: Tree)
    ensures s.Node? == t.Node?
    decreases Size(t)
  {
    if t == Nil || t.left == Nil then t
    else
      var l, x, r := t.left, t.n, t.right;
      if r != Nil && r.n > l.n then
        if r.n > x then Node(l, r.n, SiftDown(Relabel(r, x)))
        else Node(l, x, SiftDown(r))
      else
        if l.n > x then Node(SiftDown(Relabel(l, x)), l.n, r)
        else Node(SiftDown(l), x, r)
  }

  /** A step taken by trickle_down: the value left behind and the child not taken. */
  datatype Frame = WentLeft(value: int, sibling: Tree) | WentRight(value: int, sibling: Tree)

  function Fill(f: Frame, c: Tree): Tree
  {
    match f
    case WentLeft(x, s) => Node(c, x, s)
    case WentRight(x, s) => Node(s, x, c)
  }

  /** The whole tree, from the steps taken so far (outermost first) and the current subtree. */
  function Plug(path: seq<Frame>, c: Tree): Tree
    decreases |path|
  {
    if path == [] then c
    else Plug(path[..|path| - 1], Fill(path[|path| - 1], c))
  }

  lemma PlugSnoc(path: seq<Frame>, f: Frame, c: Tree)
    ensures Plug(path + [f], c) == Plug(path, Fill(f, c))
  {
    assert (path + [f])[..|path|] == path;
  }

  /** trickle_down: the loop walks down the tree, swapping values on the way. */
  method TrickleDown(t: Tree) returns (s: Tree)
    ensures s == SiftDown(t)
  {
    if t == Nil {
      return t;
    }
    var path: seq<Frame> := [];
    var current := t;
    while current.Node? && current.left.Node?
      invariant Plug(path, SiftDown(current)) == SiftDown(t)
      decreases Size(current)
    {
      var l, x, r := current.left, current.n, current.right;
      var child, toRight := l, false;
      if r.Node? && r.n > l.n {
        child, toRight := r, true;
      }
      var above, below := x, child.n;
      if child.n > x {
        above, below := child.n, x;
      }
      var next := Relabel(child, below);
      var frame := if toRight then WentRight(above, l) else WentLeft(above, r);
      PlugSnoc(path, frame, SiftDown(next));
      path := path + [frame];
      current := next;
    }
    s := Plug(path, current);
  }

  /**
   * delete_last_node with `p` the index find_parent was asked for: the tree is freed when
   * that node is the root and has no left child; otherwise the value of the unlinked
   * child (if any) replaces the root's, and trickle_down runs from the root.
   */
  function DeleteLastNode(t: Tree, p: int): Tree
    requires t.Node? && FindParent(t, 0, p).Node?
  {
    var q := FindParent(t, 0, p);
    if p == 0 && q.left == Nil then Nil
    else
      var c := CutChild(t, 0, p);
      var v := if q.left != Nil || q.right != Nil then RemovedChild(q).n else t.n;
      SiftDown(Relabel(c, v))
  }

  /** The index heap_extract computes for the parent of the last node: (nodes - 2) / 2 in C. */
  function LastParent(nodes: int): int
  {
    CDiv(nodes - 2, 2)
  }

  /** heap_extract dereferences what find_parent returns. */
  predicate ExtractDefined(t: Tree)
  {
    t == Nil || FindParent(t, 0, LastParent(Size(t))).Node?
  }

  /** heap_extract: 0 for the empty heap; otherwise the root's value, and the heap after delete_last_node. */
  function HeapExtract(t: Tree): (r: (int, Tree))
    requires ExtractDefined(t)
  {
    if t == Nil then (0, Nil)
    else (t.n, DeleteLastNode(t, LastParent(Size(t))))
  }

  // ---------------------------------------------------------------------------
  // trickle_down

  /** trickle_down moves values only. */
  lemma {:induction false} SiftDownBag(t: Tree)
    ensures Bag(SiftDown(t)) == Bag(t)
    decreases Size(t)
  {
    if t.Node? && t.left.Node? {
      var l, x, r := t.left, t.n, t.right;
      if r != Nil && r.n > l.n {
        if r.n > x {
          var d := SiftDown(Relabel(r, x));
          assert SiftDown(t) == Node(l, r.n, d);
          SiftDownBag(Relabel(r, x));
          RelabelBag(r, x);
          assert Bag(Node(l, r.n, d)) == Bag(l) + multiset{r.n} + Bag(d);
        } else {
          assert SiftDown(t) == Node(l, x, SiftDown(r));
          SiftDownBag(r);
        }
      } else {
        if l.n > x {
          var d := SiftDown(Relabel(l, x));
          assert SiftDown(t) == Node(d, l.n, r);
          SiftDownBag(Relabel(l, x));
          RelabelBag(l, x);
          assert Bag(Node(d, l.n, r)) == Bag(d) + multiset{l.n} + Bag(r);
        } else {
          assert SiftDown(t) == Node(SiftDown(l), x, r);
          SiftDownBag(l);
        }
      }
    }
  }

  lemma RelabelBag(c: Tree, x: int)
    requires c.Node?
    ensures Bag(Relabel(c, x)) + multiset{c.n} == Bag(c) + multiset{x}
  {
  }

  /** trickle_down keeps the nodes where they are. */
  lemma {:induction false} SiftDownDense(t: Tree, i: nat, n: nat)
    requires Dense(t, i, n)
    ensures Dense(SiftDown(t), i, n)
    decreases Size(t)
  {
    if t.Node? && t.left.Node? {
      var l, x, r := t.left, t.n, t.right;
      if r != Nil && r.n > l.n {
        if r.n > x {
          SiftDownDense(Relabel(r, x), 2 * i + 2, n);
        } else {
          SiftDownDense(r, 2 * i + 2, n);
        }
      } else {
        if l.n > x {
          SiftDownDense(Relabel(l, x), 2 * i + 1, n);
        } else {
          SiftDownDense(l, 2 * i + 1, n);
        }
      }
    }
  }

  /** On a heap-ordered tree trickle_down swaps nothing. */
  lemma {:induction false} SiftDownOfHeap(t: Tree)
    requires HeapOrdered(t)
    ensures SiftDown(t) == t
    decreases Size(t)
  {
    if t.Node? && t.left.Node? {
      SiftDownOfHeap(t.left);
      if t.right.Node? {
        SiftDownOfHeap(t.right);
      }
    }
  }

  /** The value a swap sends down comes back up no larger than the value that went up. */
  lemma SiftedBelow(c: Tree, x: int)
    requires c.Node? && HeapOrdered(c) && x < c.n
    ensures SiftDown(Relabel(c, x)).n <= c.n
  {
    var u := Relabel(c, x);
    SiftDownBag(u);
    BagSameContents(SiftDown(u), u);
    HeapRootMax(c);
    assert SiftDown(u).n in Contents(u);
  }

  /**
   * trickle_down from a node whose subtrees are heap-ordered leaves a heap-ordered tree,
   * provided no node has a right child without a left one (where the loop stops early).
   */
  lemma {:induction false} SiftDownHeap(t: Tree)
    requires NoRightOnly(t)
    requires t.Node? ==> HeapOrdered(t.left) && HeapOrdered(t.right)
    ensures HeapOrdered(SiftDown(t))
    decreases Size(t)
  {
    if t.Node? && t.left.Node? {
      var l, x, r := t.left, t.n, t.right;
      if r != Nil && r.n > l.n {
        if r.n > x {
          SiftDownHeap(Relabel(r, x));
          SiftedBelow(r, x);
        } else {
          SiftDownOfHeap(r);
        }
      } else {
        if l.n > x {
          SiftDownHeap(Relabel(l, x));
          SiftedBelow(l, x);
        } else {
          SiftDownOfHeap(l);
        }
      }
    }
  }

  // ---------------------------------------------------------------------------
  // find_parent and the unlinking of the last node

  lemma ChildrenDescend(i: nat)
    ensures Descends(2 * i + 1, i) && Descends(2 * i + 2, i)
  {
    assert Descends(i, i);
  }

  /** find_parent finds nothing outside the subtree of the target index. */
  lemma {:induction false} FindParentOutside(t: Tree, i: nat, k: int)
    requires k >= 0 && !Descends(k, i)
    ensures FindParent(t, i, k) == Nil
  {
    if t.Node? && i < k {
      ChildrenDescend(i);
      if Descends(k, 2 * i + 1) {
        DescendsTrans(k, 2 * i + 1, i);
      }
      if Descends(k, 2 * i + 2) {
        DescendsTrans(k, 2 * i + 2, i);
      }
      FindParentOutside(t.left, 2 * i + 1, k);
      FindParentOutside(t.right, 2 * i + 2, k);
    }
  }

  /** In a dense tree find_parent finds every index below the size, and the node it finds sits at that index. */
  lemma {:induction false} FindParentDense(t: Tree, i: nat, n: nat, k: int)
    requires Dense(t, i, n) && k >= 0 && Descends(k, i) && k < n
    ensures FindParent(t, i, k).Node? && Dense(FindParent(t, i, k), k, n)
  {
    DescendsAtLeast(k, i);
    if k != i {
      DescendsChild(k, i);
      if Descends(k, 2 * i + 1) {
        FindParentDense(t.left, 2 * i + 1, n, k);
      } else {
        FindParentDense(t.right, 2 * i + 2, n, k);
        FindParentOutside(t.left, 2 * i + 1, k);
      }
    }
  }

  /** Unlinking below index `p` leaves the subtrees outside it alone. */
  lemma {:induction false} CutChildOutside(t: Tree, i: nat, p: int)
    requires p >= 0 && !Descends(p, i)
    ensures CutChild(t, i, p) == t
  {
    if t.Node? && i < p {
      ChildrenDescend(i);
      if Descends(p, 2 * i + 1) {
        DescendsTrans(p, 2 * i + 1, i);
      }
      if Descends(p, 2 * i + 2) {
        DescendsTrans(p, 2 * i + 2, i);
      }
      CutChildOutside(t.left, 2 * i + 1, p);
      CutChildOutside(t.right, 2 * i + 2, p);
    }
  }

  /** Unlinking a child keeps heap order. */
  lemma {:induction false} CutChildOrder(t: Tree, i: nat, p: int)
    requires HeapOrdered(t)
    ensures HeapOrdered(CutChild(t, i, p))
  {
    if t.Node? && i < p {
      CutChildOrder(t.left, 2 * i + 1, p);
      CutChildOrder(t.right, 2 * i + 2, p);
    }
  }

  /** A dense subtree not holding index n - 1 is dense for n - 1 nodes. */
  lemma {:induction false} DenseDrop(t: Tree, j: nat, n: nat)
    requires n >= 1 && Dense(t, j, n) && !Descends(n - 1, j)
    ensures Dense(t, j, n - 1)
  {
    if t.Node? {
      ChildrenDescend(j);
      if Descends(n - 1, 2 * j + 1) {
        DescendsTrans(n - 1, 2 * j + 1, j);
      }
      if Descends(n - 1, 2 * j + 2) {
        DescendsTrans(n - 1, 2 * j + 2, j);
      }
      DenseDrop(t.left, 2 * j + 1, n);
      DenseDrop(t.right, 2 * j + 2, n);
    }
  }

  /** The last index n - 1 lies under a child of `i` only through its parent (n - 2) / 2. */
  lemma LastUnder(n: nat, i: nat, j: nat)
    requires n >= 2 && (j == 2 * i + 1 || j == 2 * i + 2) && i < (n - 2) / 2
    requires !Descends((n - 2) / 2, j)
    ensures !Descends(n - 1, j)
  {
  }

  /**
   * The node of index (n - 2) / 2 of a dense tree of n nodes has a left child, and the
   * child delete_last_node unlinks from it is the leaf of index n - 1.
   */
  lemma ParentOfLast(q: Tree, n: nat)
    requires n >= 2 && Dense(q, (n - 2) / 2, n)
    ensures q.Node? && q.left.Node? && IsLeaf(RemovedChild(q))
    ensures q.right.Node? <==> n - 1 == 2 * ((n - 2) / 2) + 2
  {
    var p := (n - 2) / 2;
    assert Dense(q.left, 2 * p + 1, n) && Dense(q.right, 2 * p + 2, n);
    var c := RemovedChild(q);
    if q.right.Node? {
      assert Dense(c.left, 2 * (2 * p + 2) + 1, n);
      assert Dense(c.right, 2 * (2 * p + 2) + 2, n);
    } else {
      assert Dense(c.left, 2 * (2 * p + 1) + 1, n);
      assert Dense(c.right, 2 * (2 * p + 1) + 2, n);
    }
  }

  /** Unlinking below the parent of the last node of a dense tree leaves it dense for one node fewer. */
  lemma {:induction false} CutChildDense(t: Tree, i: nat, n: nat)
    requires n >= 2 && Dense(t, i, n) && Descends((n - 2) / 2, i)
    ensures Dense(CutChild(t, i, (n - 2) / 2), i, n - 1)
  {
    var p := (n - 2) / 2;
    DescendsAtLeast(p, i);
    var l, x, r := t.left, t.n, t.right;
    if i == p {
      if r.Node? {
        assert !Descends(2 * p + 2, 2 * p + 1);
        DenseDrop(l, 2 * p + 1, n);
      }
    } else {
      DescendsChild(p, i);
      if Descends(p, 2 * i + 1) {
        CutChildDense(l, 2 * i + 1, n);
        ChildrenDisjoint(p, i);
        CutChildOutside(r, 2 * i + 2, p);
        LastUnder(n, i, 2 * i + 2);
        DenseDrop(r, 2 * i + 2, n);
      } else {
        CutChildDense(r, 2 * i + 2, n);
        CutChildOutside(l, 2 * i + 1, p);
        LastUnder(n, i, 2 * i + 1);
        DenseDrop(l, 2 * i + 1, n);
      }
    }
  }

  /** Unlinking below the parent of the last node removes exactly the value of the unlinked child. */
  lemma {:induction false} CutChildBag(t: Tree, i: nat, n: nat)
    requires n >= 2 && Dense(t, i, n) && Descends((n - 2) / 2, i)
    ensures FindParent(t, i, (n - 2) / 2).Node? && RemovedChild(FindParent(t, i, (n - 2) / 2)).Node?
    ensures Bag(CutChild(t, i, (n - 2) / 2)) + multiset{RemovedChild(FindParent(t, i, (n - 2) / 2)).n} == Bag(t)
    decreases t, 1
  {
    var p := (n - 2) / 2;
    DescendsAtLeast(p, i);
    if i == p {
      CutAtParentBag(t, n);
    } else {
      DescendsChild(p, i);
      if Descends(p, 2 * i + 1) {
        CutLeftBag(t, i, n);
      } else {
        CutRightBag(t, i, n);
      }
    }
  }

  /** The step of CutChildBag when the parent of the last node is in the left subtree. */
  lemma CutLeftBag(t: Tree, i: nat, n: nat)
    requires n >= 2 && Dense(t, i, n) && t.Node? && Descends((n - 2) / 2, 2 * i + 1)
    ensures FindParent(t, i, (n - 2) / 2).Node? && RemovedChild(FindParent(t, i, (n - 2) / 2)).Node?
    ensures Bag(CutChild(t, i, (n - 2) / 2)) + multiset{RemovedChild(FindParent(t, i, (n - 2) / 2)).n} == Bag(t)
    decreases t, 0
  {
    var p := (n - 2) / 2;
    var l, x, r := t.left, t.n, t.right;
    var c := CutChild(l, 2 * i + 1, p);
    assert CutChild(t, i, p) == Node(c, x, r) by {
      DescendsAtLeast(p, 2 * i + 1);
      ChildrenDisjoint(p, i);
      CutChildOutside(r, 2 * i + 2, p);
    }
    CutChildBag(l, 2 * i + 1, n);
    assert FindParent(t, i, p) == FindParent(l, 2 * i + 1, p);
    AddBack(Bag(c), Bag(l), multiset{x} + Bag(r), RemovedChild(FindParent(t, i, p)).n);
  }

  /** The step of CutChildBag when the parent of the last node is in the right subtree. */
  lemma CutRightBag(t: Tree, i: nat, n: nat)
    requires n >= 2 && Dense(t, i, n) && t.Node? && Descends((n - 2) / 2, 2 * i + 2)
    ensures FindParent(t, i, (n - 2) / 2).Node? && RemovedChild(FindParent(t, i, (n - 2) / 2)).Node?
    ensures Bag(CutChild(t, i, (n - 2) / 2)) + multiset{RemovedChild(FindParent(t, i, (n - 2) / 2)).n} == Bag(t)
    decreases t, 0
  {
    var p := (n - 2) / 2;
    var l, x, r := t.left, t.n, t.right;
    var c := CutChild(r, 2 * i + 2, p);
    assert !Descends(p, 2 * i + 1) by {
      if Descends(p, 2 * i + 1) {
        ChildrenDisjoint(p, i);
      }
    }
    assert CutChild(t, i, p) == Node(l, x, c) by {
      DescendsAtLeast(p, 2 * i + 2);
      CutChildOutside(l, 2 * i + 1, p);
    }
    CutChildBag(r, 2 * i + 2, n);
    assert FindParent(t, i, p) == FindParent(r, 2 * i + 2, p) by {
      FindParentOutside(l, 2 * i + 1, p);
    }
    AddBack(Bag(c), Bag(r), Bag(l) + multiset{x}, RemovedChild(FindParent(t, i, p)).n);
  }

  lemma AddBack(c: multiset<int>, m: multiset<int>, rest: multiset<int>, v: int)
    requires c + multiset{v} == m
    ensures c + rest + multiset{v} == m + rest
    ensures rest + c + multiset{v} == rest + m
  {
  }

  /** The step of CutChildBag at the parent itself. */
  lemma CutAtParentBag(t: Tree, n: nat)
    requires n >= 2 && Dense(t, (n - 2) / 2, n)
    ensures RemovedChild(t).Node?
    ensures Bag(CutChild(t, (n - 2) / 2, (n - 2) / 2)) + multiset{RemovedChild(t).n} == Bag(t)
  {
    ParentOfLast(t, n);
    var c := RemovedChild(t);
    assert Bag(c) == multiset{c.n};
  }

  // ---------------------------------------------------------------------------
  // heap_extract

  /**
   * On a dense heap-ordered tree of n >= 2 nodes, delete_last_node at index (n - 2) / 2
   * leaves a dense heap-ordered tree of n - 1 nodes holding the old values less the root's.
   */
  lemma DeleteLastNodeHeap(t: Tree, n: nat)
    requires n >= 2 && Dense(t, 0, n) && HeapOrdered(t)
    ensures t.Node? && FindParent(t, 0, (n - 2) / 2).Node?
    ensures Dense(DeleteLastNode(t, (n - 2) / 2), 0, n - 1)
    ensures HeapOrdered(DeleteLastNode(t, (n - 2) / 2))
    ensures Bag(DeleteLastNode(t, (n - 2) / 2)) + multiset{t.n} == Bag(t)
    ensures BinaryTreeIsHeap(DeleteLastNode(t, (n - 2) / 2)) == 1
  {
    var p := (n - 2) / 2;
    DescendsRoot(p);
    FindParentDense(t, 0, n, p);
    var q := FindParent(t, 0, p);
    ParentOfLast(q, n);
    var c := CutChild(t, 0, p);
    var v := RemovedChild(q).n;
    var u := Relabel(c, v);
    assert DeleteLastNode(t, p) == SiftDown(u);
    assert Dense(u, 0, n - 1) by {
      CutChildDense(t, 0, n);
    }
    assert HeapOrdered(SiftDown(u)) by {
      CutChildOrder(t, 0, p);
      DenseNoRightOnly(u, 0, n - 1);
      SiftDownHeap(u);
    }
    assert Dense(SiftDown(u), 0, n - 1) by {
      SiftDownDense(u, 0, n - 1);
    }
    assert Bag(SiftDown(u)) + multiset{t.n} == Bag(t) by {
      CutChildBag(t, 0, n);
      SiftDownBag(u);
      RelabelBag(c, v);
    }
    DenseHeap(SiftDown(u), n - 1);
  }

  /** A dense, heap-ordered tree over indices 0 .. n - 1 is a heap of n nodes. */
  lemma DenseHeap(s: Tree, n: nat)
    requires n >= 1 && Dense(s, 0, n) && HeapOrdered(s)
    ensures Size(s) == n && BinaryTreeIsHeap(s) == 1
  {
    DenseSize(s, n);
    IsHeapSpec(s);
  }

  /**
   * On a tree binary_tree_is_heap accepts, heap_extract returns the largest value and
   * leaves a heap (or the empty tree, for a single node) holding the other values.
   */
  lemma HeapExtractSpec(t: Tree)
    requires BinaryTreeIsHeap(t) == 1
    ensures ExtractDefined(t)
    ensures HeapExtract(t).0 == t.n && forall y :: y in Contents(t) ==> y <= HeapExtract(t).0
    ensures Bag(HeapExtract(t).1) + multiset{HeapExtract(t).0} == Bag(t)
    ensures Size(t) == 1 ==> HeapExtract(t).1 == Nil
    ensures Size(t) >= 2 ==> BinaryTreeIsHeap(HeapExtract(t).1) == 1
  {
    var n := Size(t);
    assert t.Node? && Dense(t, 0, n) && HeapOrdered(t) by {
      IsHeapSpec(t);
    }
    if n == 1 {
      assert LastParent(n) == 0;
      assert t.left == Nil && t.right == Nil;
    } else {
      assert LastParent(n) == (n - 2) / 2;
      DeleteLastNodeHeap(t, n);
    }
    HeapMaxAtRoot(t);
  }
}
