/**
 * The max-heap check (130) and what the heap exercises share: heap order, and trees
 * that differ only in the values they hold.
 */
module Heaps {
  import opened Trees
  import opened Completeness

  /** Every node holds a value at least as large as its children's. */
  predicate HeapOrdered(t: Tree)
  {
    match t
    case Nil => true
    case Node(l, x, r) =>
      (l.Node? ==> l.n <= x) && (r.Node? ==> r.n <= x) && HeapOrdered(l) && HeapOrdered(r)
  }

  /** Every value of `t` is at most `m`. */
  ghost predicate AtMost(t: Tree, m: int)
  {
    forall y :: y in Contents(t) ==> y <= m
  }

  /** The root of a heap-ordered tree holds its largest value. */
  lemma {:induction false} HeapRootMax(t: Tree)
    requires t.Node? && HeapOrdered(t)
    ensures AtMost(t, t.n)
  {
    if t.left.Node? {
      HeapRootMax(t.left);
    }
    if t.right.Node? {
      HeapRootMax(t.right);
    }
  }

  /** is_heap dereferences the left child of a node with a right child whenever it compares a two-child node. */
  predicate IsHeapDefined(t: Tree)
  {
    match t
    case Nil => true
    case Node(l, x, r) =>
      r == Nil || (l != Nil && (x >= l.n && x >= r.n ==> IsHeapDefined(l) && IsHeapDefined(r)))
  }

  /**
   * is_heap: 0 for the empty tree, 1 for a leaf; a node with only a left child is compared
   * with that child alone, a node with two children with both, and then both subtrees
   * are checked.
   */
  function IsHeapRec(t: Tree): bool
    requires IsHeapDefined(t)
  {
    match t
    case Nil => false
    case Node(l, x, r) =>
      if l == Nil && r == Nil then true
      else if r == Nil then x >= l.n
      else if x >= l.n && x >= r.n then IsHeapRec(l) && IsHeapRec(r)
      else false
  }

  /** A tree where no node has a right child without a left one never trips is_heap. */
  lemma {:induction false} NoRightOnlyDefined(t: Tree)
    requires NoRightOnly(t)
    ensures IsHeapDefined(t)
  {
    if t.Node? {
      NoRightOnlyDefined(t.left);
      NoRightOnlyDefined(t.right);
    }
  }

  /** The completeness check accepts only trees on which is_heap is defined. */
  lemma CompleteDefined(t: Tree)
    requires BinaryTreeIsComplete(t) == 1
    ensures IsHeapDefined(t)
  {
    CompleteNoRightOnly(t);
    NoRightOnlyDefined(t);
  }

  /** binary_tree_is_heap: complete, and accepted by is_heap (which the `&&` only reaches on complete trees). */
  function BinaryTreeIsHeap(t: Tree): int
  {
    if BinaryTreeIsComplete(t) != 1 then 0
    else
      CompleteDefined(t);
      if IsHeapRec(t) then 1 else 0
  }

  /** In a dense tree a node with only a left child has a leaf there. */
  lemma DenseLeftOnlyLeaf(t: Tree, i: nat, n: nat)
    requires Dense(t, i, n) && t.Node? && t.right == Nil && t.left.Node?
    ensures t.left.left == Nil && t.left.right == Nil
  {
    assert 2 * i + 2 >= n;
    assert Dense(t.left, 2 * i + 1, n);
    assert Dense(t.left.left, 4 * i + 3, n) && Dense(t.left.right, 4 * i + 4, n);
  }

  /** On a dense tree is_heap answers exactly whether the tree is non-empty and heap-ordered. */
  lemma {:induction false} IsHeapRecSpec(t: Tree, i: nat, n: nat)
    requires Dense(t, i, n)
    ensures IsHeapDefined(t)
    ensures IsHeapRec(t) <==> t.Node? && HeapOrdered(t)
  {
    DenseNoRightOnly(t, i, n);
    NoRightOnlyDefined(t);
    if t.Node? {
      if t.right == Nil && t.left.Node? {
        DenseLeftOnlyLeaf(t, i, n);
        assert HeapOrdered(t.left);
      } else if t.right.Node? {
        IsHeapRecSpec(t.left, 2 * i + 1, n);
        IsHeapRecSpec(t.right, 2 * i + 2, n);
      }
    }
  }

  /**
   * binary_tree_is_heap answers 1 exactly for a non-empty tree whose nodes sit at heap
   * indices 0 .. n - 1 and where every node is at least as large as its children.
   */
  lemma IsHeapSpec(t: Tree)
    ensures BinaryTreeIsHeap(t) == 1 <==> t.Node? && Dense(t, 0, Size(t)) && HeapOrdered(t)
    ensures BinaryTreeIsHeap(t) == 0 || BinaryTreeIsHeap(t) == 1
  {
    CompleteIffDense(t);
    if t.Node? && Dense(t, 0, Size(t)) {
      IsHeapRecSpec(t, 0, Size(t));
    }
  }

  /** The root of a tree binary_tree_is_heap accepts holds its largest value. */
  lemma HeapMaxAtRoot(t: Tree)
    requires BinaryTreeIsHeap(t) == 1
    ensures t.Node? && forall y :: y in Contents(t) ==> y <= t.n
  {
    IsHeapSpec(t);
    HeapRootMax(t);
  }

  /** `s` and `t` have the same nodes in the same places, whatever values they hold. */
  predicate SameShape(s: Tree, t: Tree)
  {
    match s
    case Nil => t == Nil
    case Node(sl, _, sr) => t.Node? && SameShape(sl, t.left) && SameShape(sr, t.right)
  }

  /** Shape-only properties do not see the values. */
  lemma {:induction false} SameShapeProperties(s: Tree, t: Tree)
    requires SameShape(s, t)
    ensures Size(s) == Size(t) && Height(s) == Height(t)
    ensures forall i: nat, n: nat :: Dense(s, i, n) <==> Dense(t, i, n)
    ensures forall h :: PerfectOfHeight(s, h) <==> PerfectOfHeight(t, h)
    ensures forall h :: CompleteOfHeight(s, h) <==> CompleteOfHeight(t, h)
    ensures NoRightOnly(s) <==> NoRightOnly(t)
  {
    if s.Node? {
      SameShapeProperties(s.left, t.left);
      SameShapeProperties(s.right, t.right);
    }
  }
}
