/**
 * Completeness by heap-array numbering: the root has index 0 and the children of
 * index i are 2i + 1 and 2i + 2.  A tree of n nodes is complete exactly when its
 * indices are 0 .. n - 1.
 */
module Completeness {
  import opened Trees

  /** is_complete_recursive: every index in the subtree numbered from `index` is below `size`. */
  function IsCompleteRec(t: Tree, index: nat, size: nat): bool
  {
    match t
    case Nil => true
    case Node(l, _, r) =>
      if index >= size then false
      else IsCompleteRec(l, 2 * index + 1, size) && IsCompleteRec(r, 2 * index + 2, size)
  }

  /** binary_tree_is_complete: 0 for the empty tree. */
  function BinaryTreeIsComplete(t: Tree): int
  {
    if t == Nil then 0
    else if IsCompleteRec(t, 0, Size(t)) then 1
    else 0
  }

  /** The heap-array indices of the nodes of `t` when its root has index `i`. */
  ghost function Indices(t: Tree, i: nat): set<nat>
  {
    match t
    case Nil => {}
    case Node(l, _, r) => {i} + Indices(l, 2 * i + 1) + Indices(r, 2 * i + 2)
  }

  /** `k` lies in the subtree of heap index `i`. */
  predicate Descends(k: nat, i: nat)
    decreases k
  {
    k == i || (k > i && Descends((k - 1) / 2, i))
  }

  lemma {:induction false} DescendsAtLeast(k: nat, i: nat)
    requires Descends(k, i)
    ensures k >= i
  {
  }

  lemma {:induction false} DescendsTrans(k: nat, j: nat, i: nat)
    requires Descends(k, j) && Descends(j, i)
    ensures Descends(k, i)
    decreases k
  {
    if k != j {
      DescendsTrans((k - 1) / 2, j, i);
      DescendsAtLeast(j, i);
    }
  }

  /** The subtrees of the two children of `i` share no index. */
  lemma {:induction false} ChildrenDisjoint(k: nat, i: nat)
    requires Descends(k, 2 * i + 1)
    ensures !Descends(k, 2 * i + 2)
    decreases k
  {
    if k != 2 * i + 1 {
      ChildrenDisjoint((k - 1) / 2, i);
    }
  }

  lemma {:induction false} IndicesDescend(t: Tree, i: nat)
    ensures forall k :: k in Indices(t, i) ==> Descends(k, i)
  {
    match t
    case Nil =>
    case Node(l, _, r) =>
      IndicesDescend(l, 2 * i + 1);
      IndicesDescend(r, 2 * i + 2);
      forall k | k in Indices(l, 2 * i + 1) ensures Descends(k, i) {
        assert Descends(2 * i + 1, i);
        DescendsTrans(k, 2 * i + 1, i);
      }
      forall k | k in Indices(r, 2 * i + 2) ensures Descends(k, i) {
        assert Descends(2 * i + 2, i);
        DescendsTrans(k, 2 * i + 2, i);
      }
  }

  /** Where an index of a node's subtree lies: at the node itself, or under exactly one child. */
  lemma IndicesSplit(l: Tree, x: int, r: Tree, i: nat)
    ensures Indices(l, 2 * i + 1) !! Indices(r, 2 * i + 2)
    ensures i !in Indices(l, 2 * i + 1) && i !in Indices(r, 2 * i + 2)
    ensures forall k :: k in Indices(Node(l, x, r), i) && Descends(k, 2 * i + 1) ==> k in Indices(l, 2 * i + 1)
    ensures forall k :: k in Indices(Node(l, x, r), i) && Descends(k, 2 * i + 2) ==> k in Indices(r, 2 * i + 2)
  {
    var L, R := Indices(l, 2 * i + 1), Indices(r, 2 * i + 2);
    IndicesDescend(l, 2 * i + 1);
    IndicesDescend(r, 2 * i + 2);
    forall k | k in L ensures k != i && k !in R {
      DescendsAtLeast(k, 2 * i + 1);
      ChildrenDisjoint(k, i);
    }
    forall k | k in R ensures k != i {
      DescendsAtLeast(k, 2 * i + 2);
    }
    forall k | k in Indices(Node(l, x, r), i) && Descends(k, 2 * i + 2)
      ensures k in R
    {
      DescendsAtLeast(k, 2 * i + 2);
      if k in L {
        ChildrenDisjoint(k, i);
      }
    }
    forall k | k in Indices(Node(l, x, r), i) && Descends(k, 2 * i + 1)
      ensures k in L
    {
      DescendsAtLeast(k, 2 * i + 1);
      ChildrenDisjoint(k, i);
    }
  }

  /** Distinct nodes get distinct indices. */
  lemma {:induction false} IndicesCount(t: Tree, i: nat)
    ensures |Indices(t, i)| == Size(t)
  {
    if t.Node? {
      IndicesCount(t.left, 2 * i + 1);
      IndicesCount(t.right, 2 * i + 2);
      IndicesCountStep(t, i);
    }
  }

  lemma IndicesCountStep(t: Tree, i: nat)
    requires t.Node?
    requires |Indices(t.left, 2 * i + 1)| == Size(t.left) && |Indices(t.right, 2 * i + 2)| == Size(t.right)
    ensures |Indices(t, i)| == Size(t)
  {
    var L, R := Indices(t.left, 2 * i + 1), Indices(t.right, 2 * i + 2);
    assert L !! R && i !in L && i !in R by {
      IndicesSplit(t.left, t.n, t.right, i);
    }
    assert Indices(t, i) == {i} + L + R;
    RootAndSidesSize(i, L, R);
  }

  lemma RootAndSidesSize(i: nat, L: set<nat>, R: set<nat>)
    requires L !! R && i !in L && i !in R
    ensures |{i} + L + R| == 1 + |L| + |R|
  {
    DisjointUnionSize({i}, L);
    DisjointUnionSize({i} + L, R);
  }

  lemma DisjointUnionSize<T>(A: set<T>, B: set<T>)
    requires A !! B
    ensures |A + B| == |A| + |B|
  {
    assert A * B == {};
  }

  /** Every index in `S` is below `n`. */
  ghost predicate Below(S: set<nat>, n: int)
  {
    forall k :: k in S ==> k < n
  }

  /** is_complete_recursive holds exactly when every heap index of the subtree is below `size`. */
  lemma {:induction false} IsCompleteRecBounds(t: Tree, i: nat, n: nat)
    ensures IsCompleteRec(t, i, n) <==> Below(Indices(t, i), n)
  {
    if t.Node? {
      var L, R := Indices(t.left, 2 * i + 1), Indices(t.right, 2 * i + 2);
      IsCompleteRecBounds(t.left, 2 * i + 1, n);
      IsCompleteRecBounds(t.right, 2 * i + 2, n);
      BelowUnion(i, L, R, n);
    }
  }

  lemma BelowUnion(i: nat, L: set<nat>, R: set<nat>, n: int)
    ensures Below({i} + L + R, n) <==> i < n && Below(L, n) && Below(R, n)
  {
    var T := {i} + L + R;
    if Below(T, n) {
      assert i in T;
      forall k | k in L ensures k < n {
        assert k in T;
      }
      forall k | k in R ensures k < n {
        assert k in T;
      }
    }
  }

  /** The indices 0 .. n - 1. */
  function Range(n: nat): set<nat>
  {
    if n == 0 then {} else Range(n - 1) + {n - 1}
  }

  lemma {:induction false} RangeSpec(n: nat)
    ensures |Range(n)| == n
    ensures forall k: nat :: k in Range(n) <==> k < n
  {
    if n > 0 {
      RangeSpec(n - 1);
    }
  }

  lemma {:induction false} SubsetOfSameSize<T>(A: set<T>, B: set<T>)
    requires A <= B && |A| == |B|
    ensures A == B
    decreases |A|
  {
    if A != {} {
      var x :| x in A;
      assert |A - {x}| == |A| - 1 && |B - {x}| == |B| - 1;
      SubsetOfSameSize(A - {x}, B - {x});
      assert A == (A - {x}) + {x} && B == (B - {x}) + {x};
    }
  }

  /**
   * binary_tree_is_complete answers 1 exactly for a non-empty tree whose n nodes
   * carry the heap indices 0 .. n - 1: every level but the last is full and the last
   * is filled from the left.
   */
  lemma IsCompleteSpec(t: Tree)
    ensures BinaryTreeIsComplete(t) == 1 <==> t.Node? && Indices(t, 0) == Range(Size(t))
    ensures BinaryTreeIsComplete(t) == 0 || BinaryTreeIsComplete(t) == 1
  {
    var n := Size(t);
    IsCompleteRecBounds(t, 0, n);
    IndicesCount(t, 0);
    RangeSpec(n);
    var I := Indices(t, 0);
    if IsCompleteRec(t, 0, n) {
      assert I <= Range(n);
      SubsetOfSameSize(I, Range(n));
    }
    if t.Node? && I == Range(n) {
      assert forall k :: k in I ==> k < n;
    }
  }

  /** No node has a right child without a left child. */
  predicate NoRightOnly(t: Tree)
  {
    match t
    case Nil => true
    case Node(l, _, r) => (l == Nil ==> r == Nil) && NoRightOnly(l) && NoRightOnly(r)
  }

  /**
   * The subtree numbered from `i` holds exactly the indices below `n` that lie under
   * `i`: a node sits at every such index and an empty slot at every other one.
   */
  predicate Dense(t: Tree, i: nat, n: nat)
  {
    if t == Nil then i >= n
    else i < n && Dense(t.left, 2 * i + 1, n) && Dense(t.right, 2 * i + 2, n)
  }

  /** Every index below `n` that lies under `i` is in `S`. */
  ghost predicate Covers(S: set<nat>, i: nat, n: nat)
  {
    forall k: nat :: k < n && Descends(k, i) ==> k in S
  }

  /** An index below `i` other than `i` itself lies below one of the two children of `i`. */
  lemma {:induction false} DescendsChild(k: nat, i: nat)
    requires Descends(k, i) && k != i
    ensures Descends(k, 2 * i + 1) || Descends(k, 2 * i + 2)
    decreases k
  {
    var p := (k - 1) / 2;
    if p != i {
      DescendsChild(p, i);
      assert Descends(k, p);
      if Descends(p, 2 * i + 1) {
        DescendsTrans(k, p, 2 * i + 1);
      } else {
        DescendsTrans(k, p, 2 * i + 2);
      }
    }
  }

  lemma {:induction false} IndicesDense(t: Tree, i: nat, n: nat)
    requires Below(Indices(t, i), n)
    requires Covers(Indices(t, i), i, n)
    ensures Dense(t, i, n)
  {
    assert Descends(i, i);
    if t.Node? {
      IndicesCovered(t.left, t.n, t.right, i, n);
      IndicesDense(t.left, 2 * i + 1, n);
      IndicesDense(t.right, 2 * i + 2, n);
    }
  }

  /** Coverage of the indices below `n` passes from a node to its two children. */
  lemma IndicesCovered(l: Tree, x: int, r: Tree, i: nat, n: nat)
    requires Below(Indices(Node(l, x, r), i), n)
    requires Covers(Indices(Node(l, x, r), i), i, n)
    ensures i < n
    ensures Below(Indices(l, 2 * i + 1), n) && Below(Indices(r, 2 * i + 2), n)
    ensures Covers(Indices(l, 2 * i + 1), 2 * i + 1, n) && Covers(Indices(r, 2 * i + 2), 2 * i + 2, n)
  {
    var T, L, R := Indices(Node(l, x, r), i), Indices(l, 2 * i + 1), Indices(r, 2 * i + 2);
    assert T == {i} + L + R;
    IndicesSplit(l, x, r, i);
    BelowUnion(i, L, R, n);
    assert Descends(2 * i + 1, i) && Descends(2 * i + 2, i);
    forall k: nat | k < n && Descends(k, 2 * i + 1) ensures k in L {
      DescendsTrans(k, 2 * i + 1, i);
    }
    forall k: nat | k < n && Descends(k, 2 * i + 2) ensures k in R {
      DescendsTrans(k, 2 * i + 2, i);
    }
  }

  lemma {:induction false} DenseIndices(t: Tree, i: nat, n: nat)
    requires Dense(t, i, n)
    ensures Below(Indices(t, i), n)
    ensures Covers(Indices(t, i), i, n)
  {
    if t.Node? {
      var T, L, R := Indices(t, i), Indices(t.left, 2 * i + 1), Indices(t.right, 2 * i + 2);
      assert T == {i} + L + R;
      DenseIndices(t.left, 2 * i + 1, n);
      DenseIndices(t.right, 2 * i + 2, n);
      BelowUnion(i, L, R, n);
      forall k: nat | k < n && Descends(k, i) ensures k in T {
        if k != i {
          DescendsChild(k, i);
        }
      }
    } else {
      forall k: nat ensures !(k < n && Descends(k, i)) {
        if Descends(k, i) {
          DescendsAtLeast(k, i);
        }
      }
    }
  }

  /** A dense tree numbered from the root holds exactly the indices 0 .. n - 1, so it has n nodes. */
  lemma DenseSize(t: Tree, n: nat)
    requires Dense(t, 0, n)
    ensures Indices(t, 0) == Range(n)
    ensures Size(t) == n
  {
    DenseIndices(t, 0, n);
    RangeSpec(n);
    forall k: nat | k < n ensures Descends(k, 0) {
      DescendsRoot(k);
    }
    IndicesCount(t, 0);
  }

  lemma {:induction false} DescendsRoot(k: nat)
    ensures Descends(k, 0)
    decreases k
  {
    if k > 0 {
      DescendsRoot((k - 1) / 2);
    }
  }

  /**
   * binary_tree_is_complete answers 1 exactly for a non-empty tree whose slots are
   * dense in heap-index order.
   */
  lemma CompleteIffDense(t: Tree)
    ensures BinaryTreeIsComplete(t) == 1 <==> t.Node? && Dense(t, 0, Size(t))
  {
    var n := Size(t);
    IsCompleteSpec(t);
    RangeSpec(n);
    if BinaryTreeIsComplete(t) == 1 {
      forall k: nat | k < n && Descends(k, 0) ensures k in Indices(t, 0) {
      }
      IsCompleteRecBounds(t, 0, n);
      IndicesDense(t, 0, n);
    }
    if t.Node? && Dense(t, 0, n) {
      DenseSize(t, n);
    }
  }

  /** A dense tree has no node with a right child and no left child. */
  lemma {:induction false} DenseNoRightOnly(t: Tree, i: nat, n: nat)
    requires Dense(t, i, n)
    ensures NoRightOnly(t)
  {
    if t.Node? {
      DenseNoRightOnly(t.left, 2 * i + 1, n);
      DenseNoRightOnly(t.right, 2 * i + 2, n);
    }
  }

  /** In a complete tree no node has a right child without a left one. */
  lemma CompleteNoRightOnly(t: Tree)
    requires IsCompleteRec(t, 0, Size(t))
    ensures NoRightOnly(t)
  {
    if t.Node? {
      CompleteIffDense(t);
      DenseNoRightOnly(t, 0, Size(t));
    }
  }

  /**
   * Structural completeness: a complete tree of height h is a perfect left subtree of
   * height h - 1 beside a complete right subtree of height h - 1, or a complete left
   * subtree of height h - 1 beside a perfect right subtree of height h - 2.
   */
  predicate CompleteOfHeight(t: Tree, h: int)
  {
    if t == Nil then h == -1
    else
      h >= 0 &&
      ((PerfectOfHeight(t.left, h - 1) && CompleteOfHeight(t.right, h - 1)) ||
       (CompleteOfHeight(t.left, h - 1) && PerfectOfHeight(t.right, h - 2)))
  }

  /** The number of nodes at depth `d`. */
  function Width(t: Tree, d: int): nat
  {
    match t
    case Nil => 0
    case Node(l, _, r) => if d == 0 then 1 else if d < 0 then 0 else Width(l, d - 1) + Width(r, d - 1)
  }

  lemma {:induction false} PerfectIsComplete(t: Tree, h: int)
    requires PerfectOfHeight(t, h)
    ensures CompleteOfHeight(t, h)
  {
    if t.Node? {
      PerfectIsComplete(t.right, h - 1);
    }
  }

  lemma {:induction false} CompleteHeight(t: Tree, h: int)
    requires CompleteOfHeight(t, h)
    ensures Height(t) == h
  {
    if t.Node? {
      if PerfectOfHeight(t.left, h - 1) && CompleteOfHeight(t.right, h - 1) {
        PerfectOfHeightIsHeight(t.left, h - 1);
        CompleteHeight(t.right, h - 1);
      } else {
        CompleteHeight(t.left, h - 1);
        PerfectOfHeightIsHeight(t.right, h - 2);
      }
    }
  }

  lemma BelowMono(S: set<nat>, a: int, b: int)
    requires Below(S, a) && a <= b
    ensures Below(S, b)
  {
  }

  /** A perfect subtree of height h rooted at index i has i + 2 times 2^h - 1 as an index bound. */
  lemma {:induction false} PerfectIndexBound(t: Tree, h: int, i: nat)
    requires PerfectOfHeight(t, h)
    ensures Width(t, h) == Pow2(h) || h < 0
    ensures Below(Indices(t, i), (i + 2) * Pow2(h) - 1)
  {
    if t.Node? {
      var L, R := Indices(t.left, 2 * i + 1), Indices(t.right, 2 * i + 2);
      var B := (i + 2) * Pow2(h) - 1;
      PerfectIndexBound(t.left, h - 1, 2 * i + 1);
      PerfectIndexBound(t.right, h - 1, 2 * i + 2);
      if h >= 1 {
        var P := Pow2(h - 1);
        TwiceProduct(i + 2, P);
        assert (2 * i + 4) * P - 1 == B;
        BelowMono(L, (2 * i + 3) * P - 1, B);
      } else {
        PerfectOfNegativeHeight(t.left, h - 1);
        PerfectOfNegativeHeight(t.right, h - 1);
        assert Width(t.left, -1) == 0 && Width(t.right, -1) == 0;
      }
      assert i < B;
      assert Indices(t, i) == {i} + L + R;
      BelowUnion(i, L, R, B);
    }
  }

  lemma TwiceProduct(a: int, p: int)
    ensures (2 * a) * p == a * (2 * p)
    ensures a >= 0 && p >= 1 ==> a <= a * p
  {
  }

  /**
   * Size, bottom-level width and index bound of a complete subtree of height h rooted
   * at index i: its n nodes fill 2^h - 1 upper positions plus a non-empty prefix of the
   * bottom level.
   */
  lemma {:induction false} CompleteIndexBound(t: Tree, h: int, i: nat)
    requires CompleteOfHeight(t, h) && t.Node?
    ensures Size(t) + 1 == Pow2(h) + Width(t, h)
    ensures Width(t, h) >= 1
    ensures Below(Indices(t, i), (i + 1) * Pow2(h) + Width(t, h) - 1)
  {
    var l, x, r := t.left, t.n, t.right;
    if h == 0 {
      assert l == Nil && r == Nil;
      assert Indices(t, i) == {i} + {} + {};
    } else if PerfectOfHeight(l, h - 1) && CompleteOfHeight(r, h - 1) {
      CompleteNonNil(r, h - 1);
      CompleteIndexBound(r, h - 1, 2 * i + 2);
      CompleteBoundLeftPerfect(l, x, r, h, i);
    } else {
      CompleteNonNil(l, h - 1);
      CompleteIndexBound(l, h - 1, 2 * i + 1);
      CompleteBoundRightPerfect(l, x, r, h, i);
    }
  }

  lemma CompleteBoundLeftPerfect(l: Tree, x: int, r: Tree, h: int, i: nat)
    requires h >= 1 && PerfectOfHeight(l, h - 1)
    requires Size(r) + 1 == Pow2(h - 1) + Width(r, h - 1)
    requires Below(Indices(r, 2 * i + 2), (2 * i + 3) * Pow2(h - 1) + Width(r, h - 1) - 1)
    ensures Size(Node(l, x, r)) + 1 == Pow2(h) + Width(Node(l, x, r), h)
    ensures Width(Node(l, x, r), h) >= 1
    ensures Below(Indices(Node(l, x, r), i), (i + 1) * Pow2(h) + Width(Node(l, x, r), h) - 1)
  {
    var L, R := Indices(l, 2 * i + 1), Indices(r, 2 * i + 2);
    var P, W := Pow2(h - 1), Width(r, h - 1);
    PerfectIndexBound(l, h - 1, 2 * i + 1);
    PerfectOfHeightIsHeight(l, h - 1);
    assert Pow2(h) == 2 * P;
    assert Width(Node(l, x, r), h) == P + W;
    LeftPerfectArith(i, P, W);
    var B := (i + 1) * Pow2(h) + P + W - 1;
    BelowMono(L, (2 * i + 3) * P - 1, B);
    assert Indices(Node(l, x, r), i) == {i} + L + R;
    BelowUnion(i, L, R, B);
  }

  lemma LeftPerfectArith(i: nat, P: int, W: int)
    requires P >= 1 && W >= 0
    ensures (2 * i + 3) * P - 1 <= (i + 1) * (2 * P) + P + W - 1
    ensures (2 * i + 3) * P + W - 1 == (i + 1) * (2 * P) + P + W - 1
    ensures i < (i + 1) * (2 * P) + P + W - 1
  {
    assert (2 * i + 3) * P == (i + 1) * (2 * P) + P;
  }

  lemma CompleteBoundRightPerfect(l: Tree, x: int, r: Tree, h: int, i: nat)
    requires h >= 1 && PerfectOfHeight(r, h - 2) && l.Node?
    requires Size(l) + 1 == Pow2(h - 1) + Width(l, h - 1)
    requires Width(l, h - 1) >= 1
    requires Below(Indices(l, 2 * i + 1), (2 * i + 2) * Pow2(h - 1) + Width(l, h - 1) - 1)
    ensures Size(Node(l, x, r)) + 1 == Pow2(h) + Width(Node(l, x, r), h)
    ensures Width(Node(l, x, r), h) >= 1
    ensures Below(Indices(Node(l, x, r), i), (i + 1) * Pow2(h) + Width(Node(l, x, r), h) - 1)
  {
    var L, R := Indices(l, 2 * i + 1), Indices(r, 2 * i + 2);
    var P, W := Pow2(h - 1), Width(l, h - 1);
    PerfectOfHeightIsHeight(r, h - 2);
    PerfectWidthBelow(r, h - 2, h - 1);
    assert Width(Node(l, x, r), h) == W;
    var B := (i + 1) * Pow2(h) + W - 1;
    assert Pow2(h) == 2 * P;
    LeftHalfBound(i, P, W);
    if h >= 2 {
      var Q := Pow2(h - 2);
      PerfectIndexBound(r, h - 2, 2 * i + 2);
      RightQuarterBound(i, P, Q, W);
      BelowMono(R, (2 * i + 4) * Q - 1, B);
    } else {
      PerfectOfNegativeHeight(r, h - 2);
    }
    assert Indices(Node(l, x, r), i) == {i} + L + R;
    BelowUnion(i, L, R, B);
  }

  lemma LeftHalfBound(i: nat, P: int, W: int)
    requires P >= 1 && W >= 1
    ensures (2 * i + 2) * P + W - 1 == (i + 1) * (2 * P) + W - 1
    ensures i < (i + 1) * (2 * P) + W - 1
  {
  }

  lemma RightQuarterBound(i: nat, P: int, Q: int, W: int)
    requires P == 2 * Q && Q >= 1 && W >= 1
    ensures (2 * i + 4) * Q - 1 <= (i + 1) * (2 * P) + W - 1
  {
    assert (2 * i + 4) * Q == (i + 2) * P;
  }

  lemma {:induction false} CompleteNonNil(t: Tree, h: int)
    requires CompleteOfHeight(t, h) && h >= 0
    ensures t.Node?
  {
  }

  lemma {:induction false} PerfectWidthBelow(t: Tree, h: int, d: int)
    requires PerfectOfHeight(t, h) && d > h
    ensures Width(t, d) == 0
  {
    if t.Node? {
      PerfectWidthBelow(t.left, h - 1, d - 1);
      PerfectWidthBelow(t.right, h - 1, d - 1);
    }
  }

  /** Every structurally complete tree passes binary_tree_is_complete. */
  lemma CompleteOfHeightIsComplete(t: Tree, h: int)
    requires CompleteOfHeight(t, h) && t.Node?
    ensures BinaryTreeIsComplete(t) == 1
  {
    CompleteIndexBound(t, h, 0);
    IsCompleteRecBounds(t, 0, Size(t));
    assert (0 + 1) * Pow2(h) == Pow2(h);
  }
}
