/**
 * Binary search trees and AVL trees as read-only checks: the bounded BST check, the
 * search descent and the AVL balance check, each tied to a declarative definition.
 */
module SearchTrees {
  import opened Trees
  import opened Traversals

  /** The bounds of the C `int` the checks start from. */
  const INT_MIN: int := -0x8000_0000
  const INT_MAX: int := 0x7fff_ffff

  /**
   * IsBinarySearch_tree_recursive (and its twin check_binary_search_tree of the AVL
   * check): every value lies in [min, max], and the bounds tighten to n - 1 on the
   * left and n + 1 on the right.
   */
  function IsBstRec(t: Tree, min: int, max: int): bool
  {
    match t
    case Nil => true
    case Node(l, x, r) =>
      if x < min || x > max then false
      else IsBstRec(l, min, x - 1) && IsBstRec(r, x + 1, max)
  }

  /** binary_tree_is_bst: 0 for the empty tree. */
  function BinaryTreeIsBst(t: Tree): int
  {
    if t == Nil then 0
    else if IsBstRec(t, INT_MIN, INT_MAX) then 1
    else 0
  }

  /** Every value of the left subtree is below the node, every value of the right one above. */
  ghost predicate Ordered(t: Tree)
  {
    match t
    case Nil => true
    case Node(l, x, r) =>
      Ordered(l) && Ordered(r) &&
      (forall y :: y in Contents(l) ==> y < x) &&
      (forall y :: y in Contents(r) ==> x < y)
  }

  /** Every value lies in [lo, hi]. */
  ghost predicate Within(t: Tree, lo: int, hi: int)
  {
    forall y :: y in Contents(t) ==> lo <= y <= hi
  }

  /** The bounded check accepts exactly the ordered trees whose values lie within the bounds. */
  lemma {:induction false} IsBstRecSpec(t: Tree, lo: int, hi: int)
    ensures IsBstRec(t, lo, hi) <==> Ordered(t) && Within(t, lo, hi)
  {
    if t.Node? {
      var l, x, r := t.left, t.n, t.right;
      IsBstRecSpec(l, lo, x - 1);
      IsBstRecSpec(r, x + 1, hi);
      assert Contents(t) == Contents(l) + {x} + Contents(r);
    }
  }

  /**
   * binary_tree_is_bst answers 1 exactly for a non-empty tree, ordered without
   * duplicates, whose values fit a C `int`.
   */
  lemma IsBstSpec(t: Tree)
    ensures BinaryTreeIsBst(t) == 1 <==> t.Node? && Ordered(t) && Within(t, INT_MIN, INT_MAX)
    ensures BinaryTreeIsBst(t) == 0 || BinaryTreeIsBst(t) == 1
  {
    IsBstRecSpec(t, INT_MIN, INT_MAX);
  }

  /** A single node is a binary search tree. */
  lemma SingleNodeIsBst(x: int)
    requires INT_MIN <= x <= INT_MAX
    ensures BinaryTreeIsBst(Node(Nil, x, Nil)) == 1
  {
    assert IsBstRec(Node(Nil, x, Nil), INT_MIN, INT_MAX);
  }

  predicate StrictlyIncreasing(s: seq<int>)
  {
    forall i, j :: 0 <= i < j < |s| ==> s[i] < s[j]
  }

  lemma {:induction false} InOrderContents(t: Tree)
    ensures forall v :: v in InOrder(t) <==> v in Contents(t)
  {
    if t.Node? {
      InOrderContents(t.left);
      InOrderContents(t.right);
    }
  }

  /** A tree is ordered exactly when its in-order traversal is strictly increasing. */
  lemma {:induction false} OrderedIffInOrderIncreasing(t: Tree)
    ensures Ordered(t) <==> StrictlyIncreasing(InOrder(t))
  {
    if t.Node? {
      var l, x, r := t.left, t.n, t.right;
      OrderedIffInOrderIncreasing(l);
      OrderedIffInOrderIncreasing(r);
      InOrderContents(l);
      InOrderContents(r);
      JoinIncreasing(InOrder(l), x, InOrder(r));
    }
  }

  /** `a + [x] + b` is strictly increasing exactly when both parts are and x separates them. */
  lemma JoinIncreasing(a: seq<int>, x: int, b: seq<int>)
    ensures StrictlyIncreasing(a + [x] + b) <==>
            StrictlyIncreasing(a) && StrictlyIncreasing(b) &&
            (forall y :: y in a ==> y < x) && (forall y :: y in b ==> x < y)
  {
    if StrictlyIncreasing(a + [x] + b) {
      JoinIncreasingParts(a, x, b);
    }
    if StrictlyIncreasing(a) && StrictlyIncreasing(b) &&
       (forall y :: y in a ==> y < x) && (forall y :: y in b ==> x < y) {
      JoinIncreasingWhole(a, x, b);
    }
  }

  lemma JoinIncreasingParts(a: seq<int>, x: int, b: seq<int>)
    requires StrictlyIncreasing(a + [x] + b)
    ensures StrictlyIncreasing(a) && StrictlyIncreasing(b)
    ensures (forall y :: y in a ==> y < x) && (forall y :: y in b ==> x < y)
  {
    var s := a + [x] + b;
    assert forall i :: 0 <= i < |a| ==> s[i] == a[i];
    assert forall j :: 0 <= j < |b| ==> s[|a| + 1 + j] == b[j];
    forall y | y in a ensures y < x {
      var i :| 0 <= i < |a| && a[i] == y;
      assert s[i] == y && s[|a|] == x;
    }
    forall y | y in b ensures x < y {
      var j :| 0 <= j < |b| && b[j] == y;
      assert s[|a| + 1 + j] == y && s[|a|] == x;
    }
    forall i, j | 0 <= i < j < |b| ensures b[i] < b[j] {
      assert s[|a| + 1 + i] == b[i] && s[|a| + 1 + j] == b[j];
    }
  }

  lemma JoinIncreasingWhole(a: seq<int>, x: int, b: seq<int>)
    requires StrictlyIncreasing(a) && StrictlyIncreasing(b)
    requires (forall y :: y in a ==> y < x) && (forall y :: y in b ==> x < y)
    ensures StrictlyIncreasing(a + [x] + b)
  {
    var s := a + [x] + b;
    forall i, j | 0 <= i < j < |s| ensures s[i] < s[j] {
      if j < |a| {
      } else if i < |a| {
        assert a[i] in a;
        if j > |a| {
          assert s[j] == b[j - |a| - 1] && b[j - |a| - 1] in b;
        }
      } else if i == |a| {
        assert s[j] == b[j - |a| - 1] && b[j - |a| - 1] in b;
      } else {
        assert s[i] == b[i - |a| - 1] && s[j] == b[j - |a| - 1];
      }
    }
  }

  /**
   * bst_search: the subtree rooted at the first node holding `value` on the descent,
   * going left when the node is larger and right otherwise; the empty tree when the
   * descent runs out.
   */
  function BstSearch(t: Tree, value: int): Tree
  {
    match t
    case Nil => Nil
    case Node(l, x, r) =>
      if x == value then t
      else if x > value then BstSearch(l, value)
      else BstSearch(r, value)
  }

  /** The number of nodes bst_search looks at. */
  function SearchVisits(t: Tree, value: int): nat
  {
    match t
    case Nil => 0
    case Node(l, x, r) =>
      if x == value then 1
      else if x > value then 1 + SearchVisits(l, value)
      else 1 + SearchVisits(r, value)
  }

  /**
   * On an ordered tree bst_search finds a node exactly when the value is stored, the
   * node it finds holds the value, and it looks at no more nodes than the height plus one.
   */
  lemma {:induction false} BstSearchSpec(t: Tree, value: int)
    requires Ordered(t)
    ensures BstSearch(t, value).Node? <==> value in Contents(t)
    ensures BstSearch(t, value).Node? ==> BstSearch(t, value).n == value
    ensures SearchVisits(t, value) <= CalcHeight(t)
  {
    if t.Node? {
      BstSearchSpec(t.left, value);
      BstSearchSpec(t.right, value);
    }
  }

  /** Whatever bst_search returns is a subtree of the tree it searched. */
  lemma {:induction false} BstSearchSubtree(t: Tree, value: int)
    ensures exists p :: Subtree(t, p) == BstSearch(t, value)
  {
    match t
    case Nil =>
      assert Subtree(t, []) == Nil;
    case Node(l, x, r) =>
      if x == value {
        assert Subtree(t, []) == t;
      } else if x > value {
        BstSearchSubtree(l, value);
        var p :| Subtree(l, p) == BstSearch(l, value);
        assert ([false] + p)[1..] == p;
        assert Subtree(t, [false] + p) == Subtree(l, p);
      } else {
        BstSearchSubtree(r, value);
        var p :| Subtree(r, p) == BstSearch(r, value);
        assert ([true] + p)[1..] == p;
        assert Subtree(t, [true] + p) == Subtree(r, p);
      }
  }

  /** Every node's subtrees differ in height by at most one. */
  ghost predicate AvlBalanced(t: Tree)
  {
    match t
    case Nil => true
    case Node(l, _, r) =>
      -1 <= Height(l) - Height(r) <= 1 && AvlBalanced(l) && AvlBalanced(r)
  }

  /**
   * calculate_tree_balance of the AVL check: the first balance factor outside
   * [-1, 1] met in pre-order, otherwise the C truth value of "some subtree reported a
   * non-zero value".
   */
  function AvlBalanceCheck(t: Tree): int
  {
    if t == Nil then 0
    else
      var bf := Balance(t);
      if bf < -1 || bf > 1 then bf
      else if AvlBalanceCheck(t.left) != 0 || AvlBalanceCheck(t.right) != 0 then 1
      else 0
  }

  /** binary_tree_is_avl: 0 for the empty tree; a BST whose balance check reports 0. */
  function BinaryTreeIsAvl(t: Tree): int
  {
    if t == Nil then 0
    else if IsBstRec(t, INT_MIN, INT_MAX) && AvlBalanceCheck(t) == 0 then 1
    else 0
  }

  /** The balance check reports 0 exactly when every node's subtrees differ in height by at most one. */
  lemma {:induction false} AvlBalanceCheckSpec(t: Tree)
    ensures AvlBalanceCheck(t) == 0 <==> AvlBalanced(t)
  {
    if t.Node? {
      AvlBalanceCheckSpec(t.left);
      AvlBalanceCheckSpec(t.right);
      BalanceIsHeightDifference(t);
    }
  }

  /**
   * binary_tree_is_avl answers 1 exactly for a non-empty ordered tree of C `int`
   * values, without duplicates, whose every node is balanced within one level.
   */
  lemma IsAvlSpec(t: Tree)
    ensures BinaryTreeIsAvl(t) == 1 <==>
            t.Node? && Ordered(t) && Within(t, INT_MIN, INT_MAX) && AvlBalanced(t)
    ensures BinaryTreeIsAvl(t) == 0 || BinaryTreeIsAvl(t) == 1
  {
    IsBstRecSpec(t, INT_MIN, INT_MAX);
    AvlBalanceCheckSpec(t);
  }
}
