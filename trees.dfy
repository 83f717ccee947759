/**
 * Binary trees as values.
 *
 * `Tree` is the value a linked `binary_tree_t` structure denotes once its parent
 * pointers are forgotten: every read-only operation of the library (sizes, heights,
 * balance factors, shape predicates) is a function of this value.  Nodes are located
 * by paths from the root (`false` = go left, `true` = go right), which gives the
 * reference definitions ("every node satisfies ...", "the longest downward path")
 * that the recursive checks of the library are proved equivalent to.
 */
module Trees {

  datatype Tree = Nil | Node(left: Tree, n: int, right: Tree)

  /** The node of `t` reached by following `p` from the root (`Nil` if the path falls off). */
  function Subtree(t: Tree, p: seq<bool>): Tree
    decreases |p|
  {
    if p == [] || t == Nil then t
    else Subtree(if p[0] then t.right else t.left, p[1..])
  }

  /** `P` holds at every node of `t`. */
  ghost predicate Everywhere(t: Tree, P: Tree -> bool)
  {
    forall p: seq<bool> :: Subtree(t, p).Node? ==> P(Subtree(t, p))
  }

  lemma EverywhereNil(P: Tree -> bool)
    ensures Everywhere(Nil, P)
  {
    forall p: seq<bool> ensures Subtree(Nil, p) == Nil {
    }
  }

  /** "Everywhere" distributes over the two subtrees and the root. */
  lemma EverywhereNode(l: Tree, x: int, r: Tree, P: Tree -> bool)
    ensures Everywhere(Node(l, x, r), P) <==>
            P(Node(l, x, r)) && Everywhere(l, P) && Everywhere(r, P)
  {
    var t := Node(l, x, r);
    if Everywhere(t, P) {
      assert Subtree(t, []) == t;
      forall p: seq<bool> | Subtree(l, p).Node? ensures P(Subtree(l, p)) {
        assert Subtree(t, [false] + p) == Subtree(l, p) by {
          assert ([false] + p)[1..] == p;
        }
      }
      forall p: seq<bool> | Subtree(r, p).Node? ensures P(Subtree(r, p)) {
        assert Subtree(t, [true] + p) == Subtree(r, p) by {
          assert ([true] + p)[1..] == p;
        }
      }
    }
    if P(t) && Everywhere(l, P) && Everywhere(r, P) {
      forall p: seq<bool> | Subtree(t, p).Node? ensures P(Subtree(t, p)) {
        if p != [] {
          assert Subtree(t, p) == Subtree(if p[0] then r else l, p[1..]);
        }
      }
    }
  }

  /** binary_tree_size: the number of nodes. */
  function Size(t: Tree): nat
  {
    match t
    case Nil => 0
    case Node(l, _, r) => Size(l) + 1 + Size(r)
  }

  /** The values stored in the tree, with multiplicity. */
  function Bag(t: Tree): multiset<int>
  {
    match t
    case Nil => multiset{}
    case Node(l, x, r) => Bag(l) + multiset{x} + Bag(r)
  }

  /** The set of values stored in the tree. */
  function Contents(t: Tree): set<int>
  {
    match t
    case Nil => {}
    case Node(l, x, r) => Contents(l) + {x} + Contents(r)
  }

  lemma {:induction false} SizeIsBagSize(t: Tree)
    ensures |Bag(t)| == Size(t)
  {
    match t
    case Nil =>
    case Node(l, _, r) =>
      SizeIsBagSize(l);
      SizeIsBagSize(r);
  }

  lemma {:induction false} ContentsOfBag(t: Tree)
    ensures forall v :: v in Contents(t) <==> v in Bag(t)
  {
    match t
    case Nil =>
    case Node(l, _, r) =>
      ContentsOfBag(l);
      ContentsOfBag(r);
  }

  /** Trees holding the same values with the same multiplicities hold the same set of values. */
  lemma BagSameContents(s: Tree, t: Tree)
    requires Bag(s) == Bag(t)
    ensures Contents(s) == Contents(t)
  {
    ContentsOfBag(s);
    ContentsOfBag(t);
    assert Contents(s) <= Contents(t) by {
      forall v | v in Contents(s) ensures v in Contents(t) {
        assert v in Bag(s);
      }
    }
    assert Contents(t) <= Contents(s) by {
      forall v | v in Contents(t) ensures v in Contents(s) {
        assert v in Bag(t);
      }
    }
  }

  /** binary_tree_is_leaf, on the value of a non-NULL node. */
  predicate IsLeaf(t: Tree)
  {
    t.Node? && t.left == Nil && t.right == Nil
  }

  /** A leaf is exactly a one-node tree: one leaf, no internal node, height 0. */
  lemma IsLeafSpec(t: Tree)
    ensures IsLeaf(t) <==> Size(t) == 1
    ensures IsLeaf(t) ==> Leaves(t) == 1 && InternalNodes(t) == 0 && BinaryTreeHeight(t) == 0
  {
    if t.Node? && Size(t) == 1 {
      assert Size(t.left) == 0 && Size(t.right) == 0;
    }
    if IsLeaf(t) {
      assert CalcHeight(t) == 1 by { assert CalcHeight(t.left) == 0 && CalcHeight(t.right) == 0; }
    }
  }

  /**
   * calculate_binary_tree_height: the number of nodes on the longest downward path
   * (0 for the empty tree).
   */
  function CalcHeight(t: Tree): nat
  {
    match t
    case Nil => 0
    case Node(l, _, r) =>
      var hl := CalcHeight(l);
      var hr := CalcHeight(r);
      if hl > hr then hl + 1 else hr + 1
  }

  /**
   * The height in edges, with the empty tree at -1.  This is what the unguarded
   * binary_tree_height of the balance-factor exercise yields once its `size_t`
   * result is read back as an `int` (0 - 1 wraps to SIZE_MAX, which reads as -1).
   */
  function Height(t: Tree): int
  {
    CalcHeight(t) - 1
  }

  /** binary_tree_height: the height in edges, 0 for the empty tree. */
  function BinaryTreeHeight(t: Tree): (h: nat)
    ensures t.Node? ==> h == Height(t)
    ensures t == Nil ==> h == 0
  {
    if t == Nil then 0 else CalcHeight(t) - 1
  }

  /** A path reaching a deepest node. */
  function DeepestPath(t: Tree): seq<bool>
  {
    match t
    case Nil => []
    case Node(l, _, r) =>
      if l == Nil && r == Nil then []
      else if CalcHeight(l) > CalcHeight(r) then [false] + DeepestPath(l)
      else [true] + DeepestPath(r)
  }

  /** No downward path reaches a node deeper than the height. */
  lemma {:induction false} PathsWithinHeight(t: Tree, p: seq<bool>)
    requires Subtree(t, p).Node?
    ensures |p| <= Height(t)
    decreases |p|
  {
    if p != [] {
      PathsWithinHeight(if p[0] then t.right else t.left, p[1..]);
    }
  }

  /** Some downward path reaches a node at depth exactly the height. */
  lemma {:induction false} DeepestPathReachesHeight(t: Tree)
    requires t.Node?
    ensures Subtree(t, DeepestPath(t)).Node?
    ensures |DeepestPath(t)| == Height(t)
  {
    var p := DeepestPath(t);
    if t.left != Nil || t.right != Nil {
      var c := if CalcHeight(t.left) > CalcHeight(t.right) then t.left else t.right;
      DeepestPathReachesHeight(c);
      assert p[1..] == DeepestPath(c);
    }
  }

  /**
   * binary_tree_height measures the longest downward path in edges: 0 for the empty
   * tree, and otherwise no path reaches a node deeper than it while some path reaches
   * a node exactly that deep.
   */
  lemma BinaryTreeHeightSpec(t: Tree)
    ensures t == Nil ==> BinaryTreeHeight(t) == 0
    ensures forall p | Subtree(t, p).Node? :: |p| <= BinaryTreeHeight(t)
    ensures t.Node? ==>
      Subtree(t, DeepestPath(t)).Node? && |DeepestPath(t)| == BinaryTreeHeight(t)
  {
    forall p | Subtree(t, p).Node?
      ensures |p| <= BinaryTreeHeight(t)
    {
      PathsWithinHeight(t, p);
    }
    if t.Node? {
      DeepestPathReachesHeight(t);
    }
  }

  /** binary_tree_leaves: the number of nodes without children. */
  function Leaves(t: Tree): nat
  {
    match t
    case Nil => 0
    case Node(l, _, r) => if l == Nil && r == Nil then 1 else Leaves(l) + Leaves(r)
  }

  /** binary_tree_nodes: the number of nodes with at least one child. */
  function InternalNodes(t: Tree): nat
  {
    if t.Node? && (t.left.Node? || t.right.Node?) then
      InternalNodes(t.left) + 1 + InternalNodes(t.right)
    else 0
  }

  /** Every node is either a leaf or has a child, and is counted once. */
  lemma {:induction false} LeavesPlusInternal(t: Tree)
    ensures Leaves(t) + InternalNodes(t) == Size(t)
  {
    match t
    case Nil =>
    case Node(l, _, r) =>
      LeavesPlusInternal(l);
      LeavesPlusInternal(r);
  }

  /** A non-empty tree has at least one leaf. */
  lemma {:induction false} NonEmptyHasLeaf(t: Tree)
    requires t.Node?
    ensures Leaves(t) >= 1
  {
    if t.left.Node? {
      NonEmptyHasLeaf(t.left);
    } else if t.right.Node? {
      NonEmptyHasLeaf(t.right);
    }
  }

  /**
   * binary_tree_balance: height of the left subtree minus height of the right one,
   * 0 for the empty tree and for a leaf.
   */
  function Balance(t: Tree): int
  {
    if t == Nil || (t.left == Nil && t.right == Nil) then 0
    else Height(t.left) - Height(t.right)
  }

  /** The leaf special case agrees with the general formula: the balance is always the height difference. */
  lemma BalanceIsHeightDifference(t: Tree)
    requires t.Node?
    ensures Balance(t) == Height(t.left) - Height(t.right)
    ensures Balance(t) > 0 <==> CalcHeight(t.left) > CalcHeight(t.right)
  {
  }

  /** A node with exactly one child is what makes a tree non-full. */
  predicate OneChild(t: Tree)
  {
    t.Node? && (t.left == Nil) != (t.right == Nil)
  }

  /** is_binary_tree_full: no node has exactly one child (the empty tree counts as full). */
  function IsFullRec(t: Tree): bool
  {
    if t == Nil then true
    else if t.left == Nil && t.right == Nil then true
    else if t.left == Nil || t.right == Nil then false
    else IsFullRec(t.left) && IsFullRec(t.right)
  }

  /** binary_tree_is_full: 1 for a non-empty full tree, 0 otherwise. */
  function BinaryTreeIsFull(t: Tree): int
  {
    if t == Nil then 0 else if IsFullRec(t) then 1 else 0
  }

  lemma {:induction false} IsFullRecMeansNoOneChild(t: Tree)
    ensures IsFullRec(t) <==> Everywhere(t, s => !OneChild(s))
  {
    match t
    case Nil => EverywhereNil(s => !OneChild(s));
    case Node(l, x, r) =>
      IsFullRecMeansNoOneChild(l);
      IsFullRecMeansNoOneChild(r);
      EverywhereNode(l, x, r, s => !OneChild(s));
      if l == Nil && r == Nil {
        EverywhereNil(s => !OneChild(s));
      }
  }

  /** binary_tree_is_full answers 1 exactly for non-empty trees in which no node has one child. */
  lemma IsFullSpec(t: Tree)
    ensures BinaryTreeIsFull(t) == 1 <==> t.Node? && Everywhere(t, s => !OneChild(s))
    ensures BinaryTreeIsFull(t) == 0 || BinaryTreeIsFull(t) == 1
  {
    IsFullRecMeansNoOneChild(t);
  }

  /** In a full tree there is one more leaf than there are internal nodes. */
  lemma {:induction false} FullLeavesExceedInternal(t: Tree)
    requires t.Node? && IsFullRec(t)
    ensures Leaves(t) == InternalNodes(t) + 1
  {
    if t.left != Nil {
      FullLeavesExceedInternal(t.left);
      FullLeavesExceedInternal(t.right);
    }
  }

  /**
   * calculate_tree_balance of the perfect-tree exercise: the first non-zero balance
   * factor met in pre-order, otherwise the C truth value of "some subtree reported
   * a non-zero value".
   */
  function PerfectBalanceCheck(t: Tree): int
  {
    if t == Nil then 0
    else
      var bf := Balance(t);
      if bf != 0 then bf
      else if PerfectBalanceCheck(t.left) != 0 || PerfectBalanceCheck(t.right) != 0 then 1
      else 0
  }

  /** binary_tree_is_perfect (balance-factor version). */
  function IsPerfect(t: Tree): int
  {
    if t == Nil then 0
    else if PerfectBalanceCheck(t) == 0 then 1
    else 0
  }

  /** All leaves of `t` lie at depth `d`, every other node has two children. */
  ghost predicate PerfectShape(t: Tree, d: int)
  {
    forall p: seq<bool> :: Subtree(t, p).Node? ==>
      (if |p| == d then IsLeaf(Subtree(t, p)) else
         |p| < d && Subtree(t, p).left.Node? && Subtree(t, p).right.Node?)
  }

  /** Recursive characterisation of a perfect tree of height `h` (the empty tree has height -1). */
  predicate PerfectOfHeight(t: Tree, h: int)
  {
    if t == Nil then h == -1
    else h >= 0 && PerfectOfHeight(t.left, h - 1) && PerfectOfHeight(t.right, h - 1)
  }

  lemma {:induction false} PerfectOfHeightIsHeight(t: Tree, h: int)
    requires PerfectOfHeight(t, h)
    ensures Height(t) == h
    ensures Size(t) == Pow2(h + 1) - 1
  {
    if t.Node? {
      PerfectOfHeightIsHeight(t.left, h - 1);
      PerfectOfHeightIsHeight(t.right, h - 1);
    }
  }

  function Pow2(k: int): (p: nat)
    ensures p >= 1
  {
    if k <= 0 then 1 else 2 * Pow2(k - 1)
  }

  /** Shifting the reference shape one level down. */
  lemma {:induction false} PerfectShapeNode(l: Tree, x: int, r: Tree, d: int)
    requires d >= 1
    ensures PerfectShape(Node(l, x, r), d) <==>
            l.Node? && r.Node? && PerfectShape(l, d - 1) && PerfectShape(r, d - 1)
  {
    var t := Node(l, x, r);
    if PerfectShape(t, d) {
      assert Subtree(t, []) == t;
      forall p: seq<bool> | Subtree(l, p).Node?
        ensures if |p| == d - 1 then IsLeaf(Subtree(l, p)) else
                  |p| < d - 1 && Subtree(l, p).left.Node? && Subtree(l, p).right.Node?
      {
        assert ([false] + p)[1..] == p;
        assert Subtree(t, [false] + p) == Subtree(l, p);
      }
      forall p: seq<bool> | Subtree(r, p).Node?
        ensures if |p| == d - 1 then IsLeaf(Subtree(r, p)) else
                  |p| < d - 1 && Subtree(r, p).left.Node? && Subtree(r, p).right.Node?
      {
        assert ([true] + p)[1..] == p;
        assert Subtree(t, [true] + p) == Subtree(r, p);
      }
    }
    if l.Node? && r.Node? && PerfectShape(l, d - 1) && PerfectShape(r, d - 1) {
      forall p: seq<bool> | Subtree(t, p).Node?
        ensures if |p| == d then IsLeaf(Subtree(t, p)) else
                  |p| < d && Subtree(t, p).left.Node? && Subtree(t, p).right.Node?
      {
        if p != [] {
          assert Subtree(t, p) == Subtree(if p[0] then r else l, p[1..]);
        }
      }
    }
  }

  lemma {:induction false} PerfectOfHeightIsShape(t: Tree, h: int)
    requires h >= 0 && t.Node?
    ensures PerfectOfHeight(t, h) <==> PerfectShape(t, h)
  {
    var l, x, r := t.left, t.n, t.right;
    if h == 0 {
      assert Subtree(t, []) == t;
      if PerfectOfHeight(t, 0) {
        PerfectOfNegativeHeight(l, -1);
        PerfectOfNegativeHeight(r, -1);
        forall p: seq<bool> | p != [] ensures Subtree(t, p) == Nil {
          assert Subtree(t, p) == Subtree(Nil, p[1..]);
          SubtreeOfNil(p[1..]);
        }
      }
    } else {
      PerfectShapeNode(l, x, r, h);
      if PerfectShape(t, h) {
        PerfectOfHeightIsShape(l, h - 1);
        PerfectOfHeightIsShape(r, h - 1);
      }
      if PerfectOfHeight(t, h) {
        PerfectOfHeightNonNil(l, h - 1);
        PerfectOfHeightNonNil(r, h - 1);
        PerfectOfHeightIsShape(l, h - 1);
        PerfectOfHeightIsShape(r, h - 1);
      }
    }
  }

  lemma {:induction false} SubtreeOfNil(p: seq<bool>)
    ensures Subtree(Nil, p) == Nil
  {
  }

  lemma PerfectOfHeightNonNil(t: Tree, h: int)
    requires h >= 0 && PerfectOfHeight(t, h)
    ensures t.Node?
  {
  }

  lemma PerfectOfNegativeHeight(t: Tree, h: int)
    requires h < 0 && PerfectOfHeight(t, h)
    ensures t == Nil
  {
  }

  /** A perfect tree has balance factor 0 at every node. */
  lemma {:induction false} PerfectCheckZero(t: Tree, h: int)
    requires PerfectOfHeight(t, h)
    ensures PerfectBalanceCheck(t) == 0
  {
    if t.Node? {
      PerfectOfHeightIsHeight(t.left, h - 1);
      PerfectOfHeightIsHeight(t.right, h - 1);
      PerfectCheckZero(t.left, h - 1);
      PerfectCheckZero(t.right, h - 1);
    }
  }

  /** Balance factor 0 everywhere makes both subtrees of every node perfect of the same height. */
  lemma {:induction false} CheckZeroIsPerfect(t: Tree)
    requires t.Node? && PerfectBalanceCheck(t) == 0
    ensures PerfectOfHeight(t, Height(t))
  {
    var l, r := t.left, t.right;
    if l == Nil && r == Nil {
      assert CalcHeight(l) == 0 && CalcHeight(r) == 0;
    } else {
      assert Balance(t) == 0;
      assert l.Node? && r.Node?;
      assert Height(l) == Height(r) == Height(t) - 1;
      CheckZeroIsPerfect(l);
      CheckZeroIsPerfect(r);
    }
  }

  /**
   * binary_tree_is_perfect answers 1 exactly when the tree is non-empty, every leaf
   * lies at the same depth (its height) and every other node has two children.
   */
  lemma IsPerfectSpec(t: Tree)
    ensures IsPerfect(t) == 1 <==> t.Node? && PerfectShape(t, Height(t))
    ensures IsPerfect(t) == 0 || IsPerfect(t) == 1
  {
    if t.Node? {
      if PerfectBalanceCheck(t) == 0 {
        CheckZeroIsPerfect(t);
      }
      if PerfectOfHeight(t, Height(t)) {
        PerfectCheckZero(t, Height(t));
      }
      PerfectOfHeightIsShape(t, Height(t));
    }
  }

  /** A perfect tree of height h holds 2^(h+1) - 1 nodes. */
  lemma PerfectSize(t: Tree)
    requires IsPerfect(t) == 1
    ensures Size(t) == Pow2(Height(t) + 1) - 1
  {
    CheckZeroIsPerfect(t);
    PerfectOfHeightIsHeight(t, Height(t));
  }
}
