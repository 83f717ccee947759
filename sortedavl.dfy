/**
 * sorted_array_to_avl (124): the middle element of each range becomes the root of the
 * subtree built from that range.  The result is a tree value; the array is its contents.
 */
module SortedToAvl {
  import opened Trees
  import opened Traversals
  import opened SearchTrees
  import opened AvlInsert

  /**
   * create_balanced_avl: the empty tree when start > end; otherwise s[(start + end) / 2]
   * at the root, the range before it on the left and the range after it on the right.
   */
  function CreateBalancedAvl(s: seq<int>, start: int, end: int): Tree
    requires 0 <= start && start - 1 <= end < |s|
    decreases end - start + 1
  {
    if start > end then Nil
    else
      var middle := (start + end) / 2;
      Node(CreateBalancedAvl(s, start, middle - 1), s[middle], CreateBalancedAvl(s, middle + 1, end))
  }

  /** Whatever the array holds, the in-order sequence of the tree built from a range is the range itself. */
  lemma {:induction false} CreateBalancedAvlInOrder(s: seq<int>, start: int, end: int)
    requires 0 <= start && start - 1 <= end < |s|
    ensures InOrder(CreateBalancedAvl(s, start, end)) == s[start..end + 1]
    decreases end - start + 1
  {
    if start <= end {
      var middle := (start + end) / 2;
      CreateBalancedAvlInOrder(s, start, middle - 1);
      CreateBalancedAvlInOrder(s, middle + 1, end);
      assert s[start..end + 1] == s[start..middle] + [s[middle]] + s[middle + 1..end + 1];
    }
  }

  /** sorted_array_to_avl: the empty tree for an empty array, otherwise the whole range. */
  function SortedArrayToAvl(a: seq<int>): Tree
  {
    if |a| == 0 then Nil
    else CreateBalancedAvl(a, 0, |a| - 1)
  }

  /** The in-order sequence of the tree sorted_array_to_avl builds is the array. */
  lemma SortedArrayToAvlInOrder(a: seq<int>)
    ensures InOrder(SortedArrayToAvl(a)) == a
    ensures SortedArrayToAvl(a) == Nil <==> |a| == 0
  {
    if |a| > 0 {
      CreateBalancedAvlInOrder(a, 0, |a| - 1);
      assert a[0..|a|] == a;
    }
  }

  /** The floor of the base-2 logarithm, and -1 for 0. */
  function Log2(n: nat): (r: int)
    ensures r >= -1
  {
    if n == 0 then -1 else 1 + Log2(n / 2)
  }

  lemma {:induction false} Log2Monotone(a: nat, b: nat)
    requires a <= b
    ensures Log2(a) <= Log2(b)
  {
    if a > 0 {
      assert a / 2 <= b / 2;
      Log2Monotone(a / 2, b / 2);
      assert Log2(a) == 1 + Log2(a / 2) && Log2(b) == 1 + Log2(b / 2);
    }
  }

  /** One element fewer lowers the logarithm by at most one. */
  lemma Log2Predecessor(b: nat)
    requires b >= 1
    ensures Log2(b) - 1 <= Log2(b - 1)
  {
    if b >= 2 {
      Log2Monotone(b / 2, b - 1);
    }
  }

  /** A number below 2^(h+1) has a logarithm of at most h. */
  lemma {:induction false} Log2Below(n: nat, h: int)
    requires h >= -1 && n < Pow2(h + 1)
    ensures Log2(n) <= h
  {
    if n > 0 {
      assert h >= 0;
      assert Pow2(h + 1) == 2 * Pow2(h);
      assert n / 2 < Pow2(h);
      Log2Below(n / 2, h - 1);
    }
  }

  /** The two halves create_balanced_avl splits n elements into differ in logarithm by at most one. */
  lemma Log2Halves(n: nat)
    requires n >= 1
    ensures Log2(n) == 1 + Log2(n / 2)
    ensures Log2(n / 2) - 1 <= Log2((n - 1) / 2) <= Log2(n / 2)
  {
    var h, g := n / 2, (n - 1) / 2;
    if n % 2 == 0 {
      assert g == h - 1 && h >= 1;
      Log2Predecessor(h);
      Log2Monotone(g, h);
    } else {
      assert g == h;
    }
  }

  /**
   * The tree built from a range of n elements is AVL-balanced and exactly floor(log2 n)
   * levels tall (counting edges).
   */
  lemma CreateBalancedAvlShape(s: seq<int>, start: int, end: int)
    requires 0 <= start && start - 1 <= end < |s|
    ensures AvlBalanced(CreateBalancedAvl(s, start, end))
    ensures Height(CreateBalancedAvl(s, start, end)) == Log2(end - start + 1)
  {
    CreateBalancedAvlSplit(s, start, end);
    EvenlySplitShape(CreateBalancedAvl(s, start, end));
  }

  /** Every node's right subtree holds as many nodes as its left one, or one more. */
  ghost predicate EvenlySplit(t: Tree)
  {
    match t
    case Nil => true
    case Node(l, _, r) => (Size(r) == Size(l) || Size(r) == Size(l) + 1) && EvenlySplit(l) && EvenlySplit(r)
  }

  /** create_balanced_avl puts the n elements of a range in n nodes, split evenly at every node. */
  lemma {:induction false} CreateBalancedAvlSplit(s: seq<int>, start: int, end: int)
    requires 0 <= start && start - 1 <= end < |s|
    ensures Size(CreateBalancedAvl(s, start, end)) == end - start + 1
    ensures EvenlySplit(CreateBalancedAvl(s, start, end))
    decreases end - start + 1
  {
    if start <= end {
      var middle := (start + end) / 2;
      var l, r := CreateBalancedAvl(s, start, middle - 1), CreateBalancedAvl(s, middle + 1, end);
      assert CreateBalancedAvl(s, start, end) == Node(l, s[middle], r);
      MiddleSizes(start, end);
      CreateBalancedAvlSplit(s, start, middle - 1);
      CreateBalancedAvlSplit(s, middle + 1, end);
    }
  }

  /** An evenly split tree is AVL-balanced and floor(log2 n) levels tall for its n nodes. */
  lemma {:induction false} EvenlySplitShape(t: Tree)
    requires EvenlySplit(t)
    ensures AvlBalanced(t) && Height(t) == Log2(Size(t))
  {
    if t.Node? {
      EvenlySplitShape(t.left);
      EvenlySplitShape(t.right);
      BalancedHalves(t.left, t.n, t.right, Size(t.left), Size(t.right), Size(t));
    }
  }

  /** The range right of the middle holds as many elements as the left one, or one more. */
  lemma MiddleSizes(start: int, end: int)
    requires start <= end
    ensures start <= (start + end) / 2 <= end
    ensures var m := (start + end) / 2; end - m == m - start || end - m == m - start + 1
  {
  }

  /**
   * Two balanced halves of a, and a or a + 1, elements, each floor(log2) of its size
   * tall, make a balanced tree of n = a + b + 1 nodes and height floor(log2 n).
   */
  lemma BalancedHalves(l: Tree, x: int, r: Tree, a: nat, b: nat, n: nat)
    requires b == a || b == a + 1
    requires n == a + b + 1
    requires AvlBalanced(l) && AvlBalanced(r) && Height(l) == Log2(a) && Height(r) == Log2(b)
    ensures AvlBalanced(Node(l, x, r)) && Height(Node(l, x, r)) == Log2(n)
  {
    assert (n - 1) / 2 == a && n / 2 == b;
    Log2Halves(n);
    HeightOfNode(l, x, r);
  }

  /** A tree of height h holds fewer than 2^(h+1) nodes. */
  lemma {:induction false} SizeBelowPow2(t: Tree)
    ensures Size(t) < Pow2(Height(t) + 1)
  {
    if t.Node? {
      SizeBelowPow2(t.left);
      SizeBelowPow2(t.right);
      HeightOfNode(t.left, t.n, t.right);
      PowMonotone(Height(t.left) + 1, Height(t));
      PowMonotone(Height(t.right) + 1, Height(t));
    }
  }

  lemma {:induction false} PowMonotone(j: int, k: int)
    requires j <= k
    ensures Pow2(j) <= Pow2(k)
  {
    if k > 0 && j < k {
      PowMonotone(j, k - 1);
    }
  }

  /** The tree sorted_array_to_avl builds is AVL-balanced and floor(log2 n) levels tall. */
  lemma SortedArrayToAvlShape(a: seq<int>)
    ensures AvlBalanced(SortedArrayToAvl(a))
    ensures Height(SortedArrayToAvl(a)) == Log2(|a|)
  {
    if |a| > 0 {
      CreateBalancedAvlShape(a, 0, |a| - 1);
    }
  }

  /** No tree of n nodes is shorter than floor(log2 n). */
  lemma HeightAtLeastLog2(u: Tree)
    ensures Log2(Size(u)) <= Height(u)
  {
    SizeBelowPow2(u);
    Log2Below(Size(u), Height(u));
  }

  /**
   * From a strictly increasing array, sorted_array_to_avl builds an ordered AVL tree of
   * exactly its values, whose height is the least any tree of that many nodes can have.
   */
  lemma SortedArrayToAvlSpec(a: seq<int>, u: Tree)
    requires StrictlyIncreasing(a)
    ensures Ordered(SortedArrayToAvl(a)) && AvlBalanced(SortedArrayToAvl(a))
    ensures Contents(SortedArrayToAvl(a)) == set x | x in a
    ensures Size(SortedArrayToAvl(a)) == |a|
    ensures Size(u) == |a| ==> Height(SortedArrayToAvl(a)) <= Height(u)
  {
    var t := SortedArrayToAvl(a);
    SortedArrayToAvlInOrder(a);
    assert Ordered(t) by {
      OrderedIffInOrderIncreasing(t);
    }
    assert Contents(t) == set x | x in a by {
      InOrderContents(t);
      assert InOrder(t) == a;
      forall v ensures v in Contents(t) <==> v in a {
        assert v in InOrder(t) <==> v in Contents(t);
      }
    }
    assert Size(t) == |a| by {
      InOrderVisitsEachNodeOnce(t);
    }
    SortedArrayToAvlShape(a);
    HeightAtLeastLog2(u);
  }
}
