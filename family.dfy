/**
 * The read-only questions asked of a linked node through its pointers: is it the
 * root, how deep is it, who is its sibling, its uncle, and the ancestor search that
 * climbs two parent chains at once.
 *
 * A parent chain is the ghost sequence of nodes met by following `parent` from a node
 * up to a node whose parent is null.  Requiring one says the climb ends, which the C
 * loops and recursions silently rely on.
 */
module Family {
  import opened Trees
  import opened Linking

  /** `c` lists `x`, its parent, its grandparent, ... up to a node with no parent; empty for null. */
  ghost predicate ParentChain(x: TreeNode?, c: seq<TreeNode>)
    reads set y | y in c
  {
    if x == null then c == []
    else
      |c| > 0 && c[0] == x && c[|c| - 1].parent == null &&
      forall i | 0 <= i < |c| - 1 :: c[i].parent == c[i + 1]
  }

  /** Every suffix of a parent chain is the parent chain of its first node. */
  lemma ChainSuffix(x: TreeNode?, c: seq<TreeNode>, i: nat)
    requires ParentChain(x, c) && i < |c|
    ensures ParentChain(c[i], c[i..])
  {
    forall k | 0 <= k < |c[i..]| - 1
      ensures c[i..][k].parent == c[i..][k + 1]
    {
      assert c[i..][k] == c[i + k] && c[i..][k + 1] == c[i + k + 1];
    }
  }

  /** The parent chain of a node's parent is its own chain without the node. */
  lemma ChainTail(x: TreeNode, c: seq<TreeNode>)
    requires ParentChain(x, c)
    ensures ParentChain(x.parent, c[1..])
  {
    if |c| > 1 {
      ChainSuffix(x, c, 1);
    }
  }

  /** A node has at most one parent chain. */
  lemma {:induction false} ChainUnique(x: TreeNode?, c: seq<TreeNode>, d: seq<TreeNode>)
    requires ParentChain(x, c) && ParentChain(x, d)
    ensures c == d
    decreases |c|
  {
    if x != null {
      ChainTail(x, c);
      ChainTail(x, d);
      ChainUnique(x.parent, c[1..], d[1..]);
      assert c == [x] + c[1..] && d == [x] + d[1..];
    }
  }

  /** No node occurs twice on a parent chain: the chain is the acyclic climb to the root. */
  lemma ChainDistinct(x: TreeNode?, c: seq<TreeNode>, i: nat, j: nat)
    requires ParentChain(x, c) && i < j < |c|
    ensures c[i] != c[j]
  {
    if c[i] == c[j] {
      ChainSuffix(x, c, i);
      ChainSuffix(x, c, j);
      ChainUnique(c[i], c[i..], c[j..]);
    }
  }

  // ---------------------------------------------------------------------------
  // Where parents and children sit in a linked layout

  /** A child of a node of a linked layout is a node below its root that points back at it. */
  lemma {:induction false} ChildrenOf(L: Layout, p: TreeNode)
    requires Linked(L) && p in Nodes(L)
    ensures p.left != null ==> p.left in Inner(L) && p.left.parent == p
    ensures p.right != null ==> p.right in Inner(L) && p.right.parent == p
    ensures p.left != null ==> p.left != p.right
  {
    var l, x, r := L.left, L.node, L.right;
    assert Nodes(L) == Nodes(l) + {x} + Nodes(r);
    if p != x {
      if p in Nodes(l) {
        ChildrenOf(l, p);
      } else {
        ChildrenOf(r, p);
      }
    }
  }

  /** A node below the root of a linked layout has a parent in the layout, and is one of its children. */
  lemma {:induction false} ParentOf(L: Layout, y: TreeNode)
    requires Linked(L) && y in Inner(L)
    ensures y.parent != null && y.parent in Nodes(L)
    ensures y.parent.left == y || y.parent.right == y
  {
    var l, x, r := L.left, L.node, L.right;
    assert Nodes(L) == Nodes(l) + {x} + Nodes(r);
    if y in Nodes(l) && y != l.node {
      ParentOf(l, y);
    } else if y in Nodes(r) && y != r.node {
      ParentOf(r, y);
    }
  }

  /** The climb from `y` to the root of the layout, read off the shape. */
  ghost function PathUp(L: Layout, y: TreeNode): (c: seq<TreeNode>)
    requires y in Nodes(L)
    ensures |c| > 0 && c[0] == y && c[|c| - 1] == L.node
  {
    if y == L.node then [y]
    else if y in Nodes(L.left) then PathUp(L.left, y) + [L.node]
    else PathUp(L.right, y) + [L.node]
  }

  /** Following parent pointers from any node of a linked layout walks up the shape, one cell at a time. */
  lemma {:induction false} PathUpLinks(L: Layout, y: TreeNode)
    requires Linked(L) && y in Nodes(L)
    ensures var c := PathUp(L, y); forall i | 0 <= i < |c| - 1 :: c[i].parent == c[i + 1]
  {
    var l, x, r := L.left, L.node, L.right;
    if y != x {
      var s := if y in Nodes(l) then l else r;
      PathUpLinks(s, y);
      var c := PathUp(L, y);
      assert c == PathUp(s, y) + [x];
      assert c[|c| - 2] == s.node;
    }
  }

  /** In a linked tree whose root has no parent, every node's parent chain exists: the one read off the shape. */
  lemma ChainInLayout(L: Layout, y: TreeNode)
    requires Linked(L) && y in Nodes(L) && L.node.parent == null
    ensures ParentChain(y, PathUp(L, y))
  {
    PathUpLinks(L, y);
  }

  // ---------------------------------------------------------------------------
  // binary_tree_is_root

  /** binary_tree_is_root: 1 for a node with no parent, 0 for NULL or a node that has one. */
  function IsRoot(node: TreeNode?): (r: int)
    reads node
    ensures r == 0 || r == 1
    ensures r == 1 <==> node != null && node.parent == null
  {
    if node != null && node.parent == null then 1 else 0
  }

  /** In a linked tree whose root has no parent, exactly the root answers 1. */
  lemma IsRootInLayout(L: Layout, y: TreeNode)
    requires Linked(L) && y in Nodes(L) && L.node.parent == null
    ensures IsRoot(y) == 1 <==> y == L.node
  {
    if y != L.node {
      ParentOf(L, y);
    }
  }

  // ---------------------------------------------------------------------------
  // binary_tree_depth

  /**
   * binary_tree_depth: the number of parent links from `tree` up to the root, counted
   * by climbing; 0 for NULL.  The climb ends because the chain does.
   */
  method Depth(tree: TreeNode?, ghost chain: seq<TreeNode>) returns (depth: nat)
    requires ParentChain(tree, chain)
    ensures tree == null ==> depth == 0
    ensures tree != null ==> depth == |chain| - 1
  {
    if tree == null {
      return 0;
    }
    var current := tree;
    var climbed := 0;
    while current != null
      invariant 0 <= climbed <= |chain|
      invariant current == (if climbed < |chain| then chain[climbed] else null)
      decreases |chain| - climbed
    {
      current := current.parent;
      climbed := climbed + 1;
    }
    return climbed - 1;
  }

  /** A root has depth 0 and every other node lies one link deeper than its parent. */
  lemma DepthStep(x: TreeNode, c: seq<TreeNode>, d: seq<TreeNode>)
    requires ParentChain(x, c) && ParentChain(x.parent, d)
    ensures x.parent == null ==> |c| - 1 == 0
    ensures x.parent != null ==> |c| - 1 == (|d| - 1) + 1
  {
    ChainTail(x, c);
    ChainUnique(x.parent, c[1..], d);
  }

  /** In a linked tree, the depth of a node is the number of cells above it in the shape. */
  lemma DepthInLayout(L: Layout, y: TreeNode, c: seq<TreeNode>)
    requires Linked(L) && y in Nodes(L) && L.node.parent == null
    requires ParentChain(y, c)
    ensures c == PathUp(L, y)
    ensures y == L.node <==> |c| - 1 == 0
  {
    ChainInLayout(L, y);
    ChainUnique(y, c, PathUp(L, y));
    if y != L.node {
      assert |c| >= 2;
    }
  }

  // ---------------------------------------------------------------------------
  // binary_tree_sibling, binary_tree_uncle

  /**
   * binary_tree_sibling: NULL for NULL or a parentless node; the parent's right child
   * for its left child, and the parent's left child otherwise.
   */
  function Sibling(node: TreeNode?): (s: TreeNode?)
    reads node, if node != null then node.parent else null
    ensures node == null || node.parent == null ==> s == null
    ensures s != null ==> s == node.parent.left || s == node.parent.right
    ensures node != null && node.parent != null && node == node.parent.left ==> s == node.parent.right
    ensures node != null && node.parent != null && node == node.parent.right ==> s == node.parent.left
  {
    if node == null || node.parent == null then null
    else if node == node.parent.left then node.parent.right
    else node.parent.left
  }

  /**
   * In a linked tree the sibling of a non-root node is the other child of the same
   * parent: never the node itself, and the sibling of the sibling is the node again.
   */
  lemma SiblingInLayout(L: Layout, y: TreeNode)
    requires Linked(L) && y in Inner(L)
    ensures Sibling(y) != y
    ensures Sibling(y) == null <==> y.parent == null || y.parent.left == null || y.parent.right == null
    ensures Sibling(y) != null ==>
      Sibling(y) in Inner(L) && Sibling(y).parent == y.parent && Sibling(Sibling(y)) == y
  {
    ParentOf(L, y);
    ChildrenOf(L, y.parent);
  }

  /** binary_tree_uncle: NULL for NULL or a parentless node, otherwise the sibling of the parent. */
  function Uncle(node: TreeNode?): (u: TreeNode?)
    reads node, if node != null then node.parent else null
    reads if node != null && node.parent != null then node.parent.parent else null
    ensures node == null || node.parent == null ==> u == null
    ensures node != null && node.parent != null ==> u == Sibling(node.parent)
    ensures node != null && node.parent != null && node.parent.parent == null ==> u == null
  {
    if node == null then null
    else if node.parent == null then null
    else Sibling(node.parent)
  }

  /** In a linked tree an uncle is a child of the grandparent other than the parent. */
  lemma UncleInLayout(L: Layout, y: TreeNode)
    requires Linked(L) && y in Inner(L) && L.node.parent == null
    ensures Uncle(y) != y.parent
    ensures Uncle(y) == null <==>
      y.parent == L.node ||
      (y.parent != null && y.parent.parent != null &&
       (y.parent.parent.left == null || y.parent.parent.right == null))
    ensures Uncle(y) != null ==> Uncle(y) in Inner(L) && Uncle(y).parent == y.parent.parent
  {
    ParentOf(L, y);
    var p := y.parent;
    if p in Inner(L) {
      ParentOf(L, p);
      SiblingInLayout(L, p);
    }
  }

  // ---------------------------------------------------------------------------
  // binary_trees_ancestor

  /**
   * binary_trees_ancestor: NULL when either node is NULL, the node itself when both
   * are the same; otherwise climb the second node when the first is a root, is the
   * second's parent, or sits just below a root; else climb the first when the mirror
   * holds; else climb both.  Each call drops at least one node from the chains.
   */
  function Ancestor(first: TreeNode?, second: TreeNode?, ghost c1: seq<TreeNode>, ghost c2: seq<TreeNode>): (a: TreeNode?)
    requires ParentChain(first, c1) && ParentChain(second, c2)
    reads set y | y in c1, set y | y in c2
    ensures first == null || second == null ==> a == null
    ensures a != null ==> a in c1 && a in c2
    ensures first != null && second != null && c1[|c1| - 1] == c2[|c2| - 1] ==> a != null
    decreases |c1| + |c2|
  {
    if first == null || second == null then null
    else if first == second then first
    else
      var parent1, parent2 := first.parent, second.parent;
      ChainTail(first, c1);
      ChainTail(second, c2);
      if parent1 == null || first == parent2 || (parent1.parent == null && parent2 != null) then
        Ancestor(first, parent2, c1, c2[1..])
      else if parent2 == null || parent1 == second || (parent2.parent == null && parent1 != null) then
        Ancestor(parent1, second, c1[1..], c2)
      else
        Ancestor(parent1, parent2, c1[1..], c2[1..])
  }

  /** A node's parent is the ancestor found for the node and its parent, in either order. */
  lemma AncestorOfParent(x: TreeNode, cx: seq<TreeNode>, cp: seq<TreeNode>)
    requires x.parent != null && ParentChain(x, cx) && ParentChain(x.parent, cp)
    ensures Ancestor(x.parent, x, cp, cx) == x.parent
    ensures Ancestor(x, x.parent, cx, cp) == x.parent
  {
    ChainDistinct(x, cx, 0, 1);
    ChainTail(x, cx);
    ChainUnique(x.parent, cx[1..], cp);
    if x.parent.parent != null {
      ChainDistinct(x, cx, 0, 2);
    }
  }

  /** Two different children of one parent find that parent. */
  lemma AncestorOfSiblings(x: TreeNode, y: TreeNode, cx: seq<TreeNode>, cy: seq<TreeNode>)
    requires x != y && x.parent != null && x.parent == y.parent
    requires ParentChain(x, cx) && ParentChain(y, cy)
    ensures Ancestor(x, y, cx, cy) == x.parent
  {
    var p := x.parent;
    ChainDistinct(x, cx, 0, 1);
    ChainDistinct(y, cy, 0, 1);
    ChainTail(x, cx);
    ChainTail(y, cy);
    if p.parent == null {
      assert Ancestor(x, y, cx, cy) == Ancestor(x, p, cx, cy[1..]);
      assert Ancestor(x, p, cx, cy[1..]) == Ancestor(p, p, cx[1..], cy[1..]);
    } else {
      assert Ancestor(x, y, cx, cy) == Ancestor(p, p, cx[1..], cy[1..]);
    }
  }

  /** When the first node is the root at the top of the second's chain, that root is found. */
  lemma {:induction false} AncestorOfRoot(root: TreeNode, y: TreeNode, cr: seq<TreeNode>, cy: seq<TreeNode>)
    requires root.parent == null && ParentChain(root, cr) && ParentChain(y, cy)
    requires cy[|cy| - 1] == root
    ensures Ancestor(root, y, cr, cy) == root
    decreases |cy|
  {
    if y != root {
      ChainTail(y, cy);
      assert |cy| > 1;
      AncestorOfRoot(root, y.parent, cr, cy[1..]);
    }
  }

  /**
   * Climbing both chains at once can step over the lowest common ancestor when the two
   * nodes lie at different depths: below root - a - b, with x five links and e three
   * links below the root (x under b's left child c, e the right child of b), the search
   * returns a although b is an ancestor of both.
   */
  lemma AncestorOvershoots(root: TreeNode, a: TreeNode, b: TreeNode, c: TreeNode, d: TreeNode,
                           x: TreeNode, e: TreeNode, cx: seq<TreeNode>, ce: seq<TreeNode>)
    requires root.parent == null && a.parent == root && b.parent == a && c.parent == b
    requires d.parent == c && x.parent == d && e.parent == b
    requires cx == [x, d, c, b, a, root] && ce == [e, b, a, root]
    requires e != c && e != d && e != x
    ensures ParentChain(x, cx) && ParentChain(e, ce)
    ensures b in cx && b in ce && b != a
    ensures Ancestor(x, e, cx, ce) == a
  {
    assert ParentChain(x, cx) && ParentChain(e, ce);
    forall i: nat, j: nat | i < j < |cx|
      ensures cx[i] != cx[j]
    {
      ChainDistinct(x, cx, i, j);
    }
    var cd, cc, cb, ca := cx[1..], cx[2..], cx[3..], cx[4..];
    var eb, ea := ce[1..], ce[2..];
    assert cd == [d, c, b, a, root] && cc == [c, b, a, root] && cb == [b, a, root] && ca == [a, root];
    assert eb == [b, a, root] && ea == [a, root];
    assert ParentChain(d, cd) && ParentChain(c, cc) && ParentChain(b, cb) && ParentChain(a, ca);
    assert ParentChain(b, eb) && ParentChain(a, ea);
    assert Ancestor(x, e, cx, ce) == Ancestor(d, b, cd, eb);
    assert Ancestor(d, b, cd, eb) == Ancestor(c, a, cc, ea);
    assert Ancestor(c, a, cc, ea) == Ancestor(b, a, cb, ea);
    assert Ancestor(b, a, cb, ea) == Ancestor(a, a, ca, ea);
  }

  /** Two chains that meet stay together: from a shared node on, both are that node's chain. */
  lemma ChainsMeet(x: TreeNode?, c: seq<TreeNode>, y: TreeNode?, d: seq<TreeNode>, i: nat, j: nat)
    requires ParentChain(x, c) && ParentChain(y, d)
    requires i < |c| && j < |d| && c[i] == d[j]
    ensures c[i..] == d[j..] && |c| - i == |d| - j
  {
    ChainSuffix(x, c, i);
    ChainSuffix(y, d, j);
    ChainUnique(c[i], c[i..], d[j..]);
  }

  /**
   * The lowest common ancestor as intended: climb the deeper node until both are equally
   * deep, then climb both together until they meet.
   */
  ghost function LowestCommonAncestor(first: TreeNode?, second: TreeNode?, c1: seq<TreeNode>, c2: seq<TreeNode>): (a: TreeNode?)
    requires ParentChain(first, c1) && ParentChain(second, c2)
    reads set y | y in c1, set y | y in c2
    ensures first == null || second == null ==> a == null
    ensures a != null ==> a in c1 && a in c2
    decreases |c1| + |c2|
  {
    if first == null || second == null then null
    else if first == second then first
    else
      ChainTail(first, c1);
      ChainTail(second, c2);
      if |c1| > |c2| then LowestCommonAncestor(first.parent, second, c1[1..], c2)
      else if |c2| > |c1| then LowestCommonAncestor(first, second.parent, c1, c2[1..])
      else LowestCommonAncestor(first.parent, second.parent, c1[1..], c2[1..])
  }

  /**
   * Where two different nodes' chains share a node, that node is above the deeper of the
   * two and above the second when the second is at least as deep.
   */
  lemma SharedAbove(first: TreeNode, second: TreeNode, c1: seq<TreeNode>, c2: seq<TreeNode>)
    requires ParentChain(first, c1) && ParentChain(second, c2) && first != second
    ensures forall i | 0 <= i < |c1| && c1[i] in c2 ::
      (|c1| >= |c2| ==> 1 <= i) && (|c2| >= |c1| ==> c1[i] in c2[1..])
  {
    forall i | 0 <= i < |c1| && c1[i] in c2
      ensures (|c1| >= |c2| ==> 1 <= i) && (|c2| >= |c1| ==> c1[i] in c2[1..])
    {
      var j :| 0 <= j < |c2| && c2[j] == c1[i];
      ChainsMeet(first, c1, second, c2, i, j);
      assert 0 < j ==> c2[1..][j - 1] == c2[j];
    }
  }

  /**
   * The corrected search finds the lowest shared node: it sits at position `k` of the
   * first chain, and every node the two chains share sits at `k` or above.
   */
  lemma {:induction false} LowestCommonAncestorIsLowest(first: TreeNode?, second: TreeNode?, c1: seq<TreeNode>, c2: seq<TreeNode>)
    returns (k: nat)
    requires ParentChain(first, c1) && ParentChain(second, c2)
    ensures var a := LowestCommonAncestor(first, second, c1, c2);
      a != null ==> k < |c1| && c1[k] == a && forall i | 0 <= i < |c1| && c1[i] in c2 :: k <= i
    decreases |c1| + |c2|
  {
    k := 0;
    if first != null && second != null && first != second {
      ChainTail(first, c1);
      ChainTail(second, c2);
      SharedAbove(first, second, c1, c2);
      if |c1| > |c2| {
        var k' := LowestCommonAncestorIsLowest(first.parent, second, c1[1..], c2);
        k := k' + 1;
        assert forall i | 1 <= i < |c1| :: c1[1..][i - 1] == c1[i];
      } else if |c2| > |c1| {
        k := LowestCommonAncestorIsLowest(first, second.parent, c1, c2[1..]);
      } else {
        var k' := LowestCommonAncestorIsLowest(first.parent, second.parent, c1[1..], c2[1..]);
        k := k' + 1;
        assert forall i | 1 <= i < |c1| :: c1[1..][i - 1] == c1[i];
      }
    }
  }

  /** Two nodes of one tree, whose chains end at the same root, always have a common ancestor. */
  lemma {:induction false} LowestCommonAncestorExists(first: TreeNode, second: TreeNode, c1: seq<TreeNode>, c2: seq<TreeNode>)
    requires ParentChain(first, c1) && ParentChain(second, c2)
    requires c1[|c1| - 1] == c2[|c2| - 1]
    ensures LowestCommonAncestor(first, second, c1, c2) != null
    decreases |c1| + |c2|
  {
    if first != second {
      ChainTail(first, c1);
      ChainTail(second, c2);
      if |c1| > |c2| {
        LowestCommonAncestorExists(first.parent, second, c1[1..], c2);
      } else if |c2| > |c1| {
        LowestCommonAncestorExists(first, second.parent, c1, c2[1..]);
      } else {
        assert |c1| > 1;
        LowestCommonAncestorExists(first.parent, second.parent, c1[1..], c2[1..]);
      }
    }
  }

  /** On the overshooting example the corrected search finds the right node. */
  lemma LowestCommonAncestorOnExample(root: TreeNode, a: TreeNode, b: TreeNode, c: TreeNode, d: TreeNode,
                                      x: TreeNode, e: TreeNode, cx: seq<TreeNode>, ce: seq<TreeNode>)
    requires root.parent == null && a.parent == root && b.parent == a && c.parent == b
    requires d.parent == c && x.parent == d && e.parent == b
    requires cx == [x, d, c, b, a, root] && ce == [e, b, a, root]
    requires e != c && e != d && e != x
    ensures LowestCommonAncestor(x, e, cx, ce) == b
  {
    AncestorOvershoots(root, a, b, c, d, x, e, cx, ce);
    var k := LowestCommonAncestorIsLowest(x, e, cx, ce);
    LowestCommonAncestorExists(x, e, cx, ce);
    assert cx[3] == b && b in ce;
    forall i: nat, j: nat | i < j < |cx|
      ensures cx[i] != cx[j]
    {
      ChainDistinct(x, cx, i, j);
    }
    assert x !in ce && d !in ce && c !in ce;
  }
}
