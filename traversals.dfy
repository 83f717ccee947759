/**
 * The four traversals.  The visitor callback of the library is modelled by the
 * sequence of values it is called with, in call order.
 */
module Traversals {
  import opened Trees

  /** binary_tree_preorder: node, then left subtree, then right subtree. */
  function PreOrder(t: Tree): seq<int>
  {
    match t
    case Nil => []
    case Node(l, x, r) => [x] + PreOrder(l) + PreOrder(r)
  }

  /** binary_tree_inorder: left subtree, then node, then right subtree. */
  function InOrder(t: Tree): seq<int>
  {
    match t
    case Nil => []
    case Node(l, x, r) => InOrder(l) + [x] + InOrder(r)
  }

  /** binary_tree_postorder: left subtree, then right subtree, then node. */
  function PostOrder(t: Tree): seq<int>
  {
    match t
    case Nil => []
    case Node(l, x, r) => PostOrder(l) + PostOrder(r) + [x]
  }

  /** Pre-order visits every node exactly once, the root first. */
  lemma {:induction false} PreOrderVisitsEachNodeOnce(t: Tree)
    ensures multiset(PreOrder(t)) == Bag(t)
    ensures |PreOrder(t)| == Size(t)
    ensures t.Node? ==> PreOrder(t)[0] == t.n
  {
    match t
    case Nil =>
    case Node(l, _, r) =>
      PreOrderVisitsEachNodeOnce(l);
      PreOrderVisitsEachNodeOnce(r);
  }

  /** In-order visits every node exactly once. */
  lemma {:induction false} InOrderVisitsEachNodeOnce(t: Tree)
    ensures multiset(InOrder(t)) == Bag(t)
    ensures |InOrder(t)| == Size(t)
  {
    match t
    case Nil =>
    case Node(l, _, r) =>
      InOrderVisitsEachNodeOnce(l);
      InOrderVisitsEachNodeOnce(r);
  }

  /** Post-order visits every node exactly once, the root last. */
  lemma {:induction false} PostOrderVisitsEachNodeOnce(t: Tree)
    ensures multiset(PostOrder(t)) == Bag(t)
    ensures |PostOrder(t)| == Size(t)
    ensures t.Node? ==> PostOrder(t)[|PostOrder(t)| - 1] == t.n
  {
    match t
    case Nil =>
    case Node(l, _, r) =>
      PostOrderVisitsEachNodeOnce(l);
      PostOrderVisitsEachNodeOnce(r);
  }

  /** Post-order is the mirror image of pre-order on the mirrored tree. */
  function Mirror(t: Tree): Tree
  {
    match t
    case Nil => Nil
    case Node(l, x, r) => Node(Mirror(r), x, Mirror(l))
  }

  function Reverse(s: seq<int>): seq<int>
  {
    if s == [] then [] else Reverse(s[1..]) + [s[0]]
  }

  lemma {:induction false} ReverseAppend(a: seq<int>, b: seq<int>)
    ensures Reverse(a + b) == Reverse(b) + Reverse(a)
    decreases |a|
  {
    if a == [] {
      assert a + b == b;
    } else {
      assert (a + b)[1..] == a[1..] + b;
      ReverseAppend(a[1..], b);
    }
  }

  lemma {:induction false} PostOrderIsReversedMirrorPreOrder(t: Tree)
    ensures PostOrder(t) == Reverse(PreOrder(Mirror(t)))
  {
    match t
    case Nil =>
    case Node(l, x, r) =>
      PostOrderIsReversedMirrorPreOrder(l);
      PostOrderIsReversedMirrorPreOrder(r);
      var pl, pr := PreOrder(Mirror(l)), PreOrder(Mirror(r));
      calc {
        Reverse(PreOrder(Mirror(t)));
        Reverse([x] + pr + pl);
        { ReverseAppend([x] + pr, pl); }
        Reverse(pl) + Reverse([x] + pr);
        { ReverseAppend([x], pr); }
        Reverse(pl) + (Reverse(pr) + Reverse([x]));
        { assert Reverse([x]) == [x]; }
        PostOrder(l) + PostOrder(r) + [x];
      }
  }

  /**
   * traverse_levelorder_recursive: the values of the nodes `level` edges below `t`,
   * left to right.  The C `size_t` level wraps below zero to SIZE_MAX and then never
   * returns to 0 on any path shorter than SIZE_MAX nodes, which is what the negative
   * levels of this model stand for.
   */
  function LevelVisits(t: Tree, level: int): seq<int>
  {
    match t
    case Nil => []
    case Node(l, x, r) =>
      (if level == 0 then [x] else []) + LevelVisits(l, level - 1) + LevelVisits(r, level - 1)
  }

  /** Levels 0 .. k - 1, one after the other. */
  function LevelsBelow(t: Tree, k: int): seq<int>
    decreases k
  {
    if k <= 0 then [] else LevelsBelow(t, k - 1) + LevelVisits(t, k - 1)
  }

  lemma {:induction false} LevelsBelowEmpty(t: Tree, level: int)
    requires level < 0 || level > Height(t)
    ensures LevelVisits(t, level) == []
  {
    match t
    case Nil =>
    case Node(l, _, r) =>
      LevelsBelowEmpty(l, level - 1);
      LevelsBelowEmpty(r, level - 1);
  }

  /** Splitting the first `k` levels of a node into its own value and its children's first `k - 1` levels. */
  lemma {:induction false} LevelsBelowNode(l: Tree, x: int, r: Tree, k: int)
    requires k >= 1
    ensures multiset(LevelsBelow(Node(l, x, r), k)) ==
            multiset{x} + multiset(LevelsBelow(l, k - 1)) + multiset(LevelsBelow(r, k - 1))
    decreases k
  {
    if k == 1 {
      RootLevel(l, x, r);
      assert multiset([x]) == multiset{x};
    } else {
      LevelsBelowNode(l, x, r, k - 1);
      LevelsBelowStep(l, x, r, k);
    }
  }

  lemma LevelsBelowStep(l: Tree, x: int, r: Tree, k: int)
    requires k >= 2
    ensures multiset(LevelsBelow(Node(l, x, r), k)) ==
            multiset(LevelsBelow(Node(l, x, r), k - 1))
            + multiset(LevelVisits(l, k - 2)) + multiset(LevelVisits(r, k - 2))
    ensures multiset(LevelsBelow(l, k - 1)) == multiset(LevelsBelow(l, k - 2)) + multiset(LevelVisits(l, k - 2))
    ensures multiset(LevelsBelow(r, k - 1)) == multiset(LevelsBelow(r, k - 2)) + multiset(LevelVisits(r, k - 2))
  {
    var t := Node(l, x, r);
    assert LevelVisits(t, k - 1) == [] + LevelVisits(l, k - 2) + LevelVisits(r, k - 2);
  }

  lemma RootLevel(l: Tree, x: int, r: Tree)
    ensures LevelsBelow(Node(l, x, r), 1) == [x]
    ensures LevelsBelow(l, 0) == [] && LevelsBelow(r, 0) == []
  {
    LevelsBelowEmpty(l, -1);
    LevelsBelowEmpty(r, -1);
    assert LevelVisits(Node(l, x, r), 0) == [x] + [] + [];
  }

  /** The first `k` levels hold every node once `k` exceeds the height. */
  lemma {:induction false} LevelsBelowCoverAll(t: Tree, k: int)
    requires k >= CalcHeight(t)
    ensures multiset(LevelsBelow(t, k)) == Bag(t)
  {
    match t
    case Nil =>
      if k > 0 {
        LevelsBelowCoverAllNil(k);
      }
    case Node(l, x, r) =>
      LevelsBelowNode(l, x, r, k);
      LevelsBelowCoverAll(l, k - 1);
      LevelsBelowCoverAll(r, k - 1);
  }

  lemma {:induction false} LevelsBelowCoverAllNil(k: int)
    ensures LevelsBelow(Nil, k) == []
    decreases k
  {
    if k > 0 {
      LevelsBelowCoverAllNil(k - 1);
    }
  }

  // ---------------------------------------------------------------------------
  // The nodes at a given depth, read off the paths of Trees.Subtree

  /** Every left/right path of `d` steps, in left-to-right order (`false` goes left). */
  function PathsOfLength(d: nat): seq<seq<bool>>
  {
    if d == 0 then [[]] else Prefixed(false, PathsOfLength(d - 1)) + Prefixed(true, PathsOfLength(d - 1))
  }

  /** The paths of `ps`, each preceded by the step `b`. */
  function Prefixed(b: bool, ps: seq<seq<bool>>): (qs: seq<seq<bool>>)
    ensures |qs| == |ps|
  {
    if ps == [] then [] else [[b] + ps[0]] + Prefixed(b, ps[1..])
  }

  /** The values of the nodes of `t` at the ends of those paths of `ps` that reach one, in order. */
  function ValuesAt(t: Tree, ps: seq<seq<bool>>): seq<int>
  {
    if ps == [] then []
    else (if Subtree(t, ps[0]).Node? then [Subtree(t, ps[0]).n] else []) + ValuesAt(t, ps[1..])
  }

  /** The `i`-th path of Prefixed(b, ps) is the `i`-th path of `ps` after the step `b`. */
  lemma {:induction false} PrefixedAt(b: bool, ps: seq<seq<bool>>, i: nat)
    requires i < |ps|
    ensures Prefixed(b, ps)[i] == [b] + ps[i]
  {
    if i > 0 {
      PrefixedAt(b, ps[1..], i - 1);
    }
  }

  /** No path listed twice. */
  ghost predicate NoRepeats(ps: seq<seq<bool>>)
  {
    forall i, j | 0 <= i < j < |ps| :: ps[i] != ps[j]
  }

  /** Every path that PathsOfLength(d) lists is `d` steps long. */
  lemma {:induction false} PathsOfLengthLength(d: nat)
    ensures forall i | 0 <= i < |PathsOfLength(d)| :: |PathsOfLength(d)[i]| == d
  {
    if d > 0 {
      PathsOfLengthLength(d - 1);
      var ps := PathsOfLength(d - 1);
      var fs, ts := Prefixed(false, ps), Prefixed(true, ps);
      assert PathsOfLength(d) == fs + ts;
      forall i | 0 <= i < |fs + ts|
        ensures |(fs + ts)[i]| == d
      {
        if i < |ps| {
          PrefixedAt(false, ps, i);
        } else {
          PrefixedAt(true, ps, i - |ps|);
        }
      }
    }
  }

  /** Every path of `d` steps is listed by PathsOfLength(d). */
  lemma {:induction false} PathsOfLengthComplete(d: nat)
    ensures forall p: seq<bool> | |p| == d :: p in PathsOfLength(d)
  {
    if d > 0 {
      PathsOfLengthComplete(d - 1);
      var ps := PathsOfLength(d - 1);
      var fs, ts := Prefixed(false, ps), Prefixed(true, ps);
      assert PathsOfLength(d) == fs + ts;
      forall p: seq<bool> | |p| == d
        ensures p in fs + ts
      {
        PathOfLengthListed(p, ps);
      }
    }
  }

  lemma PathOfLengthListed(p: seq<bool>, ps: seq<seq<bool>>)
    requires |p| > 0 && p[1..] in ps
    ensures p in Prefixed(false, ps) + Prefixed(true, ps)
  {
    var k :| 0 <= k < |ps| && ps[k] == p[1..];
    PrefixedAt(p[0], ps, k);
    assert p == [p[0]] + p[1..];
    if p[0] {
      assert Prefixed(true, ps)[k] == p;
    } else {
      assert Prefixed(false, ps)[k] == p;
    }
  }

  /** No path is listed twice by PathsOfLength(d). */
  lemma {:induction false} PathsOfLengthDistinct(d: nat)
    ensures NoRepeats(PathsOfLength(d))
  {
    if d > 0 {
      PathsOfLengthDistinct(d - 1);
      var ps := PathsOfLength(d - 1);
      assert PathsOfLength(d) == Prefixed(false, ps) + Prefixed(true, ps);
      forall i, j | 0 <= i < j < 2 * |ps|
        ensures (Prefixed(false, ps) + Prefixed(true, ps))[i] != (Prefixed(false, ps) + Prefixed(true, ps))[j]
      {
        PrefixedApart(ps, i, j);
      }
    }
  }

  lemma PrefixedApart(ps: seq<seq<bool>>, i: nat, j: nat)
    requires NoRepeats(ps) && i < j < 2 * |ps|
    ensures (Prefixed(false, ps) + Prefixed(true, ps))[i] != (Prefixed(false, ps) + Prefixed(true, ps))[j]
  {
    var m := |ps|;
    var all := Prefixed(false, ps) + Prefixed(true, ps);
    var i', j' := if i < m then i else i - m, if j < m then j else j - m;
    PrefixedAt(i >= m, ps, i');
    PrefixedAt(j >= m, ps, j');
    assert all[i] == [i >= m] + ps[i'] && all[j] == [j >= m] + ps[j'];
    assert all[i][0] == (i >= m) && all[j][0] == (j >= m);
    assert all[i][1..] == ps[i'] && all[j][1..] == ps[j'];
  }

  /**
   * PathsOfLength(d) lists each path of exactly `d` steps once: so ValuesAt(t, PathsOfLength(d))
   * holds every node at depth `d` exactly once.
   */
  lemma PathsOfLengthSpec(d: nat)
    ensures forall i | 0 <= i < |PathsOfLength(d)| :: |PathsOfLength(d)[i]| == d
    ensures forall p: seq<bool> | |p| == d :: p in PathsOfLength(d)
    ensures NoRepeats(PathsOfLength(d))
  {
    PathsOfLengthLength(d);
    PathsOfLengthComplete(d);
    PathsOfLengthDistinct(d);
  }

  lemma {:induction false} ValuesAtAppend(t: Tree, ps: seq<seq<bool>>, qs: seq<seq<bool>>)
    ensures ValuesAt(t, ps + qs) == ValuesAt(t, ps) + ValuesAt(t, qs)
  {
    if ps != [] {
      assert (ps + qs)[0] == ps[0] && (ps + qs)[1..] == ps[1..] + qs;
      ValuesAtAppend(t, ps[1..], qs);
    } else {
      assert ps + qs == qs;
    }
  }

  /** Paths that start with step `b` from a node continue in the child on that side. */
  lemma {:induction false} ValuesAtPrefixed(l: Tree, x: int, r: Tree, b: bool, ps: seq<seq<bool>>)
    ensures ValuesAt(Node(l, x, r), Prefixed(b, ps)) == ValuesAt(if b then r else l, ps)
  {
    if ps != [] {
      var p := [b] + ps[0];
      assert p[1..] == ps[0];
      assert Subtree(Node(l, x, r), p) == Subtree(if b then r else l, ps[0]);
      assert Prefixed(b, ps)[1..] == Prefixed(b, ps[1..]);
      ValuesAtPrefixed(l, x, r, b, ps[1..]);
    }
  }

  lemma {:induction false} ValuesAtNil(ps: seq<seq<bool>>)
    ensures ValuesAt(Nil, ps) == []
  {
    if ps != [] {
      ValuesAtNil(ps[1..]);
    }
  }

  /**
   * The level helper visits exactly the nodes `level` edges below `t`, left to right:
   * the values at the ends of the paths of that many steps.
   */
  lemma {:induction false} LevelVisitsAtDepth(t: Tree, level: nat)
    ensures LevelVisits(t, level) == ValuesAt(t, PathsOfLength(level))
  {
    if t == Nil {
      ValuesAtNil(PathsOfLength(level));
    } else if level == 0 {
      LevelVisitsRoot(t.left, t.n, t.right);
    } else {
      LevelVisitsAtDepth(t.left, level - 1);
      LevelVisitsAtDepth(t.right, level - 1);
      LevelVisitsStep(t.left, t.n, t.right, level);
    }
  }

  lemma LevelVisitsRoot(l: Tree, x: int, r: Tree)
    ensures LevelVisits(Node(l, x, r), 0) == [x] == ValuesAt(Node(l, x, r), PathsOfLength(0))
  {
    LevelsBelowEmpty(l, -1);
    LevelsBelowEmpty(r, -1);
    assert PathsOfLength(0) == [[]];
    assert ValuesAt(Node(l, x, r), [[]]) == [x] + ValuesAt(Node(l, x, r), []);
  }

  lemma LevelVisitsStep(l: Tree, x: int, r: Tree, level: nat)
    requires level > 0
    ensures LevelVisits(Node(l, x, r), level) == LevelVisits(l, level - 1) + LevelVisits(r, level - 1)
    ensures ValuesAt(Node(l, x, r), PathsOfLength(level)) ==
      ValuesAt(l, PathsOfLength(level - 1)) + ValuesAt(r, PathsOfLength(level - 1))
  {
    assert LevelVisits(Node(l, x, r), level) == [] + LevelVisits(l, level - 1) + LevelVisits(r, level - 1);
    var ps := PathsOfLength(level - 1);
    assert PathsOfLength(level) == Prefixed(false, ps) + Prefixed(true, ps);
    ValuesAtAppend(Node(l, x, r), Prefixed(false, ps), Prefixed(true, ps));
    ValuesAtPrefixed(l, x, r, false, ps);
    ValuesAtPrefixed(l, x, r, true, ps);
  }

  /** The nodes of depths 0 .. k - 1, depth after depth, each depth left to right. */
  function ByDepth(t: Tree, k: nat): seq<int>
  {
    if k == 0 then [] else ByDepth(t, k - 1) + ValuesAt(t, PathsOfLength(k - 1))
  }

  /** The level loop's first `k` levels are the nodes of depths 0 .. k - 1, depth after depth. */
  lemma {:induction false} LevelsBelowByDepth(t: Tree, k: nat)
    ensures LevelsBelow(t, k) == ByDepth(t, k)
  {
    if k > 0 {
      LevelsBelowByDepth(t, k - 1);
      LevelVisitsAtDepth(t, k - 1);
    }
  }

  /**
   * binary_tree_levelorder: calls the level helper for every level from 0 to the
   * height; every node is visited exactly once, the root first, and a level is
   * finished before the next one starts.
   */
  method LevelOrder(t: Tree) returns (visits: seq<int>)
    ensures multiset(visits) == Bag(t)
    ensures |visits| == Size(t)
    ensures t.Node? ==> visits[0] == t.n
    ensures visits == LevelsBelow(t, CalcHeight(t))
    ensures visits == ByDepth(t, CalcHeight(t))
  {
    visits := [];
    if t == Nil {
      return;
    }
    var height := CalcHeight(t) - 1;
    var level := 0;
    while level <= height
      invariant 0 <= level <= height + 1
      invariant visits == LevelsBelow(t, level)
    {
      visits := visits + LevelVisits(t, level);
      level := level + 1;
    }
    LevelsBelowCoverAll(t, CalcHeight(t));
    assert |visits| == Size(t) by {
      SizeIsBagSize(t);
    }
    assert visits[0] == t.n by {
      assert LevelsBelow(t, 1) == LevelVisits(t, 0);
      LevelsBelowPrefix(t, 1, CalcHeight(t));
    }
    assert visits == ByDepth(t, CalcHeight(t)) by {
      LevelsBelowByDepth(t, CalcHeight(t));
    }
  }

  lemma {:induction false} LevelsBelowPrefix(t: Tree, j: int, k: int)
    requires 0 <= j <= k
    ensures LevelsBelow(t, j) <= LevelsBelow(t, k)
    decreases k
  {
    if j < k {
      LevelsBelowPrefix(t, j, k - 1);
    }
  }
}
