/** array_to_heap (132): the heap is built by inserting the array's values one by one. */
module HeapFromArray {
  import opened Trees
  import opened Completeness
  import opened Heaps
  import opened HeapInsertion

  /** The heap obtained by inserting the values of `s` in order into an empty heap. */
  function HeapOfSeq(s: seq<int>): Tree
  {
    if |s| == 0 then Nil
    else HeapInsert(HeapOfSeq(s[..|s| - 1]), s[|s| - 1]).0
  }

  /** Inserting the last value of `s` into the heap of the values before it. */
  lemma HeapOfSeqLast(s: seq<int>)
    requires |s| > 0
    ensures HeapOfSeq(s) == HeapInsert(HeapOfSeq(s[..|s| - 1]), s[|s| - 1]).0
  {
  }

  /** Every prefix builds a heap-ordered tree. */
  lemma {:induction false} HeapOfSeqOrdered(s: seq<int>)
    ensures HeapOrdered(HeapOfSeq(s))
  {
    if |s| > 0 {
      HeapOfSeqLast(s);
      HeapOfSeqOrdered(s[..|s| - 1]);
      HeapInsertOrder(HeapOfSeq(s[..|s| - 1]), s[|s| - 1]);
    }
  }

  /** Every prefix builds a complete tree. */
  lemma {:induction false} HeapOfSeqComplete(s: seq<int>)
    ensures CompleteOfHeight(HeapOfSeq(s), Height(HeapOfSeq(s)))
  {
    if |s| > 0 {
      HeapOfSeqLast(s);
      HeapOfSeqComplete(s[..|s| - 1]);
      HeapInsertKeepsComplete(HeapOfSeq(s[..|s| - 1]), s[|s| - 1]);
    }
  }

  /** Every prefix builds a tree holding exactly the values inserted so far. */
  lemma {:induction false} HeapOfSeqBag(s: seq<int>)
    ensures Bag(HeapOfSeq(s)) == multiset(s)
  {
    if |s| > 0 {
      HeapOfSeqLast(s);
      HeapOfSeqBag(s[..|s| - 1]);
      HeapInsertBag(HeapOfSeq(s[..|s| - 1]), s[|s| - 1]);
      assert s == s[..|s| - 1] + [s[|s| - 1]];
    }
  }

  /**
   * A non-empty array becomes a tree binary_tree_is_heap accepts, holding exactly the
   * array's values; an empty one the empty tree.
   */
  lemma HeapOfSeqSpec(s: seq<int>)
    ensures |s| > 0 ==> BinaryTreeIsHeap(HeapOfSeq(s)) == 1
    ensures Bag(HeapOfSeq(s)) == multiset(s) && Size(HeapOfSeq(s)) == |s|
  {
    var t := HeapOfSeq(s);
    HeapOfSeqOrdered(s);
    HeapOfSeqComplete(s);
    HeapOfSeqBag(s);
    SizeIsBagSize(t);
    if |s| > 0 {
      assert t.Node?;
      CompleteOfHeightIsComplete(t, Height(t));
      CompleteIffDense(t);
      IsHeapSpec(t);
    }
  }

  /** array_to_heap: NULL for an empty array, otherwise heap_insert of each element in turn. */
  method ArrayToHeap(a: array<int>) returns (t: Tree)
    ensures t == HeapOfSeq(a[..])
    ensures a.Length > 0 ==> BinaryTreeIsHeap(t) == 1
    ensures Bag(t) == multiset(a[..])
  {
    t := Nil;
    if a.Length == 0 {
      HeapOfSeqSpec(a[..]);
      return;
    }
    var i := 0;
    while i < a.Length
      invariant 0 <= i <= a.Length
      invariant t == HeapOfSeq(a[..i])
    {
      HeapOfSeqLast(a[..i + 1]);
      assert a[..i + 1][..i] == a[..i];
      t := HeapInsert(t, a[i]).0;
      i := i + 1;
    }
    assert a[..i] == a[..];
    HeapOfSeqSpec(a[..]);
  }
}
