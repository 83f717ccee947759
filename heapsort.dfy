/** heap_to_sorted_array (134): repeated heap_extract into an array of the heap's size. */
module HeapToArray {
  import opened Trees
  import opened Heaps
  import opened HeapExtraction

  /** A heap binary_tree_is_heap accepts, or the empty tree. */
  predicate HeapOrEmpty(t: Tree)
  {
    t == Nil || BinaryTreeIsHeap(t) == 1
  }

  /** heap_extract stays defined, and the remaining tree stays a heap or empty. */
  lemma ExtractKeepsHeap(t: Tree)
    requires HeapOrEmpty(t)
    ensures ExtractDefined(t)
    ensures HeapOrEmpty(HeapExtract(t).1)
    ensures t.Node? ==> Size(HeapExtract(t).1) == Size(t) - 1
  {
    if t.Node? {
      HeapExtractSpec(t);
      var s := HeapExtract(t).1;
      SizeIsBagSize(t);
      SizeIsBagSize(s);
    }
  }

  /** The values returned by `k` successive calls of heap_extract. */
  function ExtractAll(t: Tree, k: nat): seq<int>
    requires HeapOrEmpty(t)
    decreases k
  {
    if k == 0 then []
    else
      ExtractKeepsHeap(t);
      var (v, s) := HeapExtract(t);
      [v] + ExtractAll(s, k - 1)
  }

  predicate NonIncreasing(s: seq<int>)
  {
    forall i, j :: 0 <= i < j < |s| ==> s[i] >= s[j]
  }

  /** The first value extracted, and the heap left for the others. */
  lemma ExtractFirst(t: Tree)
    requires HeapOrEmpty(t) && t.Node?
    ensures ExtractDefined(t)
    ensures HeapOrEmpty(HeapExtract(t).1) && Size(HeapExtract(t).1) == Size(t) - 1
    ensures ExtractAll(t, Size(t)) == [HeapExtract(t).0] + ExtractAll(HeapExtract(t).1, Size(t) - 1)
  {
    ExtractKeepsHeap(t);
  }

  /** Extracting as many values as the heap holds yields each of its values as often as the heap holds it. */
  lemma {:induction false} ExtractAllBag(t: Tree)
    requires HeapOrEmpty(t)
    ensures multiset(ExtractAll(t, Size(t))) == Bag(t)
    decreases Size(t)
  {
    if t.Node? {
      ExtractFirst(t);
      HeapExtractSpec(t);
      ExtractAllBag(HeapExtract(t).1);
    }
  }

  /** Extracting as many values as the heap holds yields them largest first. */
  lemma {:induction false} ExtractAllSorted(t: Tree)
    requires HeapOrEmpty(t)
    ensures NonIncreasing(ExtractAll(t, Size(t)))
    decreases Size(t)
  {
    if t.Node? {
      ExtractFirst(t);
      var (v, s) := HeapExtract(t);
      var rest := ExtractAll(s, Size(s));
      ExtractAllSorted(s);
      forall j | 0 <= j < |rest| ensures v >= rest[j] {
        ExtractAllBag(s);
        HeapExtractSpec(t);
        ContentsOfBag(t);
        assert rest[j] in multiset(rest);
        assert rest[j] in Bag(t);
      }
    }
  }

  /**
   * heap_to_sorted_array: size 0 and NULL for the empty heap; otherwise an array of
   * count_nodes(heap) entries filled by successive heap_extract calls.
   */
  method HeapToSortedArray(heap: Tree) returns (a: array?<int>, size: nat)
    requires HeapOrEmpty(heap)
    ensures heap == Nil ==> a == null && size == 0
    ensures heap != Nil ==> a != null && size == a.Length == Size(heap)
    ensures a != null ==> a[..] == ExtractAll(heap, Size(heap))
    ensures a != null ==> NonIncreasing(a[..]) && multiset(a[..]) == Bag(heap)
  {
    size := 0;
    if heap == Nil {
      return null, 0;
    }
    var nodes := Size(heap);
    a := new int[nodes];
    size := nodes;
    var current := heap;
    var x := 0;
    ghost var all := ExtractAll(heap, nodes);
    while x < nodes
      invariant 0 <= x <= nodes
      invariant HeapOrEmpty(current)
      invariant a[..x] + ExtractAll(current, nodes - x) == all
    {
      ghost var done := a[..x];
      ExtractStep(done, current, nodes - x, all);
      var r := HeapExtract(current);
      a[x] := r.0;
      current := r.1;
      assert a[..x + 1] == done + [r.0];
      x := x + 1;
    }
    assert a[..] == all by {
      assert a[..] == a[..nodes];
    }
    HeapToSortedArraySorted(heap);
  }

  /** One more extraction moves the next value from the rest of the heap to the output. */
  lemma ExtractStep(done: seq<int>, t: Tree, k: nat, all: seq<int>)
    requires HeapOrEmpty(t) && k >= 1 && done + ExtractAll(t, k) == all
    ensures ExtractDefined(t) && HeapOrEmpty(HeapExtract(t).1)
    ensures (done + [HeapExtract(t).0]) + ExtractAll(HeapExtract(t).1, k - 1) == all
  {
    ExtractKeepsHeap(t);
    assert ExtractAll(t, k) == [HeapExtract(t).0] + ExtractAll(HeapExtract(t).1, k - 1);
  }

  /** The array heap_to_sorted_array returns holds the heap's values, largest first. */
  lemma HeapToSortedArraySorted(heap: Tree)
    requires HeapOrEmpty(heap)
    ensures NonIncreasing(ExtractAll(heap, Size(heap)))
    ensures multiset(ExtractAll(heap, Size(heap))) == Bag(heap)
    ensures |ExtractAll(heap, Size(heap))| == Size(heap)
  {
    ExtractAllSorted(heap);
    ExtractAllBag(heap);
    SizeIsBagSize(heap);
  }
}
