/** The small tests that come with the tree, restated as methods whose contracts say what
    the tests check: the plain iterator walks the twelve test values in ascending order,
    and the rank iterator refuses indices outside 0..12 and otherwise starts at that rank. */
module Scenarios {
  import opened SortedSeqs
  import opened AVLTreeWithFastIterator

  /** The values the small tests insert, in insertion order. */
  function SmallArray(): (s: seq<int>)
    ensures |s| == 12
  {
    [50, 30, 60, 20, 40, 55, 70, 10, 25, 57, 65, 80]
  }

  /** The same values sorted. */
  function SmallSorted(): (s: seq<int>)
    ensures |s| == 12
  {
    [10, 20, 25, 30, 40, 50, 55, 57, 60, 65, 70, 80]
  }

  lemma SmallSortedIsSorted()
    ensures Increasing(SmallSorted())
    ensures Elems(SmallSorted()) == Elems(SmallArray())
  {
  }

  /** Calls HasNext and Next until the iterator is exhausted, collecting what Next returns. */
  method Drain(it: InorderIterator) returns (out: seq<int>)
    requires it.Valid()
    modifies it
    ensures out == old(it.Remaining())
  {
    out := [];
    while it.HasNext()
      invariant it.Valid()
      invariant out + it.Remaining() == old(it.Remaining())
      decreases |it.Remaining()|
    {
      var r := it.Next();
      out := out + [r.value];
    }
  }

  /** Builds the tree of the small test values. Whatever order they came in, its
      elements are the sorted values. */
  method SmallTree() returns (tree: AVLTree)
    ensures tree.Valid() && tree.Elements() == SmallSorted()
  {
    tree := new AVLTree.FromSeq(SmallArray());
    SmallSortedIsSorted();
    IncreasingUnique(tree.Elements(), SmallSorted());
  }

  /** Part I: the plain iterator returns the sorted values, and exactly twelve of them. */
  method SmallTestPartI() returns (walked: seq<int>)
    ensures walked == SmallSorted()
  {
    var tree := SmallTree();
    var it := tree.Iterator();
    walked := Drain(it);
  }

  /** Part II: the rank iterator refuses an index below 0 or above the element count,
      and from any index in range returns the sorted values from that index on. */
  method SmallTestPartII(index: int) returns (r: Result<seq<int>>)
    ensures r.Err? <==> index < 0 || index > 12
    ensures r.Err? ==> r.error == IndexOutOfBounds
    ensures r.Ok? ==> r.value == SmallSorted()[index..]
  {
    var tree := SmallTree();
    var started := tree.IteratorAt(index);
    match started
    case Err(e) =>
      r := Err(e);
    case Ok(it) =>
      var walked := Drain(it);
      r := Ok(walked);
  }

  /** Inserting an absent element and then deleting it gives back the same elements in
      the same order, and the same size. */
  method InsertThenDelete(tree: AVLTree, e: int) returns (added: bool, removed: bool)
    requires tree.Valid() && e !in tree.Contents()
    modifies tree
    ensures added && removed
    ensures tree.Valid() && tree.Elements() == old(tree.Elements()) && tree.size == old(tree.size)
  {
    ghost var before := tree.Elements();
    added := tree.Insert(e);
    removed := tree.Delete(e);
    IncreasingUnique(tree.Elements(), before);
  }
}
