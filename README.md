# AVL tree with subtree sizes and a rank iterator

This project models `AVLTreeWithFastIterator`, an AVL search tree that keeps two
numbers in every node: its height and the size of its subtree. The tree comes with
an in-order iterator that can start at any rank `k`. It finds its starting point by
a binary search on the left-subtree sizes instead of stepping over `k` elements.

The model is in Dafny and consists of five modules:

- `SortedSeqs` (`sorted.dfy`): ascending sequences and their element sets. The
  search-tree order is stated as "the in-order sequence is strictly increasing".
- `Nodes` (`nodes.dfy`): the node type and the invariants.
  - `Tree` is `Nil` (a `null` child) or a `Node` with its element, `height` and `size`.
  - `Fields` says the stored height and size are correct. `Balanced` says every
    balance factor is -1, 0 or +1. `AVL` is both.
  - A root-to-node path is a sequence of `Frame`s: path nodes with the child the
    path enters cut out. `PlugAll` links a subtree back in at the end of a path.
    This is how the model re-links into `parentOfA` or into `root`.
- `Rotations` (`rotations.dfy`):
  - `updateHeightAndSize` and `balanceFactor`;
  - the four rotations;
  - `Rebalance`, one step of `balancePath`: refresh the node, then rotate if the
    balance factor is ±2;
  - the lemmas that the step restores the AVL invariant.
- `AVLTreeWithFastIterator` (`avl_tree.dfy`):
  - class `AVLTree`, with fields `root` and `size`, holds `insert`, `balancePath`
    and `delete`, each as a method that updates the fields;
  - class `InorderIterator`, with fields `current` and a stack (a `seq`, top last),
    holds both constructors, `hasNext`, `next` and `remove`.
- `Scenarios` (`scenarios.dfy`): the repository's small iterator tests. The twelve
  test values are restated as methods whose contracts give the expected output.

The tree's invariant is `Valid()`: the root is AVL (height, size and balance are
correct in every node), its in-order sequence is strictly increasing, and `size`
is its length. The iterator is specified by `Remaining()`, the elements it has yet
to return. The main results are these:

- `Insert` and `Delete` keep `Valid()`, report presence correctly and change the
  element set by exactly the one element.
- The rebalancing walk preserves the in-order sequence and re-establishes the AVL
  invariant bottom-up. This holds both after an insertion and after either case
  of deletion.
- The rank constructor always terminates, and `Remaining()` is then the ascending
  elements with the first `k` dropped. This includes the branch where a node with
  no left child is reached while two elements are still to be skipped. That
  branch is correct only because balance limits such a node to at most two
  elements (`NoLeftChildIsSmall`).
- `Next` returns the first remaining element and removes it, or reports
  `NoSuchElement` when nothing remains.

## Model

| member | source | states |
|---|---|---|
| Rotations.UpdateHeightAndSize | src/AVLTreeWithFastIterator.java:100-116 | keeps the node's children and element; afterwards the height is one more than the higher child, a missing child counting as -1, and the size is one more than the children's sizes, a missing child counting as 0 |
| Rotations.BalanceFactor | src/AVLTreeWithFastIterator.java:150-158 | when the node's height field is correct, the result is the right child's height minus the left child's, a missing child counting as -1 |
| Rotations.BalanceLL | src/AVLTreeWithFastIterator.java:161-180 | the rotated subtree has the same in-order sequence; its heights and sizes are correct when those of the three untouched subtrees are; its size equals A's old size |
| Rotations.BalanceLR | src/AVLTreeWithFastIterator.java:183-208 | the same three facts for the double rotation that lifts C over B and A |
| Rotations.BalanceRR | src/AVLTreeWithFastIterator.java:211-230 | the mirror image of BalanceLL |
| Rotations.BalanceRL | src/AVLTreeWithFastIterator.java:233-258 | the mirror image of BalanceLR |
| Rotations.LLRestores | src/AVLTreeWithFastIterator.java:130-132 | when the left side is two higher and the left child is not right-heavy, the LL rotation gives an AVL subtree whose height is the left child's or one more |
| Rotations.LRRestores | src/AVLTreeWithFastIterator.java:130-135 | when the left side is two higher and the left child is right-heavy, that child has a right child and the LR rotation gives an AVL subtree exactly as high as the left child |
| Rotations.RRRestores | src/AVLTreeWithFastIterator.java:138-141 | the mirror image of LLRestores |
| Rotations.RLRestores | src/AVLTreeWithFastIterator.java:138-144 | the mirror image of LRRestores |
| Rotations.Rebalance | src/AVLTreeWithFastIterator.java:124-145 | one step of the walk (refresh height and size, then LL/LR/RR/RL on a balance factor of ±2) yields a node with the same in-order sequence |
| Rotations.RebalanceRestores | src/AVLTreeWithFastIterator.java:123-146 | a path node whose children are AVL and changed height by at most one comes out of the step AVL, within one of its old height |
| Rotations.ChildChangeIsStep | src/AVLTreeWithFastIterator.java:121-147 | replacing one child of a balanced node by a subtree within one of the old child's height leaves the node fit for the rebalancing step, whichever side the child is on |
| Rotations.ClimbKeeps | src/AVLTreeWithFastIterator.java:123-127 | moving up one path node: the re-linked parent is fit for the rebalancing step for its old height, and the rest of the path stays valid |
| Nodes.FieldsMeaning | src/AVLTreeWithFastIterator.java:333-335 | correct height and size fields mean the stored height is the subtree's real height and the stored size is its number of elements |
| Nodes.NoLeftChildIsSmall | src/AVLTreeWithFastIterator.java:36-45 | in an AVL tree a node without a left child holds at most two elements |
| Nodes.AVLHasMinSize | src/AVLTreeWithFastIterator.java:129-145 | an AVL subtree of height h has at least MinAVLSize(h) elements (the Fibonacci-like minimum) |
| Nodes.MinAVLSizeGrows | src/AVLTreeWithFastIterator.java:129-145 | the minimum AVL size at height h is at least 2^(h/2) |
| Nodes.AVLHeightLogarithmic | src/AVLTreeWithFastIterator.java:129-145 | a non-empty AVL subtree of height h holds at least 2^(h/2) elements, so its height is at most about twice the base-2 logarithm of its size |
| Nodes.InOrderPlugAll | src/AVLTreeWithFastIterator.java:164-174 | whatever subtree is linked into the slot at the end of a path lands between the path's left and right parts of the in-order sequence; nothing outside the slot changes |
| Nodes.SearchBounds | src/AVLTreeWithFastIterator.java:270-281 | in a search tree, everything the search path for e leaves to its left is smaller than e and everything it leaves to its right is larger |
| Nodes.AVLFrames | src/AVLTreeWithFastIterator.java:122-124 | cutting an AVL tree along any path gives an AVL subtree and path nodes that were balanced, which the rebalancing walk starts from |
| SortedSeqs.InsertKeepsIncreasing | src/AVLTreeWithFastIterator.java:88-97 | a new element placed between the smaller and the larger ones keeps the sequence ascending |
| SortedSeqs.RemoveKeepsIncreasing | src/AVLTreeWithFastIterator.java:314-328 | removing one element keeps the sequence ascending, removes exactly that element from the set, and shortens it by one |
| SortedSeqs.IncreasingUnique | src/TestAVLTreeIterator.java:55-56 | two ascending sequences with the same elements are equal, so the in-order sequence is the sorted copy of the inserted values |
| AVLTreeWithFastIterator.Path | src/AVLTreeWithFastIterator.java:122 | the search path for e: plugging its end back in gives the tree, it turns left exactly at larger elements, and it ends at e's node or at the empty slot for e |
| AVLTreeWithFastIterator.PathFrom | src/AVLTreeWithFastIterator.java:122 | the same, continuing a search path already taken |
| AVLTreeWithFastIterator.PathFromRecovers | src/AVLTreeWithFastIterator.java:122 | searching for e again in a tree rebuilt around e's node retraces exactly the search path that led there |
| AVLTreeWithFastIterator.LeafPathIsSearchPath | src/AVLTreeWithFastIterator.java:93 | the path at which insert hung the new leaf is path(e) of the new tree, so balancePath(e) walks that path |
| AVLTreeWithFastIterator.AVLTree.constructor | src/AVLTreeWithFastIterator.java:5-6 | an empty, valid tree |
| AVLTreeWithFastIterator.AVLTree.FromSeq | src/AVLTreeWithFastIterator.java:9-11 | inserting the given objects one by one gives a valid tree holding exactly their set |
| AVLTreeWithFastIterator.AVLTree.Insert | src/AVLTreeWithFastIterator.java:88-97 | returns true exactly when e was absent; the element set becomes the old set plus e; size grows by one exactly then; a refused insert leaves the tree as it was; the tree stays a valid AVL search tree with correct heights and sizes |
| AVLTreeWithFastIterator.AVLTree.BalancePath | src/AVLTreeWithFastIterator.java:121-147 | walking up from the given path node to the root, re-linking each rebalanced node into its slot, gives an AVL tree with the same in-order sequence |
| AVLTreeWithFastIterator.AVLTree.Delete | src/AVLTreeWithFastIterator.java:263-330 | returns true exactly when e was present (false on an empty tree or an absent e, with nothing changed); the element set loses exactly e; size drops by one exactly then; the tree stays valid |
| AVLTreeWithFastIterator.AVLTree.DeleteNode | src/AVLTreeWithFastIterator.java:286-329 | removing the found node's element by either case keeps the tree valid, removes exactly that element and decrements size |
| AVLTreeWithFastIterator.AVLTree.DeleteNoLeftChild | src/AVLTreeWithFastIterator.java:287-301 | case 1: the right child takes the node's place and the walk from the parent leaves an AVL tree whose in-order sequence lacks exactly the node's element |
| AVLTreeWithFastIterator.AVLTree.DeleteWithLeftChild | src/AVLTreeWithFastIterator.java:302-326 | case 2: the walk down the right spine of the left subtree finds the rightmost node, and the result is an AVL tree whose in-order sequence lacks exactly the node's element |
| AVLTreeWithFastIterator.AVLTree.DeleteRightMost | src/AVLTreeWithFastIterator.java:314-325 | the node takes the rightmost element, the rightmost node is replaced by its left child (also when it is the node's own left child), and the walk from its parent leaves an AVL tree lacking exactly the node's old element |
| AVLTreeWithFastIterator.ReplaceLeftChildStep | src/AVLTreeWithFastIterator.java:318-325 | when the rightmost node is the node's own left child, the node with its new left child is fit for the rebalancing step |
| AVLTreeWithFastIterator.LeftChildCutInOrder | src/AVLTreeWithFastIterator.java:315-322 | in the special case, moving the left child's element up and its left child into its place removes exactly the node's old element from the in-order sequence |
| AVLTreeWithFastIterator.SpineCutFrames | src/AVLTreeWithFastIterator.java:318-325 | when the rightmost node lies deeper, its parent with the new right child is fit for the rebalancing step and the path above it is valid |
| AVLTreeWithFastIterator.SpineCutInOrder | src/AVLTreeWithFastIterator.java:314-319 | cutting out the rightmost node and moving its element up removes exactly the deleted element from the in-order sequence |
| AVLTreeWithFastIterator.AVLTree.Iterator | src/AVLTreeWithFastIterator.java:19 | a new iterator whose remaining elements are all the elements in ascending order |
| AVLTreeWithFastIterator.AVLTree.IteratorAt | src/AVLTreeWithFastIterator.java:21 | fails with IndexOutOfBounds exactly when k < 0 or k > size; otherwise a new iterator whose remaining elements are the ascending elements from rank k on |
| AVLTreeWithFastIterator.InorderIterator.constructor | src/AVLTreeWithFastIterator.java:23-27 | starts at the root with an empty stack: the remaining elements are the whole in-order sequence |
| AVLTreeWithFastIterator.InorderIterator.AtRank | src/AVLTreeWithFastIterator.java:29-63 | the positioning loop terminates and leaves exactly the in-order sequence with the first k elements dropped |
| AVLTreeWithFastIterator.RankStepNoLeft | src/AVLTreeWithFastIterator.java:36-45 | at a node with no left child, skipping one element leaves the right subtree and skipping more leaves nothing |
| AVLTreeWithFastIterator.RankStepLeft | src/AVLTreeWithFastIterator.java:46-61 | at a node with a left child, that child's size field is its element count and the node's count is left + 1 + right |
| AVLTreeWithFastIterator.SkipIntoLeft | src/AVLTreeWithFastIterator.java:46-56 | pushing the node and continuing in its left subtree with the same count leaves the remaining elements unchanged |
| AVLTreeWithFastIterator.SkipPastLeft | src/AVLTreeWithFastIterator.java:57-61 | skipping past the left subtree and the node means skipping the rest in the right subtree |
| AVLTreeWithFastIterator.UnvisitedPush | src/AVLTreeWithFastIterator.java:73-76 | pushing a node makes its element and then its right subtree come before what the stack held |
| AVLTreeWithFastIterator.InorderIterator.HasNext | src/AVLTreeWithFastIterator.java:66-68 | true exactly when elements remain |
| AVLTreeWithFastIterator.InorderIterator.Next | src/AVLTreeWithFastIterator.java:70-80 | NoSuchElement exactly when nothing remains; otherwise returns the first remaining element and drops it; changes only the iterator |
| AVLTreeWithFastIterator.InorderIterator.Remove | src/AVLTreeWithFastIterator.java:82-84 | always UnsupportedOperation |
| Scenarios.Drain | src/TestAVLTreeIterator.java:58-64 | calling hasNext/next until exhausted collects exactly the remaining elements |
| Scenarios.SmallTree | src/TestAVLTreeIterator.java:54-56 | the tree built from the twelve test values holds them in sorted order |
| Scenarios.SmallTestPartI | src/TestAVLTreeIterator.java:53-68 | the plain iterator returns the twelve values sorted, and no more |
| Scenarios.SmallTestPartII | src/TestAVLTreeIterator.java:75-100 | the rank iterator refuses an index below 0 or above 12 with IndexOutOfBounds, and from any index i in range returns the sorted values from i on |
| Scenarios.InsertThenDelete | src/AVLTreeWithFastIterator.java:88-97 | inserting an absent element and then deleting it succeeds both times and gives back the same elements in the same order and the same size |

## Left out

- Nodes are values, not objects. Each method builds the changed nodes along the
  path and re-links them into the slot above, which is what the source does by
  assigning to `left`, `right` and `root`. Node identity is not modelled, so
  neither is the fact that delete's case 2 keeps the found node and overwrites
  its element. Aliasing is not modelled either; the source has none, since
  every node has one parent.
- The base class `BST` is not part of this model. That covers `TreeNode`,
  `path(e)`, `super.insert`, the array constructor and the search.
  - `Path` specifies the search path that `path(e)` returns and `super.insert`
    follows.
  - `Insert` hangs the new node at the empty slot that path ends in.
  - `FromSeq` inserts the objects one after the other.
- AVLTree.BalancePath: the walk starts from a path passed in by its caller. The
  source instead recomputes `path(e)` from the element. After an insertion the
  two are proved equal (`LeafPathIsSearchPath`, used in `Insert`). After a
  deletion this equality is not proved; there the walk starts at the parent the
  deletion re-linked, which is the node the source's `path(parent.element)`
  ends at.
- AVLTree.DeleteNoLeftChild: the source picks the parent's child slot by
  comparing the element with the parent's. The model uses the side the search
  took, which is the same slot.
- Rotations.Rebalance: the source reads the child and grandchild in a rotation
  without a check. A balance factor of -2 or +2 always implies the child exists,
  and in the LR case a positive factor of the left child always implies its
  right child exists, whatever the tree. Only in the RL case could a wrong
  height field give a negative factor with the right child's left child
  missing, where the source would throw a `NullPointerException`. Under the AVL
  invariant that cannot happen (`RLRestores`). The model returns the refreshed
  node unchanged in that one case.
- Generic elements and `Comparable` are replaced by `int` with `<`.
  - `java.util.Stack` is a `seq` whose last entry is the top.
  - Exceptions are `Err` results.
  - `size` is an unbounded `nat`; Java `int` overflow beyond 2^31 - 1 elements is
    not modelled.
- AVLTree.IteratorAt: the range check that the source performs at the start of
  the rank constructor is done here, before the constructor runs.
- InorderIterator.AtRank: requires only that the tree's root is AVL and that
  `0 <= k <=` the length of the tree's in-order sequence, which equals `size`
  under `Valid()`. It does not require the whole `Valid()` invariant, because
  order is irrelevant to positioning by rank.
- The model does not cover using an iterator after its tree has changed, or
  concurrent use. The source neither detects nor defines either.
- Running time is not modelled: neither logarithmic positioning nor amortised
  constant `next`. `AVLHasMinSize` gives the height bound on which the
  logarithmic cost rests.
- The timing tests and random trees of `TestAVLTreeIterator.java` are left out.
  Only its small tests are restated, in `Scenarios`.
- The test at `src/TestAVLTreeIterator.java:79-87` loops over -1 and 13 but
  always calls `iterator(-1)`. So the source never tests rejection of 13. The
  model follows the constructor's own range check, and
  `Scenarios.SmallTestPartII` states both rejections.
