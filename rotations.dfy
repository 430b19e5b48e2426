/** Node bookkeeping and the four AVL rotations.

    Each rotation restructures two or three nodes and returns the new root of the
    subtree; linking that root into the slot the old root `A` occupied (the tree's
    root or a child slot of A's parent) is done by the caller, `AVLTree.BalancePath`,
    through `Plug`/`PlugAll`. */
module Rotations {
  import opened SortedSeqs
  import opened Nodes

  /** Recomputes the node's height and size from its children
      (AVLTreeWithFastIterator.java updateHeightAndSize). */
  function UpdateHeightAndSize(n: Tree): (r: Tree)
    requires n.Node?
    ensures r.Node? && r.left == n.left && r.element == n.element && r.right == n.right
    ensures HeightOk(r) && SizeOk(r)
  {
    var height :=
      if n.left.Nil? && n.right.Nil? then 0            // a leaf
      else if n.left.Nil? then 1 + n.right.height       // no left subtree
      else if n.right.Nil? then 1 + n.left.height       // no right subtree
      else 1 + Max(n.right.height, n.left.height);
    var size := 1
      + (if n.left.Nil? then 0 else n.left.size)
      + (if n.right.Nil? then 0 else n.right.size);
    Node(n.left, n.element, n.right, height, size)
  }

  /** Right height minus left height, read off the node's own height field where a
      child is missing. */
  function BalanceFactor(n: Tree): (bf: int)
    requires n.Node?
    ensures HeightOk(n) ==> bf == Ht(n.right) - Ht(n.left)
  {
    if n.right.Nil? then -(n.height as int)
    else if n.left.Nil? then n.height
    else n.right.height - n.left.height
  }

  /** The LL rotation: the left child B becomes the subtree root, with A as its right
      child and B's old right subtree as A's new left subtree. */
  function BalanceLL(a: Tree): (r: Tree)
    requires a.Node? && a.left.Node?
    ensures r.Node? && InOrder(r) == InOrder(a)
    ensures Fields(a.left.left) && Fields(a.left.right) && Fields(a.right) ==> Fields(r)
    ensures SizeOk(a) && SizeOk(a.left) ==> r.size == a.size
  {
    var b := a.left;
    var a' := UpdateHeightAndSize(Node(b.right, a.element, a.right, a.height, a.size));
    UpdateHeightAndSize(Node(b.left, b.element, a', b.height, b.size))
  }

  /** The LR rotation: C, the right child of A's left child B, becomes the subtree root,
      with B and A as its children and C's old subtrees shared out between them. */
  function BalanceLR(a: Tree): (r: Tree)
    requires a.Node? && a.left.Node? && a.left.right.Node?
    ensures r.Node? && InOrder(r) == InOrder(a)
    ensures (Fields(a.left.left) && Fields(a.left.right.left) && Fields(a.left.right.right)
             && Fields(a.right)) ==> Fields(r)
    ensures SizeOk(a) && SizeOk(a.left) && SizeOk(a.left.right) ==> r.size == a.size
  {
    var b := a.left;
    var c := b.right;
    var a' := UpdateHeightAndSize(Node(c.right, a.element, a.right, a.height, a.size));
    var b' := UpdateHeightAndSize(Node(b.left, b.element, c.left, b.height, b.size));
    assert InOrder(b) == InOrder(b.left) + [b.element] + InOrder(c);
    DoubleRotationOrder(InOrder(b.left), b.element, InOrder(c.left), c.element, InOrder(c.right),
                        a.element, InOrder(a.right));
    UpdateHeightAndSize(Node(b', c.element, a', c.height, c.size))
  }

  /** The RR rotation, the mirror image of LL. */
  function BalanceRR(a: Tree): (r: Tree)
    requires a.Node? && a.right.Node?
    ensures r.Node? && InOrder(r) == InOrder(a)
    ensures Fields(a.left) && Fields(a.right.left) && Fields(a.right.right) ==> Fields(r)
    ensures SizeOk(a) && SizeOk(a.right) ==> r.size == a.size
  {
    var b := a.right;
    var a' := UpdateHeightAndSize(Node(a.left, a.element, b.left, a.height, a.size));
    UpdateHeightAndSize(Node(a', b.element, b.right, b.height, b.size))
  }

  /** The RL rotation, the mirror image of LR. */
  function BalanceRL(a: Tree): (r: Tree)
    requires a.Node? && a.right.Node? && a.right.left.Node?
    ensures r.Node? && InOrder(r) == InOrder(a)
    ensures (Fields(a.left) && Fields(a.right.left.left) && Fields(a.right.left.right)
             && Fields(a.right.right)) ==> Fields(r)
    ensures SizeOk(a) && SizeOk(a.right) && SizeOk(a.right.left) ==> r.size == a.size
  {
    var b := a.right;
    var c := b.left;
    var a' := UpdateHeightAndSize(Node(a.left, a.element, c.left, a.height, a.size));
    var b' := UpdateHeightAndSize(Node(c.right, b.element, b.right, b.height, b.size));
    assert InOrder(b) == InOrder(c) + [b.element] + InOrder(b.right);
    DoubleRotationOrder(InOrder(a.left), a.element, InOrder(c.left), c.element, InOrder(c.right),
                        b.element, InOrder(b.right));
    UpdateHeightAndSize(Node(a', c.element, b', c.height, c.size))
  }

  /** The condition on a path node's children under which rebalancing it yields an AVL
      subtree whose height is within one of `h`, the node's height before the update:
      the children differ in height by at most two, the recomputed height stays within
      one of `h`, and when a rotation is due it does not sit below `h`. */
  ghost predicate StepOk(h: int, hl: int, hr: int) {
    -2 <= hl - hr <= 2 &&
    h - 1 <= 1 + Max(hl, hr) <= h + 1 &&
    (hl - hr == 2 || hr - hl == 2 ==> h <= 1 + Max(hl, hr))
  }

  /** A path node ready for the rebalancing step: its children are AVL subtrees meeting
      StepOk for `h`, the node's height before the change below it. */
  ghost predicate Rebuildable(a: Tree, h: int) {
    a.Node? && AVL(a.left) && AVL(a.right) && StepOk(h, Ht(a.left), Ht(a.right))
  }

  /** Replacing one child of a balanced node by a subtree whose height is within one of
      the old child's meets StepOk for the node's old height: insertion and deletion each
      change one subtree's height by at most one. */
  lemma ChildChangeIsStep(oldc: int, newc: int, sib: int)
    requires -1 <= oldc - sib <= 1 && -1 <= newc - oldc <= 1
    ensures StepOk(1 + Max(oldc, sib), newc, sib)
    ensures StepOk(1 + Max(oldc, sib), sib, newc)
  {
  }

  /** One step up the rebalancing walk: the subtree `a` in the slot at the end of `ctx`
      becomes a child of the deepest path node. When `a` is AVL and within one of the
      slot's old height `c`, that node has AVL children meeting StepOk for its own old
      height, and the rest of the path is valid for that height. */
  lemma ClimbKeeps(ctx: seq<Frame>, a: Tree, c: int)
    requires ctx != [] && ValidFrames(ctx, c)
    requires AVL(a) && c - 1 <= Ht(a) <= c + 1
    ensures var n := |ctx| - 1; var c' := 1 + Max(c, Ht(Sibling(ctx[n])));
      PlugAll(ctx, a) == PlugAll(ctx[..n], Plug(ctx[n], a)) &&
      Rebuildable(Plug(ctx[n], a), c') && ValidFrames(ctx[..n], c')
  {
    var n := |ctx| - 1;
    ChildChangeIsStep(c, Ht(a), Ht(Sibling(ctx[n])));
  }

  /** An LL rotation at a node whose left side is two higher and whose left child is not
      right-heavy leaves an AVL subtree no lower than that left child. */
  lemma {:induction false} LLRestores(a: Tree)
    requires a.Node? && a.left.Node? && AVL(a.left) && AVL(a.right)
    requires Ht(a.left) == Ht(a.right) + 2 && BalanceFactor(a.left) <= 0
    ensures AVL(BalanceLL(a))
    ensures Ht(a.left) <= Ht(BalanceLL(a)) <= Ht(a.left) + 1
  {
    var b := a.left;
    assert Fields(b) && HeightOk(b) && Balanced(b);
    var r := BalanceLL(a);
    assert Balanced(r.right) by {
      assert r.right.left == b.right && r.right.right == a.right;
    }
  }

  /** An LR rotation at a node whose left side is two higher and whose left child is
      right-heavy leaves an AVL subtree exactly as high as that left child. */
  lemma {:induction false} LRRestores(a: Tree)
    requires a.Node? && a.left.Node? && AVL(a.left) && AVL(a.right)
    requires Ht(a.left) == Ht(a.right) + 2 && BalanceFactor(a.left) > 0
    ensures a.left.right.Node? && AVL(BalanceLR(a))
    ensures Ht(BalanceLR(a)) == Ht(a.left)
  {
    var b := a.left;
    assert Fields(b) && HeightOk(b) && Balanced(b);
    var c := b.right;
    assert Fields(c) && HeightOk(c) && Balanced(c);
    var r := BalanceLR(a);
    assert Balanced(r.left) by {
      assert r.left.left == b.left && r.left.right == c.left;
    }
    assert Balanced(r.right) by {
      assert r.right.left == c.right && r.right.right == a.right;
    }
  }

  /** The mirror image of LLRestores. */
  lemma {:induction false} RRRestores(a: Tree)
    requires a.Node? && a.right.Node? && AVL(a.left) && AVL(a.right)
    requires Ht(a.right) == Ht(a.left) + 2 && BalanceFactor(a.right) >= 0
    ensures AVL(BalanceRR(a))
    ensures Ht(a.right) <= Ht(BalanceRR(a)) <= Ht(a.right) + 1
  {
    var b := a.right;
    assert Fields(b) && HeightOk(b) && Balanced(b);
    var r := BalanceRR(a);
    assert Balanced(r.left) by {
      assert r.left.left == a.left && r.left.right == b.left;
    }
  }

  /** The mirror image of LRRestores. */
  lemma {:induction false} RLRestores(a: Tree)
    requires a.Node? && a.right.Node? && AVL(a.left) && AVL(a.right)
    requires Ht(a.right) == Ht(a.left) + 2 && BalanceFactor(a.right) < 0
    ensures a.right.left.Node? && AVL(BalanceRL(a))
    ensures Ht(BalanceRL(a)) == Ht(a.right)
  {
    var b := a.right;
    assert Fields(b) && HeightOk(b) && Balanced(b);
    var c := b.left;
    assert Fields(c) && HeightOk(c) && Balanced(c);
    var r := BalanceRL(a);
    assert Balanced(r.left) by {
      assert r.left.left == a.left && r.left.right == c.left;
    }
    assert Balanced(r.right) by {
      assert r.right.left == c.right && r.right.right == b.right;
    }
  }

  /** One step of the rebalancing walk at path node `a`: recompute its height and size,
      then rotate when its balance factor is -2 (LL or LR, by the left child's balance
      factor) or +2 (RR or RL, by the right child's). The result is the subtree root that
      takes `a`'s place. */
  function Rebalance(a: Tree): (r: Tree)
    requires a.Node?
    ensures r.Node? && InOrder(r) == InOrder(a)
  {
    var n := UpdateHeightAndSize(a);
    var bf := BalanceFactor(n);
    if bf == -2 then
      // A factor of -2 leaves no room for a missing left child, and a positive factor
      // of the left child (read off its right child's height) means that right child exists.
      if BalanceFactor(n.left) <= 0 then BalanceLL(n) else BalanceLR(n)
    else if bf == 2 then
      // A negative factor of the right child with its right child missing is read off the
      // right child's own height field, so only a correct field guarantees a left grandchild.
      if BalanceFactor(n.right) >= 0 then BalanceRR(n)
      else if n.right.left.Node? then BalanceRL(n)
      else n
    else n
  }

  /** Rebalancing a node whose AVL children meet StepOk for its old height `h` gives an
      AVL subtree whose height is within one of `h`. */
  lemma RebalanceRestores(a: Tree, h: int)
    requires Rebuildable(a, h)
    ensures AVL(Rebalance(a))
    ensures h - 1 <= Ht(Rebalance(a)) <= h + 1
  {
    var n := UpdateHeightAndSize(a);
    var bf := BalanceFactor(n);
    if bf == -2 {
      assert n.left.Node?;
      if BalanceFactor(n.left) <= 0 {
        LLRestores(n);
      } else {
        LRRestores(n);
      }
    } else if bf == 2 {
      assert n.right.Node?;
      if BalanceFactor(n.right) >= 0 {
        RRRestores(n);
      } else {
        RLRestores(n);
      }
    }
  }
}
