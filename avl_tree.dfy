/** An AVL tree whose nodes also count the nodes below them, and an in-order iterator
    that uses those counts to start at any rank.

    The tree object keeps the root and the element count and updates them in place;
    subtrees are values (see module Nodes). */
module AVLTreeWithFastIterator {
  import opened SortedSeqs
  import opened Nodes
  import opened Rotations

  /** The exceptions the iterators throw. */
  datatype Error = IndexOutOfBounds | NoSuchElement | UnsupportedOperation

  datatype Result<T> = Ok(value: T) | Err(error: Error)

  /** The search path for `e` from the root of `t`: the path nodes with the child the search
      goes on into cut out, and the subtree where the search stops, which is either the node
      holding `e` or the empty slot where `e` would be hung. */
  function Path(t: Tree, e: int): (r: (seq<Frame>, Tree))
    ensures PlugAll(r.0, r.1) == t
    ensures SearchesFor(r.0, e)
    ensures r.1.Nil? || r.1.element == e
  {
    PathFrom([], t, e)
  }

  function PathFrom(ctx: seq<Frame>, t: Tree, e: int): (r: (seq<Frame>, Tree))
    requires SearchesFor(ctx, e)
    ensures PlugAll(r.0, r.1) == PlugAll(ctx, t)
    ensures SearchesFor(r.0, e)
    ensures r.1.Nil? || r.1.element == e
    decreases t
  {
    match t
    case Nil => (ctx, Nil)
    case Node(l, x, r, h, s) =>
      if e < x then
        var f := HoleLeft(x, r, h, s);
        assert (ctx + [f])[..|ctx|] == ctx;
        PathFrom(ctx + [f], l, e)
      else if x < e then
        var f := HoleRight(l, x, h, s);
        assert (ctx + [f])[..|ctx|] == ctx;
        PathFrom(ctx + [f], r, e)
      else
        (ctx, t)
  }

  /** Searching for `e` again in a tree rebuilt around `e`'s node retraces the search path
      that led there: `pre` is the part already taken, `rest` the part still to take. */
  lemma {:induction false} PathFromRecovers(pre: seq<Frame>, rest: seq<Frame>, s: Tree, e: int)
    requires SearchesFor(pre, e) && SearchesFor(pre + rest, e)
    requires s.Node? && s.element == e
    ensures PathFrom(pre, PlugAll(rest, s), e) == (pre + rest, s)
    decreases |rest|
  {
    if rest == [] {
      assert pre + rest == pre;
    } else {
      var f := rest[0];
      var below := PlugAll(rest[1..], s);
      assert [f] + rest[1..] == rest;
      PlugAllAppend([f], rest[1..], s);
      assert PlugAll([f], below) == Plug(f, below);
      assert (pre + rest)[|pre|] == f;
      assert pre + rest == (pre + [f]) + rest[1..];
      assert SearchesFor(pre + [f], e) by {
        forall i | 0 <= i < |pre + [f]| ensures (pre + [f])[i] == (pre + rest)[i] { }
      }
      PathFromRecovers(pre + [f], rest[1..], s, e);
    }
  }

  /** The path a new leaf was hung at is `path(e)` of the tree that holds it, so the
      rebalancing walk after an insertion runs along the path of the new element. */
  lemma LeafPathIsSearchPath(ctx: seq<Frame>, e: int)
    requires SearchesFor(ctx, e)
    ensures Path(PlugAll(ctx, Node(Nil, e, Nil, 0, 0)), e) == (ctx, Node(Nil, e, Nil, 0, 0))
  {
    assert [] + ctx == ctx;
    PathFromRecovers([], ctx, Node(Nil, e, Nil, 0, 0), e);
  }

  /** The elements still to come from an iterator's stack of pending ancestors: each
      pending node (the top of the stack is the last entry) followed by its right subtree. */
  function Unvisited(stack: seq<Tree>): seq<int>
    decreases |stack|
  {
    if stack == [] then []
    else
      var n := stack[|stack| - 1];
      (if n.Node? then [n.element] + InOrder(n.right) else []) + Unvisited(stack[..|stack| - 1])
  }

  class AVLTree {
    var root: Tree
    /** The number of elements, kept by the tree beside the root's size field. */
    var size: nat

    ghost predicate Valid()
      reads this
    {
      AVL(root) && Increasing(InOrder(root)) && size == |InOrder(root)|
    }

    /** The elements in ascending order. */
    ghost function Elements(): seq<int>
      reads this
    {
      InOrder(root)
    }

    ghost function Contents(): set<int>
      reads this
    {
      Elems(InOrder(root))
    }

    /** An empty tree. */
    constructor ()
      ensures Valid() && Elements() == []
    {
      root := Nil;
      size := 0;
    }

    /** A tree holding the given elements, inserted one after the other. */
    constructor FromSeq(objects: seq<int>)
      ensures Valid() && Contents() == Elems(objects)
    {
      root := Nil;
      size := 0;
      new;
      var i := 0;
      while i < |objects|
        invariant 0 <= i <= |objects|
        invariant Valid() && Contents() == Elems(objects[..i])
      {
        var added := Insert(objects[i]);
        assert objects[..i + 1] == objects[..i] + [objects[i]];
        i := i + 1;
      }
      assert objects[..i] == objects;
    }

    /** Inserts `e` unless it is already present. The new node starts with height 0 and
        size 0 and is put right by the rebalancing walk, which starts at it. */
    method Insert(e: int) returns (ok: bool)
      requires Valid()
      modifies this
      ensures Valid()
      ensures ok <==> e !in old(Contents())
      ensures Contents() == old(Contents()) + {e}
      ensures size == if ok then old(size) + 1 else old(size)
      ensures !ok ==> root == old(root)
    {
      // The plain search-tree insertion: follow the search path for e.
      var p := Path(root, e);
      var ctx, s := p.0, p.1;
      InOrderPlugAll(ctx, s);
      if s.Node? {
        assert e in InOrder(s);
        return false; // e is already in the tree
      }
      SearchBounds(ctx, s, e);
      AVLFrames(ctx, s);
      assert InOrder(root) == Pre(ctx) + Post(ctx);
      var leaf := Node(Nil, e, Nil, 0, 0);
      root := PlugAll(ctx, leaf);
      size := size + 1;
      InOrderPlugAll(ctx, leaf);
      assert InOrder(leaf) == [e];
      ghost var elements := Pre(ctx) + [e] + Post(ctx);
      assert InOrder(root) == elements;
      // The walk runs along path(e) of the tree that now holds e.
      LeafPathIsSearchPath(ctx, e);
      assert Path(root, e) == (ctx, leaf);
      BalancePath(ctx, leaf, -1);
      assert InOrder(root) == elements;
      InsertKeepsIncreasing(Pre(ctx), e, Post(ctx));
      assert Increasing(InOrder(root)) && size == |InOrder(root)|;
      ok := true;
    }

    /** Walks the path from its deepest node `a` back to the root. At each node it
        recomputes height and size, applies the LL, LR, RR or RL rotation when the balance
        factor is -2 or +2, and links the result back into the parent's slot (or makes it
        the root). `ctx` are the path nodes above `a`, root first, and `h` is the height
        `a`'s slot had before the change that started the walk. */
    method BalancePath(ctx: seq<Frame>, a: Tree, ghost h: int)
      requires root == PlugAll(ctx, a)
      requires Rebuildable(a, h) && ValidFrames(ctx, h)
      modifies this`root
      ensures AVL(root)
      ensures InOrder(root) == InOrder(old(root))
    {
      var i := |ctx|;
      var A := a;
      ghost var hA := h;
      assert ctx[..i] == ctx;
      while true
        invariant 0 <= i <= |ctx|
        invariant root == PlugAll(ctx[..i], A)
        invariant InOrder(root) == InOrder(old(root))
        invariant Rebuildable(A, hA) && ValidFrames(ctx[..i], hA)
        decreases i
      {
        var up := ctx[..i];
        ghost var before := A;
        A := Rebalance(A);
        RebalanceRestores(before, hA);
        InOrderPlugAll(up, before);
        InOrderPlugAll(up, A);
        root := PlugAll(up, A);
        if i == 0 {
          break;
        }
        ClimbKeeps(up, A, hA);
        assert up[..i - 1] == ctx[..i - 1];
        A := Plug(up[i - 1], A);
        hA := 1 + Max(hA, Ht(Sibling(up[i - 1])));
        i := i - 1;
      }
    }

    /** Deletes `e` if present: a node without a left child is replaced by its right
        child; otherwise the node takes the largest element of its left subtree and the
        node that held it is replaced by its own left child. */
    method Delete(e: int) returns (ok: bool)
      requires Valid()
      modifies this
      ensures Valid()
      ensures ok <==> e in old(Contents())
      ensures Contents() == old(Contents()) - {e}
      ensures size == if ok then old(size) - 1 else old(size)
      ensures !ok ==> root == old(root)
    {
      if root == Nil {
        return false; // the tree is empty
      }

      // Locate the node holding e; the path above it stands for `parent`.
      var ctx: seq<Frame> := [];
      var current := root;
      while current != Nil
        invariant PlugAll(ctx, current) == root
        invariant SearchesFor(ctx, e)
        decreases current
      {
        if e < current.element {
          var f := HoleLeft(current.element, current.right, current.height, current.size);
          assert (ctx + [f])[..|ctx|] == ctx;
          ctx := ctx + [f];
          current := current.left;
        } else if e > current.element {
          var f := HoleRight(current.left, current.element, current.height, current.size);
          assert (ctx + [f])[..|ctx|] == ctx;
          ctx := ctx + [f];
          current := current.right;
        } else {
          break;
        }
      }

      if current == Nil {
        InOrderPlugAll(ctx, current);
        SearchBounds(ctx, current, e);
        assert e !in InOrder(root);
        return false; // e is not in the tree
      }
      assert current.element == e && e in InOrder(root) by {
        InOrderPlugAll(ctx, current);
        assert InOrder(current) == InOrder(current.left) + [e] + InOrder(current.right);
      }
      DeleteNode(ctx, current);
      ok := true;
    }

    /** Takes the node `current`, found at the end of the search path `ctx`, out of the tree:
        one element fewer, the rest in the same order. */
    method DeleteNode(ctx: seq<Frame>, current: Tree)
      requires Valid() && root == PlugAll(ctx, current) && current.Node?
      modifies this
      ensures Valid()
      ensures Contents() == old(Contents()) - {current.element}
      ensures size == old(size) - 1
    {
      var e := current.element;
      ghost var P := Pre(ctx) + InOrder(current.left);
      ghost var S := InOrder(current.right) + Post(ctx);
      InOrderPlugAll(ctx, current);
      Regroup(Pre(ctx), InOrder(current.left), e, InOrder(current.right), Post(ctx));
      assert InOrder(root) == P + [e] + S;
      if current.left == Nil {
        // Case 1: no left child; link the right child into the parent's slot.
        DeleteNoLeftChild(ctx, current);
      } else {
        // Case 2: current has a left child.
        DeleteWithLeftChild(ctx, current);
      }
      assert InOrder(root) == P + S;
      size := size - 1;
      RemoveKeepsIncreasing(P, e, S);
      assert Increasing(InOrder(root)) && size == |InOrder(root)|;
    }

    /** Delete case 1: `current` has no left child and is replaced by its right child in
        its parent's slot (or as the root); then the path from the parent up to the root
        is rebalanced. */
    method DeleteNoLeftChild(ctx: seq<Frame>, current: Tree)
      requires root == PlugAll(ctx, current) && AVL(root)
      requires current.Node? && current.left.Nil?
      modifies this`root
      ensures AVL(root)
      ensures InOrder(root) == Pre(ctx) + InOrder(current.left) + InOrder(current.right) + Post(ctx)
    {
      AVLFrames(ctx, current);
      InOrderPlugAll(ctx, current.right);
      ghost var remaining := InOrder(PlugAll(ctx, current.right));
      assert remaining == Pre(ctx) + InOrder(current.left) + InOrder(current.right) + Post(ctx) by {
        assert InOrder(current.left) == [];
      }
      if ctx == [] {
        root := current.right;
      } else {
        var n := |ctx| - 1;
        var parent := Plug(ctx[n], current.right);
        assert Fields(current) && HeightOk(current);
        ClimbKeeps(ctx, current.right, Ht(current));
        root := PlugAll(ctx[..n], parent);
        BalancePath(ctx[..n], parent, 1 + Max(Ht(current), Ht(Sibling(ctx[n]))));
      }
      assert InOrder(root) == remaining;
    }

    /** Delete case 2: find the rightmost node of `current`'s left subtree, then take it out
        (see DeleteRightMost). */
    method DeleteWithLeftChild(ctx: seq<Frame>, current: Tree)
      requires root == PlugAll(ctx, current) && AVL(root)
      requires current.Node? && current.left.Node?
      modifies this`root
      ensures AVL(root)
      ensures InOrder(root) == Pre(ctx) + InOrder(current.left) + InOrder(current.right) + Post(ctx)
    {
      var spine: seq<Frame> := [];
      var rightMost := current.left;
      while rightMost.right != Nil
        invariant rightMost.Node?
        invariant PlugAll(spine, rightMost) == current.left
        invariant forall i :: 0 <= i < |spine| ==> spine[i].HoleRight?
        decreases rightMost
      {
        var f := HoleRight(rightMost.left, rightMost.element, rightMost.height, rightMost.size);
        assert (spine + [f])[..|spine|] == spine;
        spine := spine + [f];
        rightMost := rightMost.right;
      }
      DeleteRightMost(ctx, current, spine, rightMost);
    }

    /** Delete case 2: `current` takes the element of `rightMost`, the rightmost node of
        its left subtree (`spine` is the path from current's left child down to it), and
        `rightMost` is replaced by its own left child; then the path from rightMost's
        parent up to the root is rebalanced. */
    method DeleteRightMost(ctx: seq<Frame>, current: Tree, spine: seq<Frame>, rightMost: Tree)
      requires root == PlugAll(ctx, current) && AVL(root)
      requires current.Node? && rightMost.Node? && rightMost.right.Nil?
      requires PlugAll(spine, rightMost) == current.left
      requires forall i :: 0 <= i < |spine| ==> spine[i].HoleRight?
      modifies this`root
      ensures AVL(root)
      ensures InOrder(root) == Pre(ctx) + InOrder(current.left) + InOrder(current.right) + Post(ctx)
    {
      var m := rightMost.element;
      ghost var remaining := Pre(ctx) + InOrder(current.left) + InOrder(current.right) + Post(ctx);
      if spine == [] {
        // rightMost is current's left child, so current is its parent.
        var a := Node(rightMost.left, m, current.right, current.height, current.size);
        ReplaceLeftChildStep(ctx, current);
        LeftChildCutInOrder(ctx, current);
        root := PlugAll(ctx, a);
        assert InOrder(root) == remaining;
        BalancePath(ctx, a, Ht(current));
      } else {
        var k := |spine| - 1;
        var parentOfRightMost := Plug(spine[k], rightMost.left);
        var path := ctx + [HoleLeft(m, current.right, current.height, current.size)] + spine[..k];
        SpineCutFrames(ctx, current, spine, rightMost);
        SpineCutInOrder(ctx, current, spine, rightMost);
        root := PlugAll(path, parentOfRightMost);
        assert InOrder(root) == remaining;
        BalancePath(path, parentOfRightMost, 1 + Max(Ht(rightMost), Ht(Sibling(spine[k]))));
      }
    }

    /** An iterator positioned before the smallest element. */
    method Iterator() returns (it: InorderIterator)
      ensures fresh(it) && it.Valid() && it.Remaining() == Elements()
    {
      it := new InorderIterator(this);
    }

    /** An iterator positioned before the element of rank `index`; `index` may equal the
        number of elements. */
    method IteratorAt(index: int) returns (r: Result<InorderIterator>)
      requires Valid()
      ensures r.Err? <==> index < 0 || index > size
      ensures r.Err? ==> r.error == IndexOutOfBounds
      ensures r.Ok? ==> fresh(r.value) && r.value.Valid() && r.value.Remaining() == Elements()[index..]
    {
      if index < 0 || index > size {
        return Err(IndexOutOfBounds);
      }
      var it := new InorderIterator.AtRank(this, index);
      return Ok(it);
    }
  }

  /** When the rightmost node of `current`'s left subtree is that left child itself, moving
      its element up into `current` and putting its left child in its place leaves a node
      whose children meet StepOk for current's old height. */
  lemma ReplaceLeftChildStep(ctx: seq<Frame>, current: Tree)
    requires AVL(PlugAll(ctx, current))
    requires current.Node? && current.left.Node? && current.left.right.Nil?
    ensures AVL(current.left.left) && AVL(current.right)
    ensures ValidFrames(ctx, Ht(current))
    ensures StepOk(Ht(current), Ht(current.left.left), Ht(current.right))
  {
    AVLFrames(ctx, current);
    var rm := current.left;
    assert Fields(rm) && HeightOk(rm) && Balanced(rm);
    ChildChangeIsStep(Ht(rm), Ht(rm.left), Ht(current.right));
  }

  /** When the rightmost node of `current`'s left subtree is that left child itself, moving
      its element up into `current` and its left child into its place gives the old
      in-order sequence without current's element. */
  lemma LeftChildCutInOrder(ctx: seq<Frame>, current: Tree)
    requires current.Node? && current.left.Node? && current.left.right.Nil?
    ensures var rm := current.left;
      InOrder(PlugAll(ctx, Node(rm.left, rm.element, current.right, current.height, current.size)))
      == Pre(ctx) + InOrder(current.left) + InOrder(current.right) + Post(ctx)
  {
    var rm := current.left;
    InOrderPlugAll(ctx, Node(rm.left, rm.element, current.right, current.height, current.size));
    assert InOrder(rm) == InOrder(rm.left) + [rm.element];
    Regroup(Pre(ctx), InOrder(rm.left), rm.element, InOrder(current.right), Post(ctx));
  }

  /** Cutting the rightmost node of `current`'s left subtree out of a correct AVL tree:
      the new path (current now holding the rightmost element, down to the rightmost
      node's parent) is valid, and the parent with its new right child meets StepOk. */
  lemma SpineCutFrames(ctx: seq<Frame>, current: Tree, spine: seq<Frame>, rightMost: Tree)
    requires AVL(PlugAll(ctx, current))
    requires current.Node? && rightMost.Node? && rightMost.right.Nil?
    requires PlugAll(spine, rightMost) == current.left && spine != []
    ensures var k := |spine| - 1; var c := 1 + Max(Ht(rightMost), Ht(Sibling(spine[k])));
      var path := ctx + [HoleLeft(rightMost.element, current.right, current.height, current.size)] + spine[..k];
      Rebuildable(Plug(spine[k], rightMost.left), c) && ValidFrames(path, c)
  {
    var k := |spine| - 1;
    var cf := HoleLeft(current.element, current.right, current.height, current.size);
    var oldPath := ctx + [cf] + spine;
    assert (ctx + [cf])[..|ctx|] == ctx;
    assert PlugAll(ctx + [cf], current.left) == PlugAll(ctx, current);
    PlugAllAppend(ctx + [cf], spine, rightMost);
    AVLFrames(oldPath, rightMost);
    assert Fields(rightMost) && HeightOk(rightMost);
    assert Ht(rightMost.left) - Ht(rightMost) == -1;
    ClimbKeeps(oldPath, rightMost.left, Ht(rightMost));
    var path := ctx + [HoleLeft(rightMost.element, current.right, current.height, current.size)] + spine[..k];
    assert oldPath[..|oldPath| - 1] == ctx + [cf] + spine[..k];
    ValidFramesSameSiblings(ctx + [cf] + spine[..k], path, 1 + Max(Ht(rightMost), Ht(Sibling(spine[k]))));
  }

  /** Cutting the rightmost node of `current`'s left subtree out and moving its element
      into `current` gives the old in-order sequence without current's element. */
  lemma SpineCutInOrder(ctx: seq<Frame>, current: Tree, spine: seq<Frame>, rightMost: Tree)
    requires current.Node? && rightMost.Node? && rightMost.right.Nil?
    requires PlugAll(spine, rightMost) == current.left && spine != []
    requires forall i :: 0 <= i < |spine| ==> spine[i].HoleRight?
    ensures var k := |spine| - 1; var p := Plug(spine[k], rightMost.left);
      var path := ctx + [HoleLeft(rightMost.element, current.right, current.height, current.size)] + spine[..k];
      InOrder(PlugAll(path, p)) == Pre(ctx) + InOrder(current.left) + InOrder(current.right) + Post(ctx)
  {
    var k := |spine| - 1;
    var m := rightMost.element;
    var p := Plug(spine[k], rightMost.left);
    var top := ctx + [HoleLeft(m, current.right, current.height, current.size)];
    var path := top + spine[..k];
    var newLeft := PlugAll(spine[..k], p);
    PlugAllAppend(top, spine[..k], p);
    assert top[..|ctx|] == ctx;
    InOrderPlugAll(ctx, Node(newLeft, m, current.right, current.height, current.size));
    InOrderPlugAll(spine[..k], p);
    InOrderPlugAll(spine[..k], Plug(spine[k], rightMost));
    RightSpinePost(spine[..k]);
    assert spine[..k + 1] == spine;
    assert spine[..k] == spine[..|spine| - 1];
    assert PlugAll(spine, rightMost) == PlugAll(spine[..k], Plug(spine[k], rightMost));
    assert spine[k].HoleRight?;
    assert InOrder(rightMost) == InOrder(rightMost.left) + [m];
    assert InOrder(Plug(spine[k], rightMost)) == InOrder(p) + [m];
    assert InOrder(current.left) == InOrder(newLeft) + [m];
  }

  /** Pushing a node onto the stack puts its element and its right subtree in front of
      what the stack already held. */
  lemma UnvisitedPush(stack: seq<Tree>, n: Tree)
    requires n.Node?
    ensures Unvisited(stack + [n]) == [n.element] + InOrder(n.right) + Unvisited(stack)
  {
    assert (stack + [n])[..|stack|] == stack;
  }

  /** The descent by rank at a node without a left child: such a node of an AVL tree has
      at most two elements, so skipping one leaves its right subtree and skipping more
      leaves nothing. */
  lemma RankStepNoLeft(t: Tree, toSkip: int)
    requires AVL(t) && t.Node? && t.left.Nil? && 0 < toSkip <= |InOrder(t)|
    ensures AVL(t.right)
    ensures InOrder(t)[toSkip..] == if toSkip == 1 then InOrder(t.right) else []
  {
    NoLeftChildIsSmall(t);
  }

  /** The descent by rank at a node with a left child: the stored size of the left child
      counts its elements, and an AVL node's children are AVL. */
  lemma RankStepLeft(t: Tree)
    requires AVL(t) && t.Node? && t.left.Node?
    ensures AVL(t.left) && AVL(t.right)
    ensures t.left.size == |InOrder(t.left)|
    ensures |InOrder(t)| == t.left.size + 1 + |InOrder(t.right)|
  {
    FieldsMeaning(t.left);
  }

  /** When the rank lies within the left subtree, pushing the node and going on into its
      left subtree leaves the same elements to come. */
  lemma SkipIntoLeft(t: Tree, toSkip: int, stack: seq<Tree>)
    requires t.Node? && 0 <= toSkip <= |InOrder(t.left)|
    ensures InOrder(t)[toSkip..] + Unvisited(stack) == InOrder(t.left)[toSkip..] + Unvisited(stack + [t])
  {
    UnvisitedPush(stack, t);
    var l, rest, u := InOrder(t.left), [t.element] + InOrder(t.right), Unvisited(stack);
    assert InOrder(t) == l + rest;
    DropInFirst(l, rest, toSkip);
    Assoc(l[toSkip..], rest, u);
  }

  /** When the rank lies past the left subtree and the node, the elements to come are the
      right subtree's from the rank less those skipped. */
  lemma SkipPastLeft(t: Tree, toSkip: int)
    requires t.Node? && |InOrder(t.left)| < toSkip <= |InOrder(t)|
    ensures InOrder(t)[toSkip..] == InOrder(t.right)[toSkip - (|InOrder(t.left)| + 1)..]
  {
    var first := InOrder(t.left) + [t.element];
    assert InOrder(t) == first + InOrder(t.right);
    DropPastFirst(first, InOrder(t.right), toSkip);
  }

  /** An in-order cursor over a tree: `current` is the subtree still to be walked in
      full, and `stack` holds the ancestors whose own element and right subtree are still
      to come (the top of the stack is the last entry). */
  class InorderIterator {
    var current: Tree
    var stack: seq<Tree>

    ghost predicate Valid()
      reads this
    {
      forall i :: 0 <= i < |stack| ==> stack[i].Node?
    }

    /** The elements this iterator has yet to return, in order. */
    ghost function Remaining(): seq<int>
      reads this
    {
      InOrder(current) + Unvisited(stack)
    }

    /** Starts at the root with an empty stack. */
    constructor (tree: AVLTree)
      ensures Valid() && Remaining() == tree.Elements()
    {
      current := tree.root;
      stack := [];
    }

    /** Starts at the root and descends by subtree size until `numToSkip` elements
        have been skipped. */
    constructor AtRank(tree: AVLTree, numToSkip: int)
      requires AVL(tree.root) && 0 <= numToSkip <= |tree.Elements()|
      ensures Valid() && Remaining() == tree.Elements()[numToSkip..]
    {
      current := tree.root;
      stack := [];
      new;
      var toSkip := numToSkip;
      ghost var target := tree.Elements()[numToSkip..];
      while toSkip > 0
        invariant Valid() && AVL(current)
        invariant 0 <= toSkip <= |InOrder(current)|
        invariant InOrder(current)[toSkip..] + Unvisited(stack) == target
        decreases toSkip, |InOrder(current)|
      {
        var cur := current;
        if cur.left == Nil {
          RankStepNoLeft(cur, toSkip);
          if toSkip == 1 {
            current := cur.right;
            toSkip := 0;
          } else {
            // Only reachable when toSkip is the node count of cur, which is 2.
            current := Nil;
            toSkip := 0;
          }
        } else {
          RankStepLeft(cur);
          if toSkip == cur.left.size {
            // Skip the left subtree only.
            SkipIntoLeft(cur, toSkip, stack);
            stack := stack + [cur];
            current := Nil;
            toSkip := 0;
          } else if toSkip < cur.left.size {
            // Go into the left subtree.
            SkipIntoLeft(cur, toSkip, stack);
            stack := stack + [cur];
            current := cur.left;
          } else {
            // Skip the left subtree and cur itself; go into the right subtree.
            SkipPastLeft(cur, toSkip);
            toSkip := toSkip - (cur.left.size + 1);
            current := cur.right;
          }
        }
      }
    }

    predicate HasNext(): (b: bool)
      reads this
      ensures Valid() ==> (b <==> Remaining() != [])
    {
      current != Nil || stack != []
    }

    method Next() returns (r: Result<int>)
      requires Valid()
      modifies this
      ensures Valid()
      ensures old(Remaining()) == [] ==> r == Err(NoSuchElement) && Remaining() == []
      ensures old(Remaining()) != [] ==> r == Ok(old(Remaining())[0]) && Remaining() == old(Remaining())[1..]
    {
      if !HasNext() {
        return Err(NoSuchElement);
      }
      while current != Nil
        invariant Valid()
        invariant Remaining() == old(Remaining())
        decreases current
      {
        UnvisitedPush(stack, current);
        Assoc(InOrder(current.left), [current.element] + InOrder(current.right), Unvisited(stack));
        stack := stack + [current];
        current := current.left;
      }
      var node := stack[|stack| - 1];
      ghost var rest := InOrder(node.right) + Unvisited(stack[..|stack| - 1]);
      assert Remaining() == [node.element] + rest;
      stack := stack[..|stack| - 1];
      current := node.right;
      return Ok(node.element);
    }

    /** Removal through the iterator is not supported. */
    method Remove() returns (err: Error)
      ensures err == UnsupportedOperation
    {
      return UnsupportedOperation;
    }
  }
}
