/** The nodes of the tree and the paths through it.

    A node owns its two children and nothing points back to it, so a subtree is a
    value: `Nil` stands for a missing child (`null`), and a `Node` carries the
    element together with the two fields the tree keeps up to date in every node,
    `height` and `size`. These stored fields are what the code reads; they are
    correct only where the predicates below say so. */
module Nodes {
  import opened SortedSeqs

  datatype Tree = Nil | Node(left: Tree, element: int, right: Tree, height: nat, size: nat)

  function Max(a: int, b: int): int {
    if a < b then b else a
  }

  /** The stored height of a subtree; a missing child counts as height -1. */
  function Ht(t: Tree): int {
    if t.Nil? then -1 else t.height
  }

  /** The stored size of a subtree; a missing child counts as size 0. */
  function Sz(t: Tree): nat {
    if t.Nil? then 0 else t.size
  }

  /** The elements of a subtree from left to right. */
  function InOrder(t: Tree): seq<int> {
    match t
    case Nil => []
    case Node(l, x, r, _, _) => InOrder(l) + [x] + InOrder(r)
  }

  /** The number of edges on the longest downward path (a leaf has height 0,
      a missing subtree -1), computed from the shape alone. */
  function Height(t: Tree): int {
    match t
    case Nil => -1
    case Node(l, _, r, _, _) => 1 + Max(Height(l), Height(r))
  }

  /** The height field of the node agrees with the stored heights of its children. */
  ghost predicate HeightOk(t: Tree) {
    t.Node? ==> t.height == 1 + Max(Ht(t.left), Ht(t.right))
  }

  /** The size field of the node agrees with the stored sizes of its children. */
  ghost predicate SizeOk(t: Tree) {
    t.Node? ==> t.size == 1 + Sz(t.left) + Sz(t.right)
  }

  /** Height and size are correct in every node of the subtree. */
  ghost predicate Fields(t: Tree) {
    t.Node? ==> HeightOk(t) && SizeOk(t) && Fields(t.left) && Fields(t.right)
  }

  /** Every node's balance factor is -1, 0 or +1. */
  ghost predicate Balanced(t: Tree) {
    t.Node? ==> -1 <= Ht(t.right) - Ht(t.left) <= 1 && Balanced(t.left) && Balanced(t.right)
  }

  /** The height, size and balance invariants of an AVL subtree. */
  ghost predicate AVL(t: Tree) {
    Fields(t) && Balanced(t)
  }

  /** Correct fields mean exactly what their names say: the stored height is the height
      and the stored size is the number of elements. */
  lemma {:induction false} FieldsMeaning(t: Tree)
    requires Fields(t)
    ensures Ht(t) == Height(t)
    ensures Sz(t) == |InOrder(t)|
  {
    if t.Node? {
      FieldsMeaning(t.left);
      FieldsMeaning(t.right);
    }
  }

  /** A node of an AVL tree that has no left child holds at most two elements:
      its right subtree can only be missing or a single leaf. */
  lemma NoLeftChildIsSmall(t: Tree)
    requires AVL(t) && t.Node? && t.left.Nil?
    ensures |InOrder(t)| <= 2
  {
    var r := t.right;
    assert Ht(r) <= 0;
    if r.Node? {
      assert Fields(r) && HeightOk(r);
      assert r.height == 0;
      assert Ht(r.left) == -1 && Ht(r.right) == -1;
    }
  }

  // ----- Paths -----

  /** One node of a root-to-node path, with the child that the path continues into
      cut out: `HoleLeft` when the path goes on into the left child, `HoleRight` when
      it goes on into the right one. The stored fields are the node's fields as they
      were when the path was taken. */
  datatype Frame =
    | HoleLeft(element: int, right: Tree, height: nat, size: nat)
    | HoleRight(left: Tree, element: int, height: nat, size: nat)

  /** The child of the path node that the path does not enter. */
  function Sibling(f: Frame): Tree {
    match f
    case HoleLeft(_, r, _, _) => r
    case HoleRight(l, _, _, _) => l
  }

  /** Links `s` into the slot of the path node that the path continues into. */
  function Plug(f: Frame, s: Tree): (n: Tree)
    ensures n.Node? && n.element == f.element
  {
    match f
    case HoleLeft(x, r, h, sz) => Node(s, x, r, h, sz)
    case HoleRight(l, x, h, sz) => Node(l, x, s, h, sz)
  }

  /** The whole tree, given the path from the root (first) to the deepest path node
      (last) and the subtree hanging below the deepest one. */
  function PlugAll(ctx: seq<Frame>, s: Tree): Tree
    decreases |ctx|
  {
    if ctx == [] then s else PlugAll(ctx[..|ctx| - 1], Plug(ctx[|ctx| - 1], s))
  }

  /** The elements the path leaves to the left of the slot at its end. */
  function Pre(ctx: seq<Frame>): seq<int>
    decreases |ctx|
  {
    if ctx == [] then []
    else
      var f := ctx[|ctx| - 1];
      Pre(ctx[..|ctx| - 1]) + (if f.HoleRight? then InOrder(f.left) + [f.element] else [])
  }

  /** The elements the path leaves to the right of the slot at its end. */
  function Post(ctx: seq<Frame>): seq<int>
    decreases |ctx|
  {
    if ctx == [] then []
    else
      var f := ctx[|ctx| - 1];
      (if f.HoleLeft? then [f.element] + InOrder(f.right) else []) + Post(ctx[..|ctx| - 1])
  }

  /** Whatever is linked in at the end of a path lands between the path's left part and
      its right part of the in-order sequence. */
  lemma {:induction false} InOrderPlugAll(ctx: seq<Frame>, s: Tree)
    ensures InOrder(PlugAll(ctx, s)) == Pre(ctx) + InOrder(s) + Post(ctx)
    decreases |ctx|
  {
    if ctx != [] {
      var f := ctx[|ctx| - 1];
      InOrderPlugAll(ctx[..|ctx| - 1], Plug(f, s));
    }
  }

  /** A path that only ever turns right leaves nothing to the right of its end. */
  lemma {:induction false} RightSpinePost(spine: seq<Frame>)
    requires forall i :: 0 <= i < |spine| ==> spine[i].HoleRight?
    ensures Post(spine) == []
    decreases |spine|
  {
    if spine != [] {
      RightSpinePost(spine[..|spine| - 1]);
    }
  }

  /** A path followed by another path is one path. */
  lemma {:induction false} PlugAllAppend(a: seq<Frame>, b: seq<Frame>, s: Tree)
    ensures PlugAll(a + b, s) == PlugAll(a, PlugAll(b, s))
    decreases |b|
  {
    if b == [] {
      assert a + b == a;
    } else {
      var f := b[|b| - 1];
      assert (a + b)[..|a + b| - 1] == a + b[..|b| - 1];
      PlugAllAppend(a, b[..|b| - 1], Plug(f, s));
    }
  }

  /** A path whose left turns are exactly the nodes with a larger element than `e`:
      the path a search for `e` follows. */
  ghost predicate SearchesFor(ctx: seq<Frame>, e: int) {
    forall i :: 0 <= i < |ctx| ==>
      (ctx[i].HoleLeft? ==> e < ctx[i].element) && (ctx[i].HoleRight? ==> ctx[i].element < e)
  }

  /** In a search tree, everything the search path for `e` leaves to its left is smaller
      than `e`, and everything it leaves to its right is larger. */
  lemma {:induction false} SearchBounds(ctx: seq<Frame>, s: Tree, e: int)
    requires Increasing(InOrder(PlugAll(ctx, s)))
    requires SearchesFor(ctx, e)
    ensures forall x :: x in Pre(ctx) ==> x < e
    ensures forall x :: x in Post(ctx) ==> e < x
    decreases |ctx|
  {
    if ctx != [] {
      var f := ctx[|ctx| - 1];
      var up := ctx[..|ctx| - 1];
      assert SearchesFor(up, e) by {
        forall i | 0 <= i < |up| ensures up[i] == ctx[i] { }
      }
      SearchBounds(up, Plug(f, s), e);
      InOrderPlugAll(up, Plug(f, s));
      match f
      case HoleLeft(x, r, _, _) =>
        Regroup(Pre(up), InOrder(s), x, InOrder(r), Post(up));
        OrderAround(Pre(up) + InOrder(s), x, InOrder(r) + Post(up));
        assert e < x;
        assert Post(ctx) == [x] + InOrder(r) + Post(up);
        forall y | y in InOrder(r) ensures e < y {
          assert y in InOrder(r) + Post(up);
        }
      case HoleRight(l, x, _, _) =>
        Regroup(Pre(up), InOrder(l), x, InOrder(s), Post(up));
        OrderAround(Pre(up) + InOrder(l), x, InOrder(s) + Post(up));
        assert x < e;
        assert Pre(ctx) == Pre(up) + InOrder(l) + [x];
        forall y | y in InOrder(l) ensures y < e {
          assert y in Pre(up) + InOrder(l);
        }
    }
  }

  /** The old balance of the path nodes, bottom-up: `c` is the old height of the slot at
      the end of the path. Each path node was balanced and its other child is a correct
      AVL subtree; the path node's own old height then becomes the slot height one level up. */
  ghost predicate ValidFrames(ctx: seq<Frame>, c: int)
    decreases |ctx|
  {
    ctx == [] ||
    (var f := ctx[|ctx| - 1];
     AVL(Sibling(f)) && -1 <= c - Ht(Sibling(f)) <= 1 &&
     ValidFrames(ctx[..|ctx| - 1], 1 + Max(c, Ht(Sibling(f)))))
  }

  /** Cutting a correct AVL tree along any path gives valid frames and an AVL subtree. */
  lemma {:induction false} AVLFrames(ctx: seq<Frame>, s: Tree)
    requires AVL(PlugAll(ctx, s))
    ensures AVL(s) && ValidFrames(ctx, Ht(s))
    decreases |ctx|
  {
    if ctx != [] {
      var f := ctx[|ctx| - 1];
      AVLFrames(ctx[..|ctx| - 1], Plug(f, s));
    }
  }

  /** The frames' validity depends only on the children the path does not enter, so
      replacing the element of a path node keeps it. */
  lemma {:induction false} ValidFramesSameSiblings(a: seq<Frame>, b: seq<Frame>, c: int)
    requires |a| == |b|
    requires forall i :: 0 <= i < |a| ==> Sibling(a[i]) == Sibling(b[i])
    requires ValidFrames(a, c)
    ensures ValidFrames(b, c)
    decreases |a|
  {
    if a != [] {
      var n := |a| - 1;
      assert Sibling(a[n]) == Sibling(b[n]);
      ValidFramesSameSiblings(a[..n], b[..n], 1 + Max(c, Ht(Sibling(a[n]))));
    }
  }

  /** The AVL minimum: the fewest nodes an AVL subtree of height `h` can have. */
  function MinAVLSize(h: int): nat
    decreases h
  {
    if h < 0 then 0 else if h == 0 then 1 else 1 + MinAVLSize(h - 1) + MinAVLSize(h - 2)
  }

  lemma {:induction false} MinAVLSizeMonotone(a: int, b: int)
    requires a <= b
    ensures MinAVLSize(a) <= MinAVLSize(b)
    decreases b - a
  {
    if a < b {
      MinAVLSizeMonotone(a, b - 1);
      if b - 1 >= 0 {
        assert MinAVLSize(b) >= MinAVLSize(b - 1);
      }
    }
  }

  /** The balance invariant keeps the tree bushy: an AVL subtree of height h has at least
      MinAVLSize(h) nodes. */
  lemma {:induction false} AVLHasMinSize(t: Tree)
    requires AVL(t)
    ensures |InOrder(t)| >= MinAVLSize(Ht(t))
  {
    if t.Node? {
      AVLHasMinSize(t.left);
      AVLHasMinSize(t.right);
      var h: int := t.height;
      if Ht(t.left) < Ht(t.right) {
        MinAVLSizeMonotone(h - 2, Ht(t.left));
      } else {
        MinAVLSizeMonotone(h - 2, Ht(t.right));
      }
    }
  }

  function Pow2(n: nat): (p: nat)
    ensures p >= 1
  {
    if n == 0 then 1 else 2 * Pow2(n - 1)
  }

  /** The AVL minimum at least doubles every two levels. */
  lemma {:induction false} MinAVLSizeGrows(h: int)
    requires h >= 0
    ensures MinAVLSize(h) >= Pow2(h / 2)
    decreases h
  {
    if h >= 2 {
      MinAVLSizeGrows(h - 2);
      MinAVLSizeMonotone(h - 2, h - 1);
      assert (h - 2) / 2 + 1 == h / 2;
    }
  }

  /** The height of a non-empty AVL subtree is logarithmic in its size: a subtree of
      height h holds at least 2^(h/2) elements, so h is at most about 2 log2(size). */
  lemma AVLHeightLogarithmic(t: Tree)
    requires AVL(t) && t.Node?
    ensures Pow2(Ht(t) / 2) <= |InOrder(t)|
  {
    AVLHasMinSize(t);
    MinAVLSizeGrows(Ht(t));
  }
}
