/**
 Red-black trees with parent pointers, as in external/mtd-utils/rbtree.c.

 The heap objects are `Node` and `Root`; the word `rb_parent_color` of the C
 structure is kept as the two fields it packs, `parent` and `red`.  A ghost
 `Tree` gives the shape of a (sub)tree of nodes and a ghost `Ctx` the shape of
 the rest of the tree around it, seen from the inside out.  `At(k, t, root)`
 says that the heap really holds subtree `t` inside context `k` under `root`.
 */
module RbTree {

  class Node {
    var parent: Node?
    var red: bool
    var right: Node?
    var left: Node?
  }

  // The address that `rb_link_node` writes through.
  datatype Slot = RootSlot | LeftSlot | RightSlot

  // ---------------------------------------------------------------- shapes

  datatype Tree = Leaf | Branch(left: Tree, node: Node, red: bool, right: Tree)

  // A tree with a hole; the frame next to the hole comes first.
  datatype Ctx =
    | Top
    | InLeft(node: Node, red: bool, right: Tree, up: Ctx)
    | InRight(left: Tree, node: Node, red: bool, up: Ctx)

  ghost function Ptr(t: Tree): Node? {
    if t.Leaf? then null else t.node
  }

  ghost function CtxPtr(k: Ctx): Node? {
    if k.Top? then null else k.node
  }

  ghost function Nodes(t: Tree): set<Node> {
    match t
    case Leaf => {}
    case Branch(l, n, _, r) => Nodes(l) + {n} + Nodes(r)
  }

  ghost function CtxNodes(k: Ctx): set<Node> {
    match k
    case Top => {}
    case InLeft(n, _, r, up) => {n} + Nodes(r) + CtxNodes(up)
    case InRight(l, n, _, up) => Nodes(l) + {n} + CtxNodes(up)
  }

  ghost function Inorder(t: Tree): seq<Node> {
    match t
    case Leaf => []
    case Branch(l, n, _, r) => Inorder(l) + [n] + Inorder(r)
  }

  // The nodes that come before, and after, whatever fills the hole.
  ghost function Before(k: Ctx): seq<Node> {
    match k
    case Top => []
    case InLeft(_, _, _, up) => Before(up)
    case InRight(l, n, _, up) => Before(up) + Inorder(l) + [n]
  }

  ghost function After(k: Ctx): seq<Node> {
    match k
    case Top => []
    case InLeft(n, _, r, up) => [n] + Inorder(r) + After(up)
    case InRight(_, _, _, up) => After(up)
  }

  ghost function Fill(k: Ctx, t: Tree): Tree {
    match k
    case Top => t
    case InLeft(n, c, r, up) => Fill(up, Branch(t, n, c, r))
    case InRight(l, n, c, up) => Fill(up, Branch(l, n, c, t))
  }

  // The context `inner` placed in the hole of `outer`.
  ghost function Over(inner: Ctx, outer: Ctx): Ctx {
    match inner
    case Top => outer
    case InLeft(n, c, r, up) => InLeft(n, c, r, Over(up, outer))
    case InRight(l, n, c, up) => InRight(l, n, c, Over(up, outer))
  }

  ghost function Depth(k: Ctx): nat {
    if k.Top? then 0 else 1 + Depth(k.up)
  }

  // Where an element first occurs.
  ghost function Pos<X>(s: seq<X>, x: X): (p: nat)
    requires x in s
    ensures p < |s| && s[p] == x
  {
    if s[0] == x then 0 else 1 + Pos(s[1..], x)
  }

  // No node occurs twice.
  ghost predicate Distinct(t: Tree) {
    match t
    case Leaf => true
    case Branch(l, n, _, r) =>
      n !in Nodes(l) && n !in Nodes(r) && Nodes(l) !! Nodes(r) && Distinct(l) && Distinct(r)
  }

  ghost predicate DistinctCtx(k: Ctx) {
    match k
    case Top => true
    case InLeft(n, _, t, up) =>
      n !in Nodes(t) && n !in CtxNodes(up) && Nodes(t) !! CtxNodes(up) && Distinct(t) && DistinctCtx(up)
    case InRight(t, n, _, up) =>
      n !in Nodes(t) && n !in CtxNodes(up) && Nodes(t) !! CtxNodes(up) && Distinct(t) && DistinctCtx(up)
  }

  // ---------------------------------------------------- red-black invariants

  ghost predicate IsRed(t: Tree) {
    t.Branch? && t.red
  }

  // Every path below has `h` black nodes, and no red node has a red child.
  ghost predicate Rb(t: Tree, h: nat) {
    match t
    case Leaf => h == 0
    case Branch(l, _, red, r) =>
      if red then !IsRed(l) && !IsRed(r) && Rb(l, h) && Rb(r, h)
      else h > 0 && Rb(l, h - 1) && Rb(r, h - 1)
  }

  // The same, but a red root may have red children.
  ghost predicate RbBelow(t: Tree, h: nat) {
    match t
    case Leaf => h == 0
    case Branch(l, _, red, r) =>
      if red then Rb(l, h) && Rb(r, h) else h > 0 && Rb(l, h - 1) && Rb(r, h - 1)
  }

  ghost predicate BlackFrame(k: Ctx) {
    !k.Top? && !k.red
  }

  ghost predicate RedFrame(k: Ctx) {
    !k.Top? && k.red
  }

  // The context balances around a subtree of black height `h`; its own root is black.
  ghost predicate RbCtx(k: Ctx, h: nat) {
    match k
    case Top => true
    case InLeft(_, red, t, up) =>
      Rb(t, h) && (red ==> !IsRed(t) && BlackFrame(up)) && RbCtx(up, if red then h else h + 1)
    case InRight(t, _, red, up) =>
      Rb(t, h) && (red ==> !IsRed(t) && BlackFrame(up)) && RbCtx(up, if red then h else h + 1)
  }

  ghost predicate IsRedBlack(t: Tree) {
    !IsRed(t) && exists h: nat :: Rb(t, h)
  }

  ghost function Blacken(t: Tree): Tree {
    if t.Leaf? then t else t.(red := false)
  }

  // --------------------------------------------------------- lemmas on shapes

  lemma Reassociate<X>(a: seq<X>, b: seq<X>, c: seq<X>, d: seq<X>, e: seq<X>)
    ensures a + (b + c + d) + e == a + b + (c + d + e)
    ensures a + (b + c + d) + e == (a + b + c) + d + e
  {
  }

  lemma Regroup<X>(a: seq<X>, b: seq<X>, c: seq<X>, d: seq<X>)
    ensures a + (b + c + d) == (a + b) + c + d
  {
  }

  lemma {:induction false} FillFacts(k: Ctx, t: Tree)
    ensures Inorder(Fill(k, t)) == Before(k) + Inorder(t) + After(k)
    ensures Nodes(Fill(k, t)) == Nodes(t) + CtxNodes(k)
    decreases k
  {
    match k
    case Top =>
    case InLeft(n, c, r, up) =>
      FillFacts(up, Branch(t, n, c, r));
      Reassociate(Before(up), Inorder(t), [n], Inorder(r), After(up));
    case InRight(l, n, c, up) =>
      FillFacts(up, Branch(l, n, c, t));
      Reassociate(Before(up), Inorder(l), [n], Inorder(t), After(up));
  }

  lemma {:induction false} FillDistinct(k: Ctx, t: Tree)
    ensures Distinct(Fill(k, t)) <==> Distinct(t) && DistinctCtx(k) && Nodes(t) !! CtxNodes(k)
    decreases k
  {
    match k
    case Top =>
    case InLeft(n, c, r, up) =>
      FillDistinct(up, Branch(t, n, c, r));
    case InRight(l, n, c, up) =>
      FillDistinct(up, Branch(l, n, c, t));
  }

  lemma {:induction false} OverFacts(inner: Ctx, outer: Ctx, t: Tree)
    ensures Fill(Over(inner, outer), t) == Fill(outer, Fill(inner, t))
    ensures CtxNodes(Over(inner, outer)) == CtxNodes(inner) + CtxNodes(outer)
    ensures Before(Over(inner, outer)) == Before(outer) + Before(inner)
    ensures After(Over(inner, outer)) == After(inner) + After(outer)
    decreases inner
  {
    match inner
    case Top =>
    case InLeft(n, c, r, up) =>
      OverFacts(up, outer, Branch(t, n, c, r));
    case InRight(l, n, c, up) =>
      OverFacts(up, outer, Branch(l, n, c, t));
  }

  lemma {:induction false} InorderNodes(t: Tree)
    ensures forall i :: 0 <= i < |Inorder(t)| ==> Inorder(t)[i] in Nodes(t)
    ensures forall n :: n in Nodes(t) ==> n in Inorder(t)
  {
    if t.Branch? {
      InorderNodes(t.left);
      InorderNodes(t.right);
    }
  }

  lemma {:induction false} InorderDistinct(t: Tree)
    requires Distinct(t)
    ensures forall i, j :: 0 <= i < j < |Inorder(t)| ==> Inorder(t)[i] != Inorder(t)[j]
  {
    if t.Branch? {
      InorderNodes(t.left);
      InorderNodes(t.right);
      InorderDistinct(t.left);
      InorderDistinct(t.right);
      var a, b := Inorder(t.left), Inorder(t.right);
      assert forall i :: 0 <= i < |a| ==> a[i] in Nodes(t.left);
      assert forall i :: 0 <= i < |b| ==> b[i] in Nodes(t.right);
    }
  }

  // The subtree rooted at a given node, with its context.
  lemma {:induction false} Focus(t: Tree, n: Node) returns (k: Ctx, s: Tree)
    requires n in Nodes(t)
    ensures Fill(k, s) == t && s.Branch? && s.node == n
  {
    if n == t.node {
      k, s := Top, t;
    } else if n in Nodes(t.left) {
      var k';
      k', s := Focus(t.left, n);
      k := Over(k', InLeft(t.node, t.red, t.right, Top));
      OverFacts(k', InLeft(t.node, t.red, t.right, Top), s);
    } else {
      var k';
      k', s := Focus(t.right, n);
      k := Over(k', InRight(t.left, t.node, t.red, Top));
      OverFacts(k', InRight(t.left, t.node, t.red, Top), s);
    }
  }

  // ----------------------------------------------- red-black through contexts

  lemma {:induction false} FillRb(k: Ctx, t: Tree, h: nat)
    requires Rb(t, h) && RbCtx(k, h)
    requires RedFrame(k) ==> !IsRed(t)
    requires k.Top? ==> !IsRed(t)
    ensures IsRedBlack(Fill(k, t))
    decreases k
  {
    match k
    case Top =>
    case InLeft(n, c, r, up) =>
      FillRb(up, Branch(t, n, c, r), if c then h else h + 1);
    case InRight(l, n, c, up) =>
      FillRb(up, Branch(l, n, c, t), if c then h else h + 1);
  }

  lemma {:induction false} UnfillRb(k: Ctx, t: Tree, hh: nat) returns (h: nat)
    requires Rb(Fill(k, t), hh) && !IsRed(Fill(k, t))
    ensures Rb(t, h) && RbCtx(k, h)
    ensures RedFrame(k) ==> !IsRed(t)
    ensures k.Top? ==> h == hh
    decreases k
  {
    match k
    case Top =>
      h := hh;
    case InLeft(n, c, r, up) =>
      h := UnfillRb(up, Branch(t, n, c, r), hh);
      h := if c then h else h - 1;
    case InRight(l, n, c, up) =>
      h := UnfillRb(up, Branch(l, n, c, t), hh);
      h := if c then h else h - 1;
  }

  // ------------------------------------------------------ shapes in the heap

  class Root {
    var node: Node?
    ghost var tree: Tree

    // The heap holds exactly `tree`: every link and its back link, the colours, no sharing.
    ghost predicate Holds()
      reads this, Nodes(tree)
    {
      At(Snap(Nodes(tree)), Top, tree, node)
    }

    ghost predicate Valid()
      reads this, Nodes(tree)
    {
      Holds() && IsRedBlack(tree)
    }

    ghost function Order(): seq<Node>
      reads this
    {
      Inorder(tree)
    }

    constructor ()
      ensures Valid() && tree == Leaf
    {
      node, tree := null, Leaf;
      new;
      assert Rb(Leaf, 0);
    }
  }

  datatype Cell = Cell(parent: Node?, red: bool, right: Node?, left: Node?)

  type Heap = map<Node, Cell>

  // The fields of a set of nodes, as a value.
  ghost function Snap(s: set<Node>): Heap
    reads s
  {
    map n | n in s :: Cell(n.parent, n.red, n.right, n.left)
  }

  // The heap holds tree `t`, whose topmost node points up to `p`.
  ghost predicate Rep(h: Heap, t: Tree, p: Node?) {
    match t
    case Leaf => true
    case Branch(l, n, c, r) =>
      n in h && h[n] == Cell(p, c, Ptr(r), Ptr(l)) && Rep(h, l, n) && Rep(h, r, n)
  }

  // The heap holds context `k` with topmost node `top`, and stores `hole` in its hole.
  ghost predicate RepCtx(h: Heap, k: Ctx, hole: Node?, top: Node?) {
    match k
    case Top => top == hole
    case InLeft(n, c, t, up) =>
      n in h && h[n] == Cell(CtxPtr(up), c, Ptr(t), hole) && Rep(h, t, n) && RepCtx(h, up, n, top)
    case InRight(t, n, c, up) =>
      n in h && h[n] == Cell(CtxPtr(up), c, hole, Ptr(t)) && Rep(h, t, n) && RepCtx(h, up, n, top)
  }

  ghost predicate At(h: Heap, k: Ctx, t: Tree, top: Node?) {
    Rep(h, t, CtxPtr(k)) && RepCtx(h, k, Ptr(t), top) && Distinct(t) && DistinctCtx(k) && Nodes(t) !! CtxNodes(k)
  }

  lemma {:induction false} Open(h: Heap, k: Ctx, inner: Ctx, t: Tree, top: Node?)
    requires At(h, k, Fill(inner, t), top)
    ensures At(h, Over(inner, k), t, top)
    decreases inner
  {
    match inner
    case Top =>
    case InLeft(n, c, r, up) =>
      Open(h, k, up, Branch(t, n, c, r), top);
    case InRight(l, n, c, up) =>
      Open(h, k, up, Branch(l, n, c, t), top);
  }

  lemma {:induction false} Close(h: Heap, k: Ctx, inner: Ctx, t: Tree, top: Node?)
    requires At(h, Over(inner, k), t, top)
    ensures At(h, k, Fill(inner, t), top)
    decreases inner
  {
    match inner
    case Top =>
    case InLeft(n, c, r, up) =>
      Close(h, k, up, Branch(t, n, c, r), top);
    case InRight(l, n, c, up) =>
      Close(h, k, up, Branch(l, n, c, t), top);
  }

  lemma {:induction false} OverTop(k: Ctx)
    ensures Over(k, Top) == k
  {
    if !k.Top? {
      OverTop(k.up);
    }
  }

  // What a change to the heap leaves alone.

  ghost predicate Same(h: Heap, h': Heap, s: set<Node>) {
    forall n :: n in s && n in h ==> n in h' && h'[n] == h[n]
  }

  // One field of one node changes.
  ghost predicate NewParent(h: Heap, h': Heap, n: Node, p: Node?) {
    && n in h && n in h'
    && h'[n].parent == p && h'[n].red == h[n].red && h'[n].left == h[n].left && h'[n].right == h[n].right
  }

  ghost predicate NewLeft(h: Heap, h': Heap, n: Node, c: Node?) {
    && n in h && n in h'
    && h'[n].left == c && h'[n].red == h[n].red && h'[n].parent == h[n].parent && h'[n].right == h[n].right
  }

  ghost predicate NewRight(h: Heap, h': Heap, n: Node, c: Node?) {
    && n in h && n in h'
    && h'[n].right == c && h'[n].red == h[n].red && h'[n].left == h[n].left && h'[n].parent == h[n].parent
  }

  lemma {:induction false} Kept(h: Heap, h': Heap, t: Tree, p: Node?)
    requires Rep(h, t, p) && Same(h, h', Nodes(t))
    ensures Rep(h', t, p)
  {
    if t.Branch? {
      Kept(h, h', t.left, t.node);
      Kept(h, h', t.right, t.node);
    }
  }

  lemma {:induction false} KeptCtx(h: Heap, h': Heap, k: Ctx, hole: Node?, top: Node?)
    requires RepCtx(h, k, hole, top) && Same(h, h', CtxNodes(k))
    ensures RepCtx(h', k, hole, top)
  {
    match k
    case Top =>
    case InLeft(n, _, t, up) =>
      Kept(h, h', t, n);
      KeptCtx(h, h', up, n, top);
    case InRight(t, n, _, up) =>
      Kept(h, h', t, n);
      KeptCtx(h, h', up, n, top);
  }

  // The topmost node of `t` gets a new parent.
  lemma {:induction false} Adopted(h: Heap, h': Heap, t: Tree, p: Node?, q: Node?)
    requires Rep(h, t, p) && Distinct(t)
    requires t.Branch? ==> NewParent(h, h', t.node, q) && Same(h, h', Nodes(t) - {t.node})
    ensures Rep(h', t, q)
  {
    if t.Branch? {
      Kept(h, h', t.left, t.node);
      Kept(h, h', t.right, t.node);
    }
  }

  // The pointer kept in the hole changes.
  lemma {:induction false} Rehung(h: Heap, h': Heap, k: Ctx, hole: Node?, top: Node?, hole': Node?, top': Node?)
    requires RepCtx(h, k, hole, top) && DistinctCtx(k)
    requires k.Top? ==> top' == hole'
    requires !k.Top? ==> top' == top && Same(h, h', CtxNodes(k) - {k.node})
    requires k.InLeft? ==> NewLeft(h, h', k.node, hole')
    requires k.InRight? ==> NewRight(h, h', k.node, hole')
    ensures RepCtx(h', k, hole', top')
  {
    match k
    case Top =>
    case InLeft(n, _, t, up) =>
      Kept(h, h', t, n);
      KeptCtx(h, h', up, n, top);
    case InRight(t, n, _, up) =>
      Kept(h, h', t, n);
      KeptCtx(h, h', up, n, top);
  }

  ghost function RotatedLeft(t: Tree): Tree
    requires t.Branch? && t.right.Branch?
  {
    Branch(Branch(t.left, t.node, t.red, t.right.left), t.right.node, t.right.red, t.right.right)
  }

  ghost function RotatedRight(t: Tree): Tree
    requires t.Branch? && t.left.Branch?
  {
    Branch(t.left.left, t.left.node, t.left.red, Branch(t.left.right, t.node, t.red, t.right))
  }

  lemma RotatedLeftFacts(t: Tree)
    requires t.Branch? && t.right.Branch?
    ensures Nodes(RotatedLeft(t)) == Nodes(t)
    ensures Distinct(RotatedLeft(t)) <==> Distinct(t)
    ensures Inorder(RotatedLeft(t)) == Inorder(t)
  {
    var a, b, c := t.left, t.right.left, t.right.right;
    assert Nodes(t.right) == Nodes(b) + {t.right.node} + Nodes(c);
    assert Inorder(t) == Inorder(a) + [t.node] + (Inorder(b) + [t.right.node] + Inorder(c));
    assert Inorder(RotatedLeft(t)) == (Inorder(a) + [t.node] + Inorder(b)) + [t.right.node] + Inorder(c);
    hide Inorder;
    Regroup(Inorder(a) + [t.node], Inorder(b), [t.right.node], Inorder(c));
  }

  lemma RotatedRightFacts(t: Tree)
    requires t.Branch? && t.left.Branch?
    ensures Nodes(RotatedRight(t)) == Nodes(t)
    ensures Distinct(RotatedRight(t)) <==> Distinct(t)
    ensures Inorder(RotatedRight(t)) == Inorder(t)
  {
    var a, b, c := t.left.left, t.left.right, t.right;
    assert RotatedLeft(RotatedRight(t)) == t;
    RotatedLeftFacts(RotatedRight(t));
  }

  // `h'` differs from `h` only by what a rotation of `x` with its child `y`, whose
  // inner subtree is `b`, does below `x` and `y`; context `k` now holds `y`.
  ghost predicate Relinked(h: Heap, h': Heap, k: Ctx, t: Tree, b: Tree, x: Node, y: Node, top: Node?, top': Node?) {
    && x in h' && y in h'
    && (b.Branch? ==> NewParent(h, h', b.node, x))
    && Same(h, h', Nodes(t) - {x, y} - (if b.Branch? then {b.node} else {}))
    && Same(h, h', CtxNodes(k) - (if k.Top? then {} else {k.node}))
    && (k.Top? ==> top' == y)
    && (!k.Top? ==> top' == top)
    && (k.InLeft? ==> NewLeft(h, h', k.node, y))
    && (k.InRight? ==> NewRight(h, h', k.node, y))
  }

  lemma {:induction false} RotatedLeftAt(h: Heap, h': Heap, k: Ctx, t: Tree, top: Node?, top': Node?)
    requires At(h, k, t, top) && t.Branch? && t.right.Branch?
    requires Relinked(h, h', k, t, t.right.left, t.node, t.right.node, top, top')
    requires h'[t.node] == Cell(t.right.node, t.red, Ptr(t.right.left), Ptr(t.left))
    requires h'[t.right.node] == Cell(CtxPtr(k), t.right.red, Ptr(t.right.right), t.node)
    ensures At(h', k, RotatedLeft(t), top')
  {
    var x, y := t.node, t.right.node;
    var a, b, c := t.left, t.right.left, t.right.right;
    RotatedLeftFacts(t);
    assert Nodes(t.right) == Nodes(b) + {y} + Nodes(c);
    assert Rep(h, t.right, x) && Distinct(t.right);
    Kept(h, h', a, x);
    Adopted(h, h', b, y, x);
    Kept(h, h', c, y);
    Rehung(h, h', k, x, top, y, top');
    assert Rep(h', Branch(a, x, t.red, b), y);
  }

  lemma {:induction false} RotatedRightAt(h: Heap, h': Heap, k: Ctx, t: Tree, top: Node?, top': Node?)
    requires At(h, k, t, top) && t.Branch? && t.left.Branch?
    requires Relinked(h, h', k, t, t.left.right, t.node, t.left.node, top, top')
    requires h'[t.node] == Cell(t.left.node, t.red, Ptr(t.right), Ptr(t.left.right))
    requires h'[t.left.node] == Cell(CtxPtr(k), t.left.red, t.node, Ptr(t.left.left))
    ensures At(h', k, RotatedRight(t), top')
  {
    var x, y := t.node, t.left.node;
    var a, b, c := t.left.left, t.left.right, t.right;
    RotatedRightFacts(t);
    assert Nodes(t.left) == Nodes(a) + {y} + Nodes(b);
    assert Rep(h, t.left, x) && Distinct(t.left);
    Kept(h, h', a, y);
    Adopted(h, h', b, y, x);
    Kept(h, h', c, x);
    Rehung(h, h', k, x, top, y, top');
    assert Rep(h', Branch(b, x, t.red, c), y);
  }

  // Only two things change: the nodes in `a` now point up to `p`, and the child of `up`
  // on one side is now `hung`.  In the heap, and on values.
  twostate predicate Rewires(s: set<Node>, up: Node?, onLeft: bool, hung: Node?, a: set<Node>, p: Node?)
    requires a <= s && (up != null ==> up in s)
    reads s
  {
    && (forall n :: n in s ==> n.red == old(n.red))
    && (forall n :: n in s && n !in a ==> n.parent == old(n.parent))
    && (forall n :: n in a ==> n.parent == p)
    && (forall n :: n in s && n != up ==> n.left == old(n.left) && n.right == old(n.right))
    && (up != null && onLeft ==> up.left == hung && up.right == old(up.right))
    && (up != null && !onLeft ==> up.right == hung && up.left == old(up.left))
  }

  ghost predicate Rewired(h: Heap, h': Heap, up: Node?, onLeft: bool, hung: Node?, a: set<Node>, p: Node?) {
    && h'.Keys == h.Keys && a <= h.Keys && (up != null ==> up in h)
    && (forall n :: n in h ==> h'[n].red == h[n].red)
    && (forall n :: n in h && n !in a ==> h'[n].parent == h[n].parent)
    && (forall n :: n in a ==> h'[n].parent == p)
    && (forall n :: n in h && n != up ==> h'[n].left == h[n].left && h'[n].right == h[n].right)
    && (up != null && onLeft ==> h'[up].left == hung && h'[up].right == h[up].right)
    && (up != null && !onLeft ==> h'[up].right == hung && h'[up].left == h[up].left)
  }

  // What a rotation of `x` below `p` with its child `y`, whose inner child is `b`, does
  // to all links except the children of `x` and `y`: in the heap, and on values.
  twostate predicate Swings(s: set<Node>, x: Node, y: Node, b: Node?, p: Node?)
    requires x in s && y in s && (b != null ==> b in s) && (p != null ==> p in s)
    reads s
  {
    && (forall n :: n in s ==> n.red == old(n.red))
    && (forall n :: n in s && n != x && n != y && n != b ==> n.parent == old(n.parent))
    && (forall n :: n in s && n != x && n != y && n != p ==> n.left == old(n.left) && n.right == old(n.right))
    && x.parent == y && y.parent == p && (b != null ==> b.parent == x)
    && (p != null && old(p.left) == x && old(p.right) != x ==> p.left == y && p.right == old(p.right))
    && (p != null && old(p.right) == x && old(p.left) != x ==> p.left == old(p.left) && p.right == y)
  }

  ghost predicate Swung(h: Heap, h': Heap, x: Node, y: Node, b: Node?, p: Node?, top: Node?, top': Node?) {
    && h'.Keys == h.Keys && x in h && y in h && (b != null ==> b in h) && (p != null ==> p in h)
    && (forall n :: n in h ==> h'[n].red == h[n].red)
    && (forall n :: n in h && n != x && n != y && n != b ==> h'[n].parent == h[n].parent)
    && (forall n :: n in h && n != x && n != y && n != p ==> h'[n].left == h[n].left && h'[n].right == h[n].right)
    && h'[x].parent == y && h'[y].parent == p && (b != null ==> h'[b].parent == x)
    && top' == (if p == null then y else top)
    && (p != null && h[p].left == x && h[p].right != x ==> h'[p].left == y && h'[p].right == h[p].right)
    && (p != null && h[p].right == x && h[p].left != x ==> h'[p].left == h[p].left && h'[p].right == y)
  }

  lemma {:induction false} SwungRelinked(h: Heap, h': Heap, k: Ctx, t: Tree, b: Tree, y: Node, top: Node?, top': Node?)
    requires At(h, k, t, top) && t.Branch? && Swung(h, h', t.node, y, Ptr(b), CtxPtr(k), top, top')
    requires y in Nodes(t) && (b.Branch? ==> b.node in Nodes(t)) && Ptr(b) !in {t.node, y}
    ensures Relinked(h, h', k, t, b, t.node, y, top, top')
  {
  }

  lemma {:induction false} RotatableLeft(h: Heap, k: Ctx, t: Tree, top: Node?)
    requires At(h, k, t, top) && t.Branch? && t.right.Branch?
    ensures var x, y, b, p := t.node, t.right.node, Ptr(t.right.left), CtxPtr(k);
      && x in h && y in h && x != y && h[x].right == y && h[x].parent == p
      && h[y] == Cell(x, t.right.red, Ptr(t.right.right), Ptr(t.right.left))
      && (b != null ==> b in h && b !in {x, y} && b in Nodes(t) && b in Nodes(t.right.left))
      && (p != null ==> p in h && p !in {x, y, b} && (h[p].left == x || h[p].right == x))
      && (k.InRight? ==> h[p].left != x)
  {
    var x, y, b := t.node, t.right.node, t.right.left;
    assert Rep(h, t.right, x) && Distinct(t.right);
    assert Nodes(t.right) == Nodes(t.right.left) + {y} + Nodes(t.right.right);
    assert Rep(h, b, y);
  }

  lemma {:induction false} RotatableRight(h: Heap, k: Ctx, t: Tree, top: Node?)
    requires At(h, k, t, top) && t.Branch? && t.left.Branch?
    ensures var x, y, b, p := t.node, t.left.node, Ptr(t.left.right), CtxPtr(k);
      && x in h && y in h && x != y && h[x].left == y && h[x].parent == p
      && h[y] == Cell(x, t.left.red, Ptr(t.left.right), Ptr(t.left.left))
      && (b != null ==> b in h && b !in {x, y} && b in Nodes(t) && b in Nodes(t.left.right))
      && (p != null ==> p in h && p !in {x, y, b} && (h[p].left == x || h[p].right == x))
      && (k.InRight? ==> h[p].left != x)
  {
    var x, y, b := t.node, t.left.node, t.left.right;
    assert Rep(h, t.left, x) && Distinct(t.left);
    assert Nodes(t.left) == Nodes(t.left.left) + {y} + Nodes(t.left.right);
    assert Rep(h, b, y);
  }

  // The C statements of `__rb_rotate_left`.
  method RelinkLeft(node: Node, root: Root, ghost s: set<Node>)
    requires node in s && node.right != null && node.right in s && node.right != node
    requires node.right.left != null ==> node.right.left in s && node.right.left !in {node, node.right}
    requires node.parent != null ==> node.parent in s && node.parent !in {node, node.right, node.right.left}
    requires node.parent != null ==> node.parent.left == node || node.parent.right == node
    modifies root`node, s
    ensures root.node == if old(node.parent) == null then old(node.right) else old(root.node)
    ensures node.right == old(node.right.left) && node.left == old(node.left)
    ensures old(node.right).left == node && old(node.right).right == old(node.right.right)
    ensures Swings(s, node, old(node.right), old(node.right.left), old(node.parent))
  {
    var right := node.right;
    var parent := node.parent;

    node.right := right.left;
    if node.right != null {
      right.left.parent := node;
    }
    right.left := node;

    right.parent := parent;

    if parent != null {
      if node == parent.left {
        parent.left := right;
      } else {
        parent.right := right;
      }
    } else {
      root.node := right;
    }
    node.parent := right;
  }

  method RotateLeft(node: Node, root: Root, ghost s: set<Node>, ghost k: Ctx, ghost t: Tree)
    requires t.Branch? && t.node == node && t.right.Branch? && At(Snap(s), k, t, root.node)
    modifies root`node, s
    ensures At(Snap(s), k, RotatedLeft(t), root.node)
  {
    ghost var h, top := Snap(s), root.node;
    RotatableLeft(h, k, t, top);
    RelinkLeft(node, root, s);
    SwungRelinked(h, Snap(s), k, t, t.right.left, t.right.node, top, root.node);
    RotatedLeftAt(h, Snap(s), k, t, top, root.node);
  }

  // The C statements of `__rb_rotate_right`.
  method RelinkRight(node: Node, root: Root, ghost s: set<Node>)
    requires node in s && node.left != null && node.left in s && node.left != node
    requires node.left.right != null ==> node.left.right in s && node.left.right !in {node, node.left}
    requires node.parent != null ==> node.parent in s && node.parent !in {node, node.left, node.left.right}
    requires node.parent != null ==> node.parent.left == node || node.parent.right == node
    modifies root`node, s
    ensures root.node == if old(node.parent) == null then old(node.left) else old(root.node)
    ensures node.left == old(node.left.right) && node.right == old(node.right)
    ensures old(node.left).right == node && old(node.left).left == old(node.left.left)
    ensures Swings(s, node, old(node.left), old(node.left.right), old(node.parent))
  {
    var left := node.left;
    var parent := node.parent;

    node.left := left.right;
    if node.left != null {
      left.right.parent := node;
    }
    left.right := node;

    left.parent := parent;

    if parent != null {
      if node == parent.right {
        parent.right := left;
      } else {
        parent.left := left;
      }
    } else {
      root.node := left;
    }
    node.parent := left;
  }

  method RotateRight(node: Node, root: Root, ghost s: set<Node>, ghost k: Ctx, ghost t: Tree)
    requires t.Branch? && t.node == node && t.left.Branch? && At(Snap(s), k, t, root.node)
    modifies root`node, s
    ensures At(Snap(s), k, RotatedRight(t), root.node)
  {
    ghost var h, top := Snap(s), root.node;
    RotatableRight(h, k, t, top);
    RelinkRight(node, root, s);
    SwungRelinked(h, Snap(s), k, t, t.left.right, t.left.node, top, root.node);
    RotatedRightAt(h, Snap(s), k, t, top, root.node);
  }

  // ------------------------------------------------------- moving the focus

  // The subtree one level up.
  ghost function Plug(k: Ctx, t: Tree): (p: Tree)
    requires !k.Top?
    ensures p.Branch? && p.node == k.node && p.red == k.red
  {
    if k.InLeft? then Branch(t, k.node, k.red, k.right) else Branch(k.left, k.node, k.red, t)
  }

  lemma MoveUp(h: Heap, k: Ctx, t: Tree, top: Node?)
    requires !k.Top? && At(h, k, t, top)
    ensures At(h, k.up, Plug(k, t), top)
  {
  }

  lemma MoveLeft(h: Heap, k: Ctx, t: Tree, top: Node?)
    requires t.Branch? && At(h, k, t, top)
    ensures At(h, InLeft(t.node, t.red, t.right, k), t.left, top)
  {
  }

  lemma MoveRight(h: Heap, k: Ctx, t: Tree, top: Node?)
    requires t.Branch? && At(h, k, t, top)
    ensures At(h, InRight(t.left, t.node, t.red, k), t.right, top)
  {
  }

  // What the fields around the focus say about its position.
  lemma Look(h: Heap, k: Ctx, t: Tree, top: Node?)
    requires At(h, k, t, top)
    ensures t.Branch? ==> t.node in h && h[t.node] == Cell(CtxPtr(k), t.red, Ptr(t.right), Ptr(t.left))
    ensures k.Top? ==> top == Ptr(t)
    ensures !k.Top? ==> k.node in h && h[k.node].red == k.red && h[k.node].parent == CtxPtr(k.up)
    ensures k.InLeft? ==> h[k.node].left == Ptr(t) && h[k.node].right == Ptr(k.right)
    ensures k.InRight? ==> h[k.node].right == Ptr(t) && h[k.node].left == Ptr(k.left)
    ensures k.InLeft? && t.Branch? ==> h[k.node].right != t.node
    ensures k.InRight? && t.Branch? ==> h[k.node].left != t.node
  {
  }

  lemma {:induction false} TopNode(h: Heap, k: Ctx, hole: Node?, top: Node?)
    requires RepCtx(h, k, hole, top) && !k.Top?
    ensures top != null && top in CtxNodes(k)
  {
    if !k.up.Top? {
      TopNode(h, k.up, k.node, top);
    }
  }

  lemma {:induction false} PaintedAt(h: Heap, h': Heap, k: Ctx, t: Tree, top: Node?)
    requires At(h, k, t, top) && t.Branch? && t.node in h' && Same(h, h', h.Keys - {t.node})
    requires h'[t.node] == h[t.node].(red := h'[t.node].red)
    ensures At(h', k, t.(red := h'[t.node].red), top)
  {
    Kept(h, h', t.left, t.node);
    Kept(h, h', t.right, t.node);
    KeptCtx(h, h', k, t.node, top);
  }

  // `rb_set_color`, `rb_set_red` and `rb_set_black`.
  method SetColor(node: Node, red: bool, ghost s: set<Node>, ghost k: Ctx, ghost t: Tree, ghost top: Node?)
    requires t.Branch? && t.node == node && At(Snap(s), k, t, top)
    modifies s
    ensures At(Snap(s), k, t.(red := red), top)
  {
    ghost var h := Snap(s);
    Look(h, k, t, top);
    node.red := red;
    PaintedAt(h, Snap(s), k, t, top);
  }

  lemma FillOrder(k: Ctx, t: Tree, t': Tree)
    requires Inorder(t) == Inorder(t')
    ensures Inorder(Fill(k, t)) == Inorder(Fill(k, t'))
  {
    FillFacts(k, t);
    FillFacts(k, t');
  }

  lemma {:induction false} SameOrderSameNodes(t: Tree, t': Tree)
    requires Inorder(t) == Inorder(t')
    ensures Nodes(t) == Nodes(t')
  {
    InorderNodes(t);
    InorderNodes(t');
  }

  lemma AtSame(h: Heap, h': Heap, k: Ctx, t: Tree, top: Node?)
    requires At(h, k, t, top) && Same(h, h', Nodes(t) + CtxNodes(k))
    ensures At(h', k, t, top)
  {
    Kept(h, h', t, CtxPtr(k));
    KeptCtx(h, h', k, Ptr(t), top);
  }

  ghost function PtrSet(t: Tree): set<Node> {
    if t.Leaf? then {} else {t.node}
  }

  // The fields of the focus and of its neighbours, and which of those nodes differ.
  lemma LookAround(h: Heap, k: Ctx, t: Tree, top: Node?)
    requires At(h, k, t, top) && t.Branch?
    ensures t.node in h && h[t.node] == Cell(CtxPtr(k), t.red, Ptr(t.right), Ptr(t.left))
    ensures t.left.Branch? ==> t.left.node in h && t.left.node in Nodes(t.left)
    ensures t.right.Branch? ==> t.right.node in h && t.right.node in Nodes(t.right)
    ensures !k.Top? ==> k.node in h && k.node in CtxNodes(k)
    ensures Nodes(t) == Nodes(t.left) + {t.node} + Nodes(t.right)
    ensures Nodes(t.left) !! Nodes(t.right) && t.node !in Nodes(t.left) + Nodes(t.right) + CtxNodes(k)
    ensures Nodes(t.left) !! CtxNodes(k) && Nodes(t.right) !! CtxNodes(k)
    ensures k.InLeft? ==> h[k.node].left == t.node && h[k.node].right != t.node
    ensures k.InRight? ==> h[k.node].right == t.node && h[k.node].left != t.node
  {
    Look(h, k, t, top);
    MoveLeft(h, k, t, top);
    Look(h, InLeft(t.node, t.red, t.right, k), t.left, top);
    MoveRight(h, k, t, top);
    Look(h, InRight(t.left, t.node, t.red, k), t.right, top);
  }

  // The neighbours of `old_` are turned towards `node`.
  method TurnNeighbours(old_: Node, node: Node, root: Root, ghost s: set<Node>)
    requires old_ in s && node in s && node != old_ && old_.left != null && old_.left in s
    requires old_.right != null ==> old_.right in s
    requires old_.left != old_ && old_.right != old_ && old_.parent != old_
    requires old_.parent != null ==> old_.parent in s && old_.parent !in {old_.left, old_.right}
    requires old_.parent != null ==> (old_.parent.left == old_) != (old_.parent.right == old_)
    modifies root`node, s
    ensures root.node == if old(old_.parent) == null then node else old(root.node)
    ensures Rewires(s, old(old_.parent), old(old_.parent) != null && old(old_.parent.left) == old_, node,
                    {old(old_.left)} + (if old(old_.right) == null then {} else {old(old_.right)}), node)
  {
    if old_.parent != null {
      if old_.parent.left == old_ {
        old_.parent.left := node;
      } else {
        old_.parent.right := node;
      }
    } else {
      root.node := node;
    }
    old_.left.parent := node;
    if old_.right != null {
      old_.right.parent := node;
    }
  }

  lemma FocusOrder(k: Ctx, t: Tree)
    requires t.Branch?
    ensures Inorder(Fill(k, t)) == Before(k) + Inorder(t.left) + [t.node] + (Inorder(t.right) + After(k))
  {
    assert Inorder(t) == Inorder(t.left) + [t.node] + Inorder(t.right);
    hide Inorder, Before, After, Fill;
    FillFacts(k, t);
    Reassociate(Before(k), Inorder(t.left), [t.node], Inorder(t.right), After(k));
  }

  // Only the nodes of a tree matter to it.
  lemma Resnap(s: set<Node>, t: Tree, top: Node?)
    requires Nodes(t) <= s && At(Snap(s), Top, t, top)
    ensures At(Snap(Nodes(t)), Top, t, top)
  {
    AtSame(Snap(s), Snap(Nodes(t)), Top, t, top);
  }

  lemma FocusAt(node: Node, h: Heap, t: Tree, top: Node?) returns (k: Ctx, sub: Tree)
    requires At(h, Top, t, top) && node in Nodes(t)
    ensures At(h, k, sub, top) && sub.Branch? && sub.node == node && Fill(k, sub) == t
  {
    k, sub := Focus(t, node);
    Open(h, Top, k, sub, top);
    OverTop(k);
  }

  lemma PosSplit<X>(a: seq<X>, x: X, b: seq<X>)
    requires forall i, j :: 0 <= i < j < |a + [x] + b| ==> (a + [x] + b)[i] != (a + [x] + b)[j]
    ensures (a + [x] + b)[|a|] == x && Pos(a + [x] + b, x) == |a|
    ensures (a + [x] + b)[..|a|] == a && (a + [x] + b)[|a| + 1..] == b
  {
    assert (a + [x] + b)[|a|] == x;
  }

  // -------------------------------------------------------------------- height

  ghost function Height(t: Tree): nat {
    if t.Leaf? then 0 else 1 + if Height(t.left) < Height(t.right) then Height(t.right) else Height(t.left)
  }

  ghost function Pow2(n: nat): nat {
    if n == 0 then 1 else 2 * Pow2(n - 1)
  }

  lemma {:induction false} BlackHeightBounds(t: Tree, h: nat)
    requires Rb(t, h)
    ensures Pow2(h) <= |Inorder(t)| + 1
    ensures Height(t) <= 2 * h + if IsRed(t) then 1 else 0
  {
    if t.Branch? {
      var h' := if t.red then h else h - 1;
      BlackHeightBounds(t.left, h');
      BlackHeightBounds(t.right, h');
    }
  }

  lemma {:induction false} Pow2Monotone(m: nat, n: nat)
    requires m <= n
    ensures Pow2(m) <= Pow2(n)
  {
    if m < n {
      Pow2Monotone(m, n - 1);
    }
  }

  // A red-black tree of n nodes is at most 2*log2(n + 1) high.
  lemma HeightBound(t: Tree)
    requires IsRedBlack(t)
    ensures Pow2((Height(t) + 1) / 2) <= |Inorder(t)| + 1
  {
    var h: nat :| Rb(t, h);
    BlackHeightBounds(t, h);
    Pow2Monotone((Height(t) + 1) / 2, h);
  }
}
