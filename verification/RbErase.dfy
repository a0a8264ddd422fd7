/** Erasure: `rb_erase` and `__rb_erase_color` of external/mtd-utils/rbtree.c. */
module RbErase {
  import opened RbTree

  // ----------------------------------------------------------------- erasure

  // Subtree `t` is one black node short of what its context expects.
  ghost predicate EraseState(h: Heap, k: Ctx, t: Tree, bh: nat, top: Node?) {
    At(h, k, t, top) && RbBelow(t, bh) && RbCtx(k, bh + 1)
  }

  // Nothing is left to repair.
  ghost predicate Settled(k: Ctx, t: Tree, bh: nat) {
    Rb(t, bh) && RbCtx(k, bh) && (RedFrame(k) || k.Top? ==> !IsRed(t))
  }

  lemma BlackChildren(t: Tree, bh: nat)
    requires t.Branch? && !t.red && Rb(t, bh + 1)
    ensures Rb(t.left, bh) && Rb(t.right, bh)
  {
    assert bh + 1 - 1 == bh;
  }

  lemma RedChildren(t: Tree, bh: nat)
    requires t.Branch? && t.red && Rb(t, bh)
    ensures Rb(t.left, bh) && Rb(t.right, bh) && !IsRed(t.left) && !IsRed(t.right)
  {
  }

  // ------ the hole's subtree is the left child

  // Red sibling: it takes the place of `parent`, which turns red below it.
  ghost function SiblingUpLeft(k: Ctx): Ctx
    requires k.InLeft? && k.right.Branch?
  {
    InLeft(k.node, true, k.right.left, InLeft(k.right.node, false, k.right.right, k.up))
  }

  // Red far nephew: the sibling takes over the colour of `parent`, and everything balances.
  ghost function SettledLeft(k: Ctx, t: Tree): Tree
    requires k.InLeft? && k.right.Branch?
  {
    Branch(Branch(t, k.node, false, k.right.left), k.right.node, k.red, Blacken(k.right.right))
  }

  lemma SiblingUpLeftFacts(k: Ctx, t: Tree, bh: nat)
    requires k.InLeft? && RbCtx(k, bh + 1) && IsRed(k.right)
    ensures var k' := SiblingUpLeft(k);
      && RbCtx(k', bh + 1) && !k.red && k'.right.Branch? && !IsRed(k'.right) && Depth(k') == Depth(k) + 1
      && RotatedLeft(Branch(t, k.node, true, Blacken(k.right))) == Plug(k'.up, Plug(k', t))
      && Inorder(Fill(k', t)) == Inorder(Fill(k, t))
  {
    RotatedLeftFacts(Plug(k, t));
    RedChildren(k.right, bh + 1);
    assert Inorder(Plug(SiblingUpLeft(k).up, Plug(SiblingUpLeft(k), t))) == Inorder(RotatedLeft(Plug(k, t)));
    FillOrder(k.up, Plug(k, t), Plug(SiblingUpLeft(k).up, Plug(SiblingUpLeft(k), t)));
  }

  method EraseRedSiblingLeft(other: Node, parent: Node, root: Root, ghost s: set<Node>, ghost k: Ctx, ghost t: Tree,
                             ghost bh: nat)
    returns (ghost k': Ctx)
    requires EraseState(Snap(s), k, t, bh, root.node) && k.InLeft? && k.node == parent && IsRed(k.right)
    requires k.right.node == other
    modifies root`node, s
    ensures EraseState(Snap(s), k', t, bh, root.node) && k'.InLeft? && k'.red && k'.node == parent
    ensures k'.right.Branch? && !IsRed(k'.right) && Depth(k') == Depth(k) + 1
    ensures Inorder(Fill(k', t)) == Inorder(Fill(k, t))
  {
    hide At;
    SiblingUpLeftFacts(k, t, bh);
    k' := SiblingUpLeft(k);
    MoveUp(Snap(s), k, t, root.node);
    MoveRight(Snap(s), k.up, Plug(k, t), root.node);
    ghost var ko := InRight(t, k.node, k.red, k.up);
    SetColor(other, false, s, ko, k.right, root.node);
    MoveUp(Snap(s), ko, Blacken(k.right), root.node);
    SetColor(parent, true, s, k.up, Plug(ko, Blacken(k.right)), root.node);
    RotateLeft(parent, root, s, k.up, Plug(ko, Blacken(k.right)).(red := true));
    MoveLeft(Snap(s), k.up, Plug(k'.up, Plug(k', t)), root.node);
    MoveLeft(Snap(s), k'.up, Plug(k', t), root.node);
  }

  lemma TuckedLeftFacts(k: Ctx, t: Tree, bh: nat)
    requires k.InLeft? && RbCtx(k, bh + 1) && k.right.Branch? && !IsRed(k.right) && !IsRed(k.right.right)
    requires IsRed(k.right.left)
    ensures var o := Branch(Blacken(k.right.left), k.right.node, true, k.right.right);
      var k' := k.(right := RotatedRight(o));
      && RbCtx(k', bh + 1) && !IsRed(k'.right) && IsRed(k'.right.right) && Inorder(Fill(k', t)) == Inorder(Fill(k, t))
  {
    var o := Branch(Blacken(k.right.left), k.right.node, true, k.right.right);
    RotatedRightFacts(o);
    BlackChildren(k.right, bh);
    RedChildren(k.right.left, bh);
    assert Inorder(o) == Inorder(k.right);
    FillOrder(k.up, Plug(k, t), Plug(k.(right := RotatedRight(o)), t));
  }

  // Red near nephew only: it takes the place of the sibling.
  method EraseTuckLeft(other: Node, parent: Node, root: Root, ghost s: set<Node>, ghost k: Ctx, ghost t: Tree,
                       ghost bh: nat)
    returns (ghost k': Ctx)
    requires EraseState(Snap(s), k, t, bh, root.node) && k.InLeft? && k.node == parent
    requires k.right.Branch? && !IsRed(k.right) && k.right.node == other && !IsRed(k.right.right) && IsRed(k.right.left)
    modifies root`node, s
    ensures EraseState(Snap(s), k', t, bh, root.node) && k'.InLeft? && k'.node == parent && k'.up == k.up
    ensures k'.red == k.red
    ensures k'.right.Branch? && !IsRed(k'.right) && IsRed(k'.right.right) && Inorder(Fill(k', t)) == Inorder(Fill(k, t))
  {
    hide At;
    TuckedLeftFacts(k, t, bh);
    ghost var ko := InRight(t, k.node, k.red, k.up);
    ghost var kn := InLeft(other, false, k.right.right, ko);
    ghost var ol := k.right.left;
    MoveUp(Snap(s), k, t, root.node);
    MoveRight(Snap(s), k.up, Plug(k, t), root.node);
    Look(Snap(s), ko, k.right, root.node);
    MoveLeft(Snap(s), ko, k.right, root.node);
    var near := other.left;
    if near != null {
      SetColor(near, false, s, kn, ol, root.node);
    }
    MoveUp(Snap(s), kn, Blacken(ol), root.node);
    SetColor(other, true, s, ko, Plug(kn, Blacken(ol)), root.node);
    ghost var o := Plug(kn, Blacken(ol)).(red := true);
    RotateRight(other, root, s, ko, o);
    MoveUp(Snap(s), ko, RotatedRight(o), root.node);
    k' := k.(right := RotatedRight(o));
    MoveLeft(Snap(s), k.up, Plug(k', t), root.node);
  }

  lemma SettledLeftFacts(k: Ctx, t: Tree, bh: nat)
    requires k.InLeft? && Rb(t, bh) && !IsRed(t) && RbCtx(k, bh + 1)
    requires k.right.Branch? && !IsRed(k.right) && IsRed(k.right.right)
    ensures Settled(k.up, SettledLeft(k, t), if k.red then bh + 1 else bh + 2)
    ensures Inorder(Fill(k.up, SettledLeft(k, t))) == Inorder(Fill(k, t))
  {
    RotatedLeftFacts(Plug(k, t));
    BlackChildren(k.right, bh);
    assert Rb(Blacken(k.right.right), bh + 1);
    assert Inorder(SettledLeft(k, t)) == Inorder(RotatedLeft(Plug(k, t)));
    FillOrder(k.up, Plug(k, t), SettledLeft(k, t));
  }

  method EraseSettleLeft(other: Node, parent: Node, root: Root, ghost s: set<Node>, ghost k: Ctx, ghost t: Tree,
                         ghost bh: nat)
    requires EraseState(Snap(s), k, t, bh, root.node) && k.InLeft? && k.node == parent && !IsRed(t)
    requires k.right.Branch? && !IsRed(k.right) && k.right.node == other && IsRed(k.right.right)
    modifies root`node, s
    ensures At(Snap(s), k.up, SettledLeft(k, t), root.node)
  {
    hide At;
    ghost var far := k.right.right;
    ghost var ko := InRight(t, parent, k.red, k.up);
    ghost var o1 := k.right.(red := k.red);
    ghost var ko1 := InRight(t, parent, false, k.up);
    ghost var kf := InRight(k.right.left, other, k.red, ko1);
    Look(Snap(s), k, t, root.node);
    MoveUp(Snap(s), k, t, root.node);
    MoveRight(Snap(s), k.up, Plug(k, t), root.node);
    SetColor(other, parent.red, s, ko, k.right, root.node);
    MoveUp(Snap(s), ko, o1, root.node);
    SetColor(parent, false, s, k.up, Plug(ko, o1), root.node);
    MoveRight(Snap(s), k.up, Plug(ko1, o1), root.node);
    Look(Snap(s), ko1, o1, root.node);
    MoveRight(Snap(s), ko1, o1, root.node);
    if other.right != null {
      SetColor(other.right, false, s, kf, far, root.node);
    }
    MoveUp(Snap(s), kf, Blacken(far), root.node);
    MoveUp(Snap(s), ko1, Plug(kf, Blacken(far)), root.node);
    RotateLeft(parent, root, s, k.up, Plug(ko1, Plug(kf, Blacken(far))));
  }

  // ------ the hole's subtree is the right child

  // Red sibling: it takes the place of `parent`, which turns red below it.
  ghost function SiblingUpRight(k: Ctx): Ctx
    requires k.InRight? && k.left.Branch?
  {
    InRight(k.left.right, k.node, true, InRight(k.left.left, k.left.node, false, k.up))
  }

  // Red far nephew: the sibling takes over the colour of `parent`, and everything balances.
  ghost function SettledRight(k: Ctx, t: Tree): Tree
    requires k.InRight? && k.left.Branch?
  {
    Branch(Blacken(k.left.left), k.left.node, k.red, Branch(k.left.right, k.node, false, t))
  }

  lemma SiblingUpRightFacts(k: Ctx, t: Tree, bh: nat)
    requires k.InRight? && RbCtx(k, bh + 1) && IsRed(k.left)
    ensures var k' := SiblingUpRight(k);
      && RbCtx(k', bh + 1) && !k.red && k'.left.Branch? && !IsRed(k'.left) && Depth(k') == Depth(k) + 1
      && RotatedRight(Branch(Blacken(k.left), k.node, true, t)) == Plug(k'.up, Plug(k', t))
      && Inorder(Fill(k', t)) == Inorder(Fill(k, t))
  {
    RotatedRightFacts(Plug(k, t));
    RedChildren(k.left, bh + 1);
    assert Inorder(Plug(SiblingUpRight(k).up, Plug(SiblingUpRight(k), t))) == Inorder(RotatedRight(Plug(k, t)));
    FillOrder(k.up, Plug(k, t), Plug(SiblingUpRight(k).up, Plug(SiblingUpRight(k), t)));
  }

  method EraseRedSiblingRight(other: Node, parent: Node, root: Root, ghost s: set<Node>, ghost k: Ctx, ghost t: Tree,
                              ghost bh: nat)
    returns (ghost k': Ctx)
    requires EraseState(Snap(s), k, t, bh, root.node) && k.InRight? && k.node == parent && IsRed(k.left)
    requires k.left.node == other
    modifies root`node, s
    ensures EraseState(Snap(s), k', t, bh, root.node) && k'.InRight? && k'.red && k'.node == parent
    ensures k'.left.Branch? && !IsRed(k'.left) && Depth(k') == Depth(k) + 1
    ensures Inorder(Fill(k', t)) == Inorder(Fill(k, t))
  {
    hide At;
    SiblingUpRightFacts(k, t, bh);
    k' := SiblingUpRight(k);
    MoveUp(Snap(s), k, t, root.node);
    MoveLeft(Snap(s), k.up, Plug(k, t), root.node);
    ghost var ko := InLeft(k.node, k.red, t, k.up);
    SetColor(other, false, s, ko, k.left, root.node);
    MoveUp(Snap(s), ko, Blacken(k.left), root.node);
    SetColor(parent, true, s, k.up, Plug(ko, Blacken(k.left)), root.node);
    RotateRight(parent, root, s, k.up, Plug(ko, Blacken(k.left)).(red := true));
    MoveRight(Snap(s), k.up, Plug(k'.up, Plug(k', t)), root.node);
    MoveRight(Snap(s), k'.up, Plug(k', t), root.node);
  }

  lemma TuckedRightFacts(k: Ctx, t: Tree, bh: nat)
    requires k.InRight? && RbCtx(k, bh + 1) && k.left.Branch? && !IsRed(k.left) && !IsRed(k.left.left)
    requires IsRed(k.left.right)
    ensures var o := Branch(k.left.left, k.left.node, true, Blacken(k.left.right));
      var k' := k.(left := RotatedLeft(o));
      && RbCtx(k', bh + 1) && !IsRed(k'.left) && IsRed(k'.left.left) && Inorder(Fill(k', t)) == Inorder(Fill(k, t))
  {
    var o := Branch(k.left.left, k.left.node, true, Blacken(k.left.right));
    RotatedLeftFacts(o);
    BlackChildren(k.left, bh);
    RedChildren(k.left.right, bh);
    assert Inorder(o) == Inorder(k.left);
    FillOrder(k.up, Plug(k, t), Plug(k.(left := RotatedLeft(o)), t));
  }

  // Red near nephew only: it takes the place of the sibling.
  method EraseTuckRight(other: Node, parent: Node, root: Root, ghost s: set<Node>, ghost k: Ctx, ghost t: Tree,
                        ghost bh: nat)
    returns (ghost k': Ctx)
    requires EraseState(Snap(s), k, t, bh, root.node) && k.InRight? && k.node == parent
    requires k.left.Branch? && !IsRed(k.left) && k.left.node == other && !IsRed(k.left.left) && IsRed(k.left.right)
    modifies root`node, s
    ensures EraseState(Snap(s), k', t, bh, root.node) && k'.InRight? && k'.node == parent && k'.up == k.up
    ensures k'.red == k.red
    ensures k'.left.Branch? && !IsRed(k'.left) && IsRed(k'.left.left) && Inorder(Fill(k', t)) == Inorder(Fill(k, t))
  {
    hide At;
    TuckedRightFacts(k, t, bh);
    ghost var ko := InLeft(k.node, k.red, t, k.up);
    ghost var kn := InRight(k.left.left, other, false, ko);
    ghost var ol := k.left.right;
    MoveUp(Snap(s), k, t, root.node);
    MoveLeft(Snap(s), k.up, Plug(k, t), root.node);
    Look(Snap(s), ko, k.left, root.node);
    MoveRight(Snap(s), ko, k.left, root.node);
    var near := other.right;
    if near != null {
      SetColor(near, false, s, kn, ol, root.node);
    }
    MoveUp(Snap(s), kn, Blacken(ol), root.node);
    SetColor(other, true, s, ko, Plug(kn, Blacken(ol)), root.node);
    ghost var o := Plug(kn, Blacken(ol)).(red := true);
    RotateLeft(other, root, s, ko, o);
    MoveUp(Snap(s), ko, RotatedLeft(o), root.node);
    k' := k.(left := RotatedLeft(o));
    MoveRight(Snap(s), k.up, Plug(k', t), root.node);
  }

  lemma SettledRightFacts(k: Ctx, t: Tree, bh: nat)
    requires k.InRight? && Rb(t, bh) && !IsRed(t) && RbCtx(k, bh + 1)
    requires k.left.Branch? && !IsRed(k.left) && IsRed(k.left.left)
    ensures Settled(k.up, SettledRight(k, t), if k.red then bh + 1 else bh + 2)
    ensures Inorder(Fill(k.up, SettledRight(k, t))) == Inorder(Fill(k, t))
  {
    RotatedRightFacts(Plug(k, t));
    BlackChildren(k.left, bh);
    assert Rb(Blacken(k.left.left), bh + 1);
    assert Inorder(SettledRight(k, t)) == Inorder(RotatedRight(Plug(k, t)));
    FillOrder(k.up, Plug(k, t), SettledRight(k, t));
  }

  method EraseSettleRight(other: Node, parent: Node, root: Root, ghost s: set<Node>, ghost k: Ctx, ghost t: Tree,
                          ghost bh: nat)
    requires EraseState(Snap(s), k, t, bh, root.node) && k.InRight? && k.node == parent && !IsRed(t)
    requires k.left.Branch? && !IsRed(k.left) && k.left.node == other && IsRed(k.left.left)
    modifies root`node, s
    ensures At(Snap(s), k.up, SettledRight(k, t), root.node)
  {
    hide At;
    ghost var far := k.left.left;
    ghost var ko := InLeft(parent, k.red, t, k.up);
    ghost var o1 := k.left.(red := k.red);
    ghost var ko1 := InLeft(parent, false, t, k.up);
    ghost var kf := InLeft(other, k.red, k.left.right, ko1);
    Look(Snap(s), k, t, root.node);
    MoveUp(Snap(s), k, t, root.node);
    MoveLeft(Snap(s), k.up, Plug(k, t), root.node);
    SetColor(other, parent.red, s, ko, k.left, root.node);
    MoveUp(Snap(s), ko, o1, root.node);
    SetColor(parent, false, s, k.up, Plug(ko, o1), root.node);
    MoveLeft(Snap(s), k.up, Plug(ko1, o1), root.node);
    Look(Snap(s), ko1, o1, root.node);
    MoveLeft(Snap(s), ko1, o1, root.node);
    if other.left != null {
      SetColor(other.left, false, s, kf, far, root.node);
    }
    MoveUp(Snap(s), kf, Blacken(far), root.node);
    MoveUp(Snap(s), ko1, Plug(kf, Blacken(far)), root.node);
    RotateRight(parent, root, s, k.up, Plug(ko1, Plug(kf, Blacken(far))));
  }

  // Strictly smaller after every round that does not finish.
  ghost function Measure(k: Ctx, t: Tree): nat {
    2 * Depth(k) + if IsRed(t) then 0 else 1
  }

  lemma EraseBelow(t: Tree, bh: nat)
    requires RbBelow(t, bh) && !IsRed(t)
    ensures Rb(t, bh)
  {
  }

  lemma EraseLook(h: Heap, k: Ctx, t: Tree, bh: nat, top: Node?)
    requires EraseState(h, k, t, bh, top)
    ensures t.Branch? ==> t.node in h && h[t.node].parent == CtxPtr(k) && h[t.node].red == t.red
    ensures !k.Top? ==> k.node in h && (k.InLeft? <==> h[k.node].left == Ptr(t)) && top != Ptr(t)
    ensures k.Top? ==> top == Ptr(t)
  {
    Look(h, k, t, top);
    if !k.Top? {
      TopNode(h, k, Ptr(t), top);
      assert t.Branch? ==> t.node in Nodes(t);
    }
  }

  // The sibling and its two children, as the heap shows them.
  lemma LookSiblingLeft(h: Heap, k: Ctx, t: Tree, bh: nat, top: Node?)
    requires EraseState(h, k, t, bh, top) && k.InLeft?
    ensures k.right.Branch? && k.node in h && h[k.node].right == k.right.node && h[k.node].red == k.red
    ensures var o := k.right.node;
      && o in h && h[o].red == k.right.red && h[o].left == Ptr(k.right.left) && h[o].right == Ptr(k.right.right)
      && (h[o].left != null ==> h[o].left in h && h[h[o].left].red == IsRed(k.right.left))
      && (h[o].right != null ==> h[o].right in h && h[h[o].right].red == IsRed(k.right.right))
  {
    var ko := InRight(t, k.node, k.red, k.up);
    MoveUp(h, k, t, top);
    Look(h, k, t, top);
    MoveRight(h, k.up, Plug(k, t), top);
    Look(h, ko, k.right, top);
    MoveLeft(h, ko, k.right, top);
    Look(h, InLeft(k.right.node, k.right.red, k.right.right, ko), k.right.left, top);
    MoveRight(h, ko, k.right, top);
    Look(h, InRight(k.right.left, k.right.node, k.right.red, ko), k.right.right, top);
  }

  // Two black nephews: the sibling turns red and the shortage moves up to `parent`.
  ghost function PassedLeft(k: Ctx, t: Tree): Tree
    requires k.InLeft? && k.right.Branch?
  {
    Branch(t, k.node, k.red, Branch(k.right.left, k.right.node, true, k.right.right))
  }

  method ErasePassLeft(other: Node, parent: Node, root: Root, ghost s: set<Node>, ghost k: Ctx, ghost t: Tree,
                       ghost bh: nat)
    returns (ghost bh': nat)
    requires EraseState(Snap(s), k, t, bh, root.node) && k.InLeft? && k.node == parent && !IsRed(t)
    requires k.right.Branch? && !IsRed(k.right) && k.right.node == other && !IsRed(k.right.left)
    requires !IsRed(k.right.right)
    modifies root`node, s
    ensures EraseState(Snap(s), k.up, PassedLeft(k, t), bh', root.node)
    ensures Inorder(Fill(k.up, PassedLeft(k, t))) == Inorder(Fill(k, t))
  {
    hide At;
    BlackChildren(k.right, bh);
    FillOrder(k.up, Plug(k, t), PassedLeft(k, t));
    ghost var ko := InRight(t, parent, k.red, k.up);
    MoveUp(Snap(s), k, t, root.node);
    MoveRight(Snap(s), k.up, Plug(k, t), root.node);
    SetColor(other, true, s, ko, k.right, root.node);
    MoveUp(Snap(s), ko, k.right.(red := true), root.node);
    bh' := if k.red then bh else bh + 1;
  }

  // One round of the loop of `__rb_erase_color` when the hole is the left child.
  method EraseUnderLeft(node: Node?, parent: Node, root: Root, ghost s: set<Node>, ghost k0: Ctx, ghost t: Tree,
                        ghost bh: nat)
    returns (done: bool, node': Node?, parent': Node?, ghost k': Ctx, ghost t': Tree, ghost bh': nat)
    requires EraseState(Snap(s), k0, t, bh, root.node) && k0.InLeft? && k0.node == parent && Ptr(t) == node && !IsRed(t)
    modifies root`node, s
    ensures done ==> At(Snap(s), k', t', root.node) && Settled(k', t', bh')
    ensures !done ==> EraseState(Snap(s), k', t', bh', root.node) && Ptr(t') == node' && CtxPtr(k') == parent'
    ensures !done ==> Measure(k', t') < Measure(k0, t)
    ensures Inorder(Fill(k', t')) == Inorder(Fill(k0, t))
  {
    hide At, Rb, RbCtx, Inorder, Fill;
    ghost var k := k0;
    LookSiblingLeft(Snap(s), k, t, bh, root.node);
    var other := parent.right;
    if other.red {
      k := EraseRedSiblingLeft(other, parent, root, s, k, t, bh);
      LookSiblingLeft(Snap(s), k, t, bh, root.node);
      other := parent.right;
    }
    if (other.left == null || !other.left.red) && (other.right == null || !other.right.red) {
      bh' := ErasePassLeft(other, parent, root, s, k, t, bh);
      k', t' := k.up, PassedLeft(k, t);
      EraseLook(Snap(s), k', t', bh', root.node);
      done, node', parent' := false, parent, parent.parent;
    } else {
      if other.right == null || !other.right.red {
        k := EraseTuckLeft(other, parent, root, s, k, t, bh);
        LookSiblingLeft(Snap(s), k, t, bh, root.node);
        other := parent.right;
      }
      EraseBelow(t, bh);
      SettledLeftFacts(k, t, bh);
      EraseSettleLeft(other, parent, root, s, k, t, bh);
      k', t', bh' := k.up, SettledLeft(k, t), if k.red then bh + 1 else bh + 2;
      done, node', parent' := true, root.node, parent;
    }
  }

  // The sibling and its two children, as the heap shows them.
  lemma LookSiblingRight(h: Heap, k: Ctx, t: Tree, bh: nat, top: Node?)
    requires EraseState(h, k, t, bh, top) && k.InRight?
    ensures k.left.Branch? && k.node in h && h[k.node].left == k.left.node && h[k.node].red == k.red
    ensures var o := k.left.node;
      && o in h && h[o].red == k.left.red && h[o].left == Ptr(k.left.left) && h[o].right == Ptr(k.left.right)
      && (h[o].left != null ==> h[o].left in h && h[h[o].left].red == IsRed(k.left.left))
      && (h[o].right != null ==> h[o].right in h && h[h[o].right].red == IsRed(k.left.right))
  {
    var ko := InLeft(k.node, k.red, t, k.up);
    MoveUp(h, k, t, top);
    Look(h, k, t, top);
    MoveLeft(h, k.up, Plug(k, t), top);
    Look(h, ko, k.left, top);
    MoveLeft(h, ko, k.left, top);
    Look(h, InLeft(k.left.node, k.left.red, k.left.right, ko), k.left.left, top);
    MoveRight(h, ko, k.left, top);
    Look(h, InRight(k.left.left, k.left.node, k.left.red, ko), k.left.right, top);
  }

  // Two black nephews: the sibling turns red and the shortage moves up to `parent`.
  ghost function PassedRight(k: Ctx, t: Tree): Tree
    requires k.InRight? && k.left.Branch?
  {
    Branch(Branch(k.left.left, k.left.node, true, k.left.right), k.node, k.red, t)
  }

  method ErasePassRight(other: Node, parent: Node, root: Root, ghost s: set<Node>, ghost k: Ctx, ghost t: Tree,
                        ghost bh: nat)
    returns (ghost bh': nat)
    requires EraseState(Snap(s), k, t, bh, root.node) && k.InRight? && k.node == parent && !IsRed(t)
    requires k.left.Branch? && !IsRed(k.left) && k.left.node == other && !IsRed(k.left.left) && !IsRed(k.left.right)
    modifies root`node, s
    ensures EraseState(Snap(s), k.up, PassedRight(k, t), bh', root.node)
    ensures Inorder(Fill(k.up, PassedRight(k, t))) == Inorder(Fill(k, t))
  {
    hide At;
    BlackChildren(k.left, bh);
    FillOrder(k.up, Plug(k, t), PassedRight(k, t));
    ghost var ko := InLeft(parent, k.red, t, k.up);
    MoveUp(Snap(s), k, t, root.node);
    MoveLeft(Snap(s), k.up, Plug(k, t), root.node);
    SetColor(other, true, s, ko, k.left, root.node);
    MoveUp(Snap(s), ko, k.left.(red := true), root.node);
    bh' := if k.red then bh else bh + 1;
  }

  // One round of the loop of `__rb_erase_color` when the hole is the right child.
  method EraseUnderRight(node: Node?, parent: Node, root: Root, ghost s: set<Node>, ghost k0: Ctx, ghost t: Tree,
                         ghost bh: nat)
    returns (done: bool, node': Node?, parent': Node?, ghost k': Ctx, ghost t': Tree, ghost bh': nat)
    requires EraseState(Snap(s), k0, t, bh, root.node) && k0.InRight? && k0.node == parent && Ptr(t) == node
    requires !IsRed(t)
    modifies root`node, s
    ensures done ==> At(Snap(s), k', t', root.node) && Settled(k', t', bh')
    ensures !done ==> EraseState(Snap(s), k', t', bh', root.node) && Ptr(t') == node' && CtxPtr(k') == parent'
    ensures !done ==> Measure(k', t') < Measure(k0, t)
    ensures Inorder(Fill(k', t')) == Inorder(Fill(k0, t))
  {
    hide At, Rb, RbCtx, Inorder, Fill;
    ghost var k := k0;
    LookSiblingRight(Snap(s), k, t, bh, root.node);
    var other := parent.left;
    if other.red {
      k := EraseRedSiblingRight(other, parent, root, s, k, t, bh);
      LookSiblingRight(Snap(s), k, t, bh, root.node);
      other := parent.left;
    }
    if (other.left == null || !other.left.red) && (other.right == null || !other.right.red) {
      bh' := ErasePassRight(other, parent, root, s, k, t, bh);
      k', t' := k.up, PassedRight(k, t);
      EraseLook(Snap(s), k', t', bh', root.node);
      done, node', parent' := false, parent, parent.parent;
    } else {
      if other.left == null || !other.left.red {
        k := EraseTuckRight(other, parent, root, s, k, t, bh);
        LookSiblingRight(Snap(s), k, t, bh, root.node);
        other := parent.left;
      }
      EraseBelow(t, bh);
      SettledRightFacts(k, t, bh);
      EraseSettleRight(other, parent, root, s, k, t, bh);
      k', t', bh' := k.up, SettledRight(k, t), if k.red then bh + 1 else bh + 2;
      done, node', parent' := true, root.node, parent;
    }
  }

  // `__rb_erase_color`: `node` stands where a black node has gone missing.
  method EraseColor(node: Node?, parent: Node?, root: Root, ghost s: set<Node>, ghost k: Ctx, ghost t: Tree,
                    ghost bh: nat)
    returns (ghost whole: Tree)
    requires EraseState(Snap(s), k, t, bh, root.node) && Ptr(t) == node && CtxPtr(k) == parent
    modifies root`node, s
    ensures At(Snap(s), Top, whole, root.node) && IsRedBlack(whole)
    ensures Inorder(whole) == Inorder(Fill(k, t))
  {
    hide At, Nodes, Fill, Inorder, Rb, RbCtx, RbBelow, IsRedBlack, EraseState, Settled, CtxNodes;
    ghost var k', t', bh' := k, t, bh;
    var n, p, done := node, parent, false;
    EraseLook(Snap(s), k', t', bh', root.node);
    while (n == null || !n.red) && n != root.node
      invariant !done && EraseState(Snap(s), k', t', bh', root.node) && Ptr(t') == n && CtxPtr(k') == p
      invariant Inorder(Fill(k', t')) == Inorder(Fill(k, t))
      invariant n != null ==> n in s && n.red == t'.red
      invariant k'.Top? <==> n == root.node
      invariant p != null ==> p in s && (k'.InLeft? <==> p.left == n)
      decreases Measure(k', t')
    {
      if p.left == n {
        done, n, p, k', t', bh' := EraseUnderLeft(n, p, root, s, k', t', bh');
      } else {
        done, n, p, k', t', bh' := EraseUnderRight(n, p, root, s, k', t', bh');
      }
      if done {
        SettledDone(Snap(s), k', t', bh', root.node);
        n := root.node;
        k', t' := Top, Fill(k', t');
        break;
      }
      EraseLook(Snap(s), k', t', bh', root.node);
    }
    if !done {
      EraseStop(Snap(s), k', t', bh', root.node);
    }
    if n != null {
      SetColor(n, false, s, k', t', root.node);
    }
    OverTop(k');
    Close(Snap(s), Top, k', Blacken(t'), root.node);
    whole := Fill(k', Blacken(t'));
  }

  lemma SettledDone(h: Heap, k: Ctx, t: Tree, bh: nat, top: Node?)
    requires At(h, k, t, top) && Settled(k, t, bh)
    ensures At(h, Top, Fill(k, t), top) && IsRedBlack(Fill(k, t)) && Blacken(Fill(k, t)) == Fill(k, t)
    ensures Ptr(Fill(k, t)) == top && Fill(Top, Fill(k, t)) == Fill(k, t) && Over(Top, Top) == Top
  {
    OverTop(k);
    Close(h, Top, k, t, top);
    FillRb(k, t, bh);
    Look(h, Top, Fill(k, t), top);
  }

  lemma EraseStop(h: Heap, k: Ctx, t: Tree, bh: nat, top: Node?)
    requires EraseState(h, k, t, bh, top) && (IsRed(t) || k.Top?)
    ensures At(h, k, t, top) && IsRedBlack(Fill(k, Blacken(t)))
    ensures Inorder(Fill(k, Blacken(t))) == Inorder(Fill(k, t))
  {
    FillOrder(k, t, Blacken(t));
    if IsRed(t) {
      FillRb(k, Blacken(t), bh + 1);
    } else {
      FillRb(k, t, bh);
    }
  }

  // A node with at most one child leaves; the child hangs in its place.
  lemma {:induction false} SplicedOut(h: Heap, h': Heap, k: Ctx, t: Tree, c: Tree, top: Node?, top': Node?)
    requires At(h, k, t, top) && t.Branch?
    requires (c == t.left && t.right.Leaf?) || (c == t.right && t.left.Leaf?)
    requires Rewired(h, h', CtxPtr(k), k.InLeft?, Ptr(c), PtrSet(c), CtxPtr(k))
    requires top' == if k.Top? then Ptr(c) else top
    ensures At(h', k, c, top')
  {
    LookAround(h, k, t, top);
    Adopted(h, h', c, t.node, CtxPtr(k));
    Rehung(h, h', k, t.node, top, Ptr(c), top');
  }

  // The parts of the tree at the focus, each by itself ...
  lemma PartsAt(h: Heap, k: Ctx, t: Tree, top: Node?)
    requires At(h, k, t, top) && t.Branch?
    ensures Rep(h, t.left, t.node) && Rep(h, t.right, t.node) && RepCtx(h, k, t.node, top)
    ensures Distinct(t.left) && Distinct(t.right) && DistinctCtx(k)
  {
  }

  // ... and put together.
  lemma JoinAt(h: Heap, k: Ctx, t: Tree, top: Node?)
    requires t.Branch? && t.node in h && h[t.node] == Cell(CtxPtr(k), t.red, Ptr(t.right), Ptr(t.left))
    requires Rep(h, t.left, t.node) && Rep(h, t.right, t.node) && RepCtx(h, k, t.node, top)
    requires Distinct(t.left) && Distinct(t.right) && DistinctCtx(k)
    requires Nodes(t.left) !! Nodes(t.right) && t.node !in Nodes(t.left) + Nodes(t.right) + CtxNodes(k)
    requires (Nodes(t.left) + Nodes(t.right)) !! CtxNodes(k)
    ensures At(h, k, t, top)
  {
  }

  // Another node, with the links of the topmost node already, takes its place.
  lemma {:induction false} Replaced(h: Heap, h': Heap, k: Ctx, t: Tree, n: Node, top: Node?, top': Node?)
    requires At(h, k, t, top) && t.Branch? && n in h && n !in Nodes(t) + CtxNodes(k) && h[n] == h[t.node]
    requires Rewired(h, h', CtxPtr(k), k.InLeft?, n, PtrSet(t.left) + PtrSet(t.right), n)
    requires top' == if k.Top? then n else top
    ensures At(h', k, t.(node := n), top')
  {
    hide At, Rep, RepCtx, Distinct, DistinctCtx, Nodes, CtxNodes;
    LookAround(h, k, t, top);
    PartsAt(h, k, t, top);
    Adopted(h, h', t.left, t.node, n);
    Adopted(h, h', t.right, t.node, n);
    Rehung(h, h', k, t.node, top, n, top');
    JoinAt(h', k, t.(node := n), top');
  }

  // `rb_erase`: `child` takes the place of `node`.
  method HangChild(node: Node, child: Node?, root: Root, ghost s: set<Node>)
    requires node in s && (child != null ==> child in s)
    requires node.parent != null ==> node.parent in s && node.parent != child
    requires node.parent != null ==> (node.parent.left == node) != (node.parent.right == node)
    modifies root`node, s
    ensures root.node == if old(node.parent) == null then child else old(root.node)
    ensures Rewires(s, old(node.parent), old(node.parent) != null && old(node.parent.left) == node, child,
                    if child == null then {} else {child}, old(node.parent))
  {
    var parent := node.parent;
    if child != null {
      child.parent := parent;
    }
    if parent != null {
      if parent.left == node {
        parent.left := child;
      } else {
        parent.right := child;
      }
    } else {
      root.node := child;
    }
  }

  method SpliceOut(node: Node, child: Node?, root: Root, ghost s: set<Node>, ghost k: Ctx, ghost t: Tree, ghost c: Tree)
    requires At(Snap(s), k, t, root.node) && t.Branch? && t.node == node && Ptr(c) == child
    requires (c == t.left && t.right.Leaf?) || (c == t.right && t.left.Leaf?)
    modifies root`node, s
    ensures At(Snap(s), k, c, root.node)
  {
    hide At, Nodes, CtxNodes;
    ghost var h, top := Snap(s), root.node;
    LookAround(h, k, t, top);
    HangChild(node, child, root, s);
    SplicedOut(h, Snap(s), k, t, c, top, root.node);
  }

  // `node`, outside the tree, takes over the colour and all links of `old_`.
  method CopyLinks(old_: Node, node: Node, ghost top: Node?, ghost s: set<Node>, ghost k: Ctx, ghost t: Tree)
    requires At(Snap(s), k, t, top) && old_ in s && node in s && node !in Nodes(t) + CtxNodes(k)
    modifies s
    ensures At(Snap(s), k, t, top) && Snap(s)[node] == Snap(s)[old_]
  {
    hide At, Nodes, CtxNodes;
    ghost var h := Snap(s);
    node.parent, node.red := old_.parent, old_.red;
    node.right := old_.right;
    node.left := old_.left;
    AtSame(h, Snap(s), k, t, top);
  }

  method TakePlace(old_: Node, node: Node, root: Root, ghost s: set<Node>, ghost k: Ctx, ghost t: Tree)
    requires At(Snap(s), k, t, root.node) && t.Branch? && t.node == old_ && t.left.Branch?
    requires node in s && node !in Nodes(t) + CtxNodes(k) && Snap(s)[node] == Snap(s)[old_]
    modifies root`node, s
    ensures At(Snap(s), k, t.(node := node), root.node)
  {
    hide At, CtxNodes, Nodes, Rep, RepCtx, Distinct, DistinctCtx;
    ghost var h, top := Snap(s), root.node;
    LookAround(h, k, t, top);
    TurnNeighbours(old_, node, root, s);
    Replaced(h, Snap(s), k, t, node, top, root.node);
  }

  // Only left turns lead to the hole.
  ghost predicate LeftSpine(k: Ctx) {
    k.Top? || (k.InLeft? && LeftSpine(k.up))
  }

  lemma {:induction false} LeftSpineFacts(inner: Ctx, outer: Ctx)
    requires LeftSpine(inner)
    ensures Before(inner) == []
    ensures Over(inner, outer).Top? <==> inner.Top? && outer.Top?
    ensures inner.Top? ==> Over(inner, outer) == outer
    ensures !inner.Top? ==> Over(inner, outer).InLeft? && Over(inner, outer).node == inner.node
    ensures CtxNodes(Over(inner, outer)) == CtxNodes(inner) + CtxNodes(outer)
  {
    if inner.Top? {
    } else {
      LeftSpineFacts(inner.up, outer);
    }
  }

  // `rb_erase`, two children: the walk to the leftmost node of the right subtree.
  method FindSuccessor(node: Node, ghost top: Node?, ghost s: set<Node>, ghost ko: Ctx, ghost r: Tree)
    returns (succ: Node, ghost inner: Ctx, ghost sub: Tree)
    requires At(Snap(s), ko, r, top) && ko.InRight? && ko.node == node && r.Branch?
    ensures LeftSpine(inner) && r == Fill(inner, sub) && sub.Branch? && sub.node == succ && sub.left.Leaf?
    ensures At(Snap(s), Over(inner, ko), sub, top)
    ensures Inorder(r) != [] && succ == Inorder(r)[0]
  {
    hide At, Nodes, CtxNodes, Fill, Inorder;
    ghost var h := Snap(s);
    Look(h, ko, r, top);
    inner, sub := Top, r;
    succ := node.right;
    FillTop(ko, r);
    Look(h, Over(inner, ko), sub, top);
    while succ.left != null
      invariant LeftSpine(inner) && r == Fill(inner, sub) && sub.Branch? && sub.node == succ && succ in s
      invariant h == Snap(s) && At(h, Over(inner, ko), sub, top)
      invariant h[succ] == Cell(CtxPtr(Over(inner, ko)), sub.red, Ptr(sub.right), Ptr(sub.left))
      decreases sub
    {
      LookAround(h, Over(inner, ko), sub, top);
      MoveLeft(h, Over(inner, ko), sub, top);
      FillLeft(inner, sub);
      OverLeft(inner, sub, ko);
      inner := InLeft(sub.node, sub.red, sub.right, inner);
      sub := sub.left;
      succ := succ.left;
      Look(h, Over(inner, ko), sub, top);
    }
    SpineFirst(inner, sub);
  }

  // The node at the end of the spine is the first in order.
  lemma SpineFirst(inner: Ctx, sub: Tree)
    requires LeftSpine(inner) && sub.Branch?
    ensures sub.left.Leaf? ==> Inorder(Fill(inner, sub)) != [] && Inorder(Fill(inner, sub))[0] == sub.node
  {
    hide Fill, LeftSpine;
    LeftSpineFacts(inner, Top);
    FillFacts(inner, sub);
  }

  // `rb_erase`: the right child of `succ` takes its place below `node`.
  method CutOut(node: Node, succ: Node, ghost s: set<Node>) returns (child: Node?, parent: Node, red: bool)
    requires succ in s && succ.parent != null && succ.parent in s && node in s
    requires succ.right != null ==> succ.right in s && succ.right != succ.parent
    modifies s
    ensures child == old(succ.right) && red == old(succ.red)
    ensures parent == if old(succ.parent) == node then succ else old(succ.parent)
    ensures Rewires(s, old(succ.parent), old(succ.parent) != node, child, if child == null then {} else {child},
                    old(succ.parent))
  {
    child := succ.right;
    parent := succ.parent;
    red := succ.red;

    if child != null {
      child.parent := parent;
    }
    if parent == node {
      parent.right := child;
      parent := succ;
    } else {
      parent.left := child;
    }
  }

  method CutSuccessor(node: Node, root: Root, ghost s: set<Node>, ghost ko: Ctx, ghost r: Tree)
    returns (succ: Node, child: Node?, parent: Node, red: bool, ghost inner: Ctx, ghost c: Tree)
    requires At(Snap(s), ko, r, root.node) && ko.InRight? && ko.node == node && r.Branch?
    modifies root`node, s
    ensures LeftSpine(inner) && r == Fill(inner, Branch(Leaf, succ, red, c)) && Ptr(c) == child
    ensures At(Snap(s), Over(inner, ko), c, root.node)
    ensures succ in s && succ !in Nodes(c) + CtxNodes(Over(inner, ko)) && succ in Nodes(r)
    ensures parent == if inner.Top? then succ else inner.node
  {
    hide At, Nodes, CtxNodes, LeftSpine, Over, Rep, RepCtx, Distinct, DistinctCtx;
    ghost var h, top := Snap(s), root.node;
    ghost var sub;
    Look(h, ko, r, top);
    succ, inner, sub := FindSuccessor(node, top, s, ko, r);
    c := sub.right;
    LeftSpineFacts(inner, ko);
    LookAround(h, Over(inner, ko), sub, top);
    CutFacts(inner, sub, ko, top, h);
    hide Fill;
    child, parent, red := CutOut(node, succ, s);
    SplicedOut(h, Snap(s), Over(inner, ko), sub, c, top, root.node);
  }

  lemma FillTop(ko: Ctx, r: Tree)
    ensures Fill(Top, r) == r && Over(Top, ko) == ko
  {
  }

  lemma FillLeft(inner: Ctx, sub: Tree)
    requires sub.Branch?
    ensures Fill(InLeft(sub.node, sub.red, sub.right, inner), sub.left) == Fill(inner, sub)
  {
  }

  lemma OverLeft(inner: Ctx, sub: Tree, ko: Ctx)
    requires sub.Branch?
    ensures Over(InLeft(sub.node, sub.red, sub.right, inner), ko)
            == InLeft(sub.node, sub.red, sub.right, Over(inner, ko))
  {
  }

  lemma CutFacts(inner: Ctx, sub: Tree, ko: Ctx, top: Node?, h: Heap)
    requires At(h, Over(inner, ko), sub, top) && LeftSpine(inner) && ko.InRight? && sub.Branch?
    ensures sub.node in Nodes(Fill(inner, sub)) && sub.node !in Nodes(sub.right)
    ensures ko.node in CtxNodes(ko) && (!inner.Top? ==> inner.node != ko.node)
  {
    CutDistinct(Over(inner, ko), sub, top, h);
    hide At, DistinctCtx, Over;
    FillFacts(inner, sub);
    OverDistinct(inner, ko);
  }

  lemma CutDistinct(k: Ctx, sub: Tree, top: Node?, h: Heap)
    requires At(h, k, sub, top) && sub.Branch?
    ensures DistinctCtx(k) && sub.node !in Nodes(sub.right) && sub.node in Nodes(sub)
  {
  }

  lemma {:induction false} OverDistinct(inner: Ctx, outer: Ctx)
    requires DistinctCtx(Over(inner, outer))
    ensures CtxNodes(inner) !! CtxNodes(outer)
  {
    if !inner.Top? {
      OverDistinct(inner.up, outer);
      OverFacts(inner.up, outer, Leaf);
    }
  }

  // What is left to do after a node of the given colour has gone from above `c`.
  ghost predicate Removed(k: Ctx, c: Tree, red: bool, bh: nat) {
    if red then Settled(k, c, bh) else RbBelow(c, bh) && RbCtx(k, bh + 1)
  }

  lemma {:induction false} RenamedFrame(inner: Ctx, l: Tree, a: Node, b: Node, red: bool, k: Ctx, bh: nat)
    requires RbCtx(Over(inner, InRight(l, a, red, k)), bh)
    ensures RbCtx(Over(inner, InRight(l, b, red, k)), bh)
    ensures BlackFrame(Over(inner, InRight(l, b, red, k))) == BlackFrame(Over(inner, InRight(l, a, red, k)))
    decreases inner
  {
    if !inner.Top? {
      RenamedFrame(inner.up, l, a, b, red, k, if inner.red then bh else bh + 1);
    }
  }

  lemma OneChildFacts(k: Ctx, t: Tree, c: Tree) returns (bh: nat)
    requires IsRedBlack(Fill(k, t)) && t.Branch?
    requires (c == t.left && t.right.Leaf?) || (c == t.right && t.left.Leaf?)
    ensures Removed(k, c, t.red, bh)
    ensures Inorder(Fill(k, t)) == Before(k) + Inorder(t.left) + [t.node] + (Inorder(t.right) + After(k))
    ensures Inorder(Fill(k, c)) == Before(k) + Inorder(t.left) + (Inorder(t.right) + After(k))
  {
    var hh: nat :| Rb(Fill(k, t), hh);
    bh := UnfillRb(k, t, hh);
    bh := if t.red then bh else bh - 1;
    FocusOrder(k, t);
    OneChildOrder(k, t, c);
  }

  lemma OneChildOrder(k: Ctx, t: Tree, c: Tree)
    requires t.Branch? && ((c == t.left && t.right.Leaf?) || (c == t.right && t.left.Leaf?))
    ensures Inorder(Fill(k, c)) == Before(k) + Inorder(t.left) + (Inorder(t.right) + After(k))
  {
    hide *;
    FillFacts(k, c);
    OneChildInorder(t, c);
    Reassociated(Before(k), Inorder(t.left), Inorder(t.right), After(k));
  }

  lemma OneChildInorder(t: Tree, c: Tree)
    requires t.Branch? && ((c == t.left && t.right.Leaf?) || (c == t.right && t.left.Leaf?))
    ensures Inorder(c) == Inorder(t.left) + Inorder(t.right)
  {
  }

  lemma Reassociated(a: seq<Node>, b: seq<Node>, c: seq<Node>, d: seq<Node>)
    ensures a + (b + c) + d == a + b + (c + d)
  {
  }

  lemma TwoChildFacts(k: Ctx, t: Tree, inner: Ctx, y: Node, red: bool, c: Tree) returns (bh: nat)
    requires IsRedBlack(Fill(k, t)) && t.Branch? && LeftSpine(inner) && t.right == Fill(inner, Branch(Leaf, y, red, c))
    ensures Removed(Over(inner, InRight(t.left, y, t.red, k)), c, red, bh)
    ensures Inorder(Fill(k, t)) == Before(k) + Inorder(t.left) + [t.node] + (Inorder(t.right) + After(k))
    ensures Inorder(Fill(Over(inner, InRight(t.left, y, t.red, k)), c)) == Before(k) + Inorder(t.left)
            + (Inorder(t.right) + After(k))
  {
    var sub, ka, kb := Branch(Leaf, y, red, c), InRight(t.left, t.node, t.red, k), InRight(t.left, y, t.red, k);
    OverFacts(inner, ka, sub);
    assert Fill(ka, t.right) == Fill(k, t);
    var hh: nat :| Rb(Fill(k, t), hh);
    bh := UnfillRb(Over(inner, ka), sub, hh);
    RenamedFrame(inner, t.left, t.node, y, t.red, k, bh);
    bh := if red then bh else bh - 1;
    LeftSpineFacts(inner, kb);
    FocusOrder(k, t);
    TwoChildOrder(k, t, inner, y, red, c);
  }

  lemma TwoChildOrder(k: Ctx, t: Tree, inner: Ctx, y: Node, red: bool, c: Tree)
    requires t.Branch? && LeftSpine(inner) && t.right == Fill(inner, Branch(Leaf, y, red, c))
    ensures Inorder(Fill(Over(inner, InRight(t.left, y, t.red, k)), c)) == Before(k) + Inorder(t.left)
            + (Inorder(t.right) + After(k))
  {
    var sub, kb := Branch(Leaf, y, red, c), InRight(t.left, y, t.red, k);
    SpineOrder(inner, y, red, c);
    LeftSpineFacts(inner, kb);
    FillFacts(Over(inner, kb), c);
    OverFacts(inner, kb, c);
    assert Before(kb) == Before(k) + Inorder(t.left) + [y] && After(kb) == After(k);
    hide Inorder, Before, After, Fill, Over, LeftSpine;
    Shift(Before(k) + Inorder(t.left), [y], Inorder(c), After(inner), After(k));
  }

  lemma Shift<X>(a: seq<X>, b: seq<X>, c: seq<X>, d: seq<X>, e: seq<X>)
    ensures (a + b + []) + c + (d + e) == a + (b + c + d + e)
  {
  }

  lemma SpineOrder(inner: Ctx, y: Node, red: bool, c: Tree)
    requires LeftSpine(inner)
    ensures Inorder(Fill(inner, Branch(Leaf, y, red, c))) == [y] + Inorder(c) + After(inner)
  {
    FillFacts(inner, Branch(Leaf, y, red, c));
    LeftSpineFacts(inner, Top);
  }

  // `rb_erase`, two children: the successor takes the place of `node`.
  method EraseTwo(node: Node, root: Root, ghost s: set<Node>, ghost k: Ctx, ghost t: Tree)
    returns (child: Node?, parent: Node?, red: bool, ghost k': Ctx, ghost c: Tree, ghost bh: nat)
    requires At(Snap(s), k, t, root.node) && t.Branch? && t.node == node && t.left.Branch? && t.right.Branch?
    requires IsRedBlack(Fill(k, t))
    modifies root`node, s
    ensures At(Snap(s), k', c, root.node) && Ptr(c) == child && CtxPtr(k') == parent && Removed(k', c, red, bh)
    ensures Inorder(Fill(k, t)) == Before(k) + Inorder(t.left) + [node] + (Inorder(t.right) + After(k))
    ensures Inorder(Fill(k', c)) == Before(k) + Inorder(t.left) + (Inorder(t.right) + After(k))
  {
    hide At, Removed, Inorder, Before, After, Fill, IsRedBlack, Nodes, CtxNodes, Over;
    ghost var ko := InRight(t.left, node, t.red, k);
    ghost var inner;
    var succ;
    MoveRight(Snap(s), k, t, root.node);
    succ, child, parent, red, inner, c := CutSuccessor(node, root, s, ko, t.right);
    bh := TwoChildFacts(k, t, inner, succ, red, c);
    Close(Snap(s), ko, inner, c, root.node);
    MoveUp(Snap(s), ko, Fill(inner, c), root.node);
    ghost var t1 := Branch(t.left, node, t.red, Fill(inner, c));
    LookAround(Snap(s), k, t1, root.node);
    Outside(inner, ko, c, succ);
    CopyLinks(node, succ, root.node, s, k, t1);
    TakePlace(node, succ, root, s, k, t1);
    MoveRight(Snap(s), k, t1.(node := succ), root.node);
    Open(Snap(s), InRight(t.left, succ, t.red, k), inner, c, root.node);
    k' := Over(inner, InRight(t.left, succ, t.red, k));
    LeftSpineFacts(inner, InRight(t.left, succ, t.red, k));
  }

  lemma Outside(inner: Ctx, ko: Ctx, c: Tree, y: Node)
    requires ko.InRight? && y !in Nodes(c) + CtxNodes(Over(inner, ko))
    ensures y !in Nodes(Branch(ko.left, ko.node, ko.red, Fill(inner, c))) + CtxNodes(ko.up)
  {
    OverFacts(inner, ko, c);
    FillFacts(inner, c);
  }

  // `rb_erase` on the node in focus.
  method EraseAt(node: Node, root: Root, ghost s: set<Node>, ghost k: Ctx, ghost t: Tree) returns (ghost whole: Tree)
    requires At(Snap(s), k, t, root.node) && t.Branch? && t.node == node && IsRedBlack(Fill(k, t))
    modifies root`node, s
    ensures At(Snap(s), Top, whole, root.node) && IsRedBlack(whole)
    ensures Inorder(Fill(k, t)) == Before(k) + Inorder(t.left) + [node] + (Inorder(t.right) + After(k))
    ensures Inorder(whole) == Before(k) + Inorder(t.left) + (Inorder(t.right) + After(k))
  {
    hide At, Removed, Inorder, Before, After, Fill, IsRedBlack, CtxNodes, Nodes, Rb;
    ghost var k', c, bh;
    LookAround(Snap(s), k, t, root.node);
    var child, parent, red;
    if node.left == null {
      child, parent, red := node.right, node.parent, node.red;
      k', c := k, t.right;
      bh := OneChildFacts(k, t, c);
      SpliceOut(node, child, root, s, k, t, c);
    } else if node.right == null {
      child, parent, red := node.left, node.parent, node.red;
      k', c := k, t.left;
      bh := OneChildFacts(k, t, c);
      SpliceOut(node, child, root, s, k, t, c);
    } else {
      child, parent, red, k', c, bh := EraseTwo(node, root, s, k, t);
    }
    if !red {
      RemovedBlack(Snap(s), k', c, bh, root.node);
      whole := EraseColor(child, parent, root, s, k', c, bh);
    } else {
      RemovedRed(Snap(s), k', c, bh, root.node);
      whole := Fill(k', c);
    }
  }

  // `rb_erase` on any node of a red-black tree.
  method Erase(node: Node, root: Root)
    requires root.Valid() && node in Nodes(root.tree)
    modifies root, Nodes(root.tree)
    ensures root.Valid()
    ensures node in old(root.Order())
    ensures var order, p := old(root.Order()), Pos(old(root.Order()), node);
      root.Order() == order[..p] + order[p + 1..]
    ensures Nodes(root.tree) == old(Nodes(root.tree)) - {node}
  {
    ghost var s, tree := Nodes(root.tree), root.tree;
    ghost var k, t := FocusAt(node, Snap(s), tree, root.node);
    assert Distinct(tree);
    hide At, Pos, Distinct, Inorder, Before, After, Fill, IsRedBlack, CtxNodes, Nodes, Rb;
    ghost var whole := EraseAt(node, root, s, k, t);
    EraseDone(tree, whole, Before(k) + Inorder(t.left), node, Inorder(t.right) + After(k));
    Resnap(s, whole, root.node);
    root.tree := whole;
  }

  lemma RemovedBlack(h: Heap, k: Ctx, c: Tree, bh: nat, top: Node?)
    requires At(h, k, c, top) && Removed(k, c, false, bh)
    ensures EraseState(h, k, c, bh, top)
  {
  }

  lemma RemovedRed(h: Heap, k: Ctx, c: Tree, bh: nat, top: Node?)
    requires At(h, k, c, top) && Removed(k, c, true, bh)
    ensures At(h, Top, Fill(k, c), top) && IsRedBlack(Fill(k, c))
  {
    FillRb(k, c, bh);
    OverTop(k);
    Close(h, Top, k, c, top);
  }

  lemma EraseDone(t: Tree, t': Tree, a: seq<Node>, node: Node, b: seq<Node>)
    requires Distinct(t) && Inorder(t) == a + [node] + b && Inorder(t') == a + b
    ensures node in Inorder(t) && Nodes(t') == Nodes(t) - {node}
    ensures var p := Pos(Inorder(t), node); Inorder(t') == Inorder(t)[..p] + Inorder(t)[p + 1..]
  {
    InorderDistinct(t);
    OrderWithout(t, t', a, node, b);
  }

  lemma OrderWithout(t: Tree, t': Tree, a: seq<Node>, node: Node, b: seq<Node>)
    requires Inorder(t) == a + [node] + b && Inorder(t') == a + b
    requires forall i, j :: 0 <= i < j < |Inorder(t)| ==> Inorder(t)[i] != Inorder(t)[j]
    ensures node in Inorder(t) && Nodes(t') == Nodes(t) - {node}
    ensures var p := Pos(Inorder(t), node); Inorder(t') == Inorder(t)[..p] + Inorder(t)[p + 1..]
  {
    MembersAre(t);
    MembersAre(t');
    var o, o' := Inorder(t), Inorder(t');
    hide Inorder, Nodes;
    PosSplit(a, node, b);
    SetWithout(o, o', a, node, b);
  }

  lemma SetWithout(o: seq<Node>, o': seq<Node>, a: seq<Node>, x: Node, b: seq<Node>)
    requires o == a + [x] + b && o' == a + b
    requires forall i, j :: 0 <= i < j < |o| ==> o[i] != o[j]
    ensures (set y | y in o') == (set y | y in o) - {x}
  {
    assert o[|a|] == x;
    forall y | y in o' ensures y in o && y != x {
      var i :| 0 <= i < |o'| && o'[i] == y;
      assert o[if i < |a| then i else i + 1] == y;
    }
    forall y | y in o && y != x ensures y in o' {
      var i :| 0 <= i < |o| && o[i] == y;
      assert o'[if i < |a| then i else i - 1] == y;
    }
  }

  lemma MembersAre(t: Tree)
    ensures Nodes(t) == set n | n in Inorder(t)
  {
    InorderNodes(t);
  }
}
