/** Insertion: `rb_link_node` of external/mtd-utils/rbtree.h and `rb_insert_color` of rbtree.c. */
module RbInsert {
  import opened RbTree

  // ---------------------------------------------------------------- insertion

  // The red subtree `t` is balanced, and so is the rest; only the edge between them may be red-red.
  ghost predicate InsertState(h: Heap, k: Ctx, t: Tree, bh: nat, top: Node?) {
    At(h, k, t, top) && IsRed(t) && Rb(t, bh) && RbCtx(k, bh)
  }

  ghost function Uncle(k: Ctx): Tree
    requires !k.Top? && !k.up.Top?
  {
    if k.up.InLeft? then k.up.right else k.up.left
  }

  // Red uncle: `uncle` and `parent` become black, `gparent` red.
  ghost function Recolored(k: Ctx, t: Tree): Tree
    requires !k.Top? && !k.up.Top?
  {
    var q := Plug(k, t);
    var p := Branch(q.left, q.node, false, q.right);
    if k.up.InLeft? then Branch(p, k.up.node, true, Blacken(k.up.right))
    else Branch(Blacken(k.up.left), k.up.node, true, p)
  }

  lemma RecoloredFacts(k: Ctx, t: Tree, bh: nat)
    requires RedFrame(k) && Rb(t, bh) && RbCtx(k, bh)
    requires IsRed(Uncle(k))
    ensures IsRed(Recolored(k, t)) && Rb(Recolored(k, t), bh + 1) && RbCtx(k.up.up, bh + 1)
    ensures Inorder(Fill(k.up.up, Recolored(k, t))) == Inorder(Fill(k, t))
  {
    var g := Plug(k.up, Plug(k, t));
    assert Inorder(Plug(k, t).(red := false)) == Inorder(Plug(k, t));
    FillOrder(k.up.up, g, Recolored(k, t));
  }

  method InsertRecolor(uncle: Node, parent: Node, gparent: Node, root: Root, ghost s: set<Node>, ghost k: Ctx,
                       ghost t: Tree, ghost bh: nat)
    returns (node': Node, ghost k': Ctx, ghost t': Tree, ghost bh': nat)
    requires InsertState(Snap(s), k, t, bh, root.node)
    requires RedFrame(k) && k.node == parent && !k.up.Top? && k.up.node == gparent
    requires IsRed(Uncle(k)) && Uncle(k).node == uncle
    modifies root`node, s
    ensures InsertState(Snap(s), k', t', bh', root.node) && Ptr(t') == node'
    ensures Depth(k') < Depth(k) && Inorder(Fill(k', t')) == Inorder(Fill(k, t))
  {
    hide At;
    k', t', bh' := k.up.up, Recolored(k, t), bh + 1;
    RecoloredFacts(k, t, bh);
    ghost var p, top, onLeft, unc := Plug(k, t), root.node, k.up.InLeft?, Uncle(k);
    ghost var ku := if onLeft then InRight(p, gparent, false, k') else InLeft(gparent, false, p, k');
    ghost var kp := if onLeft then InLeft(gparent, false, Blacken(unc), k')
      else InRight(Blacken(unc), gparent, false, k');
    MoveUp(Snap(s), k, t, top);
    MoveUp(Snap(s), k.up, p, top);
    if onLeft {
      MoveRight(Snap(s), k', Plug(k.up, p), top);
    } else {
      MoveLeft(Snap(s), k', Plug(k.up, p), top);
    }
    SetColor(uncle, false, s, ku, unc, top);
    MoveUp(Snap(s), ku, Blacken(unc), top);
    if onLeft {
      MoveLeft(Snap(s), k', Plug(kp, p), top);
    } else {
      MoveRight(Snap(s), k', Plug(kp, p), top);
    }
    SetColor(parent, false, s, kp, p, top);
    MoveUp(Snap(s), kp, p.(red := false), top);
    SetColor(gparent, true, s, k', t'.(red := false), top);
    node' := gparent;
  }

  // Inner grandchild: after turning `parent`, the old parent is the red node to look at.
  ghost function TurnedLeft(k: Ctx, t: Tree): (Ctx, Tree)
    requires k.InRight? && t.Branch?
  {
    (InLeft(t.node, true, t.right, k.up), Branch(k.left, k.node, true, t.left))
  }

  // Outer grandchild: the context once `parent` has taken the place of `gparent`.
  ghost function RaisedLeft(k: Ctx): Ctx
    requires k.InLeft? && k.up.InLeft?
  {
    InLeft(k.node, false, Branch(k.right, k.up.node, true, k.up.right), k.up.up)
  }

  lemma TurnedLeftFacts(k: Ctx, t: Tree, bh: nat)
    requires k.InRight? && RedFrame(k) && k.up.InLeft? && IsRed(t) && Rb(t, bh) && RbCtx(k, bh)
    ensures var (k', t') := TurnedLeft(k, t);
      && RedFrame(k') && IsRed(t') && Rb(t', bh) && RbCtx(k', bh) && k'.up == k.up && Depth(k') == Depth(k)
      && RotatedLeft(Plug(k, t)) == Plug(k', t') && Inorder(Fill(k', t')) == Inorder(Fill(k, t))
  {
    RotatedLeftFacts(Plug(k, t));
    FillOrder(k.up, Plug(k, t), RotatedLeft(Plug(k, t)));
  }

  lemma RaisedLeftFacts(k: Ctx, t: Tree, bh: nat)
    requires k.InLeft? && RedFrame(k) && k.up.InLeft? && IsRed(t) && Rb(t, bh) && RbCtx(k, bh) && !IsRed(k.up.right)
    ensures var k' := RaisedLeft(k);
      && BlackFrame(k') && RbCtx(k', bh) && Depth(k') < Depth(k)
      && Inorder(Fill(k', t)) == Inorder(Fill(k, t))
      && RotatedRight(Branch(Plug(k, t).(red := false), k.up.node, true, k.up.right)) == Plug(k', t)
  {
    var g := Plug(k.up, Plug(k, t));
    RotatedRightFacts(g);
    assert Inorder(Plug(RaisedLeft(k), t)) == Inorder(RotatedRight(g));
    FillOrder(k.up.up, g, Plug(RaisedLeft(k), t));
  }

  method InsertRotateLeft(node: Node, parent: Node, gparent: Node, root: Root, ghost s: set<Node>, ghost k0: Ctx,
                          ghost t0: Tree, ghost bh: nat)
    returns (node': Node, ghost k': Ctx, ghost t': Tree)
    requires InsertState(Snap(s), k0, t0, bh, root.node) && Ptr(t0) == node
    requires RedFrame(k0) && k0.node == parent && k0.up.InLeft? && k0.up.node == gparent && !IsRed(k0.up.right)
    modifies root`node, s
    ensures InsertState(Snap(s), k', t', bh, root.node) && Ptr(t') == node' && BlackFrame(k')
    ensures Depth(k') < Depth(k0) && Inorder(Fill(k', t')) == Inorder(Fill(k0, t0))
  {
    hide At;
    ghost var k, t := k0, t0;
    var n, p := node, parent;
    Look(Snap(s), k, t, root.node);
    if p.right == n {
      MoveUp(Snap(s), k, t, root.node);
      TurnedLeftFacts(k, t, bh);
      RotateLeft(p, root, s, k.up, Plug(k, t));
      p, n := n, p;
      k, t := TurnedLeft(k, t).0, TurnedLeft(k, t).1;
      MoveLeft(Snap(s), k.up, Plug(k, t), root.node);
    }
    RaisedLeftFacts(k, t, bh);
    k' := RaisedLeft(k);
    ghost var b := Plug(k, t).(red := false);
    MoveUp(Snap(s), k, t, root.node);
    SetColor(p, false, s, k.up, Plug(k, t), root.node);
    MoveUp(Snap(s), k.up, b, root.node);
    SetColor(gparent, true, s, k.up.up, Plug(k.up, b), root.node);
    RotateRight(gparent, root, s, k.up.up, Plug(k.up, b).(red := true));
    MoveLeft(Snap(s), k.up.up, Plug(k', t), root.node);
    node', t' := n, t;
  }

  // One round of the loop of `rb_insert_color` when `parent` is the left child.
  method InsertUnderLeft(node: Node, parent: Node, gparent: Node, root: Root, ghost s: set<Node>, ghost k: Ctx,
                         ghost t: Tree, ghost bh: nat)
    returns (node': Node, ghost k': Ctx, ghost t': Tree, ghost bh': nat)
    requires InsertState(Snap(s), k, t, bh, root.node) && Ptr(t) == node
    requires RedFrame(k) && k.node == parent && k.up.InLeft? && k.up.node == gparent
    modifies root`node, s
    ensures InsertState(Snap(s), k', t', bh', root.node) && Ptr(t') == node'
    ensures Depth(k') < Depth(k) && Inorder(Fill(k', t')) == Inorder(Fill(k, t))
  {
    hide At;
    MoveUp(Snap(s), k, t, root.node);
    Look(Snap(s), k.up, Plug(k, t), root.node);
    MoveUp(Snap(s), k.up, Plug(k, t), root.node);
    MoveRight(Snap(s), k.up.up, Plug(k.up, Plug(k, t)), root.node);
    Look(Snap(s), InRight(Plug(k, t), gparent, false, k.up.up), k.up.right, root.node);
    var uncle := gparent.right;
    if uncle != null && uncle.red {
      node', k', t', bh' := InsertRecolor(uncle, parent, gparent, root, s, k, t, bh);
    } else {
      bh' := bh;
      node', k', t' := InsertRotateLeft(node, parent, gparent, root, s, k, t, bh);
    }
  }

  // Inner grandchild: after turning `parent`, the old parent is the red node to look at.
  ghost function TurnedRight(k: Ctx, t: Tree): (Ctx, Tree)
    requires k.InLeft? && t.Branch?
  {
    (InRight(t.left, t.node, true, k.up), Branch(t.right, k.node, true, k.right))
  }

  // Outer grandchild: the context once `parent` has taken the place of `gparent`.
  ghost function RaisedRight(k: Ctx): Ctx
    requires k.InRight? && k.up.InRight?
  {
    InRight(Branch(k.up.left, k.up.node, true, k.left), k.node, false, k.up.up)
  }

  lemma TurnedRightFacts(k: Ctx, t: Tree, bh: nat)
    requires k.InLeft? && RedFrame(k) && k.up.InRight? && IsRed(t) && Rb(t, bh) && RbCtx(k, bh)
    ensures var (k', t') := TurnedRight(k, t);
      && RedFrame(k') && IsRed(t') && Rb(t', bh) && RbCtx(k', bh) && k'.up == k.up && Depth(k') == Depth(k)
      && RotatedRight(Plug(k, t)) == Plug(k', t') && Inorder(Fill(k', t')) == Inorder(Fill(k, t))
  {
    RotatedRightFacts(Plug(k, t));
    FillOrder(k.up, Plug(k, t), RotatedRight(Plug(k, t)));
  }

  lemma RaisedRightFacts(k: Ctx, t: Tree, bh: nat)
    requires k.InRight? && RedFrame(k) && k.up.InRight? && IsRed(t) && Rb(t, bh) && RbCtx(k, bh) && !IsRed(k.up.left)
    ensures var k' := RaisedRight(k);
      && BlackFrame(k') && RbCtx(k', bh) && Depth(k') < Depth(k)
      && Inorder(Fill(k', t)) == Inorder(Fill(k, t))
      && RotatedLeft(Branch(k.up.left, k.up.node, true, Plug(k, t).(red := false))) == Plug(k', t)
  {
    var g := Plug(k.up, Plug(k, t));
    RotatedLeftFacts(g);
    assert Inorder(Plug(RaisedRight(k), t)) == Inorder(RotatedLeft(g));
    FillOrder(k.up.up, g, Plug(RaisedRight(k), t));
  }

  method InsertRotateRight(node: Node, parent: Node, gparent: Node, root: Root, ghost s: set<Node>, ghost k0: Ctx,
                           ghost t0: Tree, ghost bh: nat)
    returns (node': Node, ghost k': Ctx, ghost t': Tree)
    requires InsertState(Snap(s), k0, t0, bh, root.node) && Ptr(t0) == node
    requires RedFrame(k0) && k0.node == parent && k0.up.InRight? && k0.up.node == gparent && !IsRed(k0.up.left)
    modifies root`node, s
    ensures InsertState(Snap(s), k', t', bh, root.node) && Ptr(t') == node' && BlackFrame(k')
    ensures Depth(k') < Depth(k0) && Inorder(Fill(k', t')) == Inorder(Fill(k0, t0))
  {
    hide At;
    ghost var k, t := k0, t0;
    var n, p := node, parent;
    Look(Snap(s), k, t, root.node);
    if p.left == n {
      MoveUp(Snap(s), k, t, root.node);
      TurnedRightFacts(k, t, bh);
      RotateRight(p, root, s, k.up, Plug(k, t));
      p, n := n, p;
      k, t := TurnedRight(k, t).0, TurnedRight(k, t).1;
      MoveRight(Snap(s), k.up, Plug(k, t), root.node);
    }
    RaisedRightFacts(k, t, bh);
    k' := RaisedRight(k);
    ghost var b := Plug(k, t).(red := false);
    MoveUp(Snap(s), k, t, root.node);
    SetColor(p, false, s, k.up, Plug(k, t), root.node);
    MoveUp(Snap(s), k.up, b, root.node);
    SetColor(gparent, true, s, k.up.up, Plug(k.up, b), root.node);
    RotateLeft(gparent, root, s, k.up.up, Plug(k.up, b).(red := true));
    MoveRight(Snap(s), k.up.up, Plug(k', t), root.node);
    node', t' := n, t;
  }

  // One round of the loop of `rb_insert_color` when `parent` is the right child.
  method InsertUnderRight(node: Node, parent: Node, gparent: Node, root: Root, ghost s: set<Node>, ghost k: Ctx,
                          ghost t: Tree, ghost bh: nat)
    returns (node': Node, ghost k': Ctx, ghost t': Tree, ghost bh': nat)
    requires InsertState(Snap(s), k, t, bh, root.node) && Ptr(t) == node
    requires RedFrame(k) && k.node == parent && k.up.InRight? && k.up.node == gparent
    modifies root`node, s
    ensures InsertState(Snap(s), k', t', bh', root.node) && Ptr(t') == node'
    ensures Depth(k') < Depth(k) && Inorder(Fill(k', t')) == Inorder(Fill(k, t))
  {
    hide At;
    MoveUp(Snap(s), k, t, root.node);
    Look(Snap(s), k.up, Plug(k, t), root.node);
    MoveUp(Snap(s), k.up, Plug(k, t), root.node);
    MoveLeft(Snap(s), k.up.up, Plug(k.up, Plug(k, t)), root.node);
    Look(Snap(s), InLeft(gparent, false, Plug(k, t), k.up.up), k.up.left, root.node);
    var uncle := gparent.left;
    if uncle != null && uncle.red {
      node', k', t', bh' := InsertRecolor(uncle, parent, gparent, root, s, k, t, bh);
    } else {
      bh' := bh;
      node', k', t' := InsertRotateRight(node, parent, gparent, root, s, k, t, bh);
    }
  }

  ghost predicate SlotAt(k: Ctx, parent: Node?, slot: Slot) {
    CtxPtr(k) == parent && match slot case RootSlot => k.Top? case LeftSlot => k.InLeft? case RightSlot => k.InRight?
  }

  lemma LinkedAt(h: Heap, h': Heap, k: Ctx, node: Node, top: Node?, top': Node?)
    requires At(h, k, Leaf, top) && node !in CtxNodes(k) && node in h' && h'[node] == Cell(CtxPtr(k), true, null, null)
    requires k.Top? ==> top' == node
    requires !k.Top? ==> top' == top && Same(h, h', CtxNodes(k) - {k.node})
    requires k.InLeft? ==> NewLeft(h, h', k.node, node)
    requires k.InRight? ==> NewRight(h, h', k.node, node)
    ensures At(h', k, Branch(Leaf, node, true, Leaf), top')
  {
    Rehung(h, h', k, null, top, node, top');
  }

  // `rb_link_node`: a new red leaf at an empty slot.
  method LinkNode(node: Node, parent: Node?, slot: Slot, root: Root, ghost s: set<Node>, ghost k: Ctx)
    requires At(Snap(s), k, Leaf, root.node) && SlotAt(k, parent, slot) && node in s && node !in CtxNodes(k)
    modifies root`node, s
    ensures At(Snap(s), k, Branch(Leaf, node, true, Leaf), root.node)
  {
    hide At;
    ghost var h, top := Snap(s), root.node;
    Look(h, k, Leaf, top);
    node.parent, node.red := parent, true;
    node.left, node.right := null, null;
    match slot {
      case RootSlot => root.node := node;
      case LeftSlot => parent.left := node;
      case RightSlot => parent.right := node;
    }
    LinkedAt(h, Snap(s), k, node, top, root.node);
  }

  // `rb_insert_color` on a node just linked into a red-black tree.
  method InsertColor(node: Node, root: Root, ghost s: set<Node>, ghost k: Ctx, ghost t: Tree, ghost bh: nat)
    returns (ghost whole: Tree)
    requires InsertState(Snap(s), k, t, bh, root.node) && t.node == node
    modifies root`node, s
    ensures At(Snap(s), Top, whole, root.node) && IsRedBlack(whole)
    ensures Inorder(whole) == Inorder(Fill(k, t))
  {
    hide At, Nodes, Fill, Inorder, Rb, RbCtx, IsRedBlack, InsertState, IsRed, Before, After, CtxNodes;
    ghost var k', t', bh' := k, t, bh;
    var n := node;
    InsertLook(Snap(s), k', t', bh', root.node);
    while n.parent != null && n.parent.red
      invariant InsertState(Snap(s), k', t', bh', root.node) && Ptr(t') == n
      invariant Inorder(Fill(k', t')) == Inorder(Fill(k, t))
      invariant n in s && n.parent == CtxPtr(k') && (n.parent != null ==> n.parent in s && n.parent.red == k'.red)
      decreases Depth(k')
    {
      var parent := n.parent;
      var gparent := parent.parent;
      InsertGrandparent(Snap(s), k', t', bh', root.node);
      if parent == gparent.left {
        n, k', t', bh' := InsertUnderLeft(n, parent, gparent, root, s, k', t', bh');
      } else {
        n, k', t', bh' := InsertUnderRight(n, parent, gparent, root, s, k', t', bh');
      }
      InsertLook(Snap(s), k', t', bh', root.node);
    }
    InsertDone(Snap(s), k', t', bh', root.node);
    SetColor(root.node, false, s, Top, Fill(k', t'), root.node);
    whole := Blacken(Fill(k', t'));
  }

  lemma InsertLook(h: Heap, k: Ctx, t: Tree, bh: nat, top: Node?)
    requires InsertState(h, k, t, bh, top)
    ensures t.Branch? && t.node in h && h[t.node].parent == CtxPtr(k)
    ensures !k.Top? ==> k.node in h && h[k.node].red == k.red
  {
    Look(h, k, t, top);
  }

  lemma InsertGrandparent(h: Heap, k: Ctx, t: Tree, bh: nat, top: Node?)
    requires InsertState(h, k, t, bh, top) && RedFrame(k)
    ensures BlackFrame(k.up) && k.node in h && h[k.node].parent == k.up.node && k.up.node in h
    ensures k.up.InLeft? <==> h[k.up.node].left == k.node
  {
    MoveUp(h, k, t, top);
    Look(h, k, t, top);
    Look(h, k.up, Plug(k, t), top);
  }

  lemma InsertDone(h: Heap, k: Ctx, t: Tree, bh: nat, top: Node?)
    requires InsertState(h, k, t, bh, top) && !RedFrame(k)
    ensures At(h, Top, Fill(k, t), top) && Fill(k, t).Branch? && Fill(k, t).node == top
    ensures IsRedBlack(Blacken(Fill(k, t))) && Inorder(Blacken(Fill(k, t))) == Inorder(Fill(k, t))
  {
    OverTop(k);
    Close(h, Top, k, t, top);
    Look(h, Top, Fill(k, t), top);
    FillFacts(k, t);
    if k.Top? {
      assert Rb(Blacken(t), bh + 1);
    } else {
      FillRb(k, t, bh);
    }
  }

  // Linking and recolouring together, as every user of the tree does them.
  method Insert(node: Node, parent: Node?, slot: Slot, root: Root, ghost k: Ctx)
    requires root.Valid() && root.tree == Fill(k, Leaf) && SlotAt(k, parent, slot) && node !in Nodes(root.tree)
    modifies root, Nodes(root.tree), node
    ensures root.Valid() && root.Order() == Before(k) + [node] + After(k)
    ensures Nodes(root.tree) == old(Nodes(root.tree)) + {node}
  {
    hide *;
    RootIs(root);
    ghost var s, t := Nodes(root.tree) + {node}, Branch(Leaf, node, true, Leaf);
    SameInBoth(s, node, Nodes(root.tree));
    LinkStart(Snap(Nodes(root.tree)), Snap(s), k, node, root.node);
    ghost var bh := LinkBalance(k, node);
    LinkNode(node, parent, slot, root, s, k);
    StateIs(Snap(s), k, t, bh, root.node);
    ghost var whole := InsertColor(node, root, s, k, t, bh);
    SameOrderSameNodes(whole, Fill(k, t));
    Resnap(s, whole, root.node);
    root.tree := whole;
    RootIs(root);
  }

  // (Unfolds the definitions.)
  lemma RootIs(root: Root)
    ensures root.Valid() <==> At(Snap(Nodes(root.tree)), Top, root.tree, root.node) && IsRedBlack(root.tree)
    ensures root.Order() == Inorder(root.tree)
  {
  }

  lemma SameInBoth(s: set<Node>, node: Node, nodes: set<Node>)
    requires s == nodes + {node}
    ensures Same(Snap(nodes), Snap(s), nodes)
  {
  }

  lemma StateIs(h: Heap, k: Ctx, t: Tree, bh: nat, top: Node?)
    requires At(h, k, t, top) && Rb(t, bh) && RbCtx(k, bh) && t.Branch? && t.red
    ensures InsertState(h, k, t, bh, top)
  {
    hide At, Rb, RbCtx;
  }

  lemma LinkStart(h: Heap, h': Heap, k: Ctx, node: Node, top: Node?)
    requires At(h, Top, Fill(k, Leaf), top) && Same(h, h', Nodes(Fill(k, Leaf)))
    ensures At(h', k, Leaf, top) && CtxNodes(k) == Nodes(Fill(k, Leaf))
    ensures Nodes(Fill(k, Branch(Leaf, node, true, Leaf))) == CtxNodes(k) + {node}
    ensures Inorder(Fill(k, Branch(Leaf, node, true, Leaf))) == Before(k) + [node] + After(k)
  {
    FillFacts(k, Leaf);
    FillFacts(k, Branch(Leaf, node, true, Leaf));
    AtSame(h, h', Top, Fill(k, Leaf), top);
    Open(h', Top, k, Leaf, top);
    OverTop(k);
  }

  lemma LinkBalance(k: Ctx, node: Node) returns (bh: nat)
    requires IsRedBlack(Fill(k, Leaf))
    ensures Rb(Branch(Leaf, node, true, Leaf), bh) && RbCtx(k, bh)
  {
    var hh: nat :| Rb(Fill(k, Leaf), hh);
    bh := UnfillRb(k, Leaf, hh);
  }
}
