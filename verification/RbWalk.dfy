/** Traversal: `rb_first`, `rb_last`, `rb_next` and `rb_prev` of external/mtd-utils/rbtree.c. */
module RbWalk {
  import opened RbTree

  // --------------------------------------------------------------- traversal

  // The first node of a subtree: the loop of `rb_first`, also run by `rb_next`.
  method Leftmost(n0: Node, ghost s: set<Node>, ghost k0: Ctx, ghost t: Tree, ghost top: Node?) returns (n: Node)
    requires At(Snap(s), k0, t, top) && t.Branch? && t.node == n0
    ensures At(Snap(s), k0, t, top)
    ensures Inorder(t) != [] && n == Inorder(t)[0]
  {
    n := n0;
    ghost var h, k, sub := Snap(s), k0, t;
    hide At;
    Look(h, k, sub, top);
    while n.left != null
      invariant h == Snap(s) && At(h, k, sub, top) && sub.Branch? && sub.node == n && n in h
      invariant n.left == Ptr(sub.left)
      invariant Inorder(sub) != [] && Inorder(t) != [] && Inorder(sub)[0] == Inorder(t)[0]
      decreases sub
    {
      MoveLeft(h, k, sub, top);
      LookAround(h, k, sub, top);
      k := InLeft(sub.node, sub.red, sub.right, k);
      sub := sub.left;
      n := n.left;
      Look(h, k, sub, top);
    }
  }

  // `rb_first`.
  method First(root: Root) returns (r: Node?)
    requires root.Valid()
    ensures root.Valid()
    ensures root.Order() == [] ==> r == null
    ensures root.Order() != [] ==> r == root.Order()[0]
  {
    r := root.node;
    if r == null {
      return;
    }
    r := Leftmost(r, Nodes(root.tree), Top, root.tree, root.node);
  }

  lemma AtTop(h: Heap, k: Ctx, t: Tree, top: Node?)
    requires At(h, k, t, top)
    ensures At(h, Top, Fill(k, t), top)
  {
    OverTop(k);
    Close(h, Top, k, t, top);
  }

  lemma NotOwnParent(node: Node, h: Heap, t: Tree, top: Node?)
    requires At(h, Top, t, top)
    ensures node in Nodes(t) ==> node in h && h[node].parent != node
  {
    if node in Nodes(t) {
      var k, sub := FocusAt(node, h, t, top);
      LookAround(h, k, sub, top);
    }
  }

  // `rb_next`: down from the right child, or else up to the first ancestor entered from its left.
  method Next(node0: Node, root: Root) returns (r: Node?)
    requires root.Valid() && (node0 in Nodes(root.tree) || node0.parent == node0)
    ensures root.Valid()
    ensures node0.parent == node0 ==> r == null
    ensures node0 in Nodes(root.tree) ==> node0.parent != node0 && node0 in root.Order()
    ensures node0 in Nodes(root.tree) ==> var p := Pos(root.Order(), node0);
              r == if p + 1 < |root.Order()| then root.Order()[p + 1] else null
  {
    var node := node0;
    ghost var s := Nodes(root.tree);
    ghost var h, top := Snap(s), root.node;
    NotOwnParent(node, h, root.tree, top);
    if node.parent == node {
      r := null;
      return;
    }
    ghost var k, t := FocusAt(node, h, root.tree, top);
    ghost var a, b := Before(k) + Inorder(t.left), Inorder(t.right) + After(k);
    FocusOrder(k, t);
    hide At, Nodes, CtxNodes, Fill, Rb, IsRedBlack, Rep, RepCtx;
    r := NextWithin(node, s, k, t, top);
    AtTop(Snap(s), k, t, top);
    NextIs(root.tree, a, node0, b, r);
    assert root.Order() == Inorder(root.tree);
  }

  method NextWithin(node: Node, ghost s: set<Node>, ghost k: Ctx, ghost t: Tree, ghost top: Node?) returns (r: Node?)
    requires At(Snap(s), k, t, top) && t.Branch? && t.node == node
    ensures At(Snap(s), k, t, top)
    ensures var b := Inorder(t.right) + After(k); r == if b == [] then null else b[0]
  {
    hide At, Nodes, CtxNodes, Fill, Rb, IsRedBlack, Rep, RepCtx;
    ghost var h := Snap(s);
    LookAround(h, k, t, top);
    if node.right != null {
      MoveRight(h, k, t, top);
      r := Leftmost(node.right, s, InRight(t.left, t.node, t.red, k), t.right, top);
      MoveUp(Snap(s), InRight(t.left, t.node, t.red, k), t.right, top);
    } else {
      r := NextAbove(node, s, k, t, top);
    }
  }

  method NextAbove(node0: Node, ghost s: set<Node>, ghost k: Ctx, ghost t: Tree, ghost top: Node?)
    returns (parent: Node?)
    requires At(Snap(s), k, t, top) && t.Branch? && t.node == node0
    ensures At(Snap(s), k, t, top)
    ensures parent == if After(k) == [] then null else After(k)[0]
  {
    hide At, Nodes, CtxNodes, Rep, RepCtx;
    ghost var h, k1, t1 := Snap(s), k, t;
    LookAround(h, k, t, top);
    var node := node0;
    parent := node.parent;
    while parent != null && node == parent.right
      invariant h == Snap(s) && At(h, k1, t1, top) && t1.Branch? && t1.node == node && node in s
      invariant parent == node.parent && parent == CtxPtr(k1) && (parent != null ==> parent in s)
      invariant parent != null ==> (parent.right == node <==> k1.InRight?)
      invariant After(k1) == After(k)
      decreases k1
    {
      MoveUp(h, k1, t1, top);
      k1, t1 := k1.up, Plug(k1, t1);
      LookAround(h, k1, t1, top);
      node := parent;
      parent := node.parent;
    }
  }

  lemma NextIs(t: Tree, a: seq<Node>, node: Node, b: seq<Node>, r: Node?)
    requires Distinct(t) && Inorder(t) == a + [node] + b
    requires r == if b == [] then null else b[0]
    ensures node in Inorder(t)
    ensures var p := Pos(Inorder(t), node); r == if p + 1 < |Inorder(t)| then Inorder(t)[p + 1] else null
  {
    InorderDistinct(t);
    assert Inorder(t)[|a|] == node;
  }

  // The last node of a subtree: the loop of `rb_last`, also run by `rb_prev`.
  method Rightmost(n0: Node, ghost s: set<Node>, ghost k0: Ctx, ghost t: Tree, ghost top: Node?) returns (n: Node)
    requires At(Snap(s), k0, t, top) && t.Branch? && t.node == n0
    ensures At(Snap(s), k0, t, top)
    ensures Inorder(t) != [] && n == Inorder(t)[|Inorder(t)| - 1]
  {
    n := n0;
    ghost var h, k, sub := Snap(s), k0, t;
    hide At;
    Look(h, k, sub, top);
    while n.right != null
      invariant h == Snap(s) && At(h, k, sub, top) && sub.Branch? && sub.node == n && n in h
      invariant n.right == Ptr(sub.right)
      invariant Inorder(sub) != [] && Inorder(t) != []
      invariant Inorder(sub)[|Inorder(sub)| - 1] == Inorder(t)[|Inorder(t)| - 1]
      decreases sub
    {
      MoveRight(h, k, sub, top);
      LookAround(h, k, sub, top);
      k := InRight(sub.left, sub.node, sub.red, k);
      sub := sub.right;
      n := n.right;
      Look(h, k, sub, top);
    }
  }

  // `rb_last`.
  method Last(root: Root) returns (r: Node?)
    requires root.Valid()
    ensures root.Valid()
    ensures root.Order() == [] ==> r == null
    ensures root.Order() != [] ==> r == root.Order()[|root.Order()| - 1]
  {
    r := root.node;
    if r == null {
      return;
    }
    r := Rightmost(r, Nodes(root.tree), Top, root.tree, root.node);
  }

  // `rb_prev`: down from the left child, or else up to the first ancestor entered from its right.
  method Prev(node0: Node, root: Root) returns (r: Node?)
    requires root.Valid() && (node0 in Nodes(root.tree) || node0.parent == node0)
    ensures root.Valid()
    ensures node0.parent == node0 ==> r == null
    ensures node0 in Nodes(root.tree) ==> node0.parent != node0 && node0 in root.Order()
    ensures node0 in Nodes(root.tree) ==> var p := Pos(root.Order(), node0);
              r == if p > 0 then root.Order()[p - 1] else null
  {
    var node := node0;
    ghost var s := Nodes(root.tree);
    ghost var h, top := Snap(s), root.node;
    NotOwnParent(node, h, root.tree, top);
    if node.parent == node {
      r := null;
      return;
    }
    ghost var k, t := FocusAt(node, h, root.tree, top);
    ghost var a, b := Before(k) + Inorder(t.left), Inorder(t.right) + After(k);
    FocusOrder(k, t);
    hide At, Nodes, CtxNodes, Fill, Rb, IsRedBlack, Rep, RepCtx;
    r := PrevWithin(node, s, k, t, top);
    AtTop(Snap(s), k, t, top);
    PrevIs(root.tree, a, node0, b, r);
    assert root.Order() == Inorder(root.tree);
  }

  method PrevWithin(node: Node, ghost s: set<Node>, ghost k: Ctx, ghost t: Tree, ghost top: Node?) returns (r: Node?)
    requires At(Snap(s), k, t, top) && t.Branch? && t.node == node
    ensures At(Snap(s), k, t, top)
    ensures var a := Before(k) + Inorder(t.left); r == if a == [] then null else a[|a| - 1]
  {
    hide At, Nodes, CtxNodes, Fill, Rb, IsRedBlack, Rep, RepCtx;
    ghost var h := Snap(s);
    LookAround(h, k, t, top);
    if node.left != null {
      MoveLeft(h, k, t, top);
      r := Rightmost(node.left, s, InLeft(t.node, t.red, t.right, k), t.left, top);
      MoveUp(Snap(s), InLeft(t.node, t.red, t.right, k), t.left, top);
    } else {
      r := PrevAbove(node, s, k, t, top);
    }
  }

  method PrevAbove(node0: Node, ghost s: set<Node>, ghost k: Ctx, ghost t: Tree, ghost top: Node?)
    returns (parent: Node?)
    requires At(Snap(s), k, t, top) && t.Branch? && t.node == node0
    ensures At(Snap(s), k, t, top)
    ensures parent == if Before(k) == [] then null else Before(k)[|Before(k)| - 1]
  {
    hide At, Nodes, CtxNodes, Rep, RepCtx;
    ghost var h, k1, t1 := Snap(s), k, t;
    LookAround(h, k, t, top);
    var node := node0;
    parent := node.parent;
    while parent != null && node == parent.left
      invariant h == Snap(s) && At(h, k1, t1, top) && t1.Branch? && t1.node == node && node in s
      invariant parent == node.parent && parent == CtxPtr(k1) && (parent != null ==> parent in s)
      invariant parent != null ==> (parent.left == node <==> k1.InLeft?)
      invariant Before(k1) == Before(k)
      decreases k1
    {
      MoveUp(h, k1, t1, top);
      k1, t1 := k1.up, Plug(k1, t1);
      LookAround(h, k1, t1, top);
      node := parent;
      parent := node.parent;
    }
  }

  lemma PrevIs(t: Tree, a: seq<Node>, node: Node, b: seq<Node>, r: Node?)
    requires Distinct(t) && Inorder(t) == a + [node] + b
    requires r == if a == [] then null else a[|a| - 1]
    ensures node in Inorder(t)
    ensures var p := Pos(Inorder(t), node); r == if p > 0 then Inorder(t)[p - 1] else null
  {
    InorderDistinct(t);
    assert Inorder(t)[|a|] == node;
  }

  lemma OrderFacts(root: Root)
    requires root.Valid()
    ensures var order := root.Order();
      && (forall i :: 0 <= i < |order| ==> order[i] in Nodes(root.tree) && Pos(order, order[i]) == i)
      && (forall i, j :: 0 <= i < j < |order| ==> order[i] != order[j])
  {
    InorderNodes(root.tree);
    InorderDistinct(root.tree);
    hide Inorder, Nodes, At, IsRedBlack;
  }

  // A loop over `rb_first` and `rb_next` meets every node once and in order.
  method Traverse(root: Root) returns (visited: seq<Node>)
    requires root.Valid()
    ensures visited == root.Order()
    ensures forall i, j :: 0 <= i < j < |visited| ==> visited[i] != visited[j]
  {
    hide *;
    OrderFacts(root);
    ghost var order, s := root.Order(), Nodes(root.tree);
    visited := [];
    var n := First(root);
    ghost var i := 0;
    while n != null
      invariant i <= |order| && visited == order[..i]
      invariant n == if i < |order| then order[i] else null
      invariant root.Valid() && order == root.Order() && s == Nodes(root.tree)
      decreases |order| - i
    {
      visited := visited + [n];
      i := i + 1;
      n := Next(n, root);
    }
  }

  // `rb_prev` undoes `rb_next`.
  method NextThenPrev(node: Node, root: Root) returns (next: Node?, back: Node?)
    requires root.Valid() && node in Nodes(root.tree)
    ensures next == null <==> node == root.Order()[|root.Order()| - 1]
    ensures next != null ==> next in Nodes(root.tree) && back == node
  {
    InorderNodes(root.tree);
    InorderDistinct(root.tree);
    ghost var order := root.Order();
    assert order == Inorder(root.tree);
    hide At, IsRedBlack, Inorder, Nodes;
    next := Next(node, root);
    back := null;
    if next != null {
      assert order[Pos(order, node) + 1] == next;
      back := Prev(next, root);
    }
  }
}
