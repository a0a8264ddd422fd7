/**
 Inode numbering in mkfs.jffs2 (external/mtd-utils/mkfs.jffs2.c): `find_hardlink`
 over the red-black tree, and the populate run that uses it.
 */
module Hardlinks {
  import opened RbTree
  import RbInsert

  type Key = (nat, nat)

  predicate Less(a: Key, b: Key) {
    a.0 < b.0 || (a.0 == b.0 && a.1 < b.1)
  }

  datatype FileType = Directory | Socket | Fifo | CharDevice | BlockDevice | SymLink | Regular | UnknownMode

  // `struct filesystem_entry`; `tooLarge` stands for st_size >= JFFS2_MAX_FILE_SIZE.
  class Entry {
    const stDev: nat
    const stIno: nat
    const nlink: nat
    const mode: FileType
    const tooLarge: bool
    const hardlinkRb: Node
    var ino: nat

    constructor (stDev: nat, stIno: nat, nlink: nat, mode: FileType, tooLarge: bool, hardlinkRb: Node)
      ensures this.stDev == stDev && this.stIno == stIno && this.nlink == nlink && this.mode == mode
      ensures this.tooLarge == tooLarge && this.hardlinkRb == hardlinkRb && ino == 0
    {
      this.stDev, this.stIno, this.nlink, this.mode := stDev, stIno, nlink, mode;
      this.tooLarge, this.hardlinkRb := tooLarge, hardlinkRb;
      ino := 0;
    }

    function Key(): (k: Key)
      ensures k.0 == stDev && k.1 == stIno
    {
      (stDev, stIno)
    }

    // An inode number is given and an inode node is written for such an entry.
    predicate Supported() {
      mode != UnknownMode && !(mode == Regular && tooLarge)
    }
  }

  // `rb_entry`: which entry a tree node is embedded in.
  type Owner = map<Node, Entry>

  ghost predicate Embeds(owner: Owner) {
    forall n :: n in owner ==> owner[n].hardlinkRb == n
  }

  ghost function KeyOf(owner: Owner, n: Node): Key {
    if n in owner then owner[n].Key() else (0, 0)
  }

  // The tree keeps larger keys to the left.
  ghost predicate Descending(owner: Owner, order: seq<Node>) {
    forall i, j :: 0 <= i < j < |order| ==> Less(KeyOf(owner, order[j]), KeyOf(owner, order[i]))
  }

  ghost predicate AllAbove(owner: Owner, s: seq<Node>, key: Key) {
    forall i :: 0 <= i < |s| ==> Less(key, KeyOf(owner, s[i]))
  }

  ghost predicate AllBelow(owner: Owner, s: seq<Node>, key: Key) {
    forall i :: 0 <= i < |s| ==> Less(KeyOf(owner, s[i]), key)
  }

  lemma DescendingParts(owner: Owner, a: seq<Node>, n: Node, b: seq<Node>)
    requires Descending(owner, a + [n] + b)
    ensures AllAbove(owner, a, KeyOf(owner, n)) && AllBelow(owner, b, KeyOf(owner, n))
  {
    var o := a + [n] + b;
    assert o[|a|] == n;
    assert forall i :: 0 <= i < |a| ==> o[i] == a[i];
    assert forall i :: 0 <= i < |b| ==> o[|a| + 1 + i] == b[i];
  }

  lemma DescendingInsert(owner: Owner, a: seq<Node>, n: Node, b: seq<Node>)
    requires Descending(owner, a + b) && AllAbove(owner, a, KeyOf(owner, n)) && AllBelow(owner, b, KeyOf(owner, n))
    ensures Descending(owner, a + [n] + b)
  {
    var o, o' := a + b, a + [n] + b;
    forall i, j | 0 <= i < j < |o'| ensures Less(KeyOf(owner, o'[j]), KeyOf(owner, o'[i])) {
      if i != |a| && j != |a| {
        var i', j' := if i < |a| then i else i - 1, if j < |a| then j else j - 1;
        assert o'[i] == o[i'] && o'[j] == o[j'];
      }
    }
  }

  // Everything left of (right of) the slot reached so far is above (below) the key sought.
  ghost predicate Cornered(owner: Owner, k: Ctx, key: Key) {
    AllAbove(owner, Before(k), key) && AllBelow(owner, After(k), key)
  }

  lemma CornerLeft(owner: Owner, k: Ctx, t: Tree, key: Key)
    requires t.Branch? && Descending(owner, Inorder(Fill(k, t))) && Cornered(owner, k, key)
    requires Less(KeyOf(owner, t.node), key)
    ensures Cornered(owner, InLeft(t.node, t.red, t.right, k), key)
  {
    FocusOrder(k, t);
    DescendingParts(owner, Before(k) + Inorder(t.left), t.node, Inorder(t.right) + After(k));
    var r := Inorder(t.right);
    assert forall i :: 0 <= i < |r| ==> (r + After(k))[i] == r[i];
  }

  lemma CornerRight(owner: Owner, k: Ctx, t: Tree, key: Key)
    requires t.Branch? && Descending(owner, Inorder(Fill(k, t))) && Cornered(owner, k, key)
    requires Less(key, KeyOf(owner, t.node))
    ensures Cornered(owner, InRight(t.left, t.node, t.red, k), key)
  {
    FocusOrder(k, t);
    DescendingParts(owner, Before(k) + Inorder(t.left), t.node, Inorder(t.right) + After(k));
    var b, l := Before(k), Inorder(t.left);
    assert forall i :: 0 <= i < |l| ==> (b + l)[|b| + i] == l[i];
  }

  // The walk has come down `steps` levels to the slot that holds subtree `t`.
  ghost predicate Reached(owner: Owner, h: Heap, tree: Tree, top: Node?, key: Key,
                          k: Ctx, t: Tree, parent: Node?, slot: Slot, steps: nat) {
    && At(h, k, t, top) && Fill(k, t) == tree && RbInsert.SlotAt(k, parent, slot)
    && Cornered(owner, k, key) && steps + Height(t) <= Height(tree)
  }

  lemma ReachedTop(owner: Owner, h: Heap, tree: Tree, top: Node?, key: Key)
    requires At(h, Top, tree, top)
    ensures Reached(owner, h, tree, top, key, Top, tree, null, RootSlot, 0) && top == Ptr(tree)
  {
  }

  lemma ReachedNode(owner: Owner, h: Heap, tree: Tree, top: Node?, key: Key, k: Ctx, t: Tree, parent: Node?,
                    slot: Slot, steps: nat)
    requires Reached(owner, h, tree, top, key, k, t, parent, slot, steps) && Descending(owner, Inorder(tree))
    requires t.Branch?
    ensures t.node in h && h[t.node].left == Ptr(t.left) && h[t.node].right == Ptr(t.right)
    ensures Less(KeyOf(owner, t.node), key) ==>
              Reached(owner, h, tree, top, key, InLeft(t.node, t.red, t.right, k), t.left, t.node, LeftSlot, steps + 1)
    ensures Less(key, KeyOf(owner, t.node)) ==>
              Reached(owner, h, tree, top, key, InRight(t.left, t.node, t.red, k), t.right, t.node, RightSlot,
                      steps + 1)
  {
    hide At, Descending, Cornered;
    Look(h, k, t, top);
    MoveLeft(h, k, t, top);
    MoveRight(h, k, t, top);
    if Less(KeyOf(owner, t.node), key) {
      CornerLeft(owner, k, t, key);
    }
    if Less(key, KeyOf(owner, t.node)) {
      CornerRight(owner, k, t, key);
    }
  }

  // The walk of `find_hardlink`: the node with the key, or the empty slot for it.
  method Search(key: Key, root: Root, owner: Owner)
    returns (found: Node?, parent: Node?, slot: Slot, ghost k: Ctx, ghost steps: nat)
    requires root.Valid() && Nodes(root.tree) <= owner.Keys && Descending(owner, root.Order())
    ensures root.Valid()
    ensures found != null ==>
              found in Nodes(root.tree) && owner[found].stDev == key.0 && owner[found].stIno == key.1
    ensures found == null ==>
              forall n :: n in Nodes(root.tree) ==> owner[n].stDev != key.0 || owner[n].stIno != key.1
    ensures found == null ==> root.tree == Fill(k, Leaf) && RbInsert.SlotAt(k, parent, slot) && Cornered(owner, k, key)
    ensures Pow2((steps + 1) / 2) <= |root.Order()| + 1
  {
    ghost var tree, top, h := root.tree, root.node, Snap(Nodes(root.tree));
    ghost var t := tree;
    k, steps := Top, 0;
    parent, slot, found := null, RootSlot, null;
    var n := root.node;
    HeightBound(tree);
    ReachedTop(owner, h, tree, top, key);
    hide At, IsRedBlack, Descending, Inorder, Nodes, Reached, Height, Pow2, KeyOf, Less;
    while n != null
      invariant root.tree == tree && root.node == top && h == Snap(Nodes(tree))
      invariant Reached(owner, h, tree, top, key, k, t, parent, slot, steps) && Ptr(t) == n
      decreases t
    {
      ReachedNode(owner, h, tree, top, key, k, t, parent, slot, steps);
      var f := owner[n];
      Compare(owner, n, f.Key(), key);
      if Less(f.Key(), key) {
        k, t, steps := InLeft(t.node, t.red, t.right, k), t.left, steps + 1;
        parent, slot, n := n, LeftSlot, n.left;
      } else if Less(key, f.Key()) {
        k, t, steps := InRight(t.left, t.node, t.red, k), t.right, steps + 1;
        parent, slot, n := n, RightSlot, n.right;
      } else {
        found := n;
        break;
      }
    }
    ReachedEnd(owner, h, tree, top, key, k, t, parent, slot, steps);
    if found == null {
      CorneredNone(owner, k, key, tree);
    }
    steps := if found == null then steps else steps + 1;
    Pow2Monotone((steps + 1) / 2, (Height(tree) + 1) / 2);
  }

  lemma ReachedEnd(owner: Owner, h: Heap, tree: Tree, top: Node?, key: Key, k: Ctx, t: Tree, parent: Node?,
                   slot: Slot, steps: nat)
    requires Reached(owner, h, tree, top, key, k, t, parent, slot, steps)
    ensures t.Leaf? ==> tree == Fill(k, Leaf) && RbInsert.SlotAt(k, parent, slot) && Cornered(owner, k, key)
    ensures steps + (if t.Leaf? then 0 else 1) <= Height(tree)
  {
  }

  lemma Compare(owner: Owner, n: Node, a: Key, b: Key)
    requires n in owner && owner[n].Key() == a
    ensures KeyOf(owner, n) == a && (Less(a, b) || Less(b, a) || a == b)
  {
  }

  // A directory with the entries found in it; only directories are descended into.
  datatype Dir = Dir(entry: Entry, files: seq<Dir>)

  ghost function Entries(files: seq<Dir>): set<Entry> {
    set f | f in files :: f.entry
  }

  ghost function Under(files: seq<Dir>): set<Entry>
    decreases files, 0
  {
    if files == [] then {}
    else
      var f := files[|files| - 1];
      Under(files[..|files| - 1]) + if f.entry.mode.Directory? then Below(f) else {}
  }

  ghost function Below(d: Dir): set<Entry>
    decreases d, 1
  {
    Entries(d.files) + Under(d.files)
  }

  // What is below `d`: what its list holds, and what is below the directories in it.
  lemma {:induction false} BelowMeans(d: Dir, e: Entry)
    ensures e in Below(d) <==>
            exists i :: 0 <= i < |d.files|
                        && (d.files[i].entry == e || (d.files[i].entry.mode == Directory && e in Below(d.files[i])))
  {
    UnderMeans(d.files, e);
    hide Under, Below;
    BelowIs(d);
  }

  lemma {:induction false} UnderMeans(files: seq<Dir>, e: Entry)
    ensures e in Under(files) <==>
            exists i :: 0 <= i < |files| && files[i].entry.mode == Directory && e in Below(files[i])
    decreases |files|
  {
    if files != [] {
      var n := |files| - 1;
      UnderMeans(files[..n], e);
      hide Below;
      assert files[n].entry.mode == Directory && e in Below(files[n]) ==> e in Under(files);
      if e in Under(files[..n]) {
        var i :| 0 <= i < n && files[..n][i].entry.mode == Directory && e in Below(files[..n][i]);
        assert files[i] == files[..n][i];
      }
      if i :| 0 <= i < n && files[i].entry.mode == Directory && e in Below(files[i]) {
        assert files[..n][i] == files[i];
      }
    }
  }

  // (Unfolds the definition.)
  lemma BelowIs(d: Dir)
    ensures Below(d) == Entries(d.files) + Under(d.files)
  {
  }

  // No entry occurs twice in the tree.
  ghost predicate TidyUnder(files: seq<Dir>)
    decreases files, 0
  {
    files == [] ||
    var f := files[|files| - 1];
    && TidyUnder(files[..|files| - 1])
    && (f.entry.mode.Directory? ==> Tidy(f) && Under(files[..|files| - 1]) !! Below(f))
  }

  ghost predicate Tidy(d: Dir)
    decreases d, 1
  {
    && (forall i, j :: 0 <= i < j < |d.files| ==> d.files[i].entry != d.files[j].entry)
    && Entries(d.files) !! Under(d.files)
    && TidyUnder(d.files)
  }

  lemma {:induction false} TidyAt(files: seq<Dir>, i: nat)
    requires TidyUnder(files) && i < |files| && files[i].entry.mode.Directory?
    ensures Tidy(files[i]) && Under(files[..i]) !! Below(files[i])
    ensures Under(files[..i + 1]) == Under(files[..i]) + Below(files[i])
    ensures Below(files[i]) <= Under(files)
    decreases |files|
  {
    var n := |files| - 1;
    if i < n {
      TidyAt(files[..n], i);
      assert files[..n][..i] == files[..i] && files[..n][..i + 1] == files[..i + 1];
    } else {
      assert files[..i + 1] == files && files[..i + 1][..i] == files[..i];
    }
  }

  ghost function Numbers(entries: set<Entry>): map<Entry, nat>
    reads entries
  {
    map e | e in entries :: e.ino
  }

  // What the numbers `num` of the entries say after the entries in `visited` have been
  // populated: `nodes` are in the tree, `base` was the highest number before the run.
  ghost predicate Numbering(owner: Owner, nodes: set<Node>, num: map<Entry, nat>, visited: set<Entry>,
                            base: nat, ino: nat, inodes: seq<nat>, dirents: seq<(Entry, nat)>) {
    && visited <= num.Keys && nodes <= owner.Keys && (forall n :: n in nodes ==> owner[n] in visited)
    && base <= ino && |inodes| == ino - base && (forall i :: 0 <= i < |inodes| ==> inodes[i] == base + 1 + i)
    && (forall e :: e in visited && e.Supported() ==> base < num[e] <= ino && (e, num[e]) in dirents)
    && (forall e :: e in num && !(e in visited && e.Supported()) ==> num[e] == 0)
    && Listed(num, visited, dirents)
    && (forall e :: e in visited && e.nlink >= 1 ==> Linked(owner, nodes, num, e))
    && (forall m, n :: m in nodes && n in nodes && m != n && num[owner[m]] != 0 ==> num[owner[m]] != num[owner[n]])
    && (forall e, d :: e in visited && d in visited && e != d && e.nlink == 0 && e.Supported() ==> num[e] != num[d])
  }

  // Every dirent is of an entry that was visited, with its number, and there is one of each at most.
  ghost predicate Listed(num: map<Entry, nat>, visited: set<Entry>, dirents: seq<(Entry, nat)>) {
    && (forall i :: 0 <= i < |dirents| ==>
          && dirents[i].0 in visited && dirents[i].0.Supported() && dirents[i].0 in num
          && dirents[i].1 == num[dirents[i].0])
    && forall i, j :: 0 <= i < j < |dirents| ==> dirents[i].0 != dirents[j].0
  }

  lemma ListedMore(num: map<Entry, nat>, visited: set<Entry>, dirents: seq<(Entry, nat)>, e: Entry, v: nat)
    requires Listed(num, visited, dirents) && e in num && e !in visited && e.Supported()
    ensures Listed(num[e := v], visited + {e}, dirents + [(e, v)])
  {
  }

  // Some entry of the tree stands for `e`: same key, same number.
  ghost predicate Linked(owner: Owner, nodes: set<Node>, num: map<Entry, nat>, e: Entry)
    requires e in num && nodes <= owner.Keys && forall n :: n in nodes ==> owner[n] in num
  {
    exists n :: n in nodes && owner[n].Key() == e.Key() && num[owner[n]] == num[e]
  }

  lemma LinkedAlready(owner: Owner, nodes: set<Node>, num: map<Entry, nat>, visited: set<Entry>,
                      base: nat, ino: nat, inodes: seq<nat>, dirents: seq<(Entry, nat)>, e: Entry, n: Node)
    requires Numbering(owner, nodes, num, visited, base, ino, inodes, dirents)
    requires e in num && e !in visited && e.Supported() && e.nlink >= 1
    requires n in nodes && owner[n].Key() == e.Key() && num[owner[n]] != 0 && owner[n].nlink >= 1
    ensures Numbering(owner, nodes, num[e := num[owner[n]]], visited + {e}, base, ino, inodes,
                      dirents + [(e, num[owner[n]])])
  {
    var num' := num[e := num[owner[n]]];
    ListedMore(num, visited, dirents, e, num[owner[n]]);
    hide Listed;
    forall d | d in visited + {e} && d.nlink >= 1 ensures Linked(owner, nodes, num', d) {
      if d == e {
        assert num'[owner[n]] == num'[e];
      } else {
        assert Linked(owner, nodes, num, d);
        var m :| m in nodes && owner[m].Key() == d.Key() && num[owner[m]] == num[d];
        assert num'[owner[m]] == num'[d];
      }
    }
  }

  lemma LinkedBy(owner: Owner, nodes: set<Node>, num: map<Entry, nat>, d: Entry, m: Node)
    requires d in num && nodes <= owner.Keys && forall n :: n in nodes ==> owner[n] in num
    requires m in nodes && owner[m] == d
    ensures Linked(owner, nodes, num, d)
  {
  }

  lemma LinkedStill(owner: Owner, nodes: set<Node>, nodes': set<Node>, num: map<Entry, nat>, e: Entry, v: nat, d: Entry)
    requires d in num && nodes <= nodes' <= owner.Keys && forall n :: n in nodes ==> owner[n] in num
    requires (forall n :: n in nodes' ==> owner[n] in num[e := v]) && d != e
    requires (forall n :: n in nodes ==> owner[n] != e) && Linked(owner, nodes, num, d)
    ensures Linked(owner, nodes', num[e := v], d)
  {
    var m :| m in nodes && owner[m].Key() == d.Key() && num[owner[m]] == num[d];
    assert num[e := v][owner[m]] == num[e := v][d];
  }

  lemma Written(owner: Owner, nodes: set<Node>, nodes': set<Node>, num: map<Entry, nat>, visited: set<Entry>,
                base: nat, ino: nat, inodes: seq<nat>, dirents: seq<(Entry, nat)>, e: Entry)
    requires Numbering(owner, nodes, num, visited, base, ino, inodes, dirents)
    requires e in num && e !in visited && e.Supported() && e.hardlinkRb in owner && owner[e.hardlinkRb] == e
    requires nodes' == if e.nlink >= 1 then nodes + {e.hardlinkRb} else nodes
    ensures Numbering(owner, nodes', num[e := ino + 1], visited + {e}, base, ino + 1, inodes + [ino + 1],
                      dirents + [(e, ino + 1)])
  {
    ListedMore(num, visited, dirents, e, ino + 1);
    hide Linked, Listed;
    var num' := num[e := ino + 1];
    forall d | d in visited + {e} && d.nlink >= 1 ensures Linked(owner, nodes', num', d) {
      if d == e {
        LinkedBy(owner, nodes', num', d, e.hardlinkRb);
      } else {
        LinkedStill(owner, nodes, nodes', num, e, ino + 1, d);
      }
    }
    assert forall d :: d in visited ==> num[d] <= ino;
    WrittenApart(owner, nodes, nodes', num, visited, ino, e);
  }

  // The new number is no other entry's.
  lemma WrittenApart(owner: Owner, nodes: set<Node>, nodes': set<Node>, num: map<Entry, nat>, visited: set<Entry>,
                     ino: nat, e: Entry)
    requires visited <= num.Keys && e in num && e !in visited && nodes <= owner.Keys
    requires forall n :: n in nodes ==> owner[n] in visited
    requires forall d :: d in visited ==> num[d] <= ino
    requires e.hardlinkRb in owner && owner[e.hardlinkRb] == e
    requires nodes' == if e.nlink >= 1 then nodes + {e.hardlinkRb} else nodes
    requires forall m, n :: m in nodes && n in nodes && m != n && num[owner[m]] != 0 ==> num[owner[m]] != num[owner[n]]
    ensures nodes' <= owner.Keys && forall n :: n in nodes' ==> owner[n] in visited + {e}
    ensures var num' := num[e := ino + 1];
      forall m, n :: m in nodes' && n in nodes' && m != n && num'[owner[m]] != 0 ==> num'[owner[m]] != num'[owner[n]]
  {
    var num' := num[e := ino + 1];
    forall m, n | m in nodes' && n in nodes' && m != n && num'[owner[m]] != 0
      ensures num'[owner[m]] != num'[owner[n]]
    {
      if m in nodes { assert num'[owner[m]] == num[owner[m]] <= ino; }
      if n in nodes { assert num'[owner[n]] == num[owner[n]] <= ino; }
    }
  }

  lemma Passed(owner: Owner, nodes: set<Node>, nodes': set<Node>, num: map<Entry, nat>, visited: set<Entry>,
               base: nat, ino: nat, inodes: seq<nat>, dirents: seq<(Entry, nat)>, e: Entry)
    requires Numbering(owner, nodes, num, visited, base, ino, inodes, dirents)
    requires e in num && e !in visited && !e.Supported() && e.hardlinkRb in owner && owner[e.hardlinkRb] == e
    requires nodes' == nodes || (e.nlink >= 1 && nodes' == nodes + {e.hardlinkRb})
    requires e.nlink >= 1 ==>
               e.hardlinkRb in nodes' || exists n :: n in nodes && owner[n].Key() == e.Key() && num[owner[n]] == 0
    ensures Numbering(owner, nodes', num, visited + {e}, base, ino, inodes, dirents)
  {
    forall d | d in visited + {e} && d.nlink >= 1 ensures Linked(owner, nodes', num, d) {
      if d == e {
        if e.hardlinkRb in nodes' {
          assert owner[e.hardlinkRb].Key() == e.Key();
        } else {
          var n :| n in nodes && owner[n].Key() == e.Key() && num[owner[n]] == 0;
        }
      } else {
        assert Linked(owner, nodes, num, d);
        var m :| m in nodes && owner[m].Key() == d.Key() && num[owner[m]] == num[d];
      }
    }
  }

  // The tree is sorted and holds entries seen already; the host's files are consistent.
  ghost predicate TreeOk(owner: Owner, root: Root, rbs: set<Node>, entries: set<Entry>, visited: set<Entry>)
    reads root, rbs
  {
    && Nodes(root.tree) <= rbs && root.Valid() && Descending(owner, root.Order()) && Embeds(owner)
    && Nodes(root.tree) <= owner.Keys
    && (forall e :: e in entries ==> e.hardlinkRb in owner && owner[e.hardlinkRb] == e && e.hardlinkRb in rbs)
    && (forall n :: n in Nodes(root.tree) ==> owner[n] in visited && owner[n].nlink >= 1)
    && visited <= entries
    // one file of the host has one mode and one size
    && (forall e, d :: e in entries && d in entries && e.Key() == d.Key() ==> e.Supported() == d.Supported())
  }

  // The state of a populate run.
  class Mkfs {
    const owner: Owner
    const hardlinks: Root
    ghost const entries: set<Entry>
    ghost const rbs: set<Node>      // the tree nodes embedded in the entries
    ghost const base: nat
    var ino: nat
    var inodes: seq<nat>            // whose inode data was written, in order
    var dirents: seq<(Entry, nat)>  // the entries written, with the number put into each dirent
    ghost var visited: set<Entry>

    ghost predicate Numbered()
      reads this, hardlinks, entries
    {
      Numbering(owner, Nodes(hardlinks.tree), Numbers(entries), visited, base, ino, inodes, dirents)
    }

    ghost predicate Valid()
      reads this, hardlinks, rbs, entries
    {
      TreeOk(owner, hardlinks, rbs, entries, visited) && Numbered()
    }

    // The start of `create_target_filesystem`; `start` is the highest number already in use.
    constructor (owner: Owner, ghost entries: set<Entry>, start: nat)
      requires Embeds(owner) && forall e :: e in entries ==>
               e.ino == 0 && e.hardlinkRb in owner && owner[e.hardlinkRb] == e
      requires forall e, d :: e in entries && d in entries && e.Key() == d.Key() ==> e.Supported() == d.Supported()
      ensures Valid() && visited == {} && this.entries == entries && this.owner == owner
      ensures fresh(this) && fresh(hardlinks) && hardlinks.tree == Leaf
    {
      this.owner, this.entries, this.rbs := owner, entries, set e | e in entries :: e.hardlinkRb;
      ino := if start == 0 then 1 else start;
      base := if start == 0 then 1 else start;
      inodes, dirents, visited := [], [], {};
      hardlinks := new Root();
    }

    // Hard links, and only they, share a number; the data of each number is written once.
    lemma HardLinksShare(e: Entry, d: Entry)
      requires Valid() && e in visited && d in visited && e != d
      requires e.mode != UnknownMode && !(e.mode == Regular && e.tooLarge)
      requires d.mode != UnknownMode && !(d.mode == Regular && d.tooLarge)
      ensures e.nlink >= 1 && d.nlink >= 1 ==> (e.ino == d.ino <==> e.stDev == d.stDev && e.stIno == d.stIno)
      ensures e.nlink == 0 ==> e.ino != d.ino
      ensures base < e.ino <= ino && exists i :: 0 <= i < |inodes| && inodes[i] == e.ino
      ensures (e, e.ino) in dirents && forall i, j :: 0 <= i < j < |inodes| ==> inodes[i] != inodes[j]
    {
      var num, nodes := Numbers(entries), Nodes(hardlinks.tree);
      assert num[e] == e.ino && num[d] == d.ino;
      assert inodes[e.ino - base - 1] == e.ino;
      if e.nlink >= 1 && d.nlink >= 1 {
        assert Linked(owner, nodes, num, e) && Linked(owner, nodes, num, d);
        var m :| m in nodes && owner[m].Key() == e.Key() && num[owner[m]] == num[e];
        var n :| n in nodes && owner[n].Key() == d.Key() && num[owner[n]] == num[d];
        if m != n {
          KeysDiffer(owner, hardlinks.tree, m, n);
        }
      }
    }

    // Every entry that was visited has just one dirent, with its number; but one of an unknown mode, or a regular file
    // that is too large, has none, and no number.
    lemma OneDirent(e: Entry)
      requires Valid() && e in visited
      ensures e.mode == UnknownMode || (e.mode == Regular && e.tooLarge) ==>
        e.ino == 0 && forall i :: 0 <= i < |dirents| ==> dirents[i].0 != e
      ensures e.mode != UnknownMode && !(e.mode == Regular && e.tooLarge) ==>
        exists k :: 0 <= k < |dirents| && dirents[k] == (e, e.ino)
          && forall i :: 0 <= i < |dirents| && dirents[i].0 == e ==> i == k
    {
      assert Numbers(entries)[e] == e.ino;
    }

    // No entry has one that was not visited.
    lemma OnlyVisited()
      requires Valid()
      ensures forall i :: 0 <= i < |dirents| ==> dirents[i].0 in visited
    {
      hide TreeOk;
    }

    // `find_hardlink`: the number of an entry with the same device and inode, or 0 after linking `e`.
    method FindHardlink(e: Entry) returns (r: nat)
      requires TreeOk(owner, hardlinks, rbs, entries, visited) && e in visited && e.nlink >= 1
      requires e.hardlinkRb !in Nodes(hardlinks.tree)
      modifies hardlinks, rbs
      ensures TreeOk(owner, hardlinks, rbs, entries, visited)
      ensures Found(owner, old(Nodes(hardlinks.tree)), Nodes(hardlinks.tree), Numbers(entries), e, r)
    {
      ghost var order, tree := hardlinks.Order(), hardlinks.tree;
      var found, parent, slot;
      ghost var k, steps;
      found, parent, slot, k, steps := Search(e.Key(), hardlinks, owner);
      if found != null {
        r := owner[found].ino;
        return;
      }
      CorneredFresh(owner, k, e.hardlinkRb, tree);
      RbInsert.Insert(e.hardlinkRb, parent, slot, hardlinks, k);
      r := 0;
    }

    ghost method Mark(e: Entry)
      requires TreeOk(owner, hardlinks, rbs, entries, visited) && e in entries
      modifies `visited
      ensures visited == old(visited) + {e} && TreeOk(owner, hardlinks, rbs, entries, visited)
      ensures Numbers(entries) == old(Numbers(entries))
    {
      visited := visited + {e};
    }

    method SetNumber(e: Entry, r: nat)
      requires e in entries && TreeOk(owner, hardlinks, rbs, entries, visited)
      modifies e`ino
      ensures TreeOk(owner, hardlinks, rbs, entries, visited) && e.ino == r
      ensures Numbers(entries) == old(Numbers(entries))[e := r]
      ensures old(e.ino) == r ==> Numbers(entries) == old(Numbers(entries))
    {
      e.ino := r;
    }

    // The condition on `find_hardlink`: is the inode written already?
    method Lookup(e: Entry) returns (linked: bool)
      requires TreeOk(owner, hardlinks, rbs, entries, visited) && e in visited && e.ino == 0
      requires e.hardlinkRb !in Nodes(hardlinks.tree)
      modifies hardlinks, rbs, e`ino
      ensures TreeOk(owner, hardlinks, rbs, entries, visited)
      ensures LookedUp(owner, old(Nodes(hardlinks.tree)), Nodes(hardlinks.tree), old(Numbers(entries)), e, e.ino,
                       linked)
      ensures Numbers(entries) == if linked then old(Numbers(entries))[e := e.ino] else old(Numbers(entries))
      ensures !linked ==> e.ino == 0
    {
      TreeLooks(owner, hardlinks, rbs, entries, visited, e);
      ghost var num, nodes := Numbers(entries), Nodes(hardlinks.tree);
      linked := false;
      if e.nlink >= 1 {
        var r := FindHardlink(e);
        FoundLooked(owner, nodes, Nodes(hardlinks.tree), num, e, r);
        hide TreeOk, Nodes, Found, LookedUp, Numbers;
        SetNumber(e, r);
        linked := e.ino != 0;
      }
    }

    // A further dirent for an inode that is written already.
    method WriteDirent(e: Entry)
      requires e in entries && TreeOk(owner, hardlinks, rbs, entries, visited)
      modifies `dirents
      ensures TreeOk(owner, hardlinks, rbs, entries, visited) && Numbers(entries) == old(Numbers(entries))
      ensures dirents == old(dirents) + [(e, e.ino)]
    {
      dirents := dirents + [(e, e.ino)];
    }

    // The writers `write_pipe`, `write_special_file`, `write_symlink` and `write_regular_file`.
    method WriteInode(e: Entry)
      requires e in entries && TreeOk(owner, hardlinks, rbs, entries, visited)
      modifies `ino, `inodes, `dirents, e`ino
      ensures TreeOk(owner, hardlinks, rbs, entries, visited)
      ensures ino == old(ino) + 1 && Numbers(entries) == old(Numbers(entries))[e := ino]
      ensures inodes == old(inodes) + [ino] && dirents == old(dirents) + [(e, ino)]
    {
      ino := ino + 1;
      e.ino := ino;
      dirents := dirents + [(e, e.ino)];
      inodes := inodes + [e.ino];
    }

    // The switch over the file type.
    method WriteByMode(e: Entry)
      requires e in entries && e.ino == 0 && TreeOk(owner, hardlinks, rbs, entries, visited)
      modifies `ino, `inodes, `dirents, e`ino
      ensures TreeOk(owner, hardlinks, rbs, entries, visited)
      ensures Wrote(old(Numbers(entries)), Numbers(entries), old(ino), ino, old(inodes), inodes, old(dirents),
                    dirents, e)
    {
      match e.mode {
        case UnknownMode =>
        case Regular =>
          if !e.tooLarge {
            WriteInode(e);
          }
        case _ => WriteInode(e);
      }
    }

    // One round of the first loop of `recursive_populate_directory`: what it does to the fields.
    method Step(e: Entry) returns (linked: bool, ghost r: nat)
      requires TreeOk(owner, hardlinks, rbs, entries, visited) && e in visited && e.ino == 0
      requires e.hardlinkRb !in Nodes(hardlinks.tree)
      modifies hardlinks, rbs, `ino, `inodes, `dirents, e`ino
      ensures TreeOk(owner, hardlinks, rbs, entries, visited)
      ensures LookedUp(owner, old(Nodes(hardlinks.tree)), Nodes(hardlinks.tree), old(Numbers(entries)), e, r, linked)
      ensures linked ==> Numbers(entries) == old(Numbers(entries))[e := r] && ino == old(ino) && inodes == old(inodes)
      ensures linked ==> dirents == old(dirents) + [(e, r)]
      ensures !linked ==> Wrote(old(Numbers(entries)), Numbers(entries), old(ino), ino, old(inodes), inodes,
                                old(dirents), dirents, e)
    {
      TreeLooks(owner, hardlinks, rbs, entries, visited, e);
      hide TreeOk, Nodes, LookedUp, Wrote, Numbers;
      linked := Lookup(e);
      r := e.ino;
      if linked {
        WriteDirent(e);
      } else {
        WriteByMode(e);
      }
    }

    // ... and what that means for the numbering.
    method Visit(e: Entry)
      requires Valid() && e in entries - visited
      modifies this, hardlinks, rbs, e`ino
      ensures Valid() && visited == old(visited) + {e}
    {
      ghost var num, nodes, seen := Numbers(entries), Nodes(hardlinks.tree), visited;
      VisitStart(owner, hardlinks, rbs, entries, visited, num, base, ino, inodes, dirents, e);
      hide Numbering, TreeOk, Nodes, LookedUp, Wrote, Unvisited, Numbers;
      Mark(e);
      var linked;
      ghost var r;
      linked, r := Step(e);
      VisitEnd(owner, nodes, Nodes(hardlinks.tree), num, Numbers(entries), seen, base, old(ino), ino,
               old(inodes), inodes, old(dirents), dirents, e, r, linked);
    }

    // `recursive_populate_directory`: first everything in the directory, then its subdirectories.
    method Populate(d: Dir)
      requires Valid() && Ahead(d, entries, visited)
      modifies this, hardlinks, rbs, entries
      ensures Valid() && visited == old(visited) + Below(d)
      decreases d, 1
    {
      PopulateStart(d, entries, visited);
      ghost var seen := visited;
      VisitAll(d.files);
      Descend(d, seen);
    }

    // The second loop of `recursive_populate_directory`.
    method Descend(d: Dir, ghost seen: set<Entry>)
      requires Valid() && Ahead(d, entries, seen) && visited == SeenIn(d, 0, seen)
      modifies this, hardlinks, rbs, entries
      ensures Valid() && visited == seen + Below(d)
      decreases d, 0
    {
      PopulateEnd(d, entries, seen);
      hide Below, Ahead, SeenIn, TreeOk, Numbering;
      var i := 0;
      while i < |d.files|
        invariant i <= |d.files| && Valid() && visited == SeenIn(d, i, seen)
      {
        var f := d.files[i];
        PopulateStep(d, i, entries, seen);
        if f.entry.mode == Directory && f.files != [] {
          Populate(f);
        }
        i := i + 1;
      }
    }

    method VisitAll(files: seq<Dir>)
      requires Valid() && Entries(files) <= entries && Entries(files) !! visited
      requires forall i, j :: 0 <= i < j < |files| ==> files[i].entry != files[j].entry
      modifies this, hardlinks, rbs, entries
      ensures Valid() && visited == old(visited) + Entries(files)
    {
      ghost var seen := visited;
      var i := 0;
      while i < |files|
        invariant i <= |files| && Valid() && visited == seen + Entries(files[..i])
      {
        EntriesStep(files, i);
        Visit(files[i].entry);
        i := i + 1;
      }
      assert files[..i] == files;
    }
  }

  lemma KeysDiffer(owner: Owner, tree: Tree, m: Node, n: Node)
    requires Descending(owner, Inorder(tree)) && m in Nodes(tree) && n in Nodes(tree) && m != n
    ensures KeyOf(owner, m) != KeyOf(owner, n)
  {
    var o := Inorder(tree);
    InorderNodes(tree);
    assert m in o && n in o;
    var i :| 0 <= i < |o| && o[i] == m;
    var j :| 0 <= j < |o| && o[j] == n;
    assert Less(KeyOf(owner, o[i]), KeyOf(owner, o[j])) || Less(KeyOf(owner, o[j]), KeyOf(owner, o[i]));
  }

  lemma EntriesStep(files: seq<Dir>, i: nat)
    requires i < |files|
    requires forall i, j :: 0 <= i < j < |files| ==> files[i].entry != files[j].entry
    ensures Entries(files[..i + 1]) == Entries(files[..i]) + {files[i].entry}
    ensures files[i].entry in Entries(files) && files[i].entry !in Entries(files[..i])
  {
    assert files[..i + 1] == files[..i] + [files[i]];
  }

  // Everything below `d` is still to be visited.
  ghost predicate Ahead(d: Dir, entries: set<Entry>, seen: set<Entry>) {
    Tidy(d) && Below(d) <= entries && Below(d) !! seen
  }

  // What has been visited when the second loop is at subdirectory `i`.
  ghost function SeenIn(d: Dir, i: nat, seen: set<Entry>): set<Entry>
    requires i <= |d.files|
  {
    seen + Entries(d.files) + Under(d.files[..i])
  }

  lemma PopulateStart(d: Dir, entries: set<Entry>, seen: set<Entry>)
    requires Ahead(d, entries, seen)
    ensures Entries(d.files) <= entries && Entries(d.files) !! seen
    ensures seen + Entries(d.files) == SeenIn(d, 0, seen)
    ensures forall i, j :: 0 <= i < j < |d.files| ==> d.files[i].entry != d.files[j].entry
  {
  }

  lemma PopulateEnd(d: Dir, entries: set<Entry>, seen: set<Entry>)
    requires Ahead(d, entries, seen)
    ensures SeenIn(d, |d.files|, seen) == seen + Below(d)
  {
    assert d.files[..|d.files|] == d.files;
  }

  lemma PopulateStep(d: Dir, i: nat, entries: set<Entry>, seen: set<Entry>)
    requires Ahead(d, entries, seen) && i < |d.files|
    ensures var f := d.files[i];
      if f.entry.mode.Directory? && f.files != [] then
        Ahead(f, entries, SeenIn(d, i, seen)) && SeenIn(d, i + 1, seen) == SeenIn(d, i, seen) + Below(f)
      else
        SeenIn(d, i + 1, seen) == SeenIn(d, i, seen)
  {
    UnderStep(d.files, i);
    if d.files[i].entry.mode.Directory? {
      TidyAt(d.files, i);
    }
  }

  lemma UnderStep(files: seq<Dir>, i: nat)
    requires i < |files|
    ensures Under(files[..i + 1]) == Under(files[..i]) + if files[i].entry.mode.Directory? then Below(files[i]) else {}
    ensures files[i].files == [] ==> Below(files[i]) == {}
  {
    assert files[..i + 1][..i] == files[..i];
  }

  lemma TreeLooks(owner: Owner, root: Root, rbs: set<Node>, entries: set<Entry>, visited: set<Entry>, e: Entry)
    requires TreeOk(owner, root, rbs, entries, visited) && e in entries
    ensures Nodes(root.tree) <= owner.Keys && visited <= entries
    ensures forall n :: n in Nodes(root.tree) ==> owner[n] in visited && owner[n].nlink >= 1
    ensures e.hardlinkRb in owner && owner[e.hardlinkRb] == e && e.hardlinkRb in rbs
  {
  }

  // What `find_hardlink` answers for `e`, and what it does to the tree.
  ghost predicate LookedUp(owner: Owner, nodes: set<Node>, nodes': set<Node>, num: map<Entry, nat>, e: Entry, r: nat,
                           linked: bool) {
    if linked then e.nlink >= 1 && r != 0 && nodes' == nodes && Recorded(owner, nodes, num, e, r)
    else if e.nlink == 0 then nodes' == nodes
    else r == 0 && (nodes' == nodes + {e.hardlinkRb} || (nodes' == nodes && Recorded(owner, nodes, num, e, r)))
  }

  // ... in the case that it is called: a number on record, or none and `e` is in the tree.
  ghost predicate Found(owner: Owner, nodes: set<Node>, nodes': set<Node>, num: map<Entry, nat>, e: Entry, r: nat) {
    if nodes' == nodes then Recorded(owner, nodes, num, e, r)
    else
      && r == 0 && nodes' == nodes + {e.hardlinkRb}
      && forall n :: n in nodes && n in owner ==> owner[n].stDev != e.stDev || owner[n].stIno != e.stIno
  }

  ghost predicate Recorded(owner: Owner, nodes: set<Node>, num: map<Entry, nat>, e: Entry, r: nat) {
    exists n :: n in nodes && n in owner && owner[n] in num && owner[n].stDev == e.stDev && owner[n].stIno == e.stIno
                && num[owner[n]] == r
  }

  lemma FoundLooked(owner: Owner, nodes: set<Node>, nodes': set<Node>, num: map<Entry, nat>, e: Entry, r: nat)
    requires Found(owner, nodes, nodes', num, e, r) && e.nlink >= 1
    ensures LookedUp(owner, nodes, nodes', num, e, r, r != 0)
  {
  }

  // What the switch over the file type does with `e`.
  ghost predicate Wrote(num: map<Entry, nat>, num': map<Entry, nat>, ino: nat, ino': nat, inodes: seq<nat>,
                        inodes': seq<nat>, dirents: seq<(Entry, nat)>, dirents': seq<(Entry, nat)>, e: Entry) {
    if e.Supported() then
      num' == num[e := ino + 1] && ino' == ino + 1 && inodes' == inodes + [ino + 1]
        && dirents' == dirents + [(e, ino + 1)]
    else
      num' == num && ino' == ino && inodes' == inodes && dirents' == dirents
  }

  ghost predicate Unvisited(owner: Owner, nodes: set<Node>, num: map<Entry, nat>, visited: set<Entry>, e: Entry) {
    && e in num && e !in visited && e.hardlinkRb in owner && owner[e.hardlinkRb] == e
    && (forall n :: n in nodes && n in owner ==> owner[n].nlink >= 1)
    && (forall d :: d in num && e.Key() == d.Key() ==> e.Supported() == d.Supported())
  }

  lemma VisitStart(owner: Owner, root: Root, rbs: set<Node>, entries: set<Entry>, visited: set<Entry>,
                   num: map<Entry, nat>, base: nat, ino: nat, inodes: seq<nat>, dirents: seq<(Entry, nat)>, e: Entry)
    requires TreeOk(owner, root, rbs, entries, visited) && e in entries - visited && num == Numbers(entries)
    requires Numbering(owner, Nodes(root.tree), num, visited, base, ino, inodes, dirents)
    ensures Unvisited(owner, Nodes(root.tree), num, visited, e) && e.ino == 0 && e.hardlinkRb !in Nodes(root.tree)
  {
  }

  lemma VisitEnd(owner: Owner, nodes: set<Node>, nodes': set<Node>, num: map<Entry, nat>, num': map<Entry, nat>,
                 visited: set<Entry>, base: nat, ino: nat, ino': nat, inodes: seq<nat>, inodes': seq<nat>,
                   dirents: seq<(Entry, nat)>, dirents': seq<(Entry, nat)>,
                 e: Entry, r: nat, linked: bool)
    requires Numbering(owner, nodes, num, visited, base, ino, inodes, dirents)
    requires Unvisited(owner, nodes, num, visited, e) && LookedUp(owner, nodes, nodes', num, e, r, linked)
    requires linked ==> num' == num[e := r] && ino' == ino && inodes' == inodes && dirents' == dirents + [(e, r)]
    requires !linked ==> Wrote(num, num', ino, ino', inodes, inodes', dirents, dirents', e)
    ensures Numbering(owner, nodes', num', visited + {e}, base, ino', inodes', dirents')
  {
    if linked {
      var n :| n in nodes && owner[n].Key() == e.Key() && num[owner[n]] == r;
      LinkedAlready(owner, nodes, num, visited, base, ino, inodes, dirents, e, n);
    } else if e.Supported() {
      assert forall n :: n in nodes && owner[n].Key() == e.Key() ==> num[owner[n]] != 0;
      Written(owner, nodes, nodes', num, visited, base, ino, inodes, dirents, e);
    } else {
      assert num[e] == 0;
      Passed(owner, nodes, nodes', num, visited, base, ino, inodes, dirents, e);
    }
  }

  lemma CorneredNone(owner: Owner, k: Ctx, key: Key, tree: Tree)
    requires tree == Fill(k, Leaf) && Cornered(owner, k, key) && Nodes(tree) <= owner.Keys
    ensures forall n :: n in Nodes(tree) ==> owner[n].stDev != key.0 || owner[n].stIno != key.1
  {
    hide *;
    OrderAround(k, tree);
    InorderNodes(tree);
    forall n | n in Nodes(tree) ensures owner[n].stDev != key.0 || owner[n].stIno != key.1 {
      assert n in Inorder(tree);
      assert n in Before(k) || n in After(k);
      NotKey(owner, k, key, n);
    }
  }

  lemma OrderAround(k: Ctx, tree: Tree)
    requires tree == Fill(k, Leaf)
    ensures Inorder(tree) == Before(k) + After(k)
  {
    FillFacts(k, Leaf);
    hide Fill, Before, After;
    assert Before(k) + [] + After(k) == Before(k) + After(k);
  }

  lemma NotKey(owner: Owner, k: Ctx, key: Key, n: Node)
    requires Cornered(owner, k, key) && (n in Before(k) || n in After(k)) && n in owner
    ensures owner[n].stDev != key.0 || owner[n].stIno != key.1
  {
    hide Before, After;
  }

  lemma CorneredFresh(owner: Owner, k: Ctx, n: Node, tree: Tree)
    requires tree == Fill(k, Leaf) && Descending(owner, Inorder(tree)) && Cornered(owner, k, KeyOf(owner, n))
    ensures Descending(owner, Before(k) + [n] + After(k))
    ensures forall m :: m in Nodes(tree) ==> KeyOf(owner, m) != KeyOf(owner, n)
  {
    FillFacts(k, Leaf);
    assert Before(k) + [] + After(k) == Before(k) + After(k);
    DescendingInsert(owner, Before(k), n, After(k));
    InorderNodes(tree);
    var o := Inorder(tree);
    assert forall i :: 0 <= i < |o| ==> KeyOf(owner, o[i]) != KeyOf(owner, n);
  }
}
