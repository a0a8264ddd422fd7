/**
 Erase blocks as mkfs.jffs2 fills them (external/mtd-utils/mkfs.jffs2.c): what a scan for nodes
 finds in a block to which nodes and padding are appended.
 */
module BlockScan {
  import opened Jffs2Format
  import opened Jffs2Reader
  import opened Summary

  // The nodes that mkfs.jffs2 writes.
  ghost predicate WellNode(n: Node, e: Endian) {
    && UNKNOWN_NODE_SIZE <= |n| <= UINT32_MAX && Get16(n, 0, e) == MAGIC_BITMASK && Get32(n, 4, e) == |n|
    && var t := Get16(n, 2, e);
      || (t == NODETYPE_INODE && RAW_INODE_SIZE <= |n|)
      || (t == NODETYPE_DIRENT && RAW_DIRENT_SIZE <= |n| && |n| == RAW_DIRENT_SIZE + n[28] as nat)
      || t == NODETYPE_CLEANMARKER
  }

  // Up to here, reading the longer image gives the same.
  lemma SameFields(b: seq<byte>, x: seq<byte>, e: Endian, p: nat)
    ensures p + 2 <= |b| ==> Get16(b + x, p, e) == Get16(b, p, e)
    ensures p + 4 <= |b| ==> Get32(b + x, p, e) == Get32(b, p, e)
  {
  }

  lemma SameNode(b: seq<byte>, x: seq<byte>, e: Endian, q: nat)
    requires NodeAt(Image(b, e), q)
    ensures NodeAt(Image(b + x, e), q) && NodeEnd(Image(b + x, e), q) == NodeEnd(Image(b, e), q)
  {
    SameFields(b, x, e, q);
    SameFields(b, x, e, q + 2);
    SameFields(b, x, e, q + 4);
  }

  lemma {:induction false} SameNext(b: seq<byte>, x: seq<byte>, e: Endian, n: nat)
    requires |b| % 4 == 0 && |x| % 4 == 0 && n % 4 == 0 && n <= |b|
    ensures NextNode(Image(b + x, e), n) ==
            if NextNode(Image(b, e), n) < |b| then NextNode(Image(b, e), n) else NextNode(Image(b + x, e), |b|)
    decreases |b| - n
  {
    if n < |b| {
      SameFields(b, x, e, n);
      if Get16(b, n, e) != MAGIC_BITMASK {
        SameNext(b, x, e, n + 4);
      }
    }
  }

  lemma NodesFrom(im: Image, n: nat)
    requires im.Size() % 4 == 0 && n % 4 == 0 && n <= im.Size()
    requires NextNode(im, n) < im.Size() && NodeAt(im, NextNode(im, n)) && Readable(im, NodeEnd(im, NextNode(im, n)))
    ensures Readable(im, n) && Nodes(im, n) == [NextNode(im, n)] + Nodes(im, NodeEnd(im, NextNode(im, n)))
  {
    hide NodeAt, NextNode;
  }

  lemma NodesSkip(im: Image, n: nat, m: nat)
    requires im.Size() % 4 == 0 && n % 4 == 0 && n <= im.Size() && Readable(im, m) && NextNode(im, n) == NextNode(im, m)
    ensures Readable(im, n) && Nodes(im, n) == Nodes(im, m)
  {
    hide NodeAt, NextNode;
  }

  lemma ReadableAt(im: Image, n: nat)
    requires Readable(im, n)
    ensures im.Size() % 4 == 0 && n % 4 == 0 && n <= im.Size() == |im.bytes|
    ensures NextNode(im, n) < im.Size() ==>
              NodeAt(im, NextNode(im, n)) && Readable(im, NodeEnd(im, NextNode(im, n)))
                && n < NodeEnd(im, NextNode(im, n))
  {
  }

  // The nodes of a longer image: those of the part, then those after it.
  lemma {:induction false} NodesAppended(b: seq<byte>, x: seq<byte>, e: Endian, n: nat)
    requires Readable(Image(b, e), n) && |x| % 4 == 0 && Readable(Image(b + x, e), |b|)
    ensures Readable(Image(b + x, e), n)
    ensures Nodes(Image(b + x, e), n) == Nodes(Image(b, e), n) + Nodes(Image(b + x, e), |b|)
    decreases |b| - n
  {
    hide *;
    var im, im' := Image(b, e), Image(b + x, e);
    ReadableAt(im, n);
    ReadableAt(im', |b|);
    SameNext(b, x, e, n);
    NodesAscend(im, n);
    var q := NextNode(im, n);
    if q < |b| {
      SameNode(b, x, e, q);
      var m := NodeEnd(im, q);
      NodesAppended(b, x, e, m);
      NodesFrom(im', n);
      assert [q] + Nodes(im, m) + Nodes(im', |b|) == [q] + (Nodes(im, m) + Nodes(im', |b|));
    } else {
      NodesSkip(im', n, |b|);
    }
  }

  // Bytes of 0xff hold no node.
  lemma {:induction false} OnesSkipped(b: seq<byte>, e: Endian, n: nat)
    requires |b| % 4 == 0 && n % 4 == 0 && n <= |b| && forall i :: n <= i < |b| ==> b[i] == 0xff
    ensures NextNode(Image(b, e), n) == |b| && Readable(Image(b, e), n) && Nodes(Image(b, e), n) == []
    decreases |b| - n
  {
    if n < |b| {
      assert b[n] == 0xff && b[n + 1] == 0xff;
      OnesSkipped(b, e, n + 4);
    }
  }

  lemma FieldsOf(b: seq<byte>, q: nat, n: Node, e: Endian)
    requires In(b, q, n) && 12 <= |n|
    ensures q + |n| <= |b| && Get16(b, q, e) == Get16(n, 0, e) && Get16(b, q + 2, e) == Get16(n, 2, e)
    ensures Get32(b, q + 4, e) == Get32(n, 4, e) && (|n| > 28 ==> b[q + 28] == n[28])
  {
    GetSlice(b, q, |n|, 0, e);
    GetSlice(b, q, |n|, 2, e);
    GetSlice(b, q, |n|, 4, e);
    assert |n| > 28 ==> b[q + 28] == b[q..q + |n|][28];
  }

  // A node that lies in an image is found there.
  lemma NodeFound(b: seq<byte>, q: nat, n: Node, e: Endian)
    requires In(b, q, n) && q % 4 == 0 && |b| % 4 == 0 && WellNode(n, e)
    ensures NodeAt(Image(b, e), q) && NodeEnd(Image(b, e), q) == q + Pad(|n|) && NextNode(Image(b, e), q) == q
  {
    FieldsOf(b, q, n, e);
    hide Get16, Get32, Pad, In;
  }

  lemma InMiddle(b: seq<byte>, n: seq<byte>, x: seq<byte>)
    ensures In(b + n + x, |b|, n)
  {
  }

  // A node at the end, filled up with 0xff.
  lemma LastNode(b: seq<byte>, n: Node, e: Endian)
    requires |b| % 4 == 0 && WellNode(n, e)
    ensures var b' := b + n + Ones(Pad(|n|) - |n|);
      |b'| == |b| + Pad(|n|) && Readable(Image(b', e), |b|) && Nodes(Image(b', e), |b|) == [|b|] && In(b', |b|, n)
  {
    hide *;
    var b' := b + n + Ones(Pad(|n|) - |n|);
    WellLength(n, e);
    InMiddle(b, n, Ones(Pad(|n|) - |n|));
    NodeFound(b', |b|, n, e);
    OnesSkipped(b', e, |b'|);
    SizeIs(b', e);
    NodesFrom(Image(b', e), |b|);
  }

  lemma SizeIs(b: seq<byte>, e: Endian)
    ensures Image(b, e).Size() == |b|
  {
  }

  lemma WellLength(n: Node, e: Endian)
    requires WellNode(n, e)
    ensures 0 < |n| <= Pad(|n|) && Pad(|n|) % 4 == 0
  {
  }

  // Where a block has its nodes.
  datatype Placed = Placed(at: nat, node: Node)

  function Places(ps: seq<Placed>): (qs: seq<nat>)
    ensures |qs| == |ps| && forall i :: 0 <= i < |ps| ==> qs[i] == ps[i].at
  {
    seq(|ps|, i requires 0 <= i < |ps| => ps[i].at)
  }

  ghost predicate AllIn(b: seq<byte>, ps: seq<Placed>, e: Endian) {
    forall i :: 0 <= i < |ps| ==> ps[i].at % 4 == 0 && In(b, ps[i].at, ps[i].node) && WellNode(ps[i].node, e)
  }

  // A scan of the block finds exactly the placed nodes, in order; each lies in the block, at a
  // multiple of four.
  ghost predicate Holds(b: seq<byte>, ps: seq<Placed>, e: Endian) {
    Readable(Image(b, e), 0) && Nodes(Image(b, e), 0) == Places(ps) && AllIn(b, ps, e)
  }

  lemma HoldsNothing(e: Endian)
    ensures Holds([], [], e)
  {
  }

  lemma AllInLonger(b: seq<byte>, x: seq<byte>, ps: seq<Placed>, e: Endian)
    requires AllIn(b, ps, e)
    ensures AllIn(b + x, ps, e)
  {
    hide WellNode;
    forall i | 0 <= i < |ps| ensures In(b + x, ps[i].at, ps[i].node) {
      var o, n := ps[i].at, ps[i].node;
      assert (b + x)[o..o + |n|] == b[o..o + |n|];
    }
  }

  lemma AllInMore(b: seq<byte>, ps: seq<Placed>, e: Endian, p: Placed)
    requires AllIn(b, ps, e) && p.at % 4 == 0 && In(b, p.at, p.node) && WellNode(p.node, e)
    ensures AllIn(b, ps + [p], e) && Places(ps + [p]) == Places(ps) + [p.at]
  {
    hide WellNode, In;
  }

  lemma HoldsFacts(b: seq<byte>, ps: seq<Placed>, e: Endian)
    ensures Holds(b, ps, e) <==> Readable(Image(b, e), 0) && Nodes(Image(b, e), 0) == Places(ps) && AllIn(b, ps, e)
    ensures Holds(b, ps, e) ==> |b| % 4 == 0
  {
  }

  // Padding adds no node.
  lemma HoldsPadded(b: seq<byte>, ps: seq<Placed>, e: Endian, n: nat)
    requires Holds(b, ps, e) && n % 4 == 0
    ensures Holds(b + Ones(n), ps, e)
  {
    hide *;
    HoldsFacts(b, ps, e);
    HoldsFacts(b + Ones(n), ps, e);
    OnesSkipped(b + Ones(n), e, |b|);
    NodesAppended(b, Ones(n), e, 0);
    AllInLonger(b, Ones(n), ps, e);
    assert Places(ps) + [] == Places(ps);
  }

  // A node at the end is found last.
  lemma HoldsMore(b: seq<byte>, ps: seq<Placed>, e: Endian, n: Node)
    requires Holds(b, ps, e) && WellNode(n, e)
    ensures Holds(b + n + Ones(Pad(|n|) - |n|), ps + [Placed(|b|, n)], e) && |b| % 4 == 0
  {
    hide *;
    WellLength(n, e);
    var x := n + Ones(Pad(|n|) - |n|);
    assert b + n + Ones(Pad(|n|) - |n|) == b + x;
    HoldsFacts(b, ps, e);
    HoldsFacts(b + x, ps + [Placed(|b|, n)], e);
    LastNode(b, n, e);
    NodesAppended(b, x, e, 0);
    AllInLonger(b, x, ps, e);
    AllInMore(b + x, ps, e, Placed(|b|, n));
  }

  function Max(a: nat, b: nat): nat {
    if a < b then b else a
  }

  // The highest inode number of the inode nodes, and of `ino`.
  function Highest(ps: seq<Placed>, e: Endian, ino: nat): nat {
    if ps == [] then ino
    else
      var n := ps[|ps| - 1].node;
      var h := Highest(ps[..|ps| - 1], e, ino);
      if |n| >= 16 && Get16(n, 2, e) == NODETYPE_INODE then Max(h, Get32(n, 12, e)) else h
  }

  // `p` is where node `k` is, or in the gap before it.
  ghost predicate Scanning(b: seq<byte>, ps: seq<Placed>, e: Endian, p: nat, k: nat) {
    && Readable(Image(b, e), p) && k <= |ps| && Nodes(Image(b, e), p) == Places(ps)[k..]
  }

  lemma ScanStarts(b: seq<byte>, ps: seq<Placed>, e: Endian)
    requires Holds(b, ps, e)
    ensures Scanning(b, ps, e, 0, 0) && AllIn(b, ps, e)
  {
    assert Places(ps)[0..] == Places(ps);
  }

  lemma ScanGap(b: seq<byte>, ps: seq<Placed>, e: Endian, p: nat, k: nat)
    requires Scanning(b, ps, e, p, k) && p < |b|
    ensures p + 4 <= |b| && (Get16(b, p, e) != MAGIC_BITMASK ==> Scanning(b, ps, e, p + 4, k))
  {
  }

  lemma ScanNode(b: seq<byte>, ps: seq<Placed>, e: Endian, p: nat, k: nat)
    requires Scanning(b, ps, e, p, k) && AllIn(b, ps, e) && p + 4 <= |b| && Get16(b, p, e) == MAGIC_BITMASK
    ensures k < |ps| && p == ps[k].at && WellNode(ps[k].node, e) && 12 <= |ps[k].node| && p + |ps[k].node| <= |b|
    ensures var n := ps[k].node;
      && Get16(b, p + 2, e) == Get16(n, 2, e) && Get32(b, p + 4, e) == |n|
      && (|n| >= 16 ==> Get32(b, p + 12, e) == Get32(n, 12, e)) && Scanning(b, ps, e, p + Pad(|n|), k + 1)
  {
    var im := Image(b, e);
    ScanFinds(b, ps, e, p, k);
    var n := ps[k].node;
    assert In(b, p, n) && WellNode(n, e);
    FieldsOf(b, p, n, e);
    if |n| >= 16 {
      GetSlice(b, p, |n|, 12, e);
    }
    hide Get16, Get32, Readable, Nodes;
    assert Places(ps)[k..][1..] == Places(ps)[k + 1..];
  }

  lemma ScanFinds(b: seq<byte>, ps: seq<Placed>, e: Endian, p: nat, k: nat)
    requires Scanning(b, ps, e, p, k) && p + 4 <= |b| && Get16(b, p, e) == MAGIC_BITMASK
    ensures k < |ps| && p == ps[k].at && NodeAt(Image(b, e), p)
    ensures NodeEnd(Image(b, e), p) == p + Pad(Get32(b, p + 4, e))
    ensures Readable(Image(b, e), NodeEnd(Image(b, e), p))
    ensures Nodes(Image(b, e), NodeEnd(Image(b, e), p)) == Places(ps)[k..][1..]
  {
    NodesAscend(Image(b, e), p);
    assert Places(ps)[k..][0] == ps[k].at;
  }

  lemma ScanEnds(b: seq<byte>, ps: seq<Placed>, e: Endian, p: nat, k: nat)
    requires Scanning(b, ps, e, p, k) && p >= |b|
    ensures k == |ps|
  {
    assert |Places(ps)[k..]| == |ps| - k;
  }

  // `process_buffer` over a block visits exactly the nodes it holds, at their places and in order,
  // and raises `ino` to the highest inode number among them.
  method ProcessBuffer(b: seq<byte>, e: Endian, ino: nat, ghost ps: seq<Placed>)
    returns (ino': nat, ghost visited: seq<nat>)
    requires Holds(b, ps, e)
    ensures visited == Places(ps) && ino' == Highest(ps, e, ino)
  {
    hide Scanning, Readable, Nodes, In, WellNode, Get16, Get32, Holds, AllIn, Highest, Accurate, Places;
    ScanStarts(b, ps, e);
    HighestStarts(ps, e, ino);
    var p := 0;
    ghost var k := 0;
    ino', visited := ino, [];
    while p < |b|
      invariant Scanning(b, ps, e, p, k) && k <= |ps| && visited == Places(ps)[..k] && ino' == Highest(ps[..k], e, ino)
    {
      ScanGap(b, ps, e, p, k);
      if Get16(b, p, e) == 0xffff && Get16(b, p + 2, e) == 0xffff {
        p := p + 4;
        continue;
      }
      if Get16(b, p, e) != MAGIC_BITMASK {
        p := p + 4;
        continue;
      }
      ScanNode(b, ps, e, p, k);
      HighestNext(ps, e, ino, k);
      var t := Accurate(Get16(b, p + 2, e));
      visited, k := visited + [p], k + 1;
      if t == NODETYPE_INODE {
        if Get32(b, p + 12, e) > ino' {
          ino' := Get32(b, p + 12, e);
        }
        p := p + Pad(Get32(b, p + 4, e));
      } else if t == 0xffff {
        p := p + 4;
      } else {
        p := p + Pad(Get32(b, p + 4, e));
      }
    }
    ScanEnds(b, ps, e, p, k);
    assert ps[..k] == ps && Places(ps)[..k] == Places(ps);
  }

  lemma HighestStarts(ps: seq<Placed>, e: Endian, ino: nat)
    ensures Highest(ps[..0], e, ino) == ino && Places(ps)[..0] == []
  {
    assert ps[..0] == [];
  }

  lemma HighestNext(ps: seq<Placed>, e: Endian, ino: nat, k: nat)
    requires k < |ps| && WellNode(ps[k].node, e)
    ensures var n := ps[k].node; var t := Get16(n, 2, e);
      && Accurate(t) == t && t != 0xffff && (t == NODETYPE_INODE ==> |n| >= 16)
      && Highest(ps[..k + 1], e, ino) == if t == NODETYPE_INODE then Max(Highest(ps[..k], e, ino), Get32(n, 12, e))
         else Highest(ps[..k], e, ino)
  {
    assert ps[..k + 1][..k] == ps[..k];
  }
}
