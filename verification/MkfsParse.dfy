/**
 `parse_image` of external/mtd-utils/mkfs.jffs2.c, which reads an image that is to be continued:
 what it finds in an image that the same program wrote.
 */
module MkfsParse {
  import opened Arithmetic
  import opened Jffs2Format
  import Jffs2Reader
  import opened Summary
  import opened BlockScan
  import opened MkfsImage

  function Shift(qs: seq<nat>, base: nat): (ofs: seq<nat>)
    ensures |ofs| == |qs| && forall i :: 0 <= i < |qs| ==> ofs[i] == base + qs[i]
  {
    seq(|qs|, i requires 0 <= i < |qs| => base + qs[i])
  }

  // The highest of the inode numbers of inode nodes, and of `ino`.
  function HighestOf(ns: seq<Node>, e: Endian, ino: nat): nat {
    if ns == [] then ino
    else
      var n := ns[|ns| - 1];
      var h := HighestOf(ns[..|ns| - 1], e, ino);
      if |n| >= 16 && Get16(n, 2, e) == NODETYPE_INODE then Max(h, Get32(n, 12, e)) else h
  }

  // It is no less than any of them, and one of them.
  lemma {:induction false} HighestIs(ns: seq<Node>, e: Endian, ino: nat)
    ensures var h := HighestOf(ns, e, ino);
      && ino <= h && (forall n :: n in ns && |n| >= 16 && Get16(n, 2, e) == 0xE002 ==> Get32(n, 12, e) <= h)
      && (h == ino || exists n :: n in ns && |n| >= 16 && Get16(n, 2, e) == 0xE002 && Get32(n, 12, e) == h)
    decreases |ns|
  {
    hide Get16, Get32;
    if ns != [] {
      HighestIs(ns[..|ns| - 1], e, ino);
      assert ns == ns[..|ns| - 1] + [ns[|ns| - 1]];
    }
  }

  lemma {:induction false} HighestSplit(ns: seq<Node>, ps: seq<Placed>, e: Endian, ino: nat)
    ensures HighestOf(ns + NodesIn(ps), e, ino) == Highest(ps, e, HighestOf(ns, e, ino))
    decreases |ps|
  {
    if ps == [] {
      assert ns + NodesIn(ps) == ns;
    } else {
      var front, all := ps[..|ps| - 1], ns + NodesIn(ps);
      HighestSplit(ns, front, e, ino);
      assert NodesIn(ps)[..|ps| - 1] == NodesIn(front);
      assert all[..|all| - 1] == ns + NodesIn(front) && all[|all| - 1] == ps[|ps| - 1].node;
      hide Get16, Get32;
    }
  }

  // Each of the nodes lies in the image at its offset, and they follow one another.
  ghost predicate Found(image: seq<byte>, ofs: seq<nat>, ns: seq<Node>) {
    && |ofs| == |ns| && (forall i :: 0 <= i < |ns| ==> ofs[i] % 4 == 0 && In(image, ofs[i], ns[i]))
    && forall i :: 0 < i < |ns| ==> ofs[i - 1] + |ns[i - 1]| <= ofs[i]
  }

  lemma {:induction false} NodesApart(im: Jffs2Reader.Image, n: nat)
    requires Jffs2Reader.Readable(im, n)
    ensures forall i :: 0 < i < |Jffs2Reader.Nodes(im, n)| ==>
            Jffs2Reader.NodeEnd(im, Jffs2Reader.Nodes(im, n)[i - 1]) <= Jffs2Reader.Nodes(im, n)[i]
    decreases im.Size() - n
  {
    hide Jffs2Reader.NodeAt, Jffs2Reader.NodeEnd, Jffs2Reader.NextNode;
    Jffs2Reader.NodesAscend(im, n);
    var q := Jffs2Reader.NextNode(im, n);
    if q < im.Size() {
      var rest := Jffs2Reader.Nodes(im, Jffs2Reader.NodeEnd(im, q));
      NodesApart(im, Jffs2Reader.NodeEnd(im, q));
      hide Jffs2Reader.Nodes;
      forall i | 0 < i < |Jffs2Reader.Nodes(im, n)|
        ensures Jffs2Reader.NodeEnd(im, Jffs2Reader.Nodes(im, n)[i - 1]) <= Jffs2Reader.Nodes(im, n)[i]
      {
        assert Jffs2Reader.Nodes(im, n)[i] == rest[i - 1];
        assert i > 1 ==> Jffs2Reader.Nodes(im, n)[i - 1] == rest[i - 2];
      }
    }
  }

  // In a block.
  lemma HeldApart(b: seq<byte>, ps: seq<Placed>, e: Endian)
    requires Holds(b, ps, e)
    ensures Found(b, Places(ps), NodesIn(ps))
  {
    var im := Jffs2Reader.Image(b, e);
    NodesApart(im, 0);
    forall i | 0 <= i < |ps|
      ensures In(b, ps[i].at, ps[i].node) && ps[i].at % 4 == 0
      ensures ps[i].at + |ps[i].node| <= Jffs2Reader.NodeEnd(im, ps[i].at)
    {
      assert Places(ps)[i] == ps[i].at;
      FieldsOf(b, ps[i].at, ps[i].node, e);
    }
    hide Jffs2Reader.Readable, Jffs2Reader.Nodes, Holds, In, WellNode, Jffs2Reader.NodeEnd;
  }

  // What lies in a part of the image lies in the image.
  lemma FoundIn(image: seq<byte>, base: nat, b: seq<byte>, qs: seq<nat>, ns: seq<Node>)
    requires Found(b, qs, ns) && base % 4 == 0 && base + |b| <= |image| && image[base..base + |b|] == b
    ensures Found(image, Shift(qs, base), ns) && Below(Shift(qs, base), ns, base + |b|)
  {
    hide In;
    forall i | 0 <= i < |ns| ensures In(image, base + qs[i], ns[i]) && qs[i] + |ns[i]| <= |b| {
      InPart(image, base, b, qs[i], ns[i]);
    }
  }

  lemma SliceOf(x: seq<byte>, base: nat, size: nat, q: nat, n: nat)
    requires base + size <= |x| && q + n <= size
    ensures x[base..base + size][q..q + n] == x[base + q..base + q + n]
  {
    var y, z := x[base..base + size][q..q + n], x[base + q..base + q + n];
    forall i | 0 <= i < n ensures y[i] == z[i] {
      assert y[i] == x[base..base + size][q + i] == x[base + (q + i)];
      assert z[i] == x[base + q + i];
    }
  }

  lemma InPart(image: seq<byte>, base: nat, b: seq<byte>, q: nat, n: Node)
    requires In(b, q, n) && base + |b| <= |image| && image[base..base + |b|] == b
    ensures In(image, base + q, n) && q + |n| <= |b|
  {
    SliceOf(image, base, |b|, q, |n|);
    assert b[q..q + |n|] == n && image[base + q..base + q + |n|] == n;
  }

  // All of the nodes end before `end`.
  ghost predicate Below(ofs: seq<nat>, ns: seq<Node>, end: nat) {
    |ofs| == |ns| && (ns != [] ==> ofs[|ns| - 1] + |ns[|ns| - 1]| <= end)
  }

  lemma FoundBoth(image: seq<byte>, ofs: seq<nat>, ns: seq<Node>, ofs': seq<nat>, ns': seq<Node>, base: nat, end: nat)
    requires Found(image, ofs, ns) && Found(image, ofs', ns') && Below(ofs, ns, base) && Below(ofs', ns', end)
    requires base <= end
    requires forall i :: 0 <= i < |ofs'| ==> base <= ofs'[i]
    ensures Found(image, ofs + ofs', ns + ns') && Below(ofs + ofs', ns + ns', end)
  {
    hide In;
  }

  // The block at `base` holds the nodes that come next.
  lemma FoundMore(image: seq<byte>, ofs: seq<nat>, ns: seq<Node>, base: nat, b: seq<byte>, ps: seq<Placed>, e: Endian)
    requires Found(image, ofs, ns) && base % 4 == 0 && base + |b| <= |image| && image[base..base + |b|] == b
    requires Holds(b, ps, e) && Below(ofs, ns, base)
    ensures Found(image, ofs + Shift(Places(ps), base), ns + NodesIn(ps))
    ensures Below(ofs + Shift(Places(ps), base), ns + NodesIn(ps), base + |b|)
  {
    hide *;
    HeldApart(b, ps, e);
    FoundIn(image, base, b, Places(ps), NodesIn(ps));
    FoundBoth(image, ofs, ns, Shift(Places(ps), base), NodesIn(ps), base, base + |b|);
  }

  lemma {:induction false} JoinedAt(blocks: seq<Full>, i: nat, base: nat, e: Endian, ebSize: nat)
    requires AllHold(blocks, e, ebSize) && i < |blocks| && base == i * ebSize
    ensures base + ebSize <= |Joined(blocks)| && Joined(blocks)[base..base + ebSize] == blocks[i].bytes
    decreases |blocks|
  {
    hide *;
    var n := |blocks| - 1;
    var front := blocks[..n];
    AllHoldFront(blocks, e, ebSize);
    JoinedLast(blocks);
    if i < n {
      JoinedAt(front, i, base, e, ebSize);
      JoinedPrefix(Joined(front), blocks[n].bytes, base, ebSize);
    } else {
      JoinedSize(front, e, ebSize);
      JoinedSuffix(Joined(front), blocks[n].bytes);
    }
  }

  lemma JoinedSuffix(x: seq<byte>, y: seq<byte>)
    ensures |x + y| == |x| + |y| && (x + y)[|x|..|x| + |y|] == y
  {
  }

  lemma JoinedLast(blocks: seq<Full>)
    requires blocks != []
    ensures Joined(blocks) == Joined(blocks[..|blocks| - 1]) + blocks[|blocks| - 1].bytes
  {
  }

  lemma NoneJoined()
    ensures Joined([]) == []
  {
  }

  lemma JoinedPrefix(x: seq<byte>, y: seq<byte>, o: nat, n: nat)
    requires o + n <= |x|
    ensures (x + y)[o..o + n] == x[o..o + n]
  {
  }

  // `i` blocks have been read, up to `pos`; they have the nodes `ns`.
  ghost predicate ReadTo(blocks: seq<Full>, rest: seq<byte>, cur: seq<Placed>, ebSize: nat, i: nat, pos: nat,
                         ns: seq<Node>) {
    if i <= |blocks| then pos == i * ebSize && ns == NodesOf(blocks[..i])
    else pos == |blocks| * ebSize + |rest| && ns == NodesOf(blocks) + NodesIn(cur)
  }

  lemma ReadStart(blocks: seq<Full>, rest: seq<byte>, cur: seq<Placed>, ebSize: nat, e: Endian, ino: nat)
    ensures ReadTo(blocks, rest, cur, ebSize, 0, 0, []) && HighestOf([], e, ino) == ino
  {
  }

  lemma NodesNext(blocks: seq<Full>, i: nat)
    requires i < |blocks|
    ensures NodesOf(blocks[..i + 1]) == NodesOf(blocks[..i]) + NodesIn(blocks[i].placed)
  {
    assert blocks[..i + 1][..i] == blocks[..i];
  }

  lemma LaidSize(image: seq<byte>, blocks: seq<Full>, rest: seq<byte>, cur: seq<Placed>, e: Endian, ebSize: nat)
    requires Laid(image, blocks, rest, cur, e, ebSize)
    ensures |image| == |blocks| * ebSize + |rest| && |rest| < ebSize && ebSize % 4 == 0
    ensures image == Joined(blocks) + rest
    ensures AllHold(blocks, e, ebSize) && Holds(rest, cur, e)
  {
    hide AllHold, Holds, Joined;
    JoinedSize(blocks, e, ebSize);
  }

  lemma HoldsAt(blocks: seq<Full>, e: Endian, ebSize: nat, i: nat)
    requires AllHold(blocks, e, ebSize) && i < |blocks|
    ensures |blocks[i].bytes| == ebSize && Holds(blocks[i].bytes, blocks[i].placed, e)
  {
  }

  lemma PieceNext(image: seq<byte>, blocks: seq<Full>, rest: seq<byte>, cur: seq<Placed>, e: Endian, ebSize: nat,
                  i: nat, pos: nat, ns: seq<Node>, n: nat) returns (ps: seq<Placed>)
    requires Laid(image, blocks, rest, cur, e, ebSize) && ReadTo(blocks, rest, cur, ebSize, i, pos, ns) && pos < |image|
    requires n == if pos + ebSize < |image| then ebSize else |image| - pos
    ensures pos % 4 == 0 && Holds(image[pos..pos + n], ps, e)
    ensures ReadTo(blocks, rest, cur, ebSize, i + 1, pos + n, ns + NodesIn(ps))
  {
    hide AllHold, Holds, Joined, Laid, NodesOf, NodesIn;
    LaidSize(image, blocks, rest, cur, e, ebSize);
    FourDivides(i, ebSize);
    if i < |blocks| {
      ps := blocks[i].placed;
      HoldsAt(blocks, e, ebSize, i);
      JoinedAt(blocks, i, pos, e, ebSize);
      JoinedPrefix(Joined(blocks), rest, pos, ebSize);
      NodesNext(blocks, i);
      OneMore(i, ebSize);
    } else {
      ps := cur;
      assert blocks[..i] == blocks;
      JoinedSize(blocks, e, ebSize);
      JoinedSuffix(Joined(blocks), rest);
    }
  }

  lemma PiecesEnd(image: seq<byte>, blocks: seq<Full>, rest: seq<byte>, cur: seq<Placed>, e: Endian, ebSize: nat,
                  i: nat, pos: nat, ns: seq<Node>)
    requires Laid(image, blocks, rest, cur, e, ebSize) && ReadTo(blocks, rest, cur, ebSize, i, pos, ns)
    requires pos >= |image|
    ensures ns == NodesOf(blocks) + NodesIn(cur)
  {
    LaidSize(image, blocks, rest, cur, e, ebSize);
    if i <= |blocks| {
      MulOrder(ebSize, i, |blocks|);
      assert blocks[..|blocks|] == blocks && rest == [];
      NoPlaces(image, blocks, cur, e, ebSize);
    }
  }

  // (Unfolds the definitions.)
  lemma WrittenIs(w: ImageWriter)
    requires w.Inv()
    ensures Laid(w.out, w.blocks, w.rest, w.cur, w.e, w.ebSize) && w.Log() == NodesOf(w.blocks) + NodesIn(w.cur)
    ensures 0 < w.ebSize && w.HasMarker() && OnlyMarker(w.Log(), w.Marker(), w.e)
  {
  }

  // `parse_image` on what `w` wrote: the nodes it visits are exactly those that were written, each at its offset, and
  // `ino` is then the highest of the inode numbers. (The file is read in whole erase blocks.)
  method ParseImage(image: seq<byte>, ebSize: nat, e: Endian, ino: nat, ghost w: ImageWriter)
    returns (ino': nat, ghost visited: seq<nat>)
    requires w.Inv() && image == w.out && ebSize == w.ebSize && e == w.e
    ensures Found(image, visited, w.Log()) && ino' == HighestOf(w.Log(), e, ino)
  {
    hide *;
    WrittenIs(w);
    ReadStart(w.blocks, w.rest, w.cur, ebSize, e, ino);
    var pos: nat := 0;
    ghost var i: nat, ns: seq<Node> := 0, [];
    ino', visited := ino, [];
    FoundNothing(image);
    while pos < |image|
      invariant ReadTo(w.blocks, w.rest, w.cur, ebSize, i, pos, ns)
      invariant Found(image, visited, ns) && Below(visited, ns, pos) && ino' == HighestOf(ns, e, ino)
    {
      var n := if pos + ebSize < |image| then ebSize else |image| - pos;
      ghost var ps := PieceNext(image, w.blocks, w.rest, w.cur, e, ebSize, i, pos, ns, n);
      ghost var seen;
      HighestSplit(ns, ps, e, ino);
      ino', seen := ProcessBuffer(image[pos..pos + n], e, ino', ps);
      FoundMore(image, visited, ns, pos, image[pos..pos + n], ps, e);
      visited, ns := visited + Shift(seen, pos), ns + NodesIn(ps);
      i, pos := i + 1, pos + n;
    }
    PiecesEnd(image, w.blocks, w.rest, w.cur, e, ebSize, i, pos, ns);
  }

  lemma FoundNothing(image: seq<byte>)
    ensures Found(image, [], []) && Below([], [], 0)
  {
  }
}
