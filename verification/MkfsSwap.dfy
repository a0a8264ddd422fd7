/**
 An image of mkfs.jffs2 given to jffs2dump (external/mtd-utils/mkfs.jffs2.c, external/mtd-utils/jffs2dump.c): converting
 it to the other byte order and back gives it again, byte for byte.
 */
module MkfsSwap {
  import opened Arithmetic
  import opened Jffs2Format
  import Jffs2Reader
  import opened Summary
  import opened BlockScan
  import opened MkfsNodes
  import MkfsSound
  import opened MkfsImage
  import opened MkfsParse
  import opened EndianNodes
  import opened EndianConvert

  // A node with the right checksums.
  ghost predicate Good(n: Node, e: Endian, crc: seq<byte> -> Word, recalc: bool) {
    && WellNode(n, e) && Sealed(n, 8, n[..8], crc, e)
    && (Get16(n, 2, e) == NODETYPE_INODE ==> SoundInode(n, e, crc, recalc))
    && (Get16(n, 2, e) == NODETYPE_DIRENT ==> SoundDirent(n, e, crc, recalc))
  }

  ghost predicate AllGoodNodes(ns: seq<Node>, e: Endian, crc: seq<byte> -> Word, recalc: bool) {
    forall n :: n in ns ==> Good(n, e, crc, recalc)
  }

  // The nodes that are written have them.
  lemma DirentGood(pino: Word, version: Word, ino: Word, mctime: Word, kind: byte, name: seq<byte>,
                   crc: seq<byte> -> Word, e: Endian, recalc: bool)
    requires |name| < 256
    ensures Good(DirentHead(pino, version, ino, mctime, kind, name, crc, e) + name, e, crc, recalc)
  {
    hide DirentHead, Sealed, Get32, Get16;
    DirentSays(pino, version, ino, mctime, kind, name, crc, e);
    MkfsSound.DirentSound(pino, version, ino, mctime, kind, name, crc, e);
  }

  lemma InodeGood(a: Attr, version: Word, offset: Word, csize: Word, dsize: Word, compr: byte, data: seq<byte>,
                  crc: seq<byte> -> Word, e: Endian, recalc: bool)
    requires a.InRange() && RAW_INODE_SIZE + csize <= UINT32_MAX && |data| == csize
    ensures Good(InodeHead(a, version, offset, csize, dsize, compr, crc(data), crc, e) + data, e, crc, recalc)
  {
    hide InodeHead, Sealed, Get32, Get16;
    InodeSays(a, version, offset, csize, dsize, compr, crc(data), crc, e, data);
    MkfsSound.InodeSound(a, version, offset, csize, dsize, compr, crc(data), crc, e, data);
  }

  // What is behind a node in its item changes nothing of it.
  lemma SealedLonger(n: seq<byte>, m: seq<byte>, p: nat, b: seq<byte>, crc: seq<byte> -> Word, e: Endian)
    requires n <= m && p + 4 <= |n|
    ensures Sealed(m, p, b, crc, e) <==> Sealed(n, p, b, crc, e)
  {
    assert m[p..p + 4] == n[p..p + 4];
  }

  lemma FieldLonger(n: seq<byte>, m: seq<byte>, p: nat, e: Endian)
    requires n <= m
    ensures p + 2 <= |n| ==> Get16(m, p, e) == Get16(n, p, e)
    ensures p + 4 <= |n| ==> Get32(m, p, e) == Get32(n, p, e)
  {
  }

  lemma InodeLonger(n: seq<byte>, m: seq<byte>, e: Endian, crc: seq<byte> -> Word, recalc: bool)
    requires n <= m && SoundInode(n, e, crc, recalc)
    ensures SoundInode(m, e, crc, recalc)
  {
    hide Sealed, Get32;
    FieldLonger(n, m, 48, e);
    SealedLonger(n, m, 8, n[..8], crc, e);
    SealedLonger(n, m, 64, n[..60], crc, e);
    SealedLonger(n, m, 60, n[68..68 + Get32(n, 48, e)], crc, e);
    assert m[..8] == n[..8] && m[..60] == n[..60];
    assert m[68..68 + Get32(n, 48, e)] == n[68..68 + Get32(n, 48, e)];
  }

  lemma DirentLonger(n: seq<byte>, m: seq<byte>, e: Endian, crc: seq<byte> -> Word, recalc: bool)
    requires n <= m && SoundDirent(n, e, crc, recalc)
    ensures SoundDirent(m, e, crc, recalc)
  {
    hide Sealed;
    SealedLonger(n, m, 8, n[..8], crc, e);
    SealedLonger(n, m, 32, n[..32], crc, e);
    SealedLonger(n, m, 36, n[40..40 + n[28] as nat], crc, e);
    assert m[28] == n[28] && m[..8] == n[..8] && m[..32] == n[..32];
    assert m[40..40 + n[28] as nat] == n[40..40 + n[28] as nat];
  }

  // A node and what fills it up to a word is an item of the image.
  lemma NodeIsItem(n: Node, m: seq<byte>, e: Endian, crc: seq<byte> -> Word, recalc: bool)
    requires Good(n, e, crc, recalc) && n <= m && |m| == Pad(|n|)
    ensures IsItem(m, e) && ItemGood(m, e, crc, recalc)
  {
    FieldLonger(n, m, 0, e);
    FieldLonger(n, m, 2, e);
    FieldLonger(n, m, 4, e);
    SealedLonger(n, m, 8, n[..8], crc, e);
    assert m[..8] == n[..8] && m[..|m|] == m;
    if Get16(n, 2, e) == NODETYPE_INODE { InodeLonger(n, m, e, crc, recalc); }
    if Get16(n, 2, e) == NODETYPE_DIRENT { DirentLonger(n, m, e, crc, recalc); }
    hide Get16, Get32, Pad, Sealed;
  }

  lemma WordIsItem(n: seq<byte>, e: Endian, crc: seq<byte> -> Word, recalc: bool)
    requires |n| == 4 && Get16(n, 0, e) != MAGIC_BITMASK
    ensures IsItem(n, e) && ItemGood(n, e, crc, recalc)
  {
    assert n[..|n|] == n;
    hide Get16, Get32;
  }

  // An image that is converted, and converted back is as it was.
  ghost predicate Kept(b: seq<byte>, e: Endian, crc: seq<byte> -> Word, recalc: bool) {
    Sized(b, e) && AllGood(b, e, crc, recalc)
  }

  lemma KeptNothing(e: Endian, crc: seq<byte> -> Word, recalc: bool)
    ensures Kept([], e, crc, recalc)
  {
  }

  lemma KeptMore(m: seq<byte>, rest: seq<byte>, e: Endian, crc: seq<byte> -> Word, recalc: bool)
    requires IsItem(m, e) && ItemGood(m, e, crc, recalc) && Kept(rest, e, crc, recalc)
    ensures Kept(m + rest, e, crc, recalc)
  {
    hide IsItem, ItemGood, Sized, AllGood;
    SizedCons(m, rest, e, crc, recalc);
  }

  // The block from `p` on, and whatever of the image is behind it.
  lemma {:induction false} KeptFrom(b: seq<byte>, ps: seq<Placed>, x: seq<byte>, e: Endian, crc: seq<byte> -> Word,
                                    recalc: bool, p: nat, k: nat)
    requires Scanning(b, ps, e, p, k) && AllIn(b, ps, e) && AllGoodNodes(NodesIn(ps), e, crc, recalc) && p <= |b|
    requires Kept(x, e, crc, recalc)
    ensures Kept(b[p..] + x, e, crc, recalc)
    decreases |b| - p
  {
    hide *;
    if p == |b| {
      assert b[p..] + x == x;
    } else {
      ScanGap(b, ps, e, p, k);
      if Get16(b, p, e) != MAGIC_BITMASK {
        KeptFrom(b, ps, x, e, crc, recalc, p + 4, k);
        GetSlice(b, p, 4, 0, e);
        WordIsItem(b[p..p + 4], e, crc, recalc);
        KeptMore(b[p..p + 4], b[p + 4..] + x, e, crc, recalc);
        assert b[p..] + x == b[p..p + 4] + (b[p + 4..] + x);
      } else {
        ScanNode(b, ps, e, p, k);
        var n := ps[k].node;
        AtPlace(b, ps, e, crc, recalc, k);
        WellLength(n, e);
        var p' := p + Pad(|n|);
        ScanBounds(b, ps, e, p', k + 1);
        KeptFrom(b, ps, x, e, crc, recalc, p', k + 1);
        assert n <= b[p..p'];
        NodeIsItem(n, b[p..p'], e, crc, recalc);
        KeptMore(b[p..p'], b[p'..] + x, e, crc, recalc);
        assert b[p..] + x == b[p..p'] + (b[p'..] + x);
      }
    }
  }

  // (Unfolds the definitions.)
  lemma AtPlace(b: seq<byte>, ps: seq<Placed>, e: Endian, crc: seq<byte> -> Word, recalc: bool, k: nat)
    requires AllIn(b, ps, e) && AllGoodNodes(NodesIn(ps), e, crc, recalc) && k < |ps|
    ensures ps[k].at + |ps[k].node| <= |b| && b[ps[k].at..ps[k].at + |ps[k].node|] == ps[k].node
    ensures Good(ps[k].node, e, crc, recalc)
  {
    assert NodesIn(ps)[k] == ps[k].node;
    hide Good;
  }

  lemma ScanBounds(b: seq<byte>, ps: seq<Placed>, e: Endian, p: nat, k: nat)
    requires Scanning(b, ps, e, p, k)
    ensures p <= |b|
  {
    Jffs2Reader.NodesAscend(Jffs2Reader.Image(b, e), p);
  }

  lemma BlockKept(b: seq<byte>, ps: seq<Placed>, x: seq<byte>, e: Endian, crc: seq<byte> -> Word, recalc: bool)
    requires Holds(b, ps, e) && AllGoodNodes(NodesIn(ps), e, crc, recalc) && Kept(x, e, crc, recalc)
    ensures Kept(b + x, e, crc, recalc)
  {
    hide *;
    ScanStarts(b, ps, e);
    KeptFrom(b, ps, x, e, crc, recalc, 0, 0);
    assert b[0..] == b;
  }

  lemma {:induction false} BlocksKept(blocks: seq<Full>, x: seq<byte>, e: Endian, crc: seq<byte> -> Word, recalc: bool,
                                      ebSize: nat)
    requires AllHold(blocks, e, ebSize) && AllGoodNodes(NodesOf(blocks), e, crc, recalc) && Kept(x, e, crc, recalc)
    ensures Kept(Joined(blocks) + x, e, crc, recalc)
    decreases |blocks|
  {
    hide *;
    if blocks == [] {
      NoneJoined();
      assert [] + x == x;
    } else {
      var n := |blocks| - 1;
      var b := blocks[n];
      AllHoldFront(blocks, e, ebSize);
      HoldsAt(blocks, e, ebSize, n);
      JoinedLast(blocks);
      NodesFront(blocks);
      GoodParts(NodesOf(blocks[..n]), NodesIn(b.placed), e, crc, recalc);
      BlockKept(b.bytes, b.placed, x, e, crc, recalc);
      BlocksKept(blocks[..n], b.bytes + x, e, crc, recalc, ebSize);
      assert Joined(blocks) + x == Joined(blocks[..n]) + (b.bytes + x);
    }
  }

  lemma GoodParts(a: seq<Node>, b: seq<Node>, e: Endian, crc: seq<byte> -> Word, recalc: bool)
    requires AllGoodNodes(a + b, e, crc, recalc)
    ensures AllGoodNodes(a, e, crc, recalc) && AllGoodNodes(b, e, crc, recalc)
  {
    hide Good;
  }

  lemma KeptIs(b: seq<byte>, e: Endian, crc: seq<byte> -> Word, recalc: bool)
    ensures Kept(b, e, crc, recalc) <==> Sized(b, e) && AllGood(b, e, crc, recalc)
  {
  }

  // If the contents have the right checksums, all nodes have.
  lemma LogGood(w: ImageWriter, recalc: bool)
    requires w.Inv() && AllGoodNodes(Contents(w.Log(), w.e), w.e, w.crc, recalc)
    ensures AllGoodNodes(w.Log(), w.e, w.crc, recalc)
  {
    WrittenIs(w);
    MarkerGood(w, recalc);
    hide Good, ImageWriter.Inv, ImageWriter.HasMarker, WellNode, Contents, IsMarker;
    forall n | n in w.Log() ensures Good(n, w.e, w.crc, recalc) {
      if IsMarker(n, w.e) {
        assert n == w.Marker();
      } else {
        ContentsHas(w.Log(), w.e, n);
      }
    }
  }

  lemma MarkerGood(w: ImageWriter, recalc: bool)
    requires w.HasMarker()
    ensures Good(w.Marker(), w.e, w.crc, recalc)
  {
    SealIs(w.Marker(), 8, w.Marker()[..8], w.crc, w.e);
    hide Get16, Get32, Sealed;
  }

  // The image of `w` converted, and converted back.
  lemma ImageKept(w: ImageWriter, recalc: bool)
    requires w.Inv() && AllGoodNodes(Contents(w.Log(), w.e), w.e, w.crc, recalc)
    ensures Sized(w.out, w.e)
    ensures var c := Convert(w.out, w.e, w.crc, recalc);
      && |c| == |w.out| && Sized(c, Flip(w.e)) && Convert(c, Flip(w.e), w.crc, recalc) == w.out
  {
    hide *;
    WrittenIs(w);
    LogGood(w, recalc);
    LaidSize(w.out, w.blocks, w.rest, w.cur, w.e, w.ebSize);
    GoodParts(NodesOf(w.blocks), NodesIn(w.cur), w.e, w.crc, recalc);
    KeptNothing(w.e, w.crc, recalc);
    BlockKept(w.rest, w.cur, [], w.e, w.crc, recalc);
    assert w.rest + [] == w.rest;
    BlocksKept(w.blocks, w.rest, w.e, w.crc, recalc, w.ebSize);
    KeptIs(w.out, w.e, w.crc, recalc);
    ConvertTwice(w.out, w.e, w.crc, recalc);
  }
}
