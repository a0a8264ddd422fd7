/**
 What jffs2reader (external/mtd-utils/jffs2reader.c) sees of the nodes that mkfs.jffs2
 (external/mtd-utils/mkfs.jffs2.c) writes.
 */
module MkfsRead {
  import opened Jffs2Format
  import opened Jffs2Scan
  import opened Jffs2Dir
  import opened Summary
  import opened BlockScan
  import opened MkfsNodes
  import Jffs2Reader

  lemma NodeSeen(im: Jffs2Reader.Image, q: nat, n: Node)
    requires In(im.bytes, q, n) && q % 4 == 0 && |im.bytes| % 4 == 0 && WellNode(n, im.endian)
    ensures Jffs2Reader.NodeAt(im, q) && Jffs2Reader.NodeEnd(im, q) == q + Pad(|n|)
    ensures q + |n| <= |im.bytes| && im.bytes[q..q + |n|] == n
    ensures Get16(im.bytes, q + 2, im.endian) == Get16(n, 2, im.endian)
  {
    NodeFound(im.bytes, q, n, im.endian);
    FieldsOf(im.bytes, q, n, im.endian);
    assert Jffs2Reader.Image(im.bytes, im.endian) == im;
    hide Jffs2Reader.NodeAt, Jffs2Reader.NodeEnd, WellNode, Get16, Pad;
  }

  // A dirent that was written: it is in the log of its directory only, with its version; what it says is its name,
  // inode number and type; and it is what is asked for exactly by its inode number, or its directory and name, or both.
  lemma DirentSeen(im: Jffs2Reader.Image, q: nat, pino: Word, version: Word, ino: Word, mctime: Word, kind: byte,
                   name: seq<byte>, crc: seq<byte> -> Word)
    requires |name| < 256 && q % 4 == 0 && |im.bytes| % 4 == 0
    requires In(im.bytes, q, DirentHead(pino, version, ino, mctime, kind, name, crc, im.endian) + name)
    ensures Jffs2Reader.NodeAt(im, q) && Jffs2Reader.IsDirent(im, q)
    ensures Jffs2Reader.EntryAt(im, q) == Entry(name, ino, kind) && Jffs2Reader.VersionAt(im, q) == version
    ensures forall dir: nat :: Jffs2Reader.RecAt(im, dir, q) ==
                               Rec(q, q + Pad(40 + |name|), if dir == pino then version else 0)
    ensures forall i: nat, dir: nat, s: seq<byte> ::
              Jffs2Reader.Named(im, q, i, dir, s) <==> (i == 0 || i == ino) && (dir == 0 || (dir == pino && s == name))
  {
    assert RAW_DIRENT_SIZE == 40;
    hide *;
    DirentSays(pino, version, ino, mctime, kind, name, crc, im.endian);
    DirentNodeSeen(im, q, DirentHead(pino, version, ino, mctime, kind, name, crc, im.endian) + name, pino, version,
                   ino, kind, name);
  }

  lemma DirentNodeSeen(im: Jffs2Reader.Image, q: nat, n: Node, pino: nat, version: nat, ino: nat, kind: byte,
                       name: seq<byte>)
    requires q % 4 == 0 && |im.bytes| % 4 == 0 && In(im.bytes, q, n) && WellNode(n, im.endian)
    requires |n| == 40 + |name| && n[28] as nat == |name| && n[29] == kind && n[40..] == name
    requires Get16(n, 2, im.endian) == NODETYPE_DIRENT && Get32(n, 12, im.endian) == pino
    requires Get32(n, 16, im.endian) == version && Get32(n, 20, im.endian) == ino
    ensures Jffs2Reader.NodeAt(im, q) && Jffs2Reader.IsDirent(im, q)
    ensures Jffs2Reader.EntryAt(im, q) == Entry(name, ino, kind) && Jffs2Reader.VersionAt(im, q) == version
    ensures forall dir: nat :: Jffs2Reader.RecAt(im, dir, q) ==
                               Rec(q, q + Pad(40 + |name|), if dir == pino then version else 0)
    ensures forall i: nat, dir: nat, s: seq<byte> ::
              Jffs2Reader.Named(im, q, i, dir, s) <==> (i == 0 || i == ino) && (dir == 0 || (dir == pino && s == name))
  {
    hide *;
    NodeSeen(im, q, n);
    DirentBytes(im, q, n, |name|);
    DirentAt(im, q, |n|, pino, version, ino, kind, name);
  }

  lemma DirentAt(im: Jffs2Reader.Image, q: nat, len: nat, pino: nat, version: nat, ino: nat, kind: byte,
                 name: seq<byte>)
    requires Jffs2Reader.NodeAt(im, q) && Jffs2Reader.NodeEnd(im, q) == q + Pad(len) && q + len <= |im.bytes|
    requires len == 40 + |name| && Get16(im.bytes, q + 2, im.endian) == NODETYPE_DIRENT
    requires Get32(im.bytes, q + 12, im.endian) == pino && Get32(im.bytes, q + 16, im.endian) == version
    requires Get32(im.bytes, q + 20, im.endian) == ino && im.bytes[q + 28] == |name| && im.bytes[q + 29] == kind
    requires im.bytes[q + 40..q + 40 + |name|] == name
    ensures Jffs2Reader.IsDirent(im, q) && Jffs2Reader.VersionAt(im, q) == version
    ensures Jffs2Reader.EntryAt(im, q) == Entry(name, ino, kind)
    ensures forall dir: nat :: Jffs2Reader.RecAt(im, dir, q) ==
                               Rec(q, q + Pad(40 + |name|), if dir == pino then version else 0)
    ensures forall i: nat, dir: nat, s: seq<byte> ::
              Jffs2Reader.Named(im, q, i, dir, s) <==> (i == 0 || i == ino) && (dir == 0 || (dir == pino && s == name))
  {
    hide Get16, Get32, Pad, Jffs2Reader.NodeEnd, Jffs2Reader.NodeAt;
  }

  // The fields of a dirent that lies in an image.
  lemma DirentBytes(im: Jffs2Reader.Image, q: nat, n: Node, nsize: nat)
    requires q + |n| <= |im.bytes| && im.bytes[q..q + |n|] == n && |n| == 40 + nsize
    ensures Get32(im.bytes, q + 12, im.endian) == Get32(n, 12, im.endian)
    ensures Get32(im.bytes, q + 16, im.endian) == Get32(n, 16, im.endian)
    ensures Get32(im.bytes, q + 20, im.endian) == Get32(n, 20, im.endian)
    ensures im.bytes[q + 28] == n[28] && im.bytes[q + 29] == n[29] && im.bytes[q + 40..q + 40 + nsize] == n[40..]
  {
    GetSlice(im.bytes, q, |n|, 12, im.endian);
    GetSlice(im.bytes, q, |n|, 16, im.endian);
    GetSlice(im.bytes, q, |n|, 20, im.endian);
    assert im.bytes[q..q + |n|][28] == im.bytes[q + 28] && im.bytes[q..q + |n|][29] == im.bytes[q + 29];
    assert im.bytes[q..q + |n|][40..] == im.bytes[q + 40..q + |n|];
  }

  // An inode node that was written: it is found as its inode, with its version, and is in the log of no directory.
  lemma InodeSeen(im: Jffs2Reader.Image, q: nat, a: Attr, version: Word, offset: Word, csize: Word, dsize: Word,
                  compr: byte, dataCrc: Word, crc: seq<byte> -> Word, data: seq<byte>)
    requires a.InRange() && RAW_INODE_SIZE + csize <= UINT32_MAX && |data| == csize
    requires q % 4 == 0 && |im.bytes| % 4 == 0
    requires In(im.bytes, q, InodeHead(a, version, offset, csize, dsize, compr, dataCrc, crc, im.endian) + data)
    ensures Jffs2Reader.NodeAt(im, q) && !Jffs2Reader.IsDirent(im, q)
    ensures Get16(im.bytes, q + 2, im.endian) == NODETYPE_INODE && Jffs2Reader.VersionAt(im, q) == version
    ensures forall i: nat :: Jffs2Reader.IsInode(im, q, i) <==> i == a.ino
    ensures forall dir: nat :: Jffs2Reader.RecAt(im, dir, q) == Rec(q, q + Pad(68 + csize), 0)
  {
    var e := im.endian;
    var n := InodeHead(a, version, offset, csize, dsize, compr, dataCrc, crc, e) + data;
    hide *;
    InodeSays(a, version, offset, csize, dsize, compr, dataCrc, crc, e, data);
    SaysIs(n, e, a.ino, version, offset, csize, dsize, compr, data);
    NodeSeen(im, q, n);
    GetSlice(im.bytes, q, |n|, 12, e);
    GetSlice(im.bytes, q, |n|, 16, e);
    InodeAt(im, q, |n|, a.ino, version, csize);
  }

  lemma SaysIs(n: Node, e: Endian, ino: nat, version: nat, offset: nat, csize: nat, dsize: nat, compr: byte,
               data: seq<byte>)
    requires Says(n, e, ino, version, offset, csize, dsize, compr, data)
    ensures |n| == 68 + csize && WellNode(n, e) && Get16(n, 2, e) == NODETYPE_INODE
    ensures Get32(n, 12, e) == ino && Get32(n, 16, e) == version
  {
    hide WellNode, Get16, Get32;
  }

  lemma InodeAt(im: Jffs2Reader.Image, q: nat, len: nat, ino: nat, version: nat, csize: nat)
    requires Jffs2Reader.NodeAt(im, q) && Jffs2Reader.NodeEnd(im, q) == q + Pad(len) && q + len <= |im.bytes|
    requires len == 68 + csize && Get16(im.bytes, q + 2, im.endian) == NODETYPE_INODE
    requires Get32(im.bytes, q + 12, im.endian) == ino && Get32(im.bytes, q + 16, im.endian) == version
    ensures !Jffs2Reader.IsDirent(im, q) && Jffs2Reader.VersionAt(im, q) == version
    ensures forall i: nat :: Jffs2Reader.IsInode(im, q, i) <==> i == ino
    ensures forall dir: nat :: Jffs2Reader.RecAt(im, dir, q) == Rec(q, q + Pad(68 + csize), 0)
  {
    hide Get16, Get32, Pad, Jffs2Reader.NodeEnd, Jffs2Reader.NodeAt;
  }
}
