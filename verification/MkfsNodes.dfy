/**
 The dirent and inode nodes that mkfs.jffs2 writes (external/mtd-utils/mkfs.jffs2.c), field by
 field, and what the inode nodes of a regular file say about its contents.
 */
module MkfsNodes {
  import opened Jffs2Format
  import opened Summary
  import opened BlockScan

  // What all inode nodes of a file have in common.
  datatype Attr = Attr(ino: Word, mode: Word, uid: nat, gid: nat, isize: Word, atime: Word, mtime: Word, ctime: Word) {
    predicate InRange() {
      uid < 0x1_0000 && gid < 0x1_0000
    }
  }

  // The parts of `struct jffs2_raw_inode`: the header, what names the version, the attributes,
  // what says which part of the file it is for, and the end.
  function HeadPart(nodetype: nat, totlen: Word, crc: seq<byte> -> Word, e: Endian): (b: seq<byte>)
    requires nodetype < 0x1_0000
    ensures |b| == 12
  {
    NodeStart(nodetype, totlen, e) + Put32(crc(NodeStart(nodetype, totlen, e)), e)
  }

  function AttrPart(a: Attr, e: Endian): (b: seq<byte>)
    requires a.InRange()
    ensures |b| == 24
  {
    Put32(a.mode, e) + Put16(a.uid, e) + Put16(a.gid, e) + Put32(a.isize, e) + Put32(a.atime, e) + Put32(a.mtime, e)
    + Put32(a.ctime, e)
  }

  function DataPart(offset: Word, csize: Word, dsize: Word, e: Endian): (b: seq<byte>)
    ensures |b| == 12
  {
    Put32(offset, e) + Put32(csize, e) + Put32(dsize, e)
  }

  // A `struct jffs2_raw_inode`.
  function InodeHead(a: Attr, version: Word, offset: Word, csize: Word, dsize: Word, compr: byte, dataCrc: Word,
                     crc: seq<byte> -> Word, e: Endian): (b: seq<byte>)
    requires a.InRange() && RAW_INODE_SIZE + csize <= UINT32_MAX
    ensures |b| == RAW_INODE_SIZE
  {
    var front := HeadPart(NODETYPE_INODE, RAW_INODE_SIZE + csize, crc, e) + (Put32(a.ino, e) + Put32(version, e))
        + AttrPart(a, e)
                 + DataPart(offset, csize, dsize, e) + ([compr, 0] + Put16(0, e));
    front + (Put32(dataCrc, e) + Put32(crc(front), e))
  }

  // A `struct jffs2_raw_dirent` and the name.
  function DirentHead(pino: Word, version: Word, ino: Word, mctime: Word, kind: byte, name: seq<byte>,
                      crc: seq<byte> -> Word, e: Endian): (b: seq<byte>)
    requires |name| < 256
    ensures |b| == RAW_DIRENT_SIZE
  {
    var front := HeadPart(NODETYPE_DIRENT, RAW_DIRENT_SIZE + |name|, crc, e) + (Put32(pino, e) + Put32(version, e))
                 + (Put32(ino, e) + Put32(mctime, e)) + [|name|, kind, 0, 0] + [];
    front + (Put32(crc(front), e) + Put32(crc(name), e))
  }

  lemma HeadFields(b: seq<byte>, nodetype: nat, totlen: Word, crc: seq<byte> -> Word, e: Endian)
    requires nodetype < 0x1_0000 && In(b, 0, HeadPart(nodetype, totlen, crc, e))
    ensures |b| >= 12 && Get16(b, 0, e) == MAGIC_BITMASK && Get16(b, 2, e) == nodetype && Get32(b, 4, e) == totlen
  {
    hide In, Get16, Get32, Put32, NodeStart;
    InParts(b, 0, NodeStart(nodetype, totlen, e), Put32(crc(NodeStart(nodetype, totlen, e)), e));
    StartFields(b, 0, nodetype, totlen, e);
  }

  lemma TwoWords(b: seq<byte>, p: nat, v: Word, w: Word, e: Endian)
    requires In(b, p, Put32(v, e) + Put32(w, e))
    ensures p + 8 <= |b| && Get32(b, p, e) == v && Get32(b, p + 4, e) == w
  {
    hide In, Get32, Put32;
    InParts(b, p, Put32(v, e), Put32(w, e));
    WordIn(b, p, v, e);
    WordIn(b, p + 4, w, e);
  }

  lemma DataFields(b: seq<byte>, p: nat, offset: Word, csize: Word, dsize: Word, e: Endian)
    requires In(b, p, DataPart(offset, csize, dsize, e))
    ensures p + 12 <= |b| && Get32(b, p, e) == offset && Get32(b, p + 4, e) == csize && Get32(b, p + 8, e) == dsize
  {
    hide In, Get32, Put32;
    InParts(b, p, Put32(offset, e) + Put32(csize, e), Put32(dsize, e));
    TwoWords(b, p, offset, csize, e);
    WordIn(b, p + 8, dsize, e);
  }

  lemma PairIn(b: seq<byte>, p: nat, x: byte, y: byte, rest: seq<byte>)
    requires In(b, p, [x, y] + rest)
    ensures p + 1 < |b| && b[p] == x && b[p + 1] == y
  {
    var part := [x, y] + rest;
    assert b[p] == b[p..p + |part|][0] == part[0] && b[p + 1] == b[p..p + |part|][1] == part[1];
  }

  // Where five parts of a node are.
  lemma Parts(h: seq<byte>, v: seq<byte>, a: seq<byte>, d: seq<byte>, c: seq<byte>, tail: seq<byte>, data: seq<byte>)
    ensures var n := h + v + a + d + c + tail + data;
      && In(n, 0, h) && In(n, |h|, v) && In(n, |h| + |v|, a) && In(n, |h| + |v| + |a|, d)
      && In(n, |h| + |v| + |a| + |d|, c)
      && n[|h| + |v| + |a| + |d| + |c| + |tail|..] == data
  {
    var n := h + v + a + d + c + tail + data;
    assert In(n, 0, n);
    assert n == h + v + a + d + c + (tail + data);
    InParts(n, 0, h + v + a + d + c, tail + data);
    InParts(n, 0, h + v + a + d, c);
    InParts(n, 0, h + v + a, d);
    InParts(n, 0, h + v, a);
    InParts(n, 0, h, v);
  }

  lemma InodeParts(a: Attr, version: Word, offset: Word, csize: Word, dsize: Word, compr: byte, dataCrc: Word,
                   crc: seq<byte> -> Word, e: Endian, data: seq<byte>)
    requires a.InRange() && RAW_INODE_SIZE + csize <= UINT32_MAX
    ensures var n := InodeHead(a, version, offset, csize, dsize, compr, dataCrc, crc, e) + data;
      && In(n, 0, HeadPart(NODETYPE_INODE, RAW_INODE_SIZE + csize, crc, e))
      && In(n, 12, Put32(a.ino, e) + Put32(version, e))
      && In(n, 44, DataPart(offset, csize, dsize, e)) && In(n, 56, [compr, 0] + Put16(0, e)) && n[68..] == data
  {
    hide HeadPart, AttrPart, DataPart, Put32, Put16, In;
    var h, v, at := HeadPart(NODETYPE_INODE, RAW_INODE_SIZE + csize, crc, e), Put32(a.ino, e) + Put32(version, e),
        AttrPart(a, e);
    var d, c := DataPart(offset, csize, dsize, e), [compr, 0] + Put16(0, e);
    Parts(h, v, at, d, c, Put32(dataCrc, e) + Put32(crc(h + v + at + d + c), e), data);
  }

  lemma InodeNames(a: Attr, version: Word, offset: Word, csize: Word, dsize: Word, compr: byte, dataCrc: Word,
                   crc: seq<byte> -> Word, e: Endian, data: seq<byte>)
    requires a.InRange() && RAW_INODE_SIZE + csize <= UINT32_MAX && |data| == csize
    ensures var n := InodeHead(a, version, offset, csize, dsize, compr, dataCrc, crc, e) + data;
      && |n| == RAW_INODE_SIZE + csize && WellNode(n, e) && Get16(n, 2, e) == NODETYPE_INODE
      && Get32(n, 12, e) == a.ino && Get32(n, 16, e) == version
  {
    hide InodeHead, HeadPart, DataPart, Put32, Put16, Get16, Get32, In;
    InodeParts(a, version, offset, csize, dsize, compr, dataCrc, crc, e, data);
    var n := InodeHead(a, version, offset, csize, dsize, compr, dataCrc, crc, e) + data;
    HeadFields(n, NODETYPE_INODE, RAW_INODE_SIZE + csize, crc, e);
    TwoWords(n, 12, a.ino, version, e);
  }

  lemma InodeExtent(a: Attr, version: Word, offset: Word, csize: Word, dsize: Word, compr: byte, dataCrc: Word,
                    crc: seq<byte> -> Word, e: Endian, data: seq<byte>)
    requires a.InRange() && RAW_INODE_SIZE + csize <= UINT32_MAX && |data| == csize
    ensures var n := InodeHead(a, version, offset, csize, dsize, compr, dataCrc, crc, e) + data;
      && |n| == RAW_INODE_SIZE + csize && Get32(n, 44, e) == offset && Get32(n, 48, e) == csize
      && Get32(n, 52, e) == dsize
      && n[56] == compr && n[68..] == data
  {
    hide InodeHead, HeadPart, DataPart, Put32, Put16, Get16, Get32, In;
    InodeParts(a, version, offset, csize, dsize, compr, dataCrc, crc, e, data);
    var n := InodeHead(a, version, offset, csize, dsize, compr, dataCrc, crc, e) + data;
    DataFields(n, 44, offset, csize, dsize, e);
    PairIn(n, 56, compr, 0, Put16(0, e));
  }

  // A node of the file with that inode number: its version, and the part of the file it is for.
  ghost predicate Says(n: Node, e: Endian, ino: nat, version: nat, offset: nat, csize: nat, dsize: nat, compr: byte,
                       data: seq<byte>) {
    && |n| == RAW_INODE_SIZE + csize && WellNode(n, e) && Get16(n, 2, e) == NODETYPE_INODE
    && Get32(n, 12, e) == ino && Get32(n, 16, e) == version
    && Get32(n, 44, e) == offset && Get32(n, 48, e) == csize && Get32(n, 52, e) == dsize && n[56] == compr
    && n[68..] == data
  }

  lemma InodeSays(a: Attr, version: Word, offset: Word, csize: Word, dsize: Word, compr: byte, dataCrc: Word,
                    crc: seq<byte> -> Word, e: Endian, data: seq<byte>)
    requires a.InRange() && RAW_INODE_SIZE + csize <= UINT32_MAX && |data| == csize
    ensures Says(InodeHead(a, version, offset, csize, dsize, compr, dataCrc, crc, e) + data, e, a.ino, version,
                 offset, csize, dsize, compr, data)
  {
    InodeNames(a, version, offset, csize, dsize, compr, dataCrc, crc, e, data);
    InodeExtent(a, version, offset, csize, dsize, compr, dataCrc, crc, e, data);
    hide InodeHead, Get16, Get32, WellNode;
  }

  lemma DirentParts(pino: Word, version: Word, ino: Word, mctime: Word, kind: byte, name: seq<byte>,
                    crc: seq<byte> -> Word, e: Endian)
    requires |name| < 256
    ensures var n := DirentHead(pino, version, ino, mctime, kind, name, crc, e) + name;
      && In(n, 0, HeadPart(NODETYPE_DIRENT, RAW_DIRENT_SIZE + |name|, crc, e))
      && In(n, 12, Put32(pino, e) + Put32(version, e))
      && In(n, 20, Put32(ino, e) + Put32(mctime, e)) && In(n, 28, [|name|, kind, 0, 0]) && n[40..] == name
  {
    hide HeadPart, Put32, In;
    var h := HeadPart(NODETYPE_DIRENT, RAW_DIRENT_SIZE + |name|, crc, e);
    var v, i := Put32(pino, e) + Put32(version, e), Put32(ino, e) + Put32(mctime, e);
    var c: seq<byte> := [|name|, kind, 0, 0];
    Parts(h, v, i, c, [], Put32(crc(h + v + i + c + []), e) + Put32(crc(name), e), name);
  }

  // The fields of a dirent node.
  lemma DirentSays(pino: Word, version: Word, ino: Word, mctime: Word, kind: byte, name: seq<byte>,
                   crc: seq<byte> -> Word, e: Endian)
    requires |name| < 256
    ensures var n := DirentHead(pino, version, ino, mctime, kind, name, crc, e) + name;
      && |n| == RAW_DIRENT_SIZE + |name| && n[28] as nat == |name| && WellNode(n, e)
      && Get16(n, 2, e) == NODETYPE_DIRENT
      && Get32(n, 12, e) == pino && Get32(n, 16, e) == version && Get32(n, 20, e) == ino && n[29] == kind
      && n[40..] == name
  {
    hide DirentHead, HeadPart, Put32, Get16, Get32, In;
    DirentParts(pino, version, ino, mctime, kind, name, crc, e);
    var n := DirentHead(pino, version, ino, mctime, kind, name, crc, e) + name;
    HeadFields(n, NODETYPE_DIRENT, RAW_DIRENT_SIZE + |name|, crc, e);
    TwoWords(n, 12, pino, version, e);
    TwoWords(n, 20, ino, mctime, e);
    assert [|name|, kind] + [0, 0] == [|name|, kind, 0, 0];
    PairIn(n, 28, |name|, kind, [0, 0]);
  }

  // The part of the file that an inode node holds.
  function Fragment(n: Node, e: Endian, inflate: (byte, seq<byte>, nat) -> seq<byte>): seq<byte>
    requires RAW_INODE_SIZE <= |n|
  {
    if n[56] == 0 then n[68..] else inflate(n[56], n[68..], Get32(n, 52, e))
  }

  ghost predicate AllInodes(ns: seq<Node>) {
    forall i :: 0 <= i < |ns| ==> RAW_INODE_SIZE <= |ns[i]|
  }

  // The parts one after the other.
  function FileContents(ns: seq<Node>, e: Endian, inflate: (byte, seq<byte>, nat) -> seq<byte>): seq<byte>
    requires AllInodes(ns)
  {
    if ns == [] then [] else FileContents(ns[..|ns| - 1], e, inflate) + Fragment(ns[|ns| - 1], e, inflate)
  }

  // The nodes have the versions 1, 2, 3 and so on, and each starts where the one before ends.
  ghost predicate Tiles(ns: seq<Node>, e: Endian, ino: nat, inflate: (byte, seq<byte>, nat) -> seq<byte>)
    decreases |ns|
  {
    ns == [] ||
    var front, n := ns[..|ns| - 1], ns[|ns| - 1];
    && Tiles(front, e, ino, inflate) && RAW_INODE_SIZE <= |n| && WellNode(n, e) && Get16(n, 2, e) == NODETYPE_INODE
    && AllInodes(front) && Get32(n, 12, e) == ino && Get32(n, 16, e) == |ns|
    && Get32(n, 44, e) == |FileContents(front, e, inflate)| && Get32(n, 48, e) == |n| - RAW_INODE_SIZE
    && Get32(n, 52, e) == |Fragment(n, e, inflate)|
  }

  lemma TilesMore(ns: seq<Node>, e: Endian, ino: nat, inflate: (byte, seq<byte>, nat) -> seq<byte>, n: Node,
                  csize: nat, compr: byte, data: seq<byte>, part: seq<byte>)
    requires AllInodes(ns) && Tiles(ns, e, ino, inflate)
    requires Says(n, e, ino, |ns| + 1, |FileContents(ns, e, inflate)|, csize, |part|, compr, data)
    requires part == if compr == 0 then data else inflate(compr, data, |part|)
    ensures AllInodes(ns + [n]) && Tiles(ns + [n], e, ino, inflate)
    ensures FileContents(ns + [n], e, inflate) == FileContents(ns, e, inflate) + part
  {
    hide WellNode, Get16, Get32;
    assert (ns + [n])[..|ns|] == ns;
  }
}
