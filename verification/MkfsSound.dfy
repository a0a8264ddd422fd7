/**
 The nodes that mkfs.jffs2 writes, as the other tools read them: every field says what it was made from
 (external/mtd-utils/mkfs.jffs2.c), and every checksum is the one that sumtool and jffs2dump look for
 (external/mtd-utils/sumtool.c, external/mtd-utils/jffs2dump.c).
 */
module MkfsSound {
  import opened Jffs2Format
  import opened MkfsNodes
  import opened Summary
  import EndianNodes
  import Sumtool

  // What stands where in an inode node.
  lemma InodeLayout(a: Attr, version: Word, offset: Word, csize: Word, dsize: Word, compr: byte, dataCrc: Word,
                    crc: seq<byte> -> Word, e: Endian, data: seq<byte>)
    requires a.InRange() && RAW_INODE_SIZE + csize <= UINT32_MAX && |data| == csize
    ensures var n := InodeHead(a, version, offset, csize, dsize, compr, dataCrc, crc, e) + data;
      && n[..8] == NodeStart(NODETYPE_INODE, RAW_INODE_SIZE + csize, e) && n[8..12] == Put32(crc(n[..8]), e)
      && n[20..44] == AttrPart(a, e) && n[60..64] == Put32(dataCrc, e) && n[64..68] == Put32(crc(n[..60]), e)
      && n[68..68 + csize] == data
  {
    hide AttrPart, DataPart, Put32, Put16, NodeStart;
    var n := InodeHead(a, version, offset, csize, dsize, compr, dataCrc, crc, e) + data;
    var start := NodeStart(NODETYPE_INODE, RAW_INODE_SIZE + csize, e);
    var front := HeadPart(NODETYPE_INODE, RAW_INODE_SIZE + csize, crc, e) + (Put32(a.ino, e) + Put32(version, e))
        + AttrPart(a, e)
                 + DataPart(offset, csize, dsize, e) + ([compr, 0] + Put16(0, e));
    assert n == front + (Put32(dataCrc, e) + Put32(crc(front), e)) + data;
    assert n[..60] == front;
    assert n[..8] == start;
  }

  // The attributes of the file are in the node.
  lemma AttrsSaid(n: seq<byte>, a: Attr, e: Endian)
    requires |n| >= 44 && a.InRange() && n[20..44] == AttrPart(a, e)
    ensures Get32(n, 20, e) == a.mode && Get16(n, 24, e) == a.uid && Get16(n, 26, e) == a.gid
    ensures Get32(n, 28, e) == a.isize
    ensures Get32(n, 32, e) == a.atime && Get32(n, 36, e) == a.mtime && Get32(n, 40, e) == a.ctime
  {
    hide In, Get32, Get16, Put32, Put16;
    InIs(n, 20, AttrPart(a, e));
    InParts(n, 20, Put32(a.mode, e) + Put16(a.uid, e) + Put16(a.gid, e) + Put32(a.isize, e) + Put32(a.atime, e)
            + Put32(a.mtime, e), Put32(a.ctime, e));
    InParts(n, 20, Put32(a.mode, e) + Put16(a.uid, e) + Put16(a.gid, e) + Put32(a.isize, e) + Put32(a.atime, e),
            Put32(a.mtime, e));
    InParts(n, 20, Put32(a.mode, e) + Put16(a.uid, e) + Put16(a.gid, e) + Put32(a.isize, e), Put32(a.atime, e));
    InParts(n, 20, Put32(a.mode, e) + Put16(a.uid, e) + Put16(a.gid, e), Put32(a.isize, e));
    InParts(n, 20, Put32(a.mode, e) + Put16(a.uid, e), Put16(a.gid, e));
    InParts(n, 20, Put32(a.mode, e), Put16(a.uid, e));
    WordIn(n, 20, a.mode, e);
    HalfIn(n, 24, a.uid, e);
    HalfIn(n, 26, a.gid, e);
    WordIn(n, 28, a.isize, e);
    WordIn(n, 32, a.atime, e);
    WordIn(n, 36, a.mtime, e);
    WordIn(n, 40, a.ctime, e);
  }

  lemma InIs(n: seq<byte>, p: nat, part: seq<byte>)
    ensures In(n, p, part) <==> p + |part| <= |n| && n[p..p + |part|] == part
  {
  }

  // A node of the file with attributes `a`, with the checksums the other tools look for.
  ghost predicate Written(n: seq<byte>, a: Attr, e: Endian, crc: seq<byte> -> Word) {
    && |n| >= RAW_INODE_SIZE && Sumtool.Long(n, e) && Sumtool.NodeSound(n, e, crc)
    && EndianNodes.SoundInode(n, e, crc, true)
    && Get32(n, 20, e) == a.mode && Get16(n, 24, e) == a.uid && Get16(n, 26, e) == a.gid && Get32(n, 28, e) == a.isize
    && Get32(n, 32, e) == a.atime && Get32(n, 36, e) == a.mtime && Get32(n, 40, e) == a.ctime
  }

  ghost predicate AllWritten(ns: seq<Node>, a: Attr, e: Endian, crc: seq<byte> -> Word) {
    forall i :: 0 <= i < |ns| ==> Written(ns[i], a, e, crc)
  }

  lemma AllWrittenMore(ns: seq<Node>, n: Node, a: Attr, e: Endian, crc: seq<byte> -> Word)
    requires AllWritten(ns, a, e, crc) && Written(n, a, e, crc)
    ensures AllWritten(ns + [n], a, e, crc) && AllWritten([n], a, e, crc)
  {
    hide Written;
  }

  lemma NoneWritten(a: Attr, e: Endian, crc: seq<byte> -> Word)
    ensures AllWritten([], a, e, crc)
  {
  }

  // An inode node says all attributes of its file, and passes the checks of the other tools.
  lemma InodeSound(a: Attr, version: Word, offset: Word, csize: Word, dsize: Word, compr: byte, dataCrc: Word,
                   crc: seq<byte> -> Word, e: Endian, data: seq<byte>)
    requires a.InRange() && RAW_INODE_SIZE + csize <= UINT32_MAX && |data| == csize && dataCrc == crc(data)
    ensures Written(InodeHead(a, version, offset, csize, dsize, compr, dataCrc, crc, e) + data, a, e, crc)
  {
    hide InodeHead, AttrPart, NodeStart, Put32, Get32, Get16;
    InodeLayout(a, version, offset, csize, dsize, compr, dataCrc, crc, e, data);
    InodeSays(a, version, offset, csize, dsize, compr, dataCrc, crc, e, data);
    var n := InodeHead(a, version, offset, csize, dsize, compr, dataCrc, crc, e) + data;
    AttrsSaid(n, a, e);
    At32(n, 60, dataCrc, e);
    At32(n, 64, crc(n[..60]), e);
  }

  // What stands where in a dirent node.
  lemma DirentLayout(pino: Word, version: Word, ino: Word, mctime: Word, kind: byte, name: seq<byte>,
                     crc: seq<byte> -> Word, e: Endian)
    requires |name| < 256
    ensures var n := DirentHead(pino, version, ino, mctime, kind, name, crc, e) + name;
      && n[..8] == NodeStart(NODETYPE_DIRENT, RAW_DIRENT_SIZE + |name|, e) && n[8..12] == Put32(crc(n[..8]), e)
      && n[24..28] == Put32(mctime, e) && n[32..36] == Put32(crc(n[..32]), e) && n[36..40] == Put32(crc(name), e)
      && n[40..40 + |name|] == name
  {
    hide Put32, NodeStart;
    var n := DirentHead(pino, version, ino, mctime, kind, name, crc, e) + name;
    var start := NodeStart(NODETYPE_DIRENT, RAW_DIRENT_SIZE + |name|, e);
    var front := HeadPart(NODETYPE_DIRENT, RAW_DIRENT_SIZE + |name|, crc, e) + (Put32(pino, e) + Put32(version, e))
                 + (Put32(ino, e) + Put32(mctime, e)) + [|name|, kind, 0, 0] + [];
    assert n == front + (Put32(crc(front), e) + Put32(crc(name), e)) + name;
    assert n[..32] == front;
    assert n[..8] == start;
  }

  // A dirent passes them as well.
  lemma DirentSound(pino: Word, version: Word, ino: Word, mctime: Word, kind: byte, name: seq<byte>,
                    crc: seq<byte> -> Word, e: Endian)
    requires |name| < 256
    ensures var n := DirentHead(pino, version, ino, mctime, kind, name, crc, e) + name;
      && |n| == RAW_DIRENT_SIZE + |name| && Get32(n, 24, e) == mctime
      && Sumtool.Long(n, e) && Sumtool.NodeSound(n, e, crc) && EndianNodes.SoundDirent(n, e, crc, true)
  {
    hide DirentHead, NodeStart, Put32, Get32, Get16;
    DirentLayout(pino, version, ino, mctime, kind, name, crc, e);
    DirentSays(pino, version, ino, mctime, kind, name, crc, e);
    var n := DirentHead(pino, version, ino, mctime, kind, name, crc, e) + name;
    At32(n, 24, mctime, e);
    At32(n, 32, crc(n[..32]), e);
    At32(n, 36, crc(name), e);
  }

  // sumtool takes an inode node or a dirent exactly if converting it to the other byte order and back, with all
  // checksums made anew, leaves it as it is; xattr nodes and references if the checksums in their last bytes are right.
  lemma SoundMeans(n: Node, e: Endian, crc: seq<byte> -> Word)
    requires UNKNOWN_NODE_SIZE <= |n| && Sumtool.Long(n, e)
    ensures var taken := Sumtool.IsData(n, e) && crc(n[..8]) == Get32(n, 8, e) && Sumtool.NodeSound(n, e, crc);
      match Get16(n, 2, e)
      case 0xE002 => taken <==> EndianNodes.SoundInode(n, e, crc, true)
      case 0xE001 => taken <==> EndianNodes.SoundDirent(n, e, crc, true)
      case 0xE008 =>
        var len := n[21] as nat + 1 + Get16(n, 22, e);
        taken <==>
          Get32(n, 8, e) == crc(n[..8]) && Get32(n, 28, e) == crc(n[..28]) && Get32(n, 24, e) == crc(n[32..32 + len])
      case 0xE009 => taken <==> Get32(n, 8, e) == crc(n[..8]) && Get32(n, 24, e) == crc(n[..24])
      case _ => !taken
  {
    EndianNodes.SealIs(n, 8, n[..8], crc, e);
    hide Get16, Get32, EndianNodes.Sealed;
    var t := Get16(n, 2, e);
    if t == NODETYPE_INODE {
      EndianNodes.SealIs(n, 64, n[..60], crc, e);
      EndianNodes.SealIs(n, 60, n[68..68 + Get32(n, 48, e)], crc, e);
    } else if t == NODETYPE_DIRENT {
      EndianNodes.SealIs(n, 32, n[..32], crc, e);
      EndianNodes.SealIs(n, 36, n[40..40 + n[28] as nat], crc, e);
    }
  }
}
