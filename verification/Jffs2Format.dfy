/**
 The JFFS2 node formats shared by the tools of external/mtd-utils: byte order, header layout
 and node types (include/linux/jffs2.h, include/mtd/jffs2-user.h).
 */
module Jffs2Format {
  type byte = x: int | 0 <= x < 256

  type Word = x: nat | x <= UINT32_MAX

  datatype Option<T> = None | Some(value: T)

  const UINT32_MAX: nat := 0xFFFF_FFFF

  const MAGIC_BITMASK: nat := 0x1985
  const NODETYPE_DIRENT: nat := 0xE001
  const NODETYPE_INODE: nat := 0xE002
  const NODETYPE_CLEANMARKER: nat := 0x2003
  const NODETYPE_PADDING: nat := 0x2004
  const NODETYPE_SUMMARY: nat := 0x2006
  const NODETYPE_XATTR: nat := 0xE008
  const NODETYPE_XREF: nat := 0xE009
  const SUM_MAGIC: nat := 0x02851885

  const UNKNOWN_NODE_SIZE: nat := 12
  const RAW_DIRENT_SIZE: nat := 40
  const RAW_INODE_SIZE: nat := 68

  // The byte order of the image (`target_endian`).
  datatype Endian = Little | Big

  function Get16(b: seq<byte>, p: nat, endian: Endian): (v: nat)
    requires p + 2 <= |b|
    ensures v < 0x1_0000
  {
    if endian.Little? then b[p] as int + 0x100 * b[p + 1] as int else 0x100 * b[p] as int + b[p + 1] as int
  }

  function Get32(b: seq<byte>, p: nat, endian: Endian): (v: nat)
    requires p + 4 <= |b|
    ensures v <= UINT32_MAX
  {
    if endian.Little? then Get16(b, p, endian) + 0x1_0000 * Get16(b, p + 2, endian)
    else 0x1_0000 * Get16(b, p, endian) + Get16(b, p + 2, endian)
  }

  function Put16(v: nat, endian: Endian): (b: seq<byte>)
    requires v < 0x1_0000
    ensures |b| == 2 && Get16(b, 0, endian) == v
  {
    if endian.Little? then [v % 0x100, v / 0x100] else [v / 0x100, v % 0x100]
  }

  function Put32(v: nat, endian: Endian): (b: seq<byte>)
    requires v <= UINT32_MAX
    ensures |b| == 4 && Get32(b, 0, endian) == v
  {
    if endian.Little? then Put16(v % 0x1_0000, endian) + Put16(v / 0x1_0000, endian)
    else Put16(v / 0x1_0000, endian) + Put16(v % 0x1_0000, endian)
  }

  // Up to the next multiple of four.
  function Pad(n: nat): (m: nat)
    ensures n <= m < n + 4 && m % 4 == 0
  {
    (n + 3) / 4 * 4
  }

  lemma At16(b: seq<byte>, p: nat, v: nat, endian: Endian)
    requires p + 2 <= |b| && v < 0x1_0000 && b[p..p + 2] == Put16(v, endian)
    ensures Get16(b, p, endian) == v
  {
    assert b[p] == b[p..p + 2][0] && b[p + 1] == b[p..p + 2][1];
  }

  lemma At32(b: seq<byte>, p: nat, v: nat, endian: Endian)
    requires p + 4 <= |b| && v <= UINT32_MAX && b[p..p + 4] == Put32(v, endian)
    ensures Get32(b, p, endian) == v
  {
    var w := b[p..p + 4];
    assert b[p] == w[0] && b[p + 1] == w[1] && b[p + 2] == w[2] && b[p + 3] == w[3];
  }

  lemma GetSlice(b: seq<byte>, q: nat, n: nat, p: nat, endian: Endian)
    requires q + n <= |b|
    ensures p + 2 <= n ==> Get16(b[q..q + n], p, endian) == Get16(b, q + p, endian)
    ensures p + 4 <= n ==> Get32(b[q..q + n], p, endian) == Get32(b, q + p, endian)
  {
  }

  // The first eight bytes of every node, which its header checksum covers.
  function NodeStart(nodetype: nat, totlen: Word, e: Endian): (b: seq<byte>)
    requires nodetype < 0x1_0000
    ensures |b| == 8
  {
    Put16(MAGIC_BITMASK, e) + Put16(nodetype, e) + Put32(totlen, e)
  }

  // The node type with the bit JFFS2_NODE_ACCURATE set.
  function Accurate(t: nat): (a: nat)
    requires t < 0x1_0000
    ensures a < 0x1_0000 && a / 0x2000 % 2 == 1 && a / 0x4000 == t / 0x4000 && a % 0x2000 == t % 0x2000
  {
    if t / 0x2000 % 2 == 1 then t else t + 0x2000
  }
}
