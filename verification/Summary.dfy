/**
 The summary of an erase block (external/mtd-utils/summary.h): what its records say about the
 nodes in the block, and how a reader finds them again.
 */
module Summary {
  import opened Jffs2Format

  const RAW_SUMMARY_SIZE: nat := 32
  const SUM_MARKER_SIZE: nat := 8
  const RAW_XATTR_SIZE: nat := 32
  const RAW_XREF_SIZE: nat := 28

  // A node, from its magic to the end of its `totlen`.
  type Node = seq<byte>

  ghost predicate ValidNode(n: Node, e: Endian) {
    && UNKNOWN_NODE_SIZE <= |n| <= UINT32_MAX && Get16(n, 0, e) == MAGIC_BITMASK && Get32(n, 4, e) == |n|
    && var t := Get16(n, 2, e);
      || (t == NODETYPE_INODE && RAW_INODE_SIZE <= |n|)
      || (t == NODETYPE_DIRENT && RAW_DIRENT_SIZE <= |n| && RAW_DIRENT_SIZE + n[28] as nat <= |n|)
      || (t == NODETYPE_XATTR && RAW_XATTR_SIZE < |n|)
      || (t == NODETYPE_XREF && RAW_XREF_SIZE <= |n|)
  }

  datatype Record =
    | SumInode(inode: nat, version: nat, offset: nat, totlen: nat)
    | SumDirent(totlen: nat, offset: nat, pino: nat, version: nat, ino: nat, nsize: byte, kind: byte, name: seq<byte>)
    | SumXattr(xid: nat, version: nat, offset: nat, totlen: nat)
    | SumXref(offset: nat)

  // The record for a node at an offset in its block.
  function RecOf(n: Node, e: Endian, offset: nat): (r: Record)
    requires ValidNode(n, e)
    ensures offset <= UINT32_MAX ==> InRange(r)
  {
    var t := Get16(n, 2, e);
    if t == NODETYPE_INODE then SumInode(Get32(n, 12, e), Get32(n, 16, e), offset, Get32(n, 4, e))
    else if t == NODETYPE_DIRENT then
      SumDirent(Get32(n, 4, e), offset, Get32(n, 12, e), Get32(n, 16, e), Get32(n, 20, e), n[28], n[29],
                n[40..40 + n[28] as nat])
    else if t == NODETYPE_XATTR then SumXattr(Get32(n, 12, e), Get32(n, 16, e), offset, Get32(n, 4, e))
    else SumXref(offset)
  }

  function RecSize(r: Record): nat {
    match r
    case SumInode(_, _, _, _) => 18
    case SumDirent(_, _, _, _, _, _, _, name) => 24 + |name|
    case SumXattr(_, _, _, _) => 18
    case SumXref(_) => 6
  }

  // All numbers of a record fit their fields.
  predicate InRange(r: Record) {
    match r
    case SumInode(a, b, c, d) => a <= UINT32_MAX && b <= UINT32_MAX && c <= UINT32_MAX && d <= UINT32_MAX
    case SumDirent(a, b, c, d, f, nsize, _, name) =>
      a <= UINT32_MAX && b <= UINT32_MAX && c <= UINT32_MAX && d <= UINT32_MAX && f <= UINT32_MAX
        && |name| == nsize as nat
    case SumXattr(a, b, c, d) => a <= UINT32_MAX && b <= UINT32_MAX && c <= UINT32_MAX && d <= UINT32_MAX
    case SumXref(a) => a <= UINT32_MAX
  }

  predicate AllInRange(recs: seq<Record>) {
    forall i :: 0 <= i < |recs| ==> InRange(recs[i])
  }

  function RecBytes(r: Record, e: Endian): (b: seq<byte>)
    requires InRange(r)
    ensures |b| == RecSize(r)
  {
    match r
    case SumInode(inode, version, offset, totlen) =>
      Put16(NODETYPE_INODE, e) + Put32(inode, e) + Put32(version, e) + Put32(offset, e) + Put32(totlen, e)
    case SumDirent(totlen, offset, pino, version, ino, nsize, kind, name) =>
      Put16(NODETYPE_DIRENT, e) + Put32(totlen, e) + Put32(offset, e) + Put32(pino, e) + Put32(version, e)
        + Put32(ino, e)
      + [nsize, kind] + name
    case SumXattr(xid, version, offset, totlen) =>
      Put16(NODETYPE_XATTR, e) + Put32(xid, e) + Put32(version, e) + Put32(offset, e) + Put32(totlen, e)
    case SumXref(offset) =>
      Put16(NODETYPE_XREF, e) + Put32(offset, e)
  }

  // The nodes one after the other, each filled up with 0xff to a multiple of four.
  function Layout(nodes: seq<Node>): (b: seq<byte>) {
    if nodes == [] then []
    else
      var n := nodes[|nodes| - 1];
      Layout(nodes[..|nodes| - 1]) + n + Ones(Pad(|n|) - |n|)
  }

  function Ones(n: nat): (b: seq<byte>)
    ensures |b| == n && forall i :: 0 <= i < n ==> b[i] == 0xff
  {
    seq(n, _ => 0xff)
  }

  ghost predicate AllValid(nodes: seq<Node>, e: Endian) {
    forall i :: 0 <= i < |nodes| ==> ValidNode(nodes[i], e)
  }

  // The records of nodes that are laid out from offset `base` on.
  function RecsOf(nodes: seq<Node>, e: Endian, base: nat): (recs: seq<Record>)
    requires AllValid(nodes, e)
    ensures |recs| == |nodes|
    ensures base + |Layout(nodes)| <= UINT32_MAX ==> AllInRange(recs)
  {
    if nodes == [] then []
    else
      var front := nodes[..|nodes| - 1];
      RecsOf(front, e, base) + [RecOf(nodes[|nodes| - 1], e, base + |Layout(front)|)]
  }

  function TotalSize(recs: seq<Record>): nat {
    if recs == [] then 0 else TotalSize(recs[..|recs| - 1]) + RecSize(recs[|recs| - 1])
  }

  // The record at `p` of the block `b` describes node `n`, which is in the block where it says.
  ghost predicate Describes(b: seq<byte>, p: nat, e: Endian, n: Node)
    requires ValidNode(n, e)
  {
    var t := Get16(n, 2, e);
    && p + 6 <= |b| && Get16(b, p, e) == t
    && if t == NODETYPE_INODE then
         && p + 18 <= |b| && Get32(b, p + 2, e) == Get32(n, 12, e) && Get32(b, p + 6, e) == Get32(n, 16, e)
         && In(b, Get32(b, p + 10, e), n) && Get32(b, p + 14, e) == |n|
       else if t == NODETYPE_DIRENT then
         && p + 24 + n[28] as nat <= |b| && Get32(b, p + 2, e) == |n| && In(b, Get32(b, p + 6, e), n)
         && Get32(b, p + 10, e) == Get32(n, 12, e) && Get32(b, p + 14, e) == Get32(n, 16, e)
         && Get32(b, p + 18, e) == Get32(n, 20, e)
         && b[p + 22] == n[28] && b[p + 23] == n[29] && b[p + 24..p + 24 + n[28] as nat] == n[40..40 + n[28] as nat]
       else if t == NODETYPE_XATTR then
         && p + 18 <= |b| && Get32(b, p + 2, e) == Get32(n, 12, e) && Get32(b, p + 6, e) == Get32(n, 16, e)
         && In(b, Get32(b, p + 10, e), n) && Get32(b, p + 14, e) == |n|
       else
         In(b, Get32(b, p + 2, e), n)
  }

  // `part` is in the block at `o`.
  ghost predicate In(b: seq<byte>, o: nat, part: seq<byte>) {
    o + |part| <= |b| && b[o..o + |part|] == part
  }

  // The bytes the records of the nodes take.
  function SizeOf(nodes: seq<Node>, e: Endian): nat
    requires AllValid(nodes, e)
  {
    if nodes == [] then 0 else SizeOf(nodes[..|nodes| - 1], e) + RecSize(RecOf(nodes[|nodes| - 1], e, 0))
  }

  // The records from `p` on describe the nodes, one each and in their order.
  ghost predicate RecordsAt(b: seq<byte>, p: nat, e: Endian, nodes: seq<Node>)
    requires AllValid(nodes, e)
    decreases |nodes|
  {
    nodes == [] ||
    var front := nodes[..|nodes| - 1];
    RecordsAt(b, p, e, front) && Describes(b, p + SizeOf(front, e), e, nodes[|nodes| - 1])
  }

  // What a reader finds in the block `b`: the marker in the last 8 bytes gives the offset of
  // the summary node, which takes up the rest of the block and describes exactly `nodes`.
  ghost predicate Summarised(b: seq<byte>, e: Endian, nodes: seq<Node>) {
    && |b| >= RAW_SUMMARY_SIZE + SUM_MARKER_SIZE && Get32(b, |b| - 4, e) == SUM_MAGIC && AllValid(nodes, e)
    && var m := Get32(b, |b| - 8, e);
      && m + RAW_SUMMARY_SIZE + SUM_MARKER_SIZE <= |b|
      && Get16(b, m, e) == MAGIC_BITMASK && Get16(b, m + 2, e) == NODETYPE_SUMMARY && Get32(b, m + 4, e) == |b| - m
      && Get32(b, m + 12, e) == |nodes|
      && RecordsAt(b, m + RAW_SUMMARY_SIZE, e, nodes)
  }

  function RecsBytes(recs: seq<Record>, e: Endian): (b: seq<byte>)
    requires AllInRange(recs)
    ensures |b| == TotalSize(recs)
  {
    if recs == [] then [] else RecsBytes(recs[..|recs| - 1], e) + RecBytes(recs[|recs| - 1], e)
  }

  // Where the fields of a record are.
  lemma Words(h: seq<byte>, w0: seq<byte>, w1: seq<byte>, w2: seq<byte>, w3: seq<byte>, rest: seq<byte>)
    requires |h| == 2 && |w0| == |w1| == |w2| == |w3| == 4
    ensures var s := h + w0 + w1 + w2 + w3 + rest;
      s[0..2] == h && s[2..6] == w0 && s[6..10] == w1 && s[10..14] == w2 && s[14..18] == w3 && s[18..] == rest
  {
  }

  lemma FourFields(s: seq<byte>, t: nat, a: nat, b: nat, c: nat, d: nat, rest: seq<byte>, e: Endian)
    requires t < 0x1_0000 && a <= UINT32_MAX && b <= UINT32_MAX && c <= UINT32_MAX && d <= UINT32_MAX
    requires s == Put16(t, e) + Put32(a, e) + Put32(b, e) + Put32(c, e) + Put32(d, e) + rest
    ensures |s| == 18 + |rest| && Get16(s, 0, e) == t && Get32(s, 2, e) == a && Get32(s, 6, e) == b
    ensures Get32(s, 10, e) == c && Get32(s, 14, e) == d && s[18..] == rest
  {
    hide Put16, Put32, Get16, Get32;
    Words(Put16(t, e), Put32(a, e), Put32(b, e), Put32(c, e), Put32(d, e), rest);
    At16(s, 0, t, e);
    At32(s, 2, a, e);
    At32(s, 6, b, e);
    At32(s, 10, c, e);
    At32(s, 14, d, e);
  }

  lemma InodeFields(s: seq<byte>, r: Record, e: Endian)
    requires r.SumInode? && InRange(r) && s == RecBytes(r, e)
    ensures |s| == 18 && Get16(s, 0, e) == NODETYPE_INODE && Get32(s, 2, e) == r.inode && Get32(s, 6, e) == r.version
    ensures Get32(s, 10, e) == r.offset && Get32(s, 14, e) == r.totlen
  {
    hide Put16, Put32, Get16, Get32;
    assert s + [] == s;
    FourFields(s, NODETYPE_INODE, r.inode, r.version, r.offset, r.totlen, [], e);
  }

  lemma XattrFields(s: seq<byte>, r: Record, e: Endian)
    requires r.SumXattr? && InRange(r) && s == RecBytes(r, e)
    ensures |s| == 18 && Get16(s, 0, e) == NODETYPE_XATTR && Get32(s, 2, e) == r.xid && Get32(s, 6, e) == r.version
    ensures Get32(s, 10, e) == r.offset && Get32(s, 14, e) == r.totlen
  {
    hide Put16, Put32, Get16, Get32;
    assert s + [] == s;
    FourFields(s, NODETYPE_XATTR, r.xid, r.version, r.offset, r.totlen, [], e);
  }

  lemma XrefFields(s: seq<byte>, r: Record, e: Endian)
    requires r.SumXref? && InRange(r) && s == RecBytes(r, e)
    ensures |s| == 6 && Get16(s, 0, e) == NODETYPE_XREF && Get32(s, 2, e) == r.offset
  {
    hide Put16, Put32, Get16, Get32;
    At16(s, 0, NODETYPE_XREF, e);
    At32(s, 2, r.offset, e);
  }

  lemma DirentFields(s: seq<byte>, r: Record, e: Endian)
    requires r.SumDirent? && InRange(r) && s == RecBytes(r, e)
    ensures |s| == 24 + |r.name| && Get16(s, 0, e) == NODETYPE_DIRENT && Get32(s, 2, e) == r.totlen
    ensures Get32(s, 6, e) == r.offset
    ensures Get32(s, 10, e) == r.pino && Get32(s, 14, e) == r.version && Get32(s, 18, e) == r.ino
    ensures s[22] == r.nsize && s[23] == r.kind && s[24..] == r.name
  {
    hide Put16, Put32, Get16, Get32;
    var rest := Put32(r.ino, e) + [r.nsize, r.kind] + r.name;
    var h := Put16(NODETYPE_DIRENT, e) + Put32(r.totlen, e) + Put32(r.offset, e) + Put32(r.pino, e)
        + Put32(r.version, e);
    assert s == h + rest;
    FourFields(s, NODETYPE_DIRENT, r.totlen, r.offset, r.pino, r.version, rest, e);
    assert s[18..22] == rest[..4] == Put32(r.ino, e);
    At32(s, 18, r.ino, e);
    assert s[22] == rest[4] && s[23] == rest[5] && s[24..] == rest[6..];
  }

  lemma FieldsIn(b: seq<byte>, p: nat, n: nat, e: Endian)
    requires p + n <= |b| && 6 <= n
    ensures Get16(b, p, e) == Get16(b[p..p + n], 0, e) && Get32(b, p + 2, e) == Get32(b[p..p + n], 2, e)
    ensures n >= 18 ==> Get32(b, p + 6, e) == Get32(b[p..p + n], 6, e)
    ensures n >= 18 ==> Get32(b, p + 10, e) == Get32(b[p..p + n], 10, e)
    ensures n >= 18 ==> Get32(b, p + 14, e) == Get32(b[p..p + n], 14, e)
    ensures n >= 22 ==> Get32(b, p + 18, e) == Get32(b[p..p + n], 18, e)
  {
    GetSlice(b, p, n, 0, e);
    GetSlice(b, p, n, 2, e);
    GetSlice(b, p, n, 6, e);
    GetSlice(b, p, n, 10, e);
    GetSlice(b, p, n, 14, e);
    GetSlice(b, p, n, 18, e);
  }

  lemma InodeDescribes(b: seq<byte>, p: nat, e: Endian, n: Node, r: Record, o: nat)
    requires ValidNode(n, e) && r == RecOf(n, e, o) && r.SumInode? && InRange(r) && In(b, o, n)
    requires In(b, p, RecBytes(r, e))
    ensures Describes(b, p, e, n)
  {
    var s := b[p..p + RecSize(r)];
    InodeFields(s, r, e);
    FieldsIn(b, p, |s|, e);
    hide Get16, Get32, RecBytes, In, Put16, Put32;
  }

  lemma XattrDescribes(b: seq<byte>, p: nat, e: Endian, n: Node, r: Record, o: nat)
    requires ValidNode(n, e) && r == RecOf(n, e, o) && r.SumXattr? && InRange(r) && In(b, o, n)
    requires In(b, p, RecBytes(r, e))
    ensures Describes(b, p, e, n)
  {
    var s := b[p..p + RecSize(r)];
    XattrFields(s, r, e);
    FieldsIn(b, p, |s|, e);
    hide Get16, Get32, RecBytes, In, Put16, Put32;
  }

  lemma XrefDescribes(b: seq<byte>, p: nat, e: Endian, n: Node, r: Record, o: nat)
    requires ValidNode(n, e) && r == RecOf(n, e, o) && r.SumXref? && InRange(r) && In(b, o, n)
    requires In(b, p, RecBytes(r, e))
    ensures Describes(b, p, e, n)
  {
    var s := b[p..p + RecSize(r)];
    XrefFields(s, r, e);
    FieldsIn(b, p, |s|, e);
    hide Get16, Get32, RecBytes, In, Put16, Put32;
  }

  lemma NameIn(b: seq<byte>, p: nat, n: nat)
    requires p + n <= |b| && 24 <= n
    ensures b[p..p + n][22] == b[p + 22] && b[p..p + n][23] == b[p + 23] && b[p..p + n][24..] == b[p + 24..p + n]
  {
  }

  lemma DirentOf(n: Node, e: Endian, r: Record, o: nat)
    requires ValidNode(n, e) && r == RecOf(n, e, o) && r.SumDirent?
    ensures |n| >= 40 + n[28] as nat && Get16(n, 2, e) == NODETYPE_DIRENT && RecSize(r) == 24 + n[28] as nat
    ensures r.totlen == |n| && r.offset == o && r.pino == Get32(n, 12, e) && r.version == Get32(n, 16, e)
    ensures r.ino == Get32(n, 20, e)
    ensures r.nsize == n[28] && r.kind == n[29] && r.name == n[40..40 + n[28] as nat]
  {
    hide Get32;
  }

  // The fields of a dirent record, as they are found in the block.
  lemma {:induction false} DirentIn(b: seq<byte>, p: nat, e: Endian, r: Record)
    requires r.SumDirent? && InRange(r) && In(b, p, RecBytes(r, e))
    ensures p + 24 + |r.name| <= |b| && Get16(b, p, e) == NODETYPE_DIRENT && Get32(b, p + 2, e) == r.totlen
    ensures Get32(b, p + 6, e) == r.offset && Get32(b, p + 10, e) == r.pino && Get32(b, p + 14, e) == r.version
    ensures Get32(b, p + 18, e) == r.ino && b[p + 22] == r.nsize && b[p + 23] == r.kind
    ensures b[p + 24..p + 24 + |r.name|] == r.name
  {
    hide *;
    RecordSlice(b, p, e, r);
    var s := b[p..p + RecSize(r)];
    DirentFields(s, r, e);
    FieldsIn(b, p, |s|, e);
    NameIn(b, p, |s|);
  }

  lemma RecordSlice(b: seq<byte>, p: nat, e: Endian, r: Record)
    requires InRange(r) && In(b, p, RecBytes(r, e))
    ensures p + RecSize(r) <= |b| && b[p..p + RecSize(r)] == RecBytes(r, e)
  {
    hide RecBytes, RecSize, InRange;
  }

  lemma DirentDescribes(b: seq<byte>, p: nat, e: Endian, n: Node, r: Record, o: nat)
    requires ValidNode(n, e) && r == RecOf(n, e, o) && r.SumDirent? && InRange(r) && In(b, o, n)
    requires In(b, p, RecBytes(r, e))
    ensures Describes(b, p, e, n)
  {
    hide ValidNode, RecOf, InRange, In, RecSize, RecBytes, Get16, Get32;
    DirentOf(n, e, r, o);
    DirentIn(b, p, e, r);
  }

  // A record that is in the block, of a node that is in the block.
  lemma RecordDescribes(b: seq<byte>, p: nat, e: Endian, n: Node, o: nat)
    requires ValidNode(n, e) && o <= UINT32_MAX && In(b, o, n)
    requires InRange(RecOf(n, e, o)) && In(b, p, RecBytes(RecOf(n, e, o), e))
    ensures Describes(b, p, e, n)
  {
    var r := RecOf(n, e, o);
    hide *;
    match r {
      case SumInode(_, _, _, _) => InodeDescribes(b, p, e, n, r, o);
      case SumXattr(_, _, _, _) => XattrDescribes(b, p, e, n, r, o);
      case SumXref(_) => XrefDescribes(b, p, e, n, r, o);
      case SumDirent(_, _, _, _, _, _, _, _) => DirentDescribes(b, p, e, n, r, o);
    }
  }

  lemma {:induction false} SizesAgree(nodes: seq<Node>, e: Endian, base: nat)
    requires AllValid(nodes, e)
    ensures TotalSize(RecsOf(nodes, e, base)) == SizeOf(nodes, e)
    decreases |nodes|
  {
    if nodes != [] {
      var front := nodes[..|nodes| - 1];
      SizesAgree(front, e, base);
      var recs := RecsOf(nodes, e, base);
      assert recs[..|recs| - 1] == RecsOf(front, e, base);
    }
  }

  lemma InParts(b: seq<byte>, o: nat, x: seq<byte>, y: seq<byte>)
    requires In(b, o, x + y)
    ensures In(b, o, x) && In(b, o + |x|, y)
  {
    assert b[o..o + |x|] == b[o..o + |x + y|][..|x|];
    assert b[o + |x|..o + |x| + |y|] == b[o..o + |x + y|][|x|..];
  }

  lemma HalfIn(b: seq<byte>, o: nat, v: nat, e: Endian)
    requires v < 0x1_0000 && In(b, o, Put16(v, e))
    ensures o + 2 <= |b| && Get16(b, o, e) == v
  {
    At16(b, o, v, e);
  }

  lemma WordIn(b: seq<byte>, o: nat, v: nat, e: Endian)
    requires v <= UINT32_MAX && In(b, o, Put32(v, e))
    ensures o + 4 <= |b| && Get32(b, o, e) == v
  {
    At32(b, o, v, e);
  }

  lemma LayoutLast(nodes: seq<Node>)
    requires nodes != []
    ensures var front, n := nodes[..|nodes| - 1], nodes[|nodes| - 1];
      && Layout(nodes) == Layout(front) + (n + Ones(Pad(|n|) - |n|)) && |Layout(nodes)| == |Layout(front)| + Pad(|n|)
  {
  }

  lemma RecsLast(nodes: seq<Node>, e: Endian, base: nat)
    requires AllValid(nodes, e) && nodes != [] && base + |Layout(nodes)| <= UINT32_MAX
    ensures var front, n := nodes[..|nodes| - 1], nodes[|nodes| - 1];
      && AllValid(front, e) && ValidNode(n, e) && base + |Layout(front)| <= UINT32_MAX
      && AllInRange(RecsOf(nodes, e, base)) && AllInRange(RecsOf(front, e, base))
      && InRange(RecOf(n, e, base + |Layout(front)|))
      && RecsOf(nodes, e, base) == RecsOf(front, e, base) + [RecOf(n, e, base + |Layout(front)|)]
      && TotalSize(RecsOf(front, e, base)) == SizeOf(front, e)
  {
    LayoutLast(nodes);
    SizesAgree(nodes[..|nodes| - 1], e, base);
    hide ValidNode, RecOf, Layout, InRange;
  }

  lemma BytesLast(recs: seq<Record>, r: Record, e: Endian)
    requires AllInRange(recs) && InRange(r)
    ensures AllInRange(recs + [r]) && RecsBytes(recs + [r], e) == RecsBytes(recs, e) + RecBytes(r, e)
    ensures TotalSize(recs + [r]) == TotalSize(recs) + RecSize(r)
  {
    assert (recs + [r])[..|recs|] == recs;
  }

  // The records of a block describe its nodes.
  lemma {:induction false} RecordsDescribe(b: seq<byte>, p: nat, e: Endian, nodes: seq<Node>, base: nat)
    requires AllValid(nodes, e) && base + |Layout(nodes)| <= UINT32_MAX
    requires In(b, base, Layout(nodes)) && In(b, p, RecsBytes(RecsOf(nodes, e, base), e))
    ensures RecordsAt(b, p, e, nodes)
    decreases |nodes|
  {
    hide *;
    if nodes != [] {
      RecordsSplit(b, p, e, nodes, base);
      var front, n := nodes[..|nodes| - 1], nodes[|nodes| - 1];
      RecordsDescribe(b, p, e, front, base);
      RecordDescribes(b, p + SizeOf(front, e), e, n, base + |Layout(front)|);
      RecordsAtLast(b, p, e, nodes);
    } else {
      NoRecords(b, p, e);
    }
  }

  lemma NoRecords(b: seq<byte>, p: nat, e: Endian)
    ensures AllValid([], e) && RecordsAt(b, p, e, [])
  {
  }

  lemma RecordsAtLast(b: seq<byte>, p: nat, e: Endian, nodes: seq<Node>)
    requires AllValid(nodes, e) && nodes != [] && AllValid(nodes[..|nodes| - 1], e)
    requires RecordsAt(b, p, e, nodes[..|nodes| - 1])
    requires ValidNode(nodes[|nodes| - 1], e)
    requires Describes(b, p + SizeOf(nodes[..|nodes| - 1], e), e, nodes[|nodes| - 1])
    ensures RecordsAt(b, p, e, nodes)
  {
    hide Describes, ValidNode, SizeOf;
  }

  lemma RecordsSplit(b: seq<byte>, p: nat, e: Endian, nodes: seq<Node>, base: nat)
    requires AllValid(nodes, e) && base + |Layout(nodes)| <= UINT32_MAX && nodes != []
    requires In(b, base, Layout(nodes)) && In(b, p, RecsBytes(RecsOf(nodes, e, base), e))
    ensures var front, n := nodes[..|nodes| - 1], nodes[|nodes| - 1]; var o := base + |Layout(front)|;
      && AllValid(front, e) && ValidNode(n, e) && o <= UINT32_MAX && InRange(RecOf(n, e, o))
      && In(b, base, Layout(front)) && In(b, o, n) && AllInRange(RecsOf(front, e, base))
      && In(b, p, RecsBytes(RecsOf(front, e, base), e)) && In(b, p + SizeOf(front, e), RecBytes(RecOf(n, e, o), e))
  {
    hide *;
    var front, n := nodes[..|nodes| - 1], nodes[|nodes| - 1];
    var o := base + |Layout(front)|;
    RecsLast(nodes, e, base);
    LayoutLast(nodes);
    BytesLast(RecsOf(front, e, base), RecOf(n, e, o), e);
    InParts(b, base, Layout(front), n + Ones(Pad(|n|) - |n|));
    InParts(b, o, n, Ones(Pad(|n|) - |n|));
    InParts(b, p, RecsBytes(RecsOf(front, e, base), e), RecBytes(RecOf(n, e, o), e));
  }

  lemma StartFields(b: seq<byte>, m: nat, nodetype: nat, totlen: Word, e: Endian)
    requires nodetype < 0x1_0000 && In(b, m, NodeStart(nodetype, totlen, e))
    ensures m + 8 <= |b| && Get16(b, m, e) == MAGIC_BITMASK && Get16(b, m + 2, e) == nodetype
    ensures Get32(b, m + 4, e) == totlen
    ensures b[m..m + 8] == NodeStart(nodetype, totlen, e)
  {
    hide Put16, Put32, Get16, Get32;
    InParts(b, m, Put16(MAGIC_BITMASK, e) + Put16(nodetype, e), Put32(totlen, e));
    InParts(b, m, Put16(MAGIC_BITMASK, e), Put16(nodetype, e));
    HalfIn(b, m, MAGIC_BITMASK, e);
    HalfIn(b, m + 2, nodetype, e);
    WordIn(b, m + 4, totlen, e);
  }
}
