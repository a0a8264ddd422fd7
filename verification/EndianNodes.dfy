/**
 Converting the byte order of JFFS2 nodes (`do_endianconvert` in external/mtd-utils/jffs2dump.c):
 what becomes of each kind of node, and that doing it twice gives the node back.
 */
module EndianNodes {
  import opened Jffs2Format

  function Flip(e: Endian): Endian {
    if e.Little? then Big else Little
  }

  // `bswap_16` and `bswap_32` on stored bytes; single bytes stay.
  function Swap(b: seq<byte>): (r: seq<byte>)
    ensures |r| == |b|
  {
    if |b| == 2 then [b[1], b[0]] else if |b| == 4 then [b[3], b[2], b[1], b[0]] else b
  }

  lemma SwapTwice(b: seq<byte>)
    ensures Swap(Swap(b)) == b
    ensures |b| == 2 ==> forall e :: Get16(Swap(b), 0, Flip(e)) == Get16(b, 0, e)
    ensures |b| == 4 ==> forall e :: Get32(Swap(b), 0, Flip(e)) == Get32(b, 0, e)
  {
  }

  // Each field of the widths `ws` swapped.
  function SwapFields(b: seq<byte>, ws: seq<nat>): (r: seq<byte>)
    ensures |r| == |b|
  {
    if ws == [] || |b| < ws[0] then b else Swap(b[..ws[0]]) + SwapFields(b[ws[0]..], ws[1..])
  }

  lemma FieldsCons(x: seq<byte>, y: seq<byte>, ws: seq<nat>)
    requires ws != [] && |x| == ws[0]
    ensures SwapFields(x + y, ws) == Swap(x) + SwapFields(y, ws[1..])
  {
    assert (x + y)[..ws[0]] == x && (x + y)[ws[0]..] == y;
  }

  lemma {:induction false} FieldsTwice(b: seq<byte>, ws: seq<nat>)
    ensures SwapFields(SwapFields(b, ws), ws) == b
    decreases |ws|
  {
    if ws != [] && |b| >= ws[0] {
      var x, y := b[..ws[0]], b[ws[0]..];
      assert b == x + y;
      FieldsCons(x, y, ws);
      FieldsCons(Swap(x), SwapFields(y, ws[1..]), ws);
      hide SwapFields, Swap;
      SwapTwice(x);
      FieldsTwice(y, ws[1..]);
    }
  }

  // Magic, node type and length.
  function Front(b: seq<byte>): (r: seq<byte>)
    requires |b| == 8
    ensures |r| == 8
  {
    Swap(b[..2]) + Swap(b[2..4]) + Swap(b[4..])
  }

  lemma FrontTwice(b: seq<byte>, e: Endian)
    requires |b| == 8
    ensures Front(Front(b)) == b
    ensures Get16(Front(b), 0, Flip(e)) == Get16(b, 0, e) && Get16(Front(b), 2, Flip(e)) == Get16(b, 2, e)
    ensures Get32(Front(b), 4, Flip(e)) == Get32(b, 4, e)
  {
    var f := Front(b);
    assert f[..2] == Swap(b[..2]) && f[2..4] == Swap(b[2..4]) && f[4..] == Swap(b[4..]);
    SwapTwice(b[..2]);
    SwapTwice(b[2..4]);
    SwapTwice(b[4..]);
    assert b == b[..2] + b[2..4] + b[4..];
  }

  // A checksum, stored.
  function Seal(crc: seq<byte> -> Word, b: seq<byte>, e: Endian): (s: seq<byte>)
    ensures |s| == 4
  {
    Put32(crc(b), e)
  }

  // The word at `p` is the checksum of `b`.
  ghost predicate Sealed(n: seq<byte>, p: nat, b: seq<byte>, crc: seq<byte> -> Word, e: Endian) {
    p + 4 <= |n| && n[p..p + 4] == Seal(crc, b, e)
  }

  // The header with its checksum.
  function ConvHead(n: seq<byte>, e: Endian, crc: seq<byte> -> Word): (r: seq<byte>)
    requires |n| >= 12
    ensures |r| == 12
  {
    Front(n[..8]) + Seal(crc, Front(n[..8]), Flip(e))
  }

  lemma CutCat(x: seq<byte>, y: seq<byte>)
    ensures (x + y)[..|x|] == x && (x + y)[|x|..] == y
  {
  }

  // Twice gives the header back, with the right checksum.
  lemma HeadTwice(n: seq<byte>, m: seq<byte>, e: Endian, crc: seq<byte> -> Word)
    requires |n| >= 12 && |m| >= 12 && m[..12] == ConvHead(n, e, crc)
    ensures ConvHead(m, Flip(e), crc) == n[..8] + Seal(crc, n[..8], e)
    ensures Get16(m, 0, Flip(e)) == Get16(n, 0, e) && Get16(m, 2, Flip(e)) == Get16(n, 2, e)
    ensures Get32(m, 4, Flip(e)) == Get32(n, 4, e)
  {
    hide Front, Get16, Get32, Put32;
    var f := Front(n[..8]);
    assert m[..8] == m[..12][..8] == f;
    FrontTwice(n[..8], e);
    GetSlice(n, 0, 8, 0, e);
    GetSlice(n, 0, 8, 2, e);
    GetSlice(n, 0, 8, 4, e);
    GetSlice(m, 0, 8, 0, Flip(e));
    GetSlice(m, 0, 8, 2, Flip(e));
    GetSlice(m, 0, 8, 4, Flip(e));
    assert n[0..8] == n[..8] && m[0..8] == m[..8];
  }

  const INODE_NAMES: seq<nat> := [4, 4, 4, 2, 2, 4, 4, 4, 4, 4]  // from the inode number to the offset
  const INODE_REST: seq<nat> := [4, 1, 1, 2]
  const DIRENT_NAMES: seq<nat> := [4, 4, 4, 4]

  // The checksum over the data or the name: computed anew if that is asked for.
  function Payload(stored: seq<byte>, payload: seq<byte>, recalc: bool, e: Endian,
                   crc: seq<byte> -> Word): (s: seq<byte>)
    requires |stored| == 4
    ensures |s| == 4
  {
    if recalc then Seal(crc, payload, Flip(e)) else Swap(stored)
  }

  // The first 60 bytes of an inode node.
  function InodeFront(n: seq<byte>, e: Endian, crc: seq<byte> -> Word): (r: seq<byte>)
    requires |n| >= RAW_INODE_SIZE
    ensures |r| == 60
  {
    ConvHead(n, e, crc) + SwapFields(n[12..48], INODE_NAMES) + Swap(n[48..52]) + SwapFields(n[52..60], INODE_REST)
  }

  function ConvInode(n: seq<byte>, e: Endian, crc: seq<byte> -> Word, recalc: bool): (r: seq<byte>)
    requires InodeFits(n, e)
    ensures |r| == |n|
  {
    var front := InodeFront(n, e, crc);
    front + Payload(n[60..64], n[68..68 + Get32(n, 48, e)], recalc, e, crc) + Seal(crc, front, Flip(e)) + n[68..]
  }

  ghost predicate SoundInode(n: seq<byte>, e: Endian, crc: seq<byte> -> Word, recalc: bool) {
    && InodeFits(n, e) && Sealed(n, 8, n[..8], crc, e) && Sealed(n, 64, n[..60], crc, e)
    && (recalc ==> Sealed(n, 60, n[68..68 + Get32(n, 48, e)], crc, e))
  }

  // The first 32 bytes of a dirent node.
  function DirentFront(n: seq<byte>, e: Endian, crc: seq<byte> -> Word): (r: seq<byte>)
    requires |n| >= RAW_DIRENT_SIZE
    ensures |r| == 32
  {
    ConvHead(n, e, crc) + SwapFields(n[12..28], DIRENT_NAMES) + n[28..32]
  }

  function ConvDirent(n: seq<byte>, e: Endian, crc: seq<byte> -> Word, recalc: bool): (r: seq<byte>)
    requires DirentFits(n)
    ensures |r| == |n|
  {
    var front := DirentFront(n, e, crc);
    front + Seal(crc, front, Flip(e)) + Payload(n[36..40], n[40..40 + n[28] as nat], recalc, e, crc) + n[40..]
  }

  ghost predicate SoundDirent(n: seq<byte>, e: Endian, crc: seq<byte> -> Word, recalc: bool) {
    && DirentFits(n) && Sealed(n, 8, n[..8], crc, e) && Sealed(n, 32, n[..32], crc, e)
    && (recalc ==> Sealed(n, 36, n[40..40 + n[28] as nat], crc, e))
  }

  // Cleanmarkers and padding nodes.
  function ConvPlain(n: seq<byte>, e: Endian, crc: seq<byte> -> Word): (r: seq<byte>)
    requires |n| >= 12
    ensures |r| == |n|
  {
    ConvHead(n, e, crc) + n[12..]
  }

  // A node and what was made of it start alike, each in its byte order.
  ghost predicate SameHead(n: seq<byte>, m: seq<byte>, e: Endian) {
    && |n| >= 12 && |m| == |n|
    && Get16(m, 0, Flip(e)) == Get16(n, 0, e) && Get16(m, 2, Flip(e)) == Get16(n, 2, e)
    && Get32(m, 4, Flip(e)) == Get32(n, 4, e)
  }

  // Twice gives a cleanmarker or padding node back exactly when its checksum was right.
  lemma PlainTwice(n: seq<byte>, e: Endian, crc: seq<byte> -> Word)
    requires |n| >= 12
    ensures var m := ConvPlain(n, e, crc);
      SameHead(n, m, e) && (ConvPlain(m, Flip(e), crc) == n <==> Sealed(n, 8, n[..8], crc, e))
  {
    var m := ConvPlain(n, e, crc);
    CutCat(ConvHead(n, e, crc), n[12..]);
    hide ConvHead, Get16, Get32, Seal;
    HeadTwice(n, m, e, crc);
    assert ConvPlain(m, Flip(e), crc) == n[..8] + Seal(crc, n[..8], e) + n[12..];
    assert n == n[..8] + n[8..12] + n[12..];
    CutThree(n[..8], Seal(crc, n[..8], e), n[12..], n[8..12]);
  }

  lemma CutThree(x: seq<byte>, y: seq<byte>, z: seq<byte>, y': seq<byte>)
    requires |y| == |y'|
    ensures x + y + z == x + y' + z <==> y == y'
  {
    if x + y + z == x + y' + z {
      assert y == (x + y + z)[|x|..|x| + |y|];
    }
  }

  lemma PayloadTwice(stored: seq<byte>, payload: seq<byte>, recalc: bool, e: Endian, crc: seq<byte> -> Word)
    requires |stored| == 4
    ensures Payload(Payload(stored, payload, recalc, e, crc), payload, recalc, Flip(e), crc) ==
            if recalc then Seal(crc, payload, e) else stored
  {
    SwapTwice(stored);
  }

  predicate DirentFits(n: seq<byte>) {
    |n| >= RAW_DIRENT_SIZE && RAW_DIRENT_SIZE + n[28] as nat <= |n|
  }

  predicate InodeFits(n: seq<byte>, e: Endian) {
    |n| >= RAW_INODE_SIZE && RAW_INODE_SIZE + Get32(n, 48, e) <= |n|
  }

  // Where the parts of a converted dirent are.
  lemma DirentAt(n: seq<byte>, e: Endian, crc: seq<byte> -> Word, recalc: bool)
    requires DirentFits(n)
    ensures var m := ConvDirent(n, e, crc, recalc);
      && m[..12] == ConvHead(n, e, crc) && m[12..28] == SwapFields(n[12..28], DIRENT_NAMES) && m[28..32] == n[28..32]
      && m[..32] == DirentFront(n, e, crc) && m[32..36] == Seal(crc, DirentFront(n, e, crc), Flip(e))
      && m[36..40] == Payload(n[36..40], n[40..40 + n[28] as nat], recalc, e, crc) && m[40..] == n[40..]
      && m[28] == n[28]
  {
    hide ConvHead, SwapFields, Seal, Payload, Sealed;
    var m := ConvDirent(n, e, crc, recalc);
    assert m[28] == m[28..32][0];
  }

  lemma DirentFrontTwice(n: seq<byte>, m: seq<byte>, e: Endian, crc: seq<byte> -> Word)
    requires |n| >= RAW_DIRENT_SIZE && |m| == |n| && m[..12] == ConvHead(n, e, crc)
    requires m[12..28] == SwapFields(n[12..28], DIRENT_NAMES) && m[28..32] == n[28..32]
    ensures DirentFront(m, Flip(e), crc) == n[..8] + Seal(crc, n[..8], e) + n[12..32] && SameHead(n, m, e)
  {
    hide ConvHead, SwapFields, Seal, Get16, Get32;
    HeadTwice(n, m, e, crc);
    FieldsTwice(n[12..28], DIRENT_NAMES);
    assert n[12..32] == n[12..28] + n[28..32];
  }

  // A node whose checksums at 8, `p` and `q` are replaced is the same exactly when they were these.
  lemma Resealed(n: seq<byte>, h: seq<byte>, p: nat, s: seq<byte>, t: seq<byte>, front: seq<byte>)
    requires 12 <= p && p + 8 <= |n| && |h| == |s| == |t| == 4 && front == n[..8] + h + n[12..p]
    ensures front + s + t + n[p + 8..] == n <==> h == n[8..12] && s == n[p..p + 4] && t == n[p + 4..p + 8]
  {
    var m := front + s + t + n[p + 8..];
    assert m[8..12] == h && m[p..p + 4] == s && m[p + 4..p + 8] == t;
    if h == n[8..12] && s == n[p..p + 4] && t == n[p + 4..p + 8] {
      assert n == n[..8] + n[8..12] + n[12..p] + n[p..p + 4] + n[p + 4..p + 8] + n[p + 8..];
    }
  }

  // Twice gives a dirent back exactly when its checksums were right.
  lemma DirentTwice(n: seq<byte>, e: Endian, crc: seq<byte> -> Word, recalc: bool)
    requires DirentFits(n)
    ensures var m := ConvDirent(n, e, crc, recalc);
      && SameHead(n, m, e) && DirentFits(m)
      && (ConvDirent(m, Flip(e), crc, recalc) == n <==> SoundDirent(n, e, crc, recalc))
  {
    hide ConvHead, SwapFields, Seal, Payload, Sealed, SameHead, DirentFront;
    var m := ConvDirent(n, e, crc, recalc);
    DirentAt(n, e, crc, recalc);
    DirentFrontTwice(n, m, e, crc);
    var name := n[40..40 + n[28] as nat];
    PayloadTwice(n[36..40], name, recalc, e, crc);
    assert m[40..40 + m[28] as nat] == m[40..][..m[28] as nat] == name;
    var front := DirentFront(m, Flip(e), crc);
    var h, s, t := Seal(crc, n[..8], e), Seal(crc, front, e), if recalc then Seal(crc, name, e) else n[36..40];
    FlipTwice(e);
    assert ConvDirent(m, Flip(e), crc, recalc) == front + s + t + n[40..];
    Resealed(n, h, 32, s, t, front);
    assert h == n[8..12] ==> front == n[..32];
    IsSealed(n, 8, n[..8], crc, e);
    IsSealed(n, 36, name, crc, e);
    IsSealed(n, 32, n[..32], crc, e);
  }

  lemma FlipTwice(e: Endian)
    ensures Flip(Flip(e)) == e
  {
  }

  lemma IsSealed(n: seq<byte>, p: nat, b: seq<byte>, crc: seq<byte> -> Word, e: Endian)
    requires p + 4 <= |n|
    ensures Sealed(n, p, b, crc, e) <==> n[p..p + 4] == Seal(crc, b, e)
  {
  }

  lemma HalfBack(n: seq<byte>, p: nat, e: Endian)
    requires p + 2 <= |n|
    ensures Put16(Get16(n, p, e), e) == n[p..p + 2]
  {
  }

  lemma WordBack(n: seq<byte>, p: nat, e: Endian)
    requires p + 4 <= |n|
    ensures Put32(Get32(n, p, e), e) == n[p..p + 4]
  {
    hide *;
    HalfBack(n, p, e);
    HalfBack(n, p + 2, e);
    WordParts(n, p, e);
    assert n[p..p + 4] == n[p..p + 2] + n[p + 2..p + 4];
  }

  lemma WordParts(n: seq<byte>, p: nat, e: Endian)
    requires p + 4 <= |n|
    ensures Put32(Get32(n, p, e), e) == Put16(Get16(n, p, e), e) + Put16(Get16(n, p + 2, e), e)
  {
    hide Get16, Put16;
    TwoHalves(Get16(n, p, e), Get16(n, p + 2, e));
  }

  lemma TwoHalves(x: nat, y: nat)
    requires x < 0x1_0000 && y < 0x1_0000
    ensures (x + 0x1_0000 * y) % 0x1_0000 == x && (x + 0x1_0000 * y) / 0x1_0000 == y
    ensures (0x1_0000 * x + y) % 0x1_0000 == y && (0x1_0000 * x + y) / 0x1_0000 == x
  {
  }

  lemma SealIs(n: seq<byte>, p: nat, b: seq<byte>, crc: seq<byte> -> Word, e: Endian)
    requires p + 4 <= |n|
    ensures Sealed(n, p, b, crc, e) <==> Get32(n, p, e) == crc(b)
  {
    IsSealed(n, p, b, crc, e);
    WordBack(n, p, e);
    if n[p..p + 4] == Put32(crc(b), e) {
      At32(n, p, crc(b), e);
    }
    hide Get32, Put32, Sealed;
  }

  // Where the parts of a converted inode node are.
  lemma InodeAt(n: seq<byte>, e: Endian, crc: seq<byte> -> Word, recalc: bool)
    requires InodeFits(n, e)
    ensures var m := ConvInode(n, e, crc, recalc);
      && m[..12] == ConvHead(n, e, crc) && m[12..48] == SwapFields(n[12..48], INODE_NAMES)
      && m[48..52] == Swap(n[48..52])
      && m[52..60] == SwapFields(n[52..60], INODE_REST) && m[..60] == InodeFront(n, e, crc)
      && m[60..64] == Payload(n[60..64], n[68..68 + Get32(n, 48, e)], recalc, e, crc)
      && m[64..68] == Seal(crc, InodeFront(n, e, crc), Flip(e)) && m[68..] == n[68..]
  {
    hide ConvHead, SwapFields, Seal, Payload, Sealed, Swap;
  }

  lemma InodeFrontTwice(n: seq<byte>, m: seq<byte>, e: Endian, crc: seq<byte> -> Word)
    requires |n| >= RAW_INODE_SIZE && |m| == |n| && m[..12] == ConvHead(n, e, crc)
    requires m[12..48] == SwapFields(n[12..48], INODE_NAMES) && m[48..52] == Swap(n[48..52])
    requires m[52..60] == SwapFields(n[52..60], INODE_REST)
    ensures InodeFront(m, Flip(e), crc) == n[..8] + Seal(crc, n[..8], e) + n[12..60] && SameHead(n, m, e)
    ensures Get32(m, 48, Flip(e)) == Get32(n, 48, e)
  {
    hide ConvHead, SwapFields, Seal, Get16, Get32, Swap;
    HeadTwice(n, m, e, crc);
    FieldsTwice(n[12..48], INODE_NAMES);
    FieldsTwice(n[52..60], INODE_REST);
    SwapTwice(n[48..52]);
    GetSlice(n, 48, 4, 0, e);
    GetSlice(m, 48, 4, 0, Flip(e));
    assert n[12..60] == n[12..48] + n[48..52] + n[52..60];
  }

  // Twice gives an inode node back exactly when its checksums were right.
  lemma InodeTwice(n: seq<byte>, e: Endian, crc: seq<byte> -> Word, recalc: bool)
    requires InodeFits(n, e)
    ensures var m := ConvInode(n, e, crc, recalc);
      && SameHead(n, m, e) && InodeFits(m, Flip(e))
      && (ConvInode(m, Flip(e), crc, recalc) == n <==> SoundInode(n, e, crc, recalc))
  {
    hide ConvHead, SwapFields, Seal, Payload, Sealed, SameHead, InodeFront, Get16, Get32, Swap;
    var m := ConvInode(n, e, crc, recalc);
    InodeAt(n, e, crc, recalc);
    InodeFrontTwice(n, m, e, crc);
    var data := n[68..68 + Get32(n, 48, e)];
    PayloadTwice(n[60..64], data, recalc, e, crc);
    assert m[68..68 + Get32(n, 48, e)] == m[68..][..Get32(n, 48, e)] == data;
    var front := InodeFront(m, Flip(e), crc);
    var h, s, t := Seal(crc, n[..8], e), if recalc then Seal(crc, data, e) else n[60..64], Seal(crc, front, e);
    FlipTwice(e);
    assert ConvInode(m, Flip(e), crc, recalc) == front + s + t + n[68..];
    Resealed(n, h, 60, s, t, front);
    assert h == n[8..12] ==> front == n[..60];
    IsSealed(n, 8, n[..8], crc, e);
    IsSealed(n, 60, data, crc, e);
    IsSealed(n, 64, n[..60], crc, e);
  }

  // A converted header has the right checksum.
  lemma HeadSealed(n: seq<byte>, m: seq<byte>, e: Endian, crc: seq<byte> -> Word)
    requires |n| >= 12 && |m| >= 12 && m[..12] == ConvHead(n, e, crc)
    ensures Sealed(m, 8, m[..8], crc, Flip(e))
  {
    hide Front, Seal;
    assert m[..8] == m[..12][..8] == Front(n[..8]) && m[8..12] == m[..12][8..];
  }

  // Whatever checksums a dirent had, the converted one has the right ones.
  lemma DirentRepaired(n: seq<byte>, e: Endian, crc: seq<byte> -> Word, recalc: bool)
    requires DirentFits(n)
    ensures SoundDirent(ConvDirent(n, e, crc, recalc), Flip(e), crc, recalc)
  {
    hide ConvHead, ConvDirent, SwapFields, Seal, Sealed, DirentFront;
    var m := ConvDirent(n, e, crc, recalc);
    DirentAt(n, e, crc, recalc);
    HeadSealed(n, m, e, crc);
    var name := n[40..40 + n[28] as nat];
    assert m[40..40 + m[28] as nat] == m[40..][..m[28] as nat] == name;
    IsSealed(m, 32, m[..32], crc, Flip(e));
    IsSealed(m, 36, name, crc, Flip(e));
  }

  lemma InodeRepaired(n: seq<byte>, e: Endian, crc: seq<byte> -> Word, recalc: bool)
    requires InodeFits(n, e)
    ensures SoundInode(ConvInode(n, e, crc, recalc), Flip(e), crc, recalc)
  {
    hide ConvHead, ConvInode, SwapFields, Swap, Seal, Sealed, InodeFront, Get32, Get16, SameHead;
    var m := ConvInode(n, e, crc, recalc);
    InodeAt(n, e, crc, recalc);
    InodeFrontTwice(n, m, e, crc);
    HeadSealed(n, m, e, crc);
    var data := n[68..68 + Get32(n, 48, e)];
    assert m[68..68 + Get32(n, 48, e)] == m[68..][..Get32(n, 48, e)] == data;
    IsSealed(m, 64, m[..60], crc, Flip(e));
    IsSealed(m, 60, data, crc, Flip(e));
  }

  function Sum(ws: seq<nat>): nat {
    if ws == [] then 0 else ws[0] + Sum(ws[1..])
  }

  // The value of a field of `w` bytes.
  function Field(b: seq<byte>, p: nat, w: nat, e: Endian): nat
    requires p < |b| && p + w <= |b|
  {
    if w == 2 then Get16(b, p, e) else if w == 4 then Get32(b, p, e) else b[p]
  }

  // Widths a field can have.
  predicate Sizes(ws: seq<nat>) {
    forall i :: 0 <= i < |ws| ==> ws[i] in [1, 2, 4]
  }

  lemma SizesSplit(ws: seq<nat>)
    requires ws != [] && Sizes(ws)
    ensures ws[0] in [1, 2, 4] && Sizes(ws[1..]) && Sum(ws) == ws[0] + Sum(ws[1..])
  {
  }

  lemma {:induction false} SumSplit(ws: seq<nat>, k: nat)
    requires k < |ws|
    ensures Sum(ws[..0]) == 0 && Sum(ws[..k]) + ws[k] <= Sum(ws)
    ensures k > 0 ==> Sum(ws[..k]) == ws[0] + Sum(ws[1..][..k - 1])
    decreases k
  {
    if k > 0 {
      assert ws[..k][1..] == ws[1..][..k - 1];
      SumSplit(ws[1..], k - 1);
    }
  }

  lemma {:induction false} FieldsSplit(b: seq<byte>, ws: seq<nat>)
    requires ws != [] && ws[0] <= |b|
    ensures b == b[..ws[0]] + b[ws[0]..] && SwapFields(b, ws) == Swap(b[..ws[0]]) + SwapFields(b[ws[0]..], ws[1..])
  {
  }

  // Read in its own byte order, every field has the value it had.
  lemma {:induction false} FieldsKeep(b: seq<byte>, ws: seq<nat>, k: nat, e: Endian)
    requires k < |ws| && Sum(ws) <= |b| && Sizes(ws)
    ensures Sum(ws[..k]) + ws[k] <= Sum(ws) && ws[k] in [1, 2, 4]
    ensures Field(SwapFields(b, ws), Sum(ws[..k]), ws[k], Flip(e)) == Field(b, Sum(ws[..k]), ws[k], e)
    decreases |ws|
  {
    hide *;
    SizesSplit(ws);
    SumSplit(ws, k);
    FieldsSplit(b, ws);
    var x, y := b[..ws[0]], b[ws[0]..];
    var z := SwapFields(y, ws[1..]);
    if k == 0 {
      FieldLeft(x, y, ws[0], e);
      FieldLeft(Swap(x), z, ws[0], Flip(e));
      FieldSwap(x, e);
    } else {
      FieldsKeep(y, ws[1..], k - 1, e);
      FieldRight(x, y, Sum(ws[1..][..k - 1]), ws[k], e);
      FieldRight(Swap(x), z, Sum(ws[1..][..k - 1]), ws[k], Flip(e));
    }
  }

  lemma FieldSwap(x: seq<byte>, e: Endian)
    requires |x| in [1, 2, 4]
    ensures Field(Swap(x), 0, |x|, Flip(e)) == Field(x, 0, |x|, e)
  {
    SwapTwice(x);
  }

  lemma FieldLeft(x: seq<byte>, y: seq<byte>, w: nat, e: Endian)
    requires |x| == w && w in [1, 2, 4]
    ensures Field(x + y, 0, w, e) == Field(x, 0, w, e)
  {
    GetSlice(x + y, 0, w, 0, e);
    assert (x + y)[0..w] == x;
  }

  lemma FieldRight(x: seq<byte>, y: seq<byte>, p: nat, w: nat, e: Endian)
    requires p < |y| && p + w <= |y| && w in [1, 2, 4]
    ensures Field(x + y, |x| + p, w, e) == Field(y, p, w, e)
  {
    GetSlice(x + y, |x|, |y|, p, e);
    assert (x + y)[|x|..|x| + |y|] == y;
  }

  // The fields of the widths `ws` from `p` on have the same values in both nodes, each in its byte order.
  ghost predicate SameFields(n: seq<byte>, m: seq<byte>, p: nat, ws: seq<nat>, e: Endian) {
    && p + Sum(ws) <= |n| && |m| == |n|
    && forall k :: 0 <= k < |ws| ==>
         && p + Sum(ws[..k]) < |n| && p + Sum(ws[..k]) + ws[k] <= |n|
         && Field(m, p + Sum(ws[..k]), ws[k], Flip(e)) == Field(n, p + Sum(ws[..k]), ws[k], e)
  }

  lemma SwappedFields(n: seq<byte>, m: seq<byte>, p: nat, ws: seq<nat>, e: Endian)
    requires p + Sum(ws) <= |n| && |m| == |n| && Sizes(ws)
    requires m[p..p + Sum(ws)] == SwapFields(n[p..p + Sum(ws)], ws)
    ensures SameFields(n, m, p, ws, e)
  {
    hide Field, SwapFields, Sum, Sizes, Flip;
    var x := n[p..p + Sum(ws)];
    forall k | 0 <= k < |ws|
      ensures p + Sum(ws[..k]) < |n| && p + Sum(ws[..k]) + ws[k] <= |n|
      ensures Field(m, p + Sum(ws[..k]), ws[k], Flip(e)) == Field(n, p + Sum(ws[..k]), ws[k], e)
    {
      FieldsKeep(x, ws, k, e);
      FieldSlice(n, p, Sum(ws), Sum(ws[..k]), ws[k], e);
      FieldSlice(m, p, Sum(ws), Sum(ws[..k]), ws[k], Flip(e));
    }
  }

  lemma FieldSlice(n: seq<byte>, p: nat, l: nat, q: nat, w: nat, e: Endian)
    requires p + l <= |n| && q + w <= l && w in [1, 2, 4]
    ensures Field(n[p..p + l], q, w, e) == Field(n, p + q, w, e)
  {
    GetSlice(n, p, l, q, e);
  }

  lemma Widths()
    ensures Sum(INODE_NAMES) == 36 && Sum(INODE_REST) == 8 && Sum(DIRENT_NAMES) == 16
  {
    assert Sum([4, 4, 4, 4]) == 16;
    assert Sum([2, 4, 4, 4, 4, 4]) == 22;
    assert Sum(INODE_NAMES[2..]) == 28;
  }

  // A reader of the other byte order finds what there was: every field of an inode node, and the data.
  lemma InodeReads(n: seq<byte>, e: Endian, crc: seq<byte> -> Word, recalc: bool)
    requires InodeFits(n, e)
    ensures var m := ConvInode(n, e, crc, recalc);
      && SameHead(n, m, e) && SameFields(n, m, 12, INODE_NAMES, e) && Get32(m, 48, Flip(e)) == Get32(n, 48, e)
      && SameFields(n, m, 52, INODE_REST, e) && m[68..] == n[68..]
  {
    hide ConvHead, SwapFields, Swap, Seal, Payload, SameHead, InodeFront, Get32, Get16, SameFields, Sum;
    var m := ConvInode(n, e, crc, recalc);
    InodeAt(n, e, crc, recalc);
    InodeFrontTwice(n, m, e, crc);
    Widths();
    SwappedFields(n, m, 12, INODE_NAMES, e);
    SwappedFields(n, m, 52, INODE_REST, e);
  }

  // ... of a dirent, and the name.
  lemma DirentReads(n: seq<byte>, e: Endian, crc: seq<byte> -> Word, recalc: bool)
    requires DirentFits(n)
    ensures var m := ConvDirent(n, e, crc, recalc);
      SameHead(n, m, e) && SameFields(n, m, 12, DIRENT_NAMES, e) && m[28..32] == n[28..32] && m[40..] == n[40..]
  {
    hide ConvHead, SwapFields, Swap, Seal, Payload, SameHead, DirentFront, Get32, Get16, SameFields, Sum;
    var m := ConvDirent(n, e, crc, recalc);
    DirentAt(n, e, crc, recalc);
    DirentFrontTwice(n, m, e, crc);
    Widths();
    SwappedFields(n, m, 12, DIRENT_NAMES, e);
  }
}
