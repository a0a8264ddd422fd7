/**
 The image that mkfs.jffs2 writes (external/mtd-utils/mkfs.jffs2.c): nodes laid out in erase
 blocks, directory entries, and the fragments of regular files.
 */
module MkfsImage {
  import opened Arithmetic
  import opened Jffs2Format
  import opened Summary
  import opened BlockScan
  import opened MkfsNodes
  import MkfsSound
  import ComprList
  import ComprChoice

  // A full erase block and the nodes in it.
  datatype Full = Full(bytes: seq<byte>, placed: seq<Placed>)

  function Joined(blocks: seq<Full>): seq<byte> {
    if blocks == [] then [] else Joined(blocks[..|blocks| - 1]) + blocks[|blocks| - 1].bytes
  }

  function NodesIn(ps: seq<Placed>): (ns: seq<Node>)
    ensures |ns| == |ps| && forall i :: 0 <= i < |ps| ==> ns[i] == ps[i].node
  {
    seq(|ps|, i requires 0 <= i < |ps| => ps[i].node)
  }

  // All nodes of the blocks, in order.
  function NodesOf(blocks: seq<Full>): seq<Node> {
    if blocks == [] then [] else NodesOf(blocks[..|blocks| - 1]) + NodesIn(blocks[|blocks| - 1].placed)
  }

  lemma NodesFront(blocks: seq<Full>)
    requires blocks != []
    ensures NodesOf(blocks) == NodesOf(blocks[..|blocks| - 1]) + NodesIn(blocks[|blocks| - 1].placed)
  {
  }

  ghost predicate AllHold(blocks: seq<Full>, e: Endian, ebSize: nat) {
    forall i :: 0 <= i < |blocks| ==> |blocks[i].bytes| == ebSize && Holds(blocks[i].bytes, blocks[i].placed, e)
  }

  // The output is full erase blocks and the `rest` of one; a scan of each finds its nodes.
  ghost predicate Laid(out: seq<byte>, blocks: seq<Full>, rest: seq<byte>, cur: seq<Placed>, e: Endian, ebSize: nat) {
    out == Joined(blocks) + rest && AllHold(blocks, e, ebSize) && |rest| < ebSize && ebSize % 4 == 0
      && Holds(rest, cur, e)
  }

  lemma AllHoldFront(blocks: seq<Full>, e: Endian, ebSize: nat)
    requires AllHold(blocks, e, ebSize) && blocks != []
    ensures AllHold(blocks[..|blocks| - 1], e, ebSize) && |blocks[|blocks| - 1].bytes| == ebSize
  {
    hide Holds;
  }

  lemma {:induction false} JoinedSize(blocks: seq<Full>, e: Endian, ebSize: nat)
    requires AllHold(blocks, e, ebSize)
    ensures |Joined(blocks)| == |blocks| * ebSize
    decreases |blocks|
  {
    if blocks != [] {
      AllHoldFront(blocks, e, ebSize);
      hide AllHold;
      JoinedSize(blocks[..|blocks| - 1], e, ebSize);
      OneMore(|blocks| - 1, ebSize);
    }
  }

  lemma OneMore(n: nat, ebSize: nat)
    ensures (n + 1) * ebSize == n * ebSize + ebSize
  {
  }

  lemma LaidOffset(out: seq<byte>, blocks: seq<Full>, rest: seq<byte>, cur: seq<Placed>, e: Endian, ebSize: nat)
    requires Laid(out, blocks, rest, cur, e, ebSize)
    ensures 0 < ebSize && ebSize % 4 == 0 && |out| % ebSize == |rest| < ebSize && |rest| % 4 == 0 && |out| % 4 == 0
  {
    hide AllHold, Holds, Joined;
    JoinedSize(blocks, e, ebSize);
    HoldsFacts(rest, cur, e);
    OffsetIn(|blocks|, ebSize, |rest|);
  }

  lemma OffsetIn(n: nat, ebSize: nat, r: nat)
    requires r < ebSize && ebSize % 4 == 0
    ensures (n * ebSize + r) % ebSize == r && (n * ebSize + r) % 4 == r % 4
  {
    DivMod(ebSize, n, r);
    FourDivides(n, ebSize);
  }

  lemma FourDivides(n: nat, ebSize: nat)
    requires ebSize % 4 == 0
    ensures n * ebSize % 4 == 0
  {
    var k := ebSize / 4;
    assert n * ebSize == (n * k) * 4 by {
      assert ebSize == 4 * k;
    }
  }

  lemma LaidMore(out: seq<byte>, blocks: seq<Full>, rest: seq<byte>, cur: seq<Placed>, e: Endian, ebSize: nat,
                 x: seq<byte>, cur': seq<Placed>)
    requires Laid(out, blocks, rest, cur, e, ebSize) && |rest| + |x| <= ebSize && Holds(rest + x, cur', e)
    ensures if |rest| + |x| == ebSize then
              Laid(out + x, blocks + [Full(rest + x, cur')], [], [], e, ebSize)
              && NodesOf(blocks + [Full(rest + x, cur')]) == NodesOf(blocks) + NodesIn(cur')
            else Laid(out + x, blocks, rest + x, cur', e, ebSize)
  {
    assert Joined(blocks) + rest + x == Joined(blocks) + (rest + x);
    if |rest| + |x| == ebSize {
      var b := Full(rest + x, cur');
      assert (blocks + [b])[..|blocks|] == blocks;
      HoldsNothing(e);
      hide Holds;
      assert Joined(blocks + [b]) == Joined(blocks) + (rest + x);
      assert AllHold(blocks + [b], e, ebSize);
      assert Joined(blocks + [b]) + [] == Joined(blocks + [b]);
    }
  }

  predicate IsMarker(n: Node, e: Endian) {
    |n| >= 4 && Get16(n, 2, e) == NODETYPE_CLEANMARKER
  }

  // The nodes other than cleanmarkers.
  function Contents(ns: seq<Node>, e: Endian): seq<Node> {
    if ns == [] then []
    else Contents(ns[..|ns| - 1], e) + if IsMarker(ns[|ns| - 1], e) then [] else [ns[|ns| - 1]]
  }

  lemma ContentsNext(ns: seq<Node>, n: Node, e: Endian)
    ensures Contents(ns + [n], e) == Contents(ns, e) + if IsMarker(n, e) then [] else [n]
  {
    assert (ns + [n])[..|ns|] == ns;
  }

  // What is not a cleanmarker is among the contents.
  lemma {:induction false} ContentsHas(ns: seq<Node>, e: Endian, n: Node)
    requires n in ns && !IsMarker(n, e)
    ensures n in Contents(ns, e)
    decreases |ns|
  {
    hide IsMarker;
    if n != ns[|ns| - 1] { ContentsHas(ns[..|ns| - 1], e, n); }
  }

  lemma NotMarker(n: Node, e: Endian)
    requires |n| >= 4 && Get16(n, 2, e) != NODETYPE_CLEANMARKER
    ensures !IsMarker(n, e)
  {
  }

  lemma MarkerWell(size: Word, crc: seq<byte> -> Word, e: Endian)
    requires UNKNOWN_NODE_SIZE <= size
    ensures var start := NodeStart(NODETYPE_CLEANMARKER, size, e);
            var m := start + Put32(crc(start), e) + Ones(size - UNKNOWN_NODE_SIZE);
      && |m| == size && WellNode(m, e) && IsMarker(m, e)
      && Get16(m, 0, e) == 0x1985 && Get16(m, 2, e) == 0x2003 && Get32(m, 4, e) == size
      && Get32(m, 8, e) == crc(m[..8]) && forall i :: 12 <= i < size ==> m[i] == 0xff
  {
    var start := NodeStart(NODETYPE_CLEANMARKER, size, e);
    var m := start + Put32(crc(start), e) + Ones(size - UNKNOWN_NODE_SIZE);
    hide NodeStart, Put32, Ones, Get16, Get32;
    assert m == start + (Put32(crc(start), e) + Ones(size - UNKNOWN_NODE_SIZE)) && m[..|m|] == m;
    InParts(m, 0, start, Put32(crc(start), e) + Ones(size - UNKNOWN_NODE_SIZE));
    StartFields(m, 0, NODETYPE_CLEANMARKER, size, e);
    InParts(m, 8, Put32(crc(start), e), Ones(size - UNKNOWN_NODE_SIZE));
    WordIn(m, 8, crc(start), e);
    assert m[..8] == start;
  }

  // All cleanmarkers among the nodes are `m`.
  ghost predicate OnlyMarker(ns: seq<Node>, m: Node, e: Endian) {
    forall i :: 0 <= i < |ns| && IsMarker(ns[i], e) ==> ns[i] == m
  }

  lemma OnlyMarkerMore(ns: seq<Node>, n: Node, m: Node, e: Endian)
    requires OnlyMarker(ns, m, e) && (IsMarker(n, e) ==> n == m)
    ensures OnlyMarker(ns + [n], m, e)
  {
    hide IsMarker;
  }

  // A node of the size of a cleanmarker that is one.
  lemma MarkerIs(ns: seq<Node>, m: Node, e: Endian)
    requires WellNode(m, e) && IsMarker(m, e)
    ensures Contents(ns + [m], e) == Contents(ns, e)
  {
    ContentsNext(ns, m, e);
  }

  lemma HoldsRest(out: seq<byte>, blocks: seq<Full>, rest: seq<byte>, cur: seq<Placed>, e: Endian, ebSize: nat)
    requires Laid(out, blocks, rest, cur, e, ebSize)
    ensures Holds(rest, cur, e)
  {
  }

  lemma NoPlaces(out: seq<byte>, blocks: seq<Full>, cur: seq<Placed>, e: Endian, ebSize: nat)
    requires Laid(out, blocks, [], cur, e, ebSize)
    ensures cur == []
  {
    assert |Places(cur)| == |cur|;
  }

  lemma LogSplit(blocks: seq<Full>, cur: seq<Placed>)
    ensures NodesOf(blocks) + NodesIn(cur) + NodesIn([]) == NodesOf(blocks) + NodesIn(cur)
  {
  }

  class ImageWriter {
    const ebSize: nat
    const e: Endian
    const crc: seq<byte> -> Word
    const addCleanmarkers: bool
    const cleanmarkerSize: nat
    const cleanmarker: seq<byte>
    var out: seq<byte>        // what was written to the output file
    var outOfs: nat
    var direntVersion: Word   // the static counter of `write_dirent`
    ghost var blocks: seq<Full>
    ghost var rest: seq<byte>
    ghost var cur: seq<Placed>

    // The cleanmarker is set up as `create_target_filesystem` does it.
    constructor (ebSize: nat, e: Endian, crc: seq<byte> -> Word, addCleanmarkers: bool, cleanmarkerSize: nat)
      requires 0x2000 <= ebSize && ebSize % 4 == 0 && UNKNOWN_NODE_SIZE <= cleanmarkerSize <= UINT32_MAX
      ensures Inv() && Log() == [] && out == [] && rest == [] && direntVersion == 0
      ensures this.ebSize == ebSize && this.e == e && this.crc == crc
      ensures this.addCleanmarkers == addCleanmarkers && this.cleanmarkerSize == cleanmarkerSize
      ensures var m := Marker();
        && |m| == cleanmarkerSize && Get16(m, 0, e) == 0x1985 && Get16(m, 2, e) == 0x2003
        && Get32(m, 4, e) == cleanmarkerSize && Get32(m, 8, e) == crc(m[..8])
        && forall i :: 12 <= i < cleanmarkerSize ==> m[i] == 0xff
    {
      this.ebSize, this.e, this.crc, this.addCleanmarkers, this.cleanmarkerSize := ebSize, e, crc, addCleanmarkers,
        cleanmarkerSize;
      var start := NodeStart(NODETYPE_CLEANMARKER, cleanmarkerSize, e);
      cleanmarker := start + Put32(crc(start), e);
      out, outOfs, direntVersion := [], 0, 0;
      blocks, rest, cur := [], [], [];
      new;
      hide *;
      MarkerWell(cleanmarkerSize, crc, e);
      MarkerStarts(start);
      HoldsNothing(e);
      EmptyStarts();
    }

    // (Unfolds the definition.)
    lemma MarkerStarts(start: seq<byte>)
      requires cleanmarker == start + Put32(crc(start), e) && |start| == 8 && UNKNOWN_NODE_SIZE <= cleanmarkerSize
      ensures |cleanmarker| == UNKNOWN_NODE_SIZE
      ensures Marker() == start + Put32(crc(start), e) + Ones(cleanmarkerSize - UNKNOWN_NODE_SIZE)
    {
      hide Put32, Ones;
    }

    // The state of an image of which nothing is written yet.
    lemma EmptyStarts()
      requires out == rest == [] && outOfs == 0 && blocks == [] && cur == [] && Holds([], [], e)
      requires 0 < ebSize && ebSize % 4 == 0 && |cleanmarker| == UNKNOWN_NODE_SIZE <= cleanmarkerSize
      requires WellNode(Marker(), e) && IsMarker(Marker(), e) && Get32(Marker(), 8, e) == crc(Marker()[..8])
      ensures Inv() && Log() == []
    {
      hide Holds, WellNode, IsMarker, Get32, Ones;
    }

    ghost predicate Inv()
      reads this
    {
      && outOfs == |out| && Laid(out, blocks, rest, cur, e, ebSize)
      && HasMarker() && OnlyMarker(Log(), Marker(), e)
    }

    // The cleanmarker is a node with the right checksum.
    ghost predicate HasMarker() {
      && |cleanmarker| == UNKNOWN_NODE_SIZE <= cleanmarkerSize && WellNode(Marker(), e) && IsMarker(Marker(), e)
      && Get32(Marker(), 8, e) == crc(Marker()[..8])
    }

    // The cleanmarker node.
    ghost function Marker(): Node
      requires |cleanmarker| == UNKNOWN_NODE_SIZE <= cleanmarkerSize
    {
      cleanmarker + Ones(cleanmarkerSize - UNKNOWN_NODE_SIZE)
    }

    // All nodes written so far.
    ghost function Log(): seq<Node>
      reads this
    {
      NodesOf(blocks) + NodesIn(cur)
    }

    // `x` has been written; the last block, with it, has the nodes `cur'`.
    ghost method Add(before: seq<byte>, x: seq<byte>, cur': seq<Placed>)
      requires Laid(before, blocks, rest, cur, e, ebSize) && out == before + x && outOfs == |out|
      requires HasMarker() && OnlyMarker(NodesOf(blocks) + NodesIn(cur'), Marker(), e)
      requires |rest| + |x| <= ebSize && Holds(rest + x, cur', e)
      modifies `blocks, `rest, `cur
      ensures Inv() && Log() == NodesOf(old(blocks)) + NodesIn(cur')
      ensures rest == if |old(rest)| + |x| == ebSize then [] else old(rest) + x
      ensures rest != [] ==> cur == cur'
    {
      LaidMore(before, blocks, rest, cur, e, ebSize, x, cur');
      hide Laid, Holds, HasMarker, OnlyMarker;
      if |rest| + |x| == ebSize {
        LogSplit(blocks, cur');
        blocks, rest, cur := blocks + [Full(rest + x, cur')], [], [];
      } else {
        rest, cur := rest + x, cur';
      }
    }

    // `full_write`: `write` may take any part of what is left.
    method FullWrite(buf: seq<byte>)
      modifies `out, `outOfs
      ensures out == old(out) + buf && outOfs == old(outOfs) + |buf|
    {
      var from: nat := 0;
      while from < |buf|
        invariant from <= |buf| && out == old(out) + buf[..from] && outOfs == old(outOfs) + from
      {
        var ret: int := *;
        if ret <= 0 || from + ret > |buf| {
          ret := |buf| - from;
        }
        assert buf[..from + ret] == buf[..from] + buf[from..from + ret];
        out := out + buf[from..from + ret];
        outOfs := outOfs + ret;
        from := from + ret;
      }
      assert buf[..from] == buf;
    }

    method PadBytes(n: nat)
      modifies `out, `outOfs
      ensures out == old(out) + Ones(n) && outOfs == old(outOfs) + n
    {
      var req: nat := n;
      while req > 0
        invariant req <= n && out == old(out) + Ones(n - req) && outOfs == old(outOfs) + n - req
      {
        assert Ones(n - req) + Ones(if req > 16 then 16 else req) == Ones(n - req + if req > 16 then 16 else req);
        if req > 16 {
          FullWrite(Ones(16));
          req := req - 16;
        } else {
          FullWrite(Ones(req));
          req := 0;
        }
      }
    }

    method PadWord()
      modifies `out, `outOfs
      ensures out == old(out) + Ones(old(Pad(outOfs) - outOfs)) && outOfs == old(Pad(outOfs))
    {
      if outOfs % 4 != 0 {
        FullWrite(Ones(4 - outOfs % 4));
      }
    }

    // `padblock`
    method PadBlock()
      requires Inv()
      modifies `out, `outOfs, `blocks, `rest, `cur
      ensures Inv() && Log() == old(Log()) && rest == []
      ensures out == old(out) + Ones(if old(rest) == [] then 0 else ebSize - |old(rest)|)
    {
      hide Laid, Holds, HasMarker, OnlyMarker, Ones;
      ghost var before := out;
      LaidOffset(out, blocks, rest, cur, e, ebSize);
      HoldsRest(out, blocks, rest, cur, e, ebSize);
      ghost var n := if rest == [] then 0 else ebSize - |rest|;
      HoldsPadded(rest, cur, e, n);
      FillBlock(n);
      if n > 0 {
        Add(before, Ones(n), cur);
      } else {
        assert before + Ones(0) == before;
      }
    }

    method FillBlock(ghost n: nat)
      requires 0 < ebSize && n == (if outOfs % ebSize == 0 then 0 else ebSize - outOfs % ebSize)
      modifies `out, `outOfs
      ensures out == old(out) + Ones(n) && outOfs == old(outOfs) + n
    {
      ghost var end, done := outOfs + n, 0;
      while outOfs % ebSize != 0
        invariant outOfs == old(outOfs) + done && out == old(out) + Ones(done) && done <= n
        invariant outOfs % ebSize == if done == n then 0 else old(outOfs % ebSize) + done
        decreases n - done
      {
        var left := ebSize - outOfs % ebSize;
        var k := if 16 < left then 16 else left;
        assert Ones(done) + Ones(k) == Ones(done + k);
        StepInBlock(outOfs, k, ebSize);
        FullWrite(Ones(k));
        done := done + k;
      }
    }

    // Node `n`, filled up to a multiple of four, has been written.
    ghost method AddNode(before: seq<byte>, n: Node)
      requires Laid(before, blocks, rest, cur, e, ebSize) && outOfs == |out|
      requires HasMarker() && OnlyMarker(Log(), Marker(), e) && (IsMarker(n, e) ==> n == Marker())
      requires WellNode(n, e) && |rest| + |n| <= ebSize && out == before + (n + Ones(Pad(|n|) - |n|))
      modifies `blocks, `rest, `cur
      ensures Inv() && Log() == old(Log()) + [n]
      ensures |rest| == if |old(rest)| + Pad(|n|) == ebSize then 0 else |old(rest)| + Pad(|n|)
      ensures rest != [] ==> cur == old(cur) + [Placed(|old(rest)|, n)]
    {
      ghost var x, p, log, ns := n + Ones(Pad(|n|) - |n|), Placed(|rest|, n), NodesOf(blocks), NodesIn(cur);
      LaidOffset(before, blocks, rest, cur, e, ebSize);
      HoldsRest(before, blocks, rest, cur, e, ebSize);
      HoldsMore(rest, cur, e, n);
      PadAfter(0, |rest|, |n|, ebSize);
      assert rest + n + Ones(Pad(|n|) - |n|) == rest + x;
      assert NodesIn(cur + [p]) == ns + [n];
      OnlyMarkerMore(Log(), n, Marker(), e);
      assert log + ns + [n] == log + (ns + [n]);
      hide Laid, Holds, WellNode, Pad, Ones, OnlyMarker, HasMarker, IsMarker;
      Add(before, x, cur + [p]);
    }

    // The two parts of a node, filled up to a multiple of four.
    method WriteParts(head: seq<byte>, data: seq<byte>)
      requires outOfs % 4 == 0
      modifies `out, `outOfs
      ensures out == old(out) + (head + data + Ones(Pad(|head + data|) - |head + data|))
      ensures outOfs == old(outOfs) + Pad(|head + data|)
    {
      ghost var before, x := out, Ones(Pad(|head + data|) - |head + data|);
      PadAfter(outOfs, 0, |head + data|, Pad(|head + data|));
      hide Pad, Ones;
      FullWrite(head);
      FullWrite(data);
      PadWord();
      assert before + head + data + x == before + (head + data + x);
    }

    method PutNode(head: seq<byte>, data: seq<byte>)
      requires Inv() && WellNode(head + data, e) && !IsMarker(head + data, e) && |rest| + |head + data| <= ebSize
      modifies `out, `outOfs, `blocks, `rest, `cur
      ensures Inv() && Log() == old(Log()) + [head + data]
      ensures out == old(out) + (head + data + Ones(Pad(|head + data|) - |head + data|))
    {
      hide Laid, Holds, WellNode, Pad, IsMarker, OnlyMarker, HasMarker;
      LaidOffset(out, blocks, rest, cur, e, ebSize);
      ghost var before := out;
      WriteParts(head, data);
      AddNode(before, head + data);
    }

    // A cleanmarker at the start of an erase block.
    method AddMarker()
      requires Inv() && (addCleanmarkers ==> Pad(cleanmarkerSize) <= ebSize)
      modifies `out, `outOfs, `blocks, `rest, `cur
      ensures Inv() && Contents(Log(), e) == old(Contents(Log(), e))
      ensures old(rest) != [] ==> rest == old(rest) && cur == old(cur)
      ensures old(rest) == [] && addCleanmarkers && rest != [] ==> Marked()
      ensures out == old(out) + if old(rest) == [] then BlockStart() else []
      ensures old(rest) == [] ==> rest == [] || |rest| == StartSpace()
      ensures old(rest) == [] && StartSpace() < ebSize ==> |rest| == StartSpace()
    {
      hide Laid, Holds, WellNode, Contents, Pad, IsMarker, Marked, Ones;
      LaidOffset(out, blocks, rest, cur, e, ebSize);
      ghost var before := out;
      assert before + [] == before;
      if addCleanmarkers && outOfs % ebSize == 0 {
        PutMarker();
      }
    }

    // What a new block starts with.
    ghost function BlockStart(): seq<byte>
      requires |cleanmarker| == UNKNOWN_NODE_SIZE <= cleanmarkerSize
    {
      if addCleanmarkers then Marker() + Ones(Pad(cleanmarkerSize) - cleanmarkerSize) else []
    }

    // The last block holds a cleanmarker, at its start, and nothing else.
    ghost predicate Marked()
      reads `cur
    {
      |cleanmarker| == UNKNOWN_NODE_SIZE <= cleanmarkerSize && cur == [Placed(0, Marker())]
    }

    method PutMarker()
      requires Inv() && rest == [] && Pad(cleanmarkerSize) <= ebSize
      modifies `out, `outOfs, `blocks, `rest, `cur
      ensures Inv() && Contents(Log(), e) == old(Contents(Log(), e))
      ensures |rest| == if Pad(cleanmarkerSize) == ebSize then 0 else Pad(cleanmarkerSize)
      ensures rest != [] ==> Marked()
      ensures out == old(out) + (Marker() + Ones(Pad(cleanmarkerSize) - cleanmarkerSize))
    {
      hide Laid, Holds, WellNode, Ones, Contents, IsMarker, Pad, NodesOf, NodesIn;
      NoPlaces(out, blocks, cur, e, ebSize);
      ghost var log, before, m := Log(), out, Marker();
      MarkerIs(log, m, e);
      LaidOffset(out, blocks, rest, cur, e, ebSize);
      WriteMarker();
      AddNode(before, m);
      assert [] + [Placed(0, m)] == [Placed(0, m)];
    }

    method WriteMarker()
      requires outOfs % 4 == 0 && |cleanmarker| == UNKNOWN_NODE_SIZE <= cleanmarkerSize
      modifies `out, `outOfs
      ensures out == old(out) + (Marker() + Ones(Pad(cleanmarkerSize) - cleanmarkerSize))
      ensures outOfs == old(outOfs) + Pad(cleanmarkerSize)
    {
      ghost var before := out;
      PadAfter(outOfs, 0, cleanmarkerSize, Pad(cleanmarkerSize));
      hide Ones, Pad;
      FullWrite(cleanmarker);
      PadBytes(cleanmarkerSize - UNKNOWN_NODE_SIZE);
      PadWord();
      assert out == before + (Marker() + Ones(Pad(cleanmarkerSize) - cleanmarkerSize));
    }

    function StartSpace(): nat {
      if addCleanmarkers then Pad(cleanmarkerSize) else 0
    }

    // `pad_block_if_less_than`: there is room for `req` bytes in the erase block, which starts with a cleanmarker if it
    // is a new one and there are to be any.
    method PadBlockIfLessThan(req: nat)
      requires Inv() && StartSpace() + req <= ebSize && 0 < req
      modifies `out, `outOfs, `blocks, `rest, `cur
      ensures Inv() && |rest| + req <= ebSize && Contents(Log(), e) == old(Contents(Log(), e))
      ensures (rest == old(rest) && cur == old(cur)) || rest == [] || Marked()
      ensures addCleanmarkers ==> rest != []
      ensures old(rest) != [] && |old(rest)| + req <= ebSize ==> out == old(out) && rest == old(rest)
      ensures old(rest) == [] || |old(rest)| + req > ebSize ==> |rest| == StartSpace()
      ensures old(rest) != [] && |old(rest)| + req > ebSize ==>
                out == old(out) + Ones(ebSize - |old(rest)|)
                       + if addCleanmarkers then Marker() + Ones(Pad(cleanmarkerSize) - cleanmarkerSize) else []
      ensures old(rest) == [] ==>
                out == old(out) + if addCleanmarkers then Marker() + Ones(Pad(cleanmarkerSize) - cleanmarkerSize)
                  else []
    {
      hide Laid, Holds, WellNode, Contents, Pad, IsMarker, Marked, Ones;
      assert out + [] == out;
      AddMarker();
      LaidOffset(out, blocks, rest, cur, e, ebSize);
      if outOfs % ebSize + req > ebSize {
        PadBlock();
      }
      AddMarker();
    }

    // `write_dirent`: its versions count up from 0 over the whole image.
    method WriteDirent(pino: Word, ino: Word, mctime: Word, kind: byte, name: seq<byte>)
      requires Inv() && |name| < 256 && StartSpace() + RAW_DIRENT_SIZE + |name| <= ebSize && direntVersion < UINT32_MAX
      modifies `out, `outOfs, `blocks, `rest, `cur, `direntVersion
      ensures Inv() && direntVersion == old(direntVersion) + 1
      ensures Contents(Log(), e) == old(Contents(Log(), e))
                                    + [DirentHead(pino, old(direntVersion), ino, mctime, kind, name, crc, e) + name]
      ensures var n := DirentHead(pino, old(direntVersion), ino, mctime, kind, name, crc, e) + name;
              old(rest) != [] && |old(rest)| + |n| <= ebSize ==> out == old(out) + (n + Ones(Pad(|n|) - |n|))
    {
      hide Laid, Holds, IsMarker, Contents, DirentHead, WellNode, Get16, Get32;
      var rd := DirentHead(pino, direntVersion, ino, mctime, kind, name, crc, e);
      DirentSays(pino, direntVersion, ino, mctime, kind, name, crc, e);
      direntVersion := direntVersion + 1;
      PadBlockIfLessThan(RAW_DIRENT_SIZE + |name|);
      NotMarker(rd + name, e);
      ContentsNext(Log(), rd + name, e);
      PutNode(rd, name);
    }

    // `read`: at most a page of the file, nothing at its end.
    method ReadFile(content: seq<byte>, pos: nat, pageSize: nat) returns (buf: seq<byte>)
      requires pos <= |content| && 0 < pageSize
      ensures pos + |buf| <= |content| && |buf| <= pageSize && buf == content[pos..pos + |buf|]
      ensures buf == [] <==> pos == |content|
    {
      var len: int := *;
      if len <= 0 || len > pageSize || pos + len > |content| {
        len := if pos < |content| then 1 else 0;
      }
      buf := content[pos..pos + len];
    }

    // One round of the inner loop of `write_regular_file`: a fragment of what is in the buffer.
    method WriteFragment(list: ComprList.Compressors, mode: ComprChoice.Mode, a: Attr, tbuf: seq<byte>, ver: nat,
                         offset: nat, ghost frags: seq<Node>, ghost inflate: (byte, seq<byte>, nat) -> seq<byte>)
      returns (dsize: nat, ghost n: Node)
      requires Inv() && StartSpace() + RAW_INODE_SIZE + 128 <= ebSize <= 0x7FFF_FFFF && a.InRange() && tbuf != []
      requires list.Linked() && ComprChoice.AllSound(list.entries, inflate)
      requires AllInodes(frags) && Tiles(frags, e, a.ino, inflate) && ver == |frags| < UINT32_MAX
      requires offset == |FileContents(frags, e, inflate)| && offset + |tbuf| <= UINT32_MAX
      modifies `out, `outOfs, `blocks, `rest, `cur
      ensures Inv() && list.Linked() && 0 < dsize <= |tbuf|
      ensures Contents(Log(), e) == old(Contents(Log(), e)) + [n]
      ensures AllInodes(frags + [n]) && Tiles(frags + [n], e, a.ino, inflate)
      ensures FileContents(frags + [n], e, inflate) == FileContents(frags, e, inflate) + tbuf[..dsize]
      ensures MkfsSound.Written(n, a, e, crc)
      ensures old(rest) != [] && |old(rest)| + RAW_INODE_SIZE + 128 <= ebSize ==>
                out == old(out) + (n + Ones(Pad(|n|) - |n|))
      ensures var used := if old(rest) != [] && |old(rest)| + 196 <= ebSize then |old(rest)| else StartSpace();
        StoredAs(n, dsize, mode, list.entries, tbuf, if ebSize - used - 68 < |tbuf| then ebSize - used - 68 else |tbuf|)
    {
      hide *;
      FragmentFits();
      PadBlockIfLessThan(RAW_INODE_SIZE + 128);
      dsize := |tbuf|;
      var space := SpaceLeft();
      if space > dsize {
        space := dsize;
      }
      var ri, wbuf;
      ri, wbuf, dsize := MakeFragment(list, mode, a, tbuf, space, ver, offset, frags, inflate);
      n := ri + wbuf;
      ContentsNext(Log(), n, e);
      PutNode(ri, wbuf);
    }

    lemma FragmentFits()
      ensures RAW_INODE_SIZE == 68 && StartSpace() >= 0
    {
    }

    // What of the buffer goes into the node, and its header.
    method MakeFragment(list: ComprList.Compressors, mode: ComprChoice.Mode, a: Attr, tbuf: seq<byte>, room: nat,
                        ver: nat, offset: nat, ghost frags: seq<Node>,
                        ghost inflate: (byte, seq<byte>, nat) -> seq<byte>)
      returns (ri: seq<byte>, wbuf: seq<byte>, dsize: nat)
      requires Inv() && 0 < room <= |tbuf| && room < 0x7FFF_FFFF && a.InRange()
      requires list.Linked() && ComprChoice.AllSound(list.entries, inflate)
      requires AllInodes(frags) && Tiles(frags, e, a.ino, inflate) && ver == |frags| < UINT32_MAX
      requires offset == |FileContents(frags, e, inflate)| && offset + |tbuf| <= UINT32_MAX
      ensures Inv() && list.Linked() && 0 < dsize <= |tbuf|
      ensures var n := ri + wbuf;
        && WellNode(n, e) && !IsMarker(n, e) && |n| <= 68 + room && MkfsSound.Written(n, a, e, crc)
        && AllInodes(frags + [n]) && Tiles(frags + [n], e, a.ino, inflate)
        && FileContents(frags + [n], e, inflate) == FileContents(frags, e, inflate) + tbuf[..dsize]
        && StoredAs(n, dsize, mode, list.entries, tbuf, room)
    {
      hide Inv, MkfsSound.Written, InodeHead, WellNode, IsMarker, Get16, Get32, Says, Tiles, FileContents, AllInodes;
      hide ComprChoice.Stands, ComprChoice.AllSound, ComprChoice.Choose, ComprChoice.Cands, ComprChoice.FirstMade,
           ComprChoice.LastLength, ComprChoice.Reports, StoredAs, ComprList.Compressors.Linked;
      var r := ComprChoice.Compress(list, mode, tbuf, room, inflate);
      StandsFacts(r, tbuf, room, inflate);
      var space := r.cdatalen;
      dsize := r.datalen;
      wbuf := if r.id != 0 then r.code else tbuf[..space];
      ri := InodeHead(a, ver + 1, offset, space, dsize, r.id, crc(wbuf), crc, e);
      ghost var n := ri + wbuf;
      InodeSays(a, ver + 1, offset, space, dsize, r.id, crc(wbuf), crc, e, wbuf);
      MkfsSound.InodeSound(a, ver + 1, offset, space, dsize, r.id, crc(wbuf), crc, e, wbuf);
      SaysWell(n, e, a.ino, ver + 1, offset, space, dsize, r.id, wbuf);
      ChoiceStored(n, r, dsize, mode, list.entries, tbuf, room, wbuf);
      TilesMore(frags, e, a.ino, inflate, n, space, r.id, wbuf, tbuf[..dsize]);
    }

    method SpaceLeft() returns (space: nat)
      requires Inv() && |rest| + RAW_INODE_SIZE <= ebSize
      ensures space == ebSize - |rest| - RAW_INODE_SIZE
    {
      LaidOffset(out, blocks, rest, cur, e, ebSize);
      space := ebSize - outOfs % ebSize - RAW_INODE_SIZE;
    }

    // The node of an empty file.
    method WriteEmpty(a: Attr, ghost inflate: (byte, seq<byte>, nat) -> seq<byte>) returns (ghost n: Node)
      requires Inv() && StartSpace() + RAW_INODE_SIZE <= ebSize && a.InRange() && crc([]) == 0
      modifies `out, `outOfs, `blocks, `rest, `cur
      ensures Inv() && Contents(Log(), e) == old(Contents(Log(), e)) + [n]
      ensures AllInodes([n]) && Tiles([n], e, a.ino, inflate) && FileContents([n], e, inflate) == []
      ensures MkfsSound.Written(n, a, e, crc)
    {
      hide MkfsSound.Written;
      hide Inv, Contents, InodeHead, WellNode, Get16, Get32, Says, Log;
      PadBlockIfLessThan(RAW_INODE_SIZE);
      var ri := InodeHead(a, 1, 0, 0, 0, 0, 0, crc, e);
      n := ri + [];
      InodeSays(a, 1, 0, 0, 0, 0, 0, crc, e, []);
      MkfsSound.InodeSound(a, 1, 0, 0, 0, 0, 0, crc, e, []);
      SaysWell(n, e, a.ino, 1, 0, 0, 0, 0, []);
      TilesMore([], e, a.ino, inflate, n, 0, 0, [], []);
      assert [] + [n] == [n];
      ContentsNext(Log(), n, e);
      PutNode(ri, []);
    }

    // The inner loop of `write_regular_file`: a buffer of the file, fragment by fragment.
    method WriteBuffer(list: ComprList.Compressors, mode: ComprChoice.Mode, a: Attr, buf: seq<byte>, ver: nat,
                       offset: nat, ghost frags: seq<Node>, ghost inflate: (byte, seq<byte>, nat) -> seq<byte>)
      returns (ver': nat, offset': nat, ghost frags': seq<Node>)
      requires Inv() && StartSpace() + RAW_INODE_SIZE + 128 <= ebSize <= 0x7FFF_FFFF && a.InRange()
      requires list.Linked() && ComprChoice.AllSound(list.entries, inflate)
      requires AllInodes(frags) && Tiles(frags, e, a.ino, inflate) && ver == |frags| <= offset
      requires MkfsSound.AllWritten(frags, a, e, crc)
      requires offset == |FileContents(frags, e, inflate)| && offset + |buf| < UINT32_MAX
      modifies `out, `outOfs, `blocks, `rest, `cur
      ensures Inv() && list.Linked() && AllInodes(frags') && Tiles(frags', e, a.ino, inflate)
      ensures ver' == |frags'| <= offset'
      ensures offset' == offset + |buf| && frags <= frags' && (buf != [] ==> frags' != [])
      ensures FileContents(frags', e, inflate) == FileContents(frags, e, inflate) + buf
      ensures Contents(Log(), e) == old(Contents(Log(), e)) + frags'[|frags|..]
      ensures MkfsSound.AllWritten(frags', a, e, crc)
    {
      hide *;
      ghost var log := Contents(Log(), e);
      var at: nat := 0;
      ver', offset', frags' := ver, offset, frags;
      while at < |buf|
        invariant at <= |buf| && Inv() && list.Linked() && AllInodes(frags') && Tiles(frags', e, a.ino, inflate)
        invariant ver' == |frags'| <= offset' == offset + at && frags <= frags' && (at > 0 ==> frags' != [])
        invariant FileContents(frags', e, inflate) == FileContents(frags, e, inflate) + buf[..at]
        invariant Contents(Log(), e) == log + frags'[|frags|..] && MkfsSound.AllWritten(frags', a, e, crc)
      {
        var dsize;
        ghost var n;
        dsize, n := WriteFragment(list, mode, a, buf[at..], ver', offset', frags', inflate);
        assert buf[..at] + buf[at..][..dsize] == buf[..at + dsize];
        MkfsSound.AllWrittenMore(frags', n, a, e, crc);
        assert (frags' + [n])[|frags|..] == frags'[|frags|..] + [n];
        frags' := frags' + [n];
        ver', offset', at := ver' + 1, offset' + dsize, at + dsize;
      }
      assert buf[..at] == buf;
    }

    // The data nodes of `write_regular_file`: they tile the file. (`mtd_crc32` of nothing is 0.)
    method WriteRegularFile(list: ComprList.Compressors, mode: ComprChoice.Mode, a: Attr, content: seq<byte>,
                            pageSize: nat, ghost inflate: (byte, seq<byte>, nat) -> seq<byte>)
      returns (ghost frags: seq<Node>)
      requires Inv() && StartSpace() + RAW_INODE_SIZE + 128 <= ebSize <= 0x7FFF_FFFF && a.InRange()
      requires list.Linked() && ComprChoice.AllSound(list.entries, inflate)
      requires |content| < UINT32_MAX && 0 < pageSize && crc([]) == 0
      modifies `out, `outOfs, `blocks, `rest, `cur
      ensures Inv() && Contents(Log(), e) == old(Contents(Log(), e)) + frags
      ensures frags != [] && AllInodes(frags) && Tiles(frags, e, a.ino, inflate)
      ensures FileContents(frags, e, inflate) == content
      ensures MkfsSound.AllWritten(frags, a, e, crc)
    {
      hide MkfsSound.AllWritten, MkfsSound.Written;
      hide Inv, Contents, Tiles, FileContents, AllInodes, ComprChoice.AllSound, ComprList.Compressors.Linked, Log;
      ghost var log := Contents(Log(), e);
      frags := [];
      NoFragments(e, a.ino, inflate);
      MkfsSound.NoneWritten(a, e, crc);
      var ver: nat, offset: nat, pos: nat := 0, 0, 0;
      var buf := ReadFile(content, pos, pageSize);
      while buf != []
        invariant pos + |buf| <= |content| && buf == content[pos..pos + |buf|] && (buf == [] <==> pos == |content|)
        invariant Inv() && list.Linked() && AllInodes(frags) && Tiles(frags, e, a.ino, inflate)
        invariant ver == |frags| <= offset == pos && (pos > 0 ==> frags != []) && MkfsSound.AllWritten(frags, a, e, crc)
        invariant FileContents(frags, e, inflate) == content[..pos] && Contents(Log(), e) == log + frags
        decreases |content| - pos
      {
        ghost var before := frags;
        ver, offset, frags := WriteBuffer(list, mode, a, buf, ver, offset, frags, inflate);
        assert content[..pos] + buf == content[..pos + |buf|];
        assert log + before + frags[|before|..] == log + frags;
        pos := pos + |buf|;
        buf := ReadFile(content, pos, pageSize);
      }
      assert content[..pos] == content;
      if ver == 0 {
        ghost var n := WriteEmpty(a, inflate);
        MkfsSound.AllWrittenMore([], n, a, e, crc);
        frags := [n];
      }
    }
  }

  // The node holds what was chosen, or without a choice `left` bytes of the data as they are.
  ghost predicate Stored(n: Node, dsize: nat, best: Option<ComprChoice.Cand>, data: seq<byte>, left: nat) {
    && |n| >= 68
    && if best.None? then n[56] == 0 && dsize == left <= |data| && n[68..] == data[..left]
       else
         && n[56] == best.value.id && dsize == best.value.taken
         && (best.value.id != 0 ==> n[68..] == best.value.code)
  }

  // What is chosen of the data, for which there is `room`, in each mode.
  ghost predicate StoredAs(n: Node, dsize: nat, mode: ComprChoice.Mode, entries: seq<ComprList.Entry>, data: seq<byte>,
                           room: nat)
    reads entries`disabled
  {
    match mode
    case Priority => Stored(n, dsize, ComprChoice.FirstMade(entries, data, room), data, room)
    case NoCompression => Stored(n, dsize, None, data, room)
    case UnknownMode => Stored(n, dsize, None, data, room)
    case _ =>
      Stored(n, dsize, ComprChoice.Choose(mode, ComprChoice.Cands(entries, data, room)), data,
             ComprChoice.LastLength(entries, data, room))
  }

  lemma ChoiceStored(n: Node, r: ComprChoice.Result, dsize: nat, mode: ComprChoice.Mode,
                     entries: seq<ComprList.Entry>, data: seq<byte>, room: nat, wbuf: seq<byte>)
    requires |n| >= 68 && n[56] == r.id && n[68..] == wbuf && dsize == r.datalen
    requires r.id == 0 ==> r.datalen == r.cdatalen <= |data|
    requires wbuf == if r.id != 0 then r.code else data[..r.cdatalen]
    requires mode.Priority? ==> ComprChoice.Reports(r, ComprChoice.FirstMade(entries, data, room), data, room)
    requires mode.Size? || mode.FavourLzo? ==>
               ComprChoice.Reports(r, ComprChoice.Choose(mode, ComprChoice.Cands(entries, data, room)), data,
                                   ComprChoice.LastLength(entries, data, room))
    requires mode.NoCompression? || mode.UnknownMode? ==> r == ComprChoice.Result(0, data, room, room)
    ensures StoredAs(n, dsize, mode, entries, data, room)
  {
    hide ComprChoice.Choose, ComprChoice.Cands, ComprChoice.FirstMade, ComprChoice.LastLength;
  }

  lemma NoFragments(e: Endian, ino: nat, inflate: (byte, seq<byte>, nat) -> seq<byte>)
    ensures AllInodes([]) && Tiles([], e, ino, inflate) && FileContents([], e, inflate) == []
  {
  }

  lemma StandsFacts(r: ComprChoice.Result, data: seq<byte>, room: nat, inflate: (byte, seq<byte>, nat) -> seq<byte>)
    requires ComprChoice.Stands(r, data, room, inflate)
    ensures 0 < r.datalen <= |data| && 0 < r.cdatalen <= room
    ensures r.id == 0 ==> r.datalen == r.cdatalen
    ensures r.id != 0 ==> |r.code| == r.cdatalen && inflate(r.id, r.code, r.datalen) == data[..r.datalen]
  {
  }

  lemma SaysWell(n: Node, e: Endian, ino: nat, version: nat, offset: nat, csize: nat, dsize: nat, compr: byte,
                 data: seq<byte>)
    requires Says(n, e, ino, version, offset, csize, dsize, compr, data)
    ensures WellNode(n, e) && !IsMarker(n, e) && |n| == RAW_INODE_SIZE + csize && n[56] == compr && n[68..] == data
  {
  }

  lemma PadAfter(ofs: nat, r: nat, n: nat, ebSize: nat)
    requires ofs % 4 == 0 && r % 4 == 0 && ebSize % 4 == 0 && r + n <= ebSize
    ensures Pad(ofs + n) == ofs + Pad(n) && r + Pad(n) <= ebSize
  {
    var a, b, c := ofs / 4, r / 4, ebSize / 4;
    Quarters(a, n + 3);
    assert ofs + n + 3 == 4 * a + (n + 3) && n <= 4 * (c - b);
  }

  lemma Quarters(a: nat, m: nat)
    ensures (4 * a + m) / 4 == a + m / 4
  {
  }

  lemma StepInBlock(ofs: nat, k: nat, ebSize: nat)
    requires 0 < ebSize && ofs % ebSize + k <= ebSize
    ensures (ofs + k) % ebSize == if ofs % ebSize + k == ebSize then 0 else ofs % ebSize + k
  {
    var q, r := ofs / ebSize, ofs % ebSize;
    assert ofs == q * ebSize + r;
    if r + k == ebSize {
      OneMore(q, ebSize);
      DivMod(ebSize, q + 1, 0);
    } else {
      DivMod(ebSize, q, r + k);
    }
  }
}
