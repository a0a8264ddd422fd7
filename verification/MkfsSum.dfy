/**
 An image of mkfs.jffs2 given to sumtool (external/mtd-utils/mkfs.jffs2.c, external/mtd-utils/sumtool.c): what sumtool
 takes from it is what mkfs.jffs2 wrote.
 */
module MkfsSum {
  import opened Arithmetic
  import opened Jffs2Format
  import opened Summary
  import opened BlockScan
  import opened MkfsImage
  import opened MkfsParse
  import EndianNodes
  import Sumtool

  // A node that sumtool can take: its checksums are right, and it fits an erase block beside its record, behind a
  // cleanmarker of `limit` bytes; or a cleanmarker of at most that size.
  ghost predicate Takeable(n: Node, e: Endian, crc: seq<byte> -> Word, limit: nat, ebSize: nat) {
    && WellNode(n, e) && Get32(n, 8, e) == crc(n[..8]) && Sumtool.Long(n, e)
    && (IsMarker(n, e) ==> Pad(|n|) <= limit)
    && (!IsMarker(n, e) ==>
          && ValidNode(n, e) && Sumtool.NodeSound(n, e, crc)
          && Sumtool.Fits(limit, |n|, RecSize(RecOf(n, e, 0)), ebSize))
  }

  ghost predicate AllTakeable(ns: seq<Node>, e: Endian, crc: seq<byte> -> Word, limit: nat, ebSize: nat) {
    forall n :: n in ns ==> Takeable(n, e, crc, limit, ebSize)
  }

  // A node in a block, as sumtool reads it.
  lemma ReadNode(b: seq<byte>, p: nat, n: Node, e: Endian)
    requires In(b, p, n) && WellNode(n, e)
    ensures 12 <= |n| && p + |n| <= |b| && Get16(b, p, e) == MAGIC_BITMASK && Get32(b, p + 4, e) == |n|
    ensures Sumtool.NodeAt(b, p, e) == n && Sumtool.Stride(b, p, e) == Pad(|n|)
    ensures Sumtool.IsData(n, e) <==> !IsMarker(n, e)
    ensures b[p..p + 2] + Put16(Accurate(Get16(b, p + 2, e)), e) + b[p + 4..p + 8] == n[..8]
    ensures Get32(b, p + 8, e) == Get32(n, 8, e)
  {
    hide *;
    ReadFields(b, p, n, e);
    EndianNodes.HalfBack(n, 2, e);
    Cuts(b, p, n);
    NodeParts(b, p, n, e);
    assert n == n[..2] + n[2..4] + n[4..] && n[..8] == n[..2] + n[2..4] + n[4..8];
  }

  lemma ReadFields(b: seq<byte>, p: nat, n: Node, e: Endian)
    requires In(b, p, n) && WellNode(n, e)
    ensures 12 <= |n| && p + |n| <= |b| && b[p..p + |n|] == n && Get16(b, p, e) == MAGIC_BITMASK
    ensures Get32(b, p + 4, e) == |n| && Get32(b, p + 8, e) == Get32(n, 8, e)
    ensures var t := Get16(n, 2, e); Get16(b, p + 2, e) == t && Accurate(t) == t && t != 0xffff
    ensures Sumtool.IsData(n, e) <==> !IsMarker(n, e)
  {
    FieldsOf(b, p, n, e);
    GetSlice(b, p, |n|, 8, e);
    hide Get16, Get32;
  }

  // (Unfolds the definitions.)
  lemma NodeParts(b: seq<byte>, p: nat, n: Node, e: Endian)
    requires 12 <= |n| && p + |n| <= |b| && Get32(b, p + 4, e) == |n| && Get16(b, p + 2, e) != 0xffff
    ensures Sumtool.NodeAt(b, p, e) ==
            b[p..p + 2] + Put16(Accurate(Get16(b, p + 2, e)), e) + b[p + 4..p + |n|]
    ensures Sumtool.Stride(b, p, e) == Pad(|n|)
  {
    hide Get16, Get32, Put16, Pad;
  }

  lemma Cuts(b: seq<byte>, p: nat, n: seq<byte>)
    requires p + |n| <= |b| && b[p..p + |n|] == n && |n| >= 12
    ensures b[p..p + 2] == n[..2] && b[p + 4..p + 8] == n[4..8] && b[p + 4..p + |n|] == n[4..]
  {
    SliceOf(b, p, |n|, 0, 2);
    SliceOf(b, p, |n|, 4, 4);
    SliceOf(b, p, |n|, 4, |n| - 4);
  }

  // One node is taken.
  lemma TakesNode(b: seq<byte>, p: nat, n: Node, e: Endian, crc: seq<byte> -> Word, limit: nat, ebSize: nat)
    requires In(b, p, n) && Takeable(n, e, crc, limit, ebSize)
    requires Sumtool.InputOk(b, p + Pad(|n|), e, crc, limit, ebSize)
    ensures Sumtool.InputOk(b, p, e, crc, limit, ebSize)
    ensures Sumtool.Taken(b, p, e, crc, limit, ebSize) ==
            (if IsMarker(n, e) then [] else [n]) + Sumtool.Taken(b, p + Pad(|n|), e, crc, limit, ebSize)
  {
    ReadNode(b, p, n, e);
    hide Get16, Get32, Put16, Pad, Sumtool.NodeSound, Sumtool.Long, Sumtool.Fits, ValidNode, RecOf, RecSize, WellNode,
         Sumtool.NodeAt, Sumtool.Stride, Sumtool.IsData, Accurate;
  }

  lemma TakesGap(b: seq<byte>, p: nat, e: Endian, crc: seq<byte> -> Word, limit: nat, ebSize: nat)
    requires p + 4 <= |b| && Get16(b, p, e) != MAGIC_BITMASK && Sumtool.InputOk(b, p + 4, e, crc, limit, ebSize)
    ensures Sumtool.InputOk(b, p, e, crc, limit, ebSize)
    ensures Sumtool.Taken(b, p, e, crc, limit, ebSize) == Sumtool.Taken(b, p + 4, e, crc, limit, ebSize)
  {
    hide Get16, Get32, Sumtool.NodeOk;
  }

  lemma TakesEnd(b: seq<byte>, p: nat, e: Endian, crc: seq<byte> -> Word, limit: nat, ebSize: nat)
    requires p >= |b|
    ensures Sumtool.InputOk(b, p, e, crc, limit, ebSize) && Sumtool.Taken(b, p, e, crc, limit, ebSize) == []
  {
  }

  lemma {:induction false} ContentsCat(a: seq<Node>, b: seq<Node>, e: Endian)
    ensures Contents(a + b, e) == Contents(a, e) + Contents(b, e)
    decreases |b|
  {
    if b == [] {
      assert a + b == a;
    } else {
      var n := b[|b| - 1];
      assert a + b == a + b[..|b| - 1] + [n] && b == b[..|b| - 1] + [n];
      hide Contents, IsMarker;
      ContentsNext(a + b[..|b| - 1], n, e);
      ContentsNext(b[..|b| - 1], n, e);
      ContentsCat(a, b[..|b| - 1], e);
    }
  }

  // The nodes of a block from the `k`th on.
  lemma ContentsFrom(ps: seq<Placed>, k: nat, e: Endian)
    requires k <= |ps|
    ensures Contents(NodesIn([]), e) == []
    ensures k < |ps| ==>
      Contents(NodesIn(ps[k..]), e) == (if IsMarker(ps[k].node, e) then [] else [ps[k].node])
        + Contents(NodesIn(ps[k + 1..]), e)
  {
    if k < |ps| {
      hide IsMarker;
      assert NodesIn(ps[k..]) == [ps[k].node] + NodesIn(ps[k + 1..]);
      ContentsCat([ps[k].node], NodesIn(ps[k + 1..]), e);
      ContentsNext([], ps[k].node, e);
      assert [] + [ps[k].node] == [ps[k].node];
    }
  }

  // Of a block, all nodes but the cleanmarkers are taken.
  lemma {:induction false} TakenFrom(b: seq<byte>, ps: seq<Placed>, e: Endian, crc: seq<byte> -> Word, limit: nat,
                                     ebSize: nat, p: nat, k: nat)
    requires Scanning(b, ps, e, p, k) && AllIn(b, ps, e) && k <= |ps|
    requires AllTakeable(NodesIn(ps), e, crc, limit, ebSize)
    ensures Sumtool.InputOk(b, p, e, crc, limit, ebSize)
    ensures Sumtool.Taken(b, p, e, crc, limit, ebSize) == Contents(NodesIn(ps[k..]), e)
    decreases |b| - p
  {
    hide *;
    ContentsFrom(ps, k, e);
    if p >= |b| {
      ScanEnds(b, ps, e, p, k);
      TakesEnd(b, p, e, crc, limit, ebSize);
      assert ps[k..] == [];
    } else {
      ScanGap(b, ps, e, p, k);
      if Get16(b, p, e) != MAGIC_BITMASK {
        TakenFrom(b, ps, e, crc, limit, ebSize, p + 4, k);
        TakesGap(b, p, e, crc, limit, ebSize);
      } else {
        ScanNode(b, ps, e, p, k);
        var n := ps[k].node;
        AtPlace(b, ps, e, k);
        OneTakeable(ps, e, crc, limit, ebSize, k);
        WellLength(n, e);
        TakenFrom(b, ps, e, crc, limit, ebSize, p + Pad(|n|), k + 1);
        TakesNode(b, p, n, e, crc, limit, ebSize);
      }
    }
  }

  // (Unfolds the definitions.)
  lemma AtPlace(b: seq<byte>, ps: seq<Placed>, e: Endian, k: nat)
    requires AllIn(b, ps, e) && k < |ps|
    ensures In(b, ps[k].at, ps[k].node) && WellNode(ps[k].node, e)
  {
  }

  lemma OneTakeable(ps: seq<Placed>, e: Endian, crc: seq<byte> -> Word, limit: nat, ebSize: nat, k: nat)
    requires AllTakeable(NodesIn(ps), e, crc, limit, ebSize) && k < |ps|
    ensures Takeable(ps[k].node, e, crc, limit, ebSize)
  {
    assert NodesIn(ps)[k] == ps[k].node;
  }

  lemma BlockTaken(b: seq<byte>, ps: seq<Placed>, e: Endian, crc: seq<byte> -> Word, limit: nat, ebSize: nat)
    requires Holds(b, ps, e) && AllTakeable(NodesIn(ps), e, crc, limit, ebSize)
    ensures Sumtool.InputOk(b, 0, e, crc, limit, ebSize)
    ensures Sumtool.Taken(b, 0, e, crc, limit, ebSize) == Contents(NodesIn(ps), e)
  {
    hide *;
    ScanStarts(b, ps, e);
    TakenFrom(b, ps, e, crc, limit, ebSize, 0, 0);
    assert ps[0..] == ps;
  }

  // The image as sumtool reads it, an erase block at a time.
  function Cut(image: seq<byte>, ebSize: nat): (blocks: seq<seq<byte>>)
    requires 0 < ebSize
    decreases |image|
  {
    if image == [] then [] else if |image| <= ebSize then [image] else [image[..ebSize]] + Cut(image[ebSize..], ebSize)
  }

  lemma {:induction false} CutSplit(x: seq<byte>, y: seq<byte>, ebSize: nat, n: nat)
    requires 0 < ebSize && |x| == n * ebSize
    ensures Cut(x + y, ebSize) == Cut(x, ebSize) + Cut(y, ebSize)
    decreases n
  {
    if n == 0 {
      assert x + y == y;
    } else {
      OneMore(n - 1, ebSize);
      CutSplit(x[ebSize..], y, ebSize, n - 1);
      var x', z := x[ebSize..], x + y;
      assert z[..ebSize] == x[..ebSize] && z[ebSize..] == x' + y;
      if x' == [] {
        assert x[..ebSize] == x && x' + y == y && Cut(x', ebSize) == [];
        if y == [] { assert z == x; }
      }
    }
  }

  lemma CutOne(b: seq<byte>, ebSize: nat)
    requires 0 < ebSize && |b| <= ebSize
    ensures Cut(b, ebSize) == if b == [] then [] else [b]
  {
  }

  lemma {:induction false} CutBlocks(blocks: seq<Full>, rest: seq<byte>, e: Endian, ebSize: nat)
    requires 0 < ebSize && AllHold(blocks, e, ebSize) && |rest| < ebSize
    ensures |Cut(Joined(blocks), ebSize)| == |blocks|
    ensures forall i :: 0 <= i < |blocks| ==> Cut(Joined(blocks), ebSize)[i] == blocks[i].bytes
    ensures Cut(Joined(blocks) + rest, ebSize) == Cut(Joined(blocks), ebSize) + if rest == [] then [] else [rest]
    decreases |blocks|
  {
    hide *;
    JoinedSize(blocks, e, ebSize);
    CutSplit(Joined(blocks), rest, ebSize, |blocks|);
    CutOne(rest, ebSize);
    if blocks == [] {
      NoneJoined();
      CutOne([], ebSize);
    } else {
      var n := |blocks| - 1;
      AllHoldFront(blocks, e, ebSize);
      JoinedLast(blocks);
      JoinedSize(blocks[..n], e, ebSize);
      CutBlocks(blocks[..n], [], e, ebSize);
      CutSplit(Joined(blocks[..n]), blocks[n].bytes, ebSize, n);
      CutOne(blocks[n].bytes, ebSize);
    }
  }

  // The blocks that are full.
  lemma {:induction false} BlocksTaken(blocks: seq<Full>, e: Endian, crc: seq<byte> -> Word, limit: nat, ebSize: nat)
    requires 0 < ebSize && AllHold(blocks, e, ebSize) && AllTakeable(NodesOf(blocks), e, crc, limit, ebSize)
    ensures var inputs := Cut(Joined(blocks), ebSize);
      && Sumtool.ReadsOk(inputs, e, crc, limit, ebSize)
      && Sumtool.TakenOf(inputs, e, crc, limit, ebSize) == Contents(NodesOf(blocks), e)
    decreases |blocks|
  {
    hide *;
    CutBlocks(blocks, [], e, ebSize);
    var inputs := Cut(Joined(blocks), ebSize);
    if blocks == [] {
      NoneTaken(inputs, e, crc, limit, ebSize);
    } else {
      var n := |blocks| - 1;
      AllHoldFront(blocks, e, ebSize);
      HoldsAt(blocks, e, ebSize, n);
      CutBlocks(blocks[..n], [], e, ebSize);
      NodesFront(blocks);
      TakeableParts(NodesOf(blocks[..n]), NodesIn(blocks[n].placed), e, crc, limit, ebSize);
      BlocksTaken(blocks[..n], e, crc, limit, ebSize);
      BlockTaken(blocks[n].bytes, blocks[n].placed, e, crc, limit, ebSize);
      assert inputs[..n] == Cut(Joined(blocks[..n]), ebSize);
      TakenNext(inputs, e, crc, limit, ebSize);
      ContentsCat(NodesOf(blocks[..n]), NodesIn(blocks[n].placed), e);
    }
  }

  // (Unfolds the definitions.)
  lemma NoneTaken(inputs: seq<seq<byte>>, e: Endian, crc: seq<byte> -> Word, limit: nat, ebSize: nat)
    ensures inputs == [] ==>
      Sumtool.ReadsOk(inputs, e, crc, limit, ebSize) && Sumtool.TakenOf(inputs, e, crc, limit, ebSize) == []
    ensures NodesOf([]) == [] && Contents([], e) == []
  {
  }

  lemma TakeableParts(a: seq<Node>, b: seq<Node>, e: Endian, crc: seq<byte> -> Word, limit: nat, ebSize: nat)
    requires AllTakeable(a + b, e, crc, limit, ebSize)
    ensures AllTakeable(a, e, crc, limit, ebSize) && AllTakeable(b, e, crc, limit, ebSize)
  {
    hide Takeable;
  }

  lemma TakenNext(inputs: seq<seq<byte>>, e: Endian, crc: seq<byte> -> Word, limit: nat, ebSize: nat)
    requires inputs != [] && Sumtool.ReadsOk(inputs[..|inputs| - 1], e, crc, limit, ebSize)
    requires Sumtool.InputOk(inputs[|inputs| - 1], 0, e, crc, limit, ebSize)
    ensures Sumtool.ReadsOk(inputs, e, crc, limit, ebSize)
    ensures Sumtool.TakenOf(inputs, e, crc, limit, ebSize) ==
            Sumtool.TakenOf(inputs[..|inputs| - 1], e, crc, limit, ebSize)
            + Sumtool.Taken(inputs[|inputs| - 1], 0, e, crc, limit, ebSize)
  {
    hide Sumtool.InputOk, Sumtool.Taken;
  }

  // If the contents can be taken, and the cleanmarker is not too long, all nodes can be taken.
  lemma LogTakeable(w: ImageWriter, limit: nat)
    requires w.Inv() && AllTakeable(Contents(w.Log(), w.e), w.e, w.crc, limit, w.ebSize)
    requires Pad(w.cleanmarkerSize) <= limit
    ensures AllTakeable(w.Log(), w.e, w.crc, limit, w.ebSize)
  {
    WrittenIs(w);
    MarkerTakeable(w, limit);
    hide Takeable, ImageWriter.Inv, ImageWriter.HasMarker, WellNode, Contents, Pad, IsMarker;
    forall n | n in w.Log() ensures Takeable(n, w.e, w.crc, limit, w.ebSize) {
      if IsMarker(n, w.e) {
        assert n == w.Marker();
      } else {
        ContentsHas(w.Log(), w.e, n);
      }
    }
  }

  lemma MarkerTakeable(w: ImageWriter, limit: nat)
    requires w.HasMarker() && Pad(w.cleanmarkerSize) <= limit
    ensures Takeable(w.Marker(), w.e, w.crc, limit, w.ebSize)
  {
    hide Get16, Get32, Pad;
  }

  // From what `w` wrote, sumtool takes all nodes but the cleanmarkers, in order.
  lemma ImageTaken(w: ImageWriter, limit: nat)
    requires w.Inv() && AllTakeable(Contents(w.Log(), w.e), w.e, w.crc, limit, w.ebSize)
    requires Pad(w.cleanmarkerSize) <= limit
    ensures 0 < w.ebSize
    ensures var inputs := Cut(w.out, w.ebSize);
      && Sumtool.ReadsOk(inputs, w.e, w.crc, limit, w.ebSize)
      && Sumtool.TakenOf(inputs, w.e, w.crc, limit, w.ebSize) == Contents(w.Log(), w.e)
  {
    hide *;
    WrittenIs(w);
    LogTakeable(w, limit);
    LaidSize(w.out, w.blocks, w.rest, w.cur, w.e, w.ebSize);
    TakeableParts(NodesOf(w.blocks), NodesIn(w.cur), w.e, w.crc, limit, w.ebSize);
    BlocksTaken(w.blocks, w.e, w.crc, limit, w.ebSize);
    CutBlocks(w.blocks, w.rest, w.e, w.ebSize);
    ContentsCat(NodesOf(w.blocks), NodesIn(w.cur), w.e);
    var inputs := Cut(w.out, w.ebSize);
    if w.rest == [] {
      NoPlaces(w.out, w.blocks, w.cur, w.e, w.ebSize);
      NoneTaken([], w.e, w.crc, limit, w.ebSize);
      assert NodesIn(w.cur) == [];
      assert inputs == Cut(Joined(w.blocks), w.ebSize);
    } else {
      BlockTaken(w.rest, w.cur, w.e, w.crc, limit, w.ebSize);
      assert inputs[..|inputs| - 1] == Cut(Joined(w.blocks), w.ebSize);
      TakenNext(inputs, w.e, w.crc, limit, w.ebSize);
    }
  }

  // mkfs.jffs2, then sumtool: every node that was written is in the summed image, in order and once, and no other.
  method SumMkfsImage(w: ImageWriter, tool: Sumtool.Sumtool, ghost limit: nat) returns (ghost last: Sumtool.Written)
    requires w.Inv() && AllTakeable(Contents(w.Log(), w.e), w.e, w.crc, limit, w.ebSize)
    requires Pad(w.cleanmarkerSize) <= limit
    requires tool.Ready(limit) && tool.AllNodes() == []
    requires tool.ebSize == w.ebSize && tool.e == w.e && tool.crc == w.crc
    requires tool.foundCleanmarkers || !tool.addCleanmarkers
    modifies tool, tool.dataBuffer
    ensures tool.Complete(last)
    ensures Sumtool.NodesOf(tool.blocks) + last.nodes == old(Contents(w.Log(), w.e))
  {
    hide *;
    ImageTaken(w, limit);
    var inputs := Cut(w.out, w.ebSize);
    last := tool.SumImage(inputs, limit);
  }
}
