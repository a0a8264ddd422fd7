/**
 sumtool (external/mtd-utils/sumtool.c): nodes are copied into new erase blocks, each of which
 ends in a summary of the nodes it holds.
 */
module Sumtool {
  import opened Jffs2Format
  import opened Summary

  // The summary node's header, before and with the checksums that cover other parts.
  function Unsealed(infosize: Word, hdrCrc: Word, num: Word, clnMkr: Word, e: Endian): (b: seq<byte>)
    ensures |b| == 24
  {
    Put16(MAGIC_BITMASK, e) + Put16(NODETYPE_SUMMARY, e) + Put32(infosize, e) + Put32(hdrCrc, e) + Put32(num, e)
    + Put32(clnMkr, e) + Put32(0, e)
  }

  // The bytes from the summary node to the end of the block.
  function SummaryBytes(recs: seq<Record>, ofs: Word, infosize: Word, clnMkr: Word, crc: seq<byte> -> Word,
                        e: Endian): (b: seq<byte>)
    requires AllInRange(recs) && |recs| <= UINT32_MAX
    requires TotalSize(recs) + RAW_SUMMARY_SIZE + SUM_MARKER_SIZE <= infosize
    ensures |b| == infosize
  {
    var body := SummaryBody(recs, ofs, infosize, e);
    var head := Unsealed(infosize, crc(NodeStart(NODETYPE_SUMMARY, infosize, e)), |recs|, clnMkr, e);
    head + Put32(crc(body), e) + Put32(crc(head), e) + body
  }

  function SummaryBody(recs: seq<Record>, ofs: Word, infosize: Word, e: Endian): (b: seq<byte>)
    requires AllInRange(recs) && TotalSize(recs) + RAW_SUMMARY_SIZE + SUM_MARKER_SIZE <= infosize
    ensures |b| == infosize - RAW_SUMMARY_SIZE
  {
    var padsize := infosize - RAW_SUMMARY_SIZE - SUM_MARKER_SIZE - TotalSize(recs);
    RecsBytes(recs, e) + Ones(padsize) + Put32(ofs, e) + Put32(SUM_MAGIC, e)
  }

  // The checksums in the summary node at `m`.
  ghost predicate Sealed(b: seq<byte>, m: nat, crc: seq<byte> -> Word, e: Endian) {
    && m + RAW_SUMMARY_SIZE <= |b|
    && Get32(b, m + 8, e) == crc(b[m..m + 8]) && Get32(b, m + 24, e) == crc(b[m + 32..])
    && Get32(b, m + 28, e) == crc(b[m..m + 24])
  }

  // What is in the buffer: perhaps a cleanmarker, `base` bytes long, then the nodes; the
  // records are theirs, and there is room for a summary.
  ghost predicate InBuffer(data: seq<byte>, base: nat, nodes: seq<Node>, recs: seq<Record>, sumSize: nat, sumNum: nat,
                           e: Endian, ebSize: nat) {
    && AllValid(nodes, e) && base <= |data| && data[base..] == Layout(nodes) && |data| % 4 == 0
    && recs == RecsOf(nodes, e, base) && sumSize == SizeOf(nodes, e) && sumNum == |nodes|
    && Room(|data|, sumSize, sumNum, ebSize)
  }

  // Behind `ofs` bytes there is room for a summary with `num` records of `sumSize` bytes. A record is at least 16 bytes
  // shorter than its padded node, and has at most 279.
  ghost predicate Room(ofs: nat, sumSize: nat, num: nat, ebSize: nat) {
    && 0x2000 <= ebSize < 0x8000_0000 && ofs + Pad(sumSize + RAW_SUMMARY_SIZE + SUM_MARKER_SIZE) <= ebSize
    && sumSize + 16 * num <= ofs && sumSize <= 279 * num && sumSize <= MostRecords(ebSize)
  }

  // As the check before a node leaves room for the node twice, the records never take more than about half a block.
  function MostRecords(ebSize: nat): nat {
    if ebSize < 8193 then 3934 else (ebSize - 325) / 2
  }

  lemma HeadParts(infosize: Word, hdrCrc: Word, num: Word, clnMkr: Word, e: Endian)
    ensures Unsealed(infosize, hdrCrc, num, clnMkr, e) ==
            NodeStart(NODETYPE_SUMMARY, infosize, e) + (Put32(hdrCrc, e)
                                                        + (Put32(num, e) + (Put32(clnMkr, e) + Put32(0, e))))
  {
    hide Put16, Put32;
  }

  lemma HeadFields(b: seq<byte>, m: nat, infosize: Word, hdrCrc: Word, num: Word, clnMkr: Word, e: Endian)
    requires In(b, m, Unsealed(infosize, hdrCrc, num, clnMkr, e))
    ensures m + 24 <= |b| && Get16(b, m, e) == MAGIC_BITMASK && Get16(b, m + 2, e) == NODETYPE_SUMMARY
    ensures Get32(b, m + 4, e) == infosize
    ensures Get32(b, m + 8, e) == hdrCrc && Get32(b, m + 12, e) == num
    ensures Get32(b, m + 16, e) == clnMkr && Get32(b, m + 20, e) == 0
    ensures b[m..m + 8] == NodeStart(NODETYPE_SUMMARY, infosize, e)
    ensures b[m..m + 24] == Unsealed(infosize, hdrCrc, num, clnMkr, e)
  {
    assert b[m..m + 24] == Unsealed(infosize, hdrCrc, num, clnMkr, e);
    HeadParts(infosize, hdrCrc, num, clnMkr, e);
    hide Put16, Put32, Get16, Get32, In, Unsealed, NodeStart;
    var last := Put32(clnMkr, e) + Put32(0, e);
    InParts(b, m, NodeStart(NODETYPE_SUMMARY, infosize, e), Put32(hdrCrc, e) + (Put32(num, e) + last));
    InParts(b, m + 8, Put32(hdrCrc, e), Put32(num, e) + last);
    InParts(b, m + 12, Put32(num, e), last);
    StartFields(b, m, NODETYPE_SUMMARY, infosize, e);
    WordIn(b, m + 8, hdrCrc, e);
    WordIn(b, m + 12, num, e);
    InParts(b, m + 16, Put32(clnMkr, e), Put32(0, e));
    WordIn(b, m + 16, clnMkr, e);
    WordIn(b, m + 20, 0, e);
  }

  lemma BodyFields(b: seq<byte>, p: nat, recs: seq<Record>, ofs: Word, infosize: Word, e: Endian)
    requires AllInRange(recs) && TotalSize(recs) + RAW_SUMMARY_SIZE + SUM_MARKER_SIZE <= infosize
    requires In(b, p, SummaryBody(recs, ofs, infosize, e)) && p + infosize - RAW_SUMMARY_SIZE == |b|
    ensures In(b, p, RecsBytes(recs, e)) && Get32(b, |b| - 8, e) == ofs && Get32(b, |b| - 4, e) == SUM_MAGIC
    ensures b[p..] == SummaryBody(recs, ofs, infosize, e)
  {
    hide AllInRange, TotalSize, RecsBytes, Put32, Get32, Ones, In, SummaryBody;
    InToEnd(b, p, SummaryBody(recs, ofs, infosize, e));
    var ones := Ones(infosize - RAW_SUMMARY_SIZE - SUM_MARKER_SIZE - TotalSize(recs));
    BodyParts(recs, ofs, infosize, e);
    InParts(b, p, RecsBytes(recs, e), ones + (Put32(ofs, e) + Put32(SUM_MAGIC, e)));
    InParts(b, p + TotalSize(recs), ones, Put32(ofs, e) + Put32(SUM_MAGIC, e));
    InParts(b, |b| - 8, Put32(ofs, e), Put32(SUM_MAGIC, e));
    WordIn(b, |b| - 8, ofs, e);
    WordIn(b, |b| - 4, SUM_MAGIC, e);
  }

  lemma BodyParts(recs: seq<Record>, ofs: Word, infosize: Word, e: Endian)
    requires AllInRange(recs) && TotalSize(recs) + RAW_SUMMARY_SIZE + SUM_MARKER_SIZE <= infosize
    ensures SummaryBody(recs, ofs, infosize, e) ==
            RecsBytes(recs, e) + (Ones(infosize - RAW_SUMMARY_SIZE - SUM_MARKER_SIZE - TotalSize(recs))
                                  + (Put32(ofs, e) + Put32(SUM_MAGIC, e)))
  {
    hide AllInRange, TotalSize, RecsBytes, Put32, Ones;
  }

  lemma InToEnd(b: seq<byte>, p: nat, part: seq<byte>)
    requires In(b, p, part) && p + |part| == |b|
    ensures b[p..] == part
  {
    assert b[p..] == b[p..|b|];
  }

  lemma {:induction false} CountFits(recs: seq<Record>)
    ensures 6 * |recs| <= TotalSize(recs)
    decreases |recs|
  {
    if recs != [] {
      CountFits(recs[..|recs| - 1]);
    }
  }

  lemma RecsFit(data: seq<byte>, base: nat, nodes: seq<Node>, recs: seq<Record>, sumSize: nat, sumNum: nat, e: Endian,
                ebSize: nat)
    requires InBuffer(data, base, nodes, recs, sumSize, sumNum, e, ebSize)
    ensures AllInRange(recs) && |recs| <= UINT32_MAX && TotalSize(recs) == sumSize && |recs| == sumNum == |nodes|
    ensures AllValid(nodes, e)
    ensures sumSize + RAW_SUMMARY_SIZE + SUM_MARKER_SIZE <= ebSize - |data| <= UINT32_MAX
    ensures ebSize <= UINT32_MAX
    ensures base + |Layout(nodes)| == |data| <= UINT32_MAX && In(data, base, Layout(nodes))
    ensures recs == RecsOf(nodes, e, base)
  {
    SizesAgree(nodes, e, base);
    CountFits(recs);
  }

  // The summary fills the block up and describes its nodes.
  lemma BlockSummarised(data: seq<byte>, base: nat, nodes: seq<Node>, recs: seq<Record>, sumSize: nat, sumNum: nat,
                        e: Endian, ebSize: nat, clnMkr: Word, crc: seq<byte> -> Word)
    requires InBuffer(data, base, nodes, recs, sumSize, sumNum, e, ebSize)
    ensures AllInRange(recs) && |recs| <= UINT32_MAX && TotalSize(recs) == sumSize && |recs| == sumNum
    ensures sumSize + RAW_SUMMARY_SIZE + SUM_MARKER_SIZE <= ebSize - |data| <= UINT32_MAX
    ensures var b := data + SummaryBytes(recs, |data|, ebSize - |data|, clnMkr, crc, e);
      && |b| == ebSize && Summarised(b, e, nodes) && Sealed(b, |data|, crc, e) && Get32(b, ebSize - 8, e) == |data|
      && Get32(b, |data| + 16, e) == clnMkr && Get32(b, |data| + 20, e) == 0
  {
    hide InBuffer, SummaryBytes, SummaryBody, Unsealed, NodeStart, Summarised, Sealed, In, RecordsAt, RecsOf,
         RecsBytes, Layout;
    hide AllValid, AllInRange, TotalSize, Get16, Get32, Put16, Put32;
    RecsFit(data, base, nodes, recs, sumSize, sumNum, e, ebSize);
    var m, infosize := |data|, ebSize - |data|;
    var start := NodeStart(NODETYPE_SUMMARY, infosize, e);
    var b := data + SummaryBytes(recs, m, infosize, clnMkr, crc, e);
    InWhole(data, SummaryBytes(recs, m, infosize, clnMkr, crc, e), base, Layout(nodes));
    SummaryParts(b, m, recs, m, infosize, clnMkr, crc, e);
    HeadFields(b, m, infosize, crc(start), |recs|, clnMkr, e);
    BodyFields(b, m + 32, recs, m, infosize, e);
    RecordsDescribe(b, m + 32, e, nodes, base);
    IsSummarised(b, e, nodes, m, crc);
  }

  lemma SummaryParts(b: seq<byte>, m: nat, recs: seq<Record>, ofs: Word, infosize: Word, clnMkr: Word,
                     crc: seq<byte> -> Word, e: Endian)
    requires AllInRange(recs) && |recs| <= UINT32_MAX
    requires TotalSize(recs) + RAW_SUMMARY_SIZE + SUM_MARKER_SIZE <= infosize
    requires In(b, m, SummaryBytes(recs, ofs, infosize, clnMkr, crc, e)) && m + infosize == |b|
    ensures var head := Unsealed(infosize, crc(NodeStart(NODETYPE_SUMMARY, infosize, e)), |recs|, clnMkr, e);
      && In(b, m, head) && In(b, m + 32, SummaryBody(recs, ofs, infosize, e)) && m + 32 <= |b|
      && Get32(b, m + 24, e) == crc(SummaryBody(recs, ofs, infosize, e)) && Get32(b, m + 28, e) == crc(head)
  {
    var body := SummaryBody(recs, ofs, infosize, e);
    var head := Unsealed(infosize, crc(NodeStart(NODETYPE_SUMMARY, infosize, e)), |recs|, clnMkr, e);
    hide SummaryBody, Unsealed, NodeStart, Put32, Get32, In, AllInRange;
    InParts(b, m, head + Put32(crc(body), e) + Put32(crc(head), e), body);
    InParts(b, m, head + Put32(crc(body), e), Put32(crc(head), e));
    InParts(b, m, head, Put32(crc(body), e));
    WordIn(b, m + 24, crc(body), e);
    WordIn(b, m + 28, crc(head), e);
  }

  lemma IsSummarised(b: seq<byte>, e: Endian, nodes: seq<Node>, m: nat, crc: seq<byte> -> Word)
    requires m + RAW_SUMMARY_SIZE + SUM_MARKER_SIZE <= |b| && AllValid(nodes, e)
    requires RecordsAt(b, m + RAW_SUMMARY_SIZE, e, nodes)
    requires Get32(b, |b| - 4, e) == SUM_MAGIC && Get32(b, |b| - 8, e) == m
    requires Get16(b, m, e) == MAGIC_BITMASK && Get16(b, m + 2, e) == NODETYPE_SUMMARY && Get32(b, m + 4, e) == |b| - m
    requires Get32(b, m + 12, e) == |nodes|
    requires Get32(b, m + 8, e) == crc(b[m..m + 8]) && Get32(b, m + 24, e) == crc(b[m + 32..])
    requires Get32(b, m + 28, e) == crc(b[m..m + 24])
    ensures Summarised(b, e, nodes) && Sealed(b, m, crc, e)
  {
    hide RecordsAt, Get16, Get32, AllValid;
  }

  lemma InWhole(x: seq<byte>, y: seq<byte>, o: nat, part: seq<byte>)
    requires In(x, o, part)
    ensures In(x + y, o, part) && In(x + y, |x|, y)
  {
    assert (x + y)[o..o + |part|] == x[o..o + |part|];
  }

  function Need(req: nat, plus: nat, sumSize: nat): nat {
    Pad(req + plus + sumSize + RAW_SUMMARY_SIZE + SUM_MARKER_SIZE)
  }

  lemma NeedIs(req: nat, plus: nat, sumSize: nat)
    ensures Need(req, plus, sumSize) == Pad(req + plus + sumSize + RAW_SUMMARY_SIZE + SUM_MARKER_SIZE)
  {
  }

  lemma PadSum(a: nat, n: nat)
    requires a % 4 == 0
    ensures Pad(a + n) == a + Pad(n)
  {
  }

  lemma PadForm(n: nat)
    ensures n + (4 - n % 4) % 4 == Pad(n)
  {
  }

  // Conversion to `unsigned int`.
  function Unsigned(x: int): nat {
    x % 0x1_0000_0000
  }

  // A node and its record fit an empty block after the cleanmarker, and the size of the node, its record and whatever
  // other records a block can have does not exceed the block, so that nothing wraps around.
  ghost predicate Fits(marker: nat, req: nat, plus: nat, ebSize: nat) {
    && marker + Pad(req) + Pad(plus + RAW_SUMMARY_SIZE + SUM_MARKER_SIZE) <= ebSize
    && Need(req, plus, MostRecords(ebSize)) <= ebSize
  }

  // The sizes of a node and its record.
  ghost predicate Sizes(req: nat, plus: nat) {
    && 12 <= req && plus + 16 <= Pad(req) && plus + 48 <= 2 * req && (plus > 18 ==> plus + 16 <= req) && plus <= 279
  }

  lemma RecordSizes(n: Node, e: Endian)
    requires ValidNode(n, e)
    ensures Sizes(|n|, RecSize(RecOf(n, e, 0)))
  {
    hide Get32;
  }

  // That is so of every node that passes the check of an empty block.
  lemma CheckedFits(marker: nat, req: nat, plus: nat, ebSize: nat)
    requires 0x2000 <= ebSize && marker + req <= ebSize - Need(req, plus, 0) && Sizes(req, plus)
    ensures Fits(marker, req, plus, ebSize)
  {
    assert 2 * req + plus + 40 <= ebSize;
  }

  // The comparison in `pad_block_if_less_than` does not wrap around.
  lemma NoWrap(ofs: nat, sumSize: nat, num: nat, marker: nat, req: nat, plus: nat, ebSize: nat)
    requires Room(ofs, sumSize, num, ebSize) && Fits(marker, req, plus, ebSize)
    ensures Unsigned(ofs + req) == ofs + req
    ensures Unsigned(ebSize - Need(req, plus, sumSize)) == ebSize - Need(req, plus, sumSize)
  {
    hide MostRecords, Pad, Unsigned;
    PadOrder(req + plus + sumSize + 40, req + plus + MostRecords(ebSize) + 40);
    UnsignedIs(ofs + req);
    UnsignedIs(ebSize - Need(req, plus, sumSize));
  }

  lemma PadOrder(a: nat, b: nat)
    requires a <= b
    ensures Pad(a) <= Pad(b)
  {
  }

  // After the check there is room for the node and its record, and then still for the summary.
  lemma RoomFor(ofs: nat, sumSize: nat, num: nat, req: nat, plus: nat, ebSize: nat)
    requires Room(ofs, sumSize, num, ebSize) && ofs + req <= ebSize - Need(req, plus, sumSize) && Sizes(req, plus)
    ensures Room(ofs + Pad(req), sumSize + plus, num + 1, ebSize) && ofs + Pad(req) + 40 <= ebSize
  {
    assert ofs + 2 * req + plus + sumSize + 40 <= ebSize;
    if num >= 15 {
      assert 2 * (sumSize + plus) + 325 <= ebSize;
    } else if num == 14 && plus >= 29 {
      assert 2 * (sumSize + plus) + 325 <= ebSize;
    } else {
      assert sumSize + plus <= 3934;
    }
  }

  // In any state, and for any node that fits an empty block, the check does what it is for, to flush the buffer or to
  // find that there is room, exactly if the size it computes for the summary is not beyond the block.
  lemma CheckIsRight(ofs: nat, sumSize: nat, num: nat, req: nat, plus: nat, ebSize: nat)
    requires Room(ofs, sumSize, num, ebSize) && Sizes(req, plus)
    requires Pad(req) + Pad(plus + RAW_SUMMARY_SIZE + SUM_MARKER_SIZE) <= ebSize
    ensures Need(req, plus, sumSize) <= ebSize <==>
            Unsigned(ofs + req) > Unsigned(ebSize - Need(req, plus, sumSize))
            || Room(ofs + Pad(req), sumSize + plus, num + 1, ebSize)
  {
    hide MostRecords, Sizes, Unsigned;
    NeedBounds(ofs, sumSize, num, req, plus, ebSize);
    if Need(req, plus, sumSize) <= ebSize {
      UnsignedIs(ofs + req);
      UnsignedIs(ebSize - Need(req, plus, sumSize));
      if ofs + req <= ebSize - Need(req, plus, sumSize) {
        RoomFor(ofs, sumSize, num, req, plus, ebSize);
      }
    } else {
      UnsignedIs(ofs + req);
      UnsignedIs(ebSize - Need(req, plus, sumSize));
    }
  }

  lemma UnsignedIs(x: int)
    ensures 0 <= x < 0x1_0000_0000 ==> Unsigned(x) == x
    ensures -0x1_0000_0000 <= x < 0 ==> Unsigned(x) == x + 0x1_0000_0000
  {
  }

  lemma NeedBounds(ofs: nat, sumSize: nat, num: nat, req: nat, plus: nat, ebSize: nat)
    requires Room(ofs, sumSize, num, ebSize)
    requires Pad(req) + Pad(plus + RAW_SUMMARY_SIZE + SUM_MARKER_SIZE) <= ebSize
    ensures ofs + req + sumSize + 40 <= 2 * ebSize && Need(req, plus, sumSize) <= ebSize + sumSize + 3
    ensures Need(req, plus, sumSize) <= Pad(req) + Pad(sumSize + plus + RAW_SUMMARY_SIZE + SUM_MARKER_SIZE)
    ensures Need(req, plus, sumSize) > ebSize ==> ofs > 0
  {
    PadSplit(req, sumSize + plus + 40);
    PadSplit(req, plus + 40);
    hide Pad, MostRecords;
  }

  lemma PadSplit(a: nat, b: nat)
    ensures Pad(a + b) <= Pad(a) + Pad(b)
  {
  }

  lemma RoomAfterMarker(marker: nat, req: nat, plus: nat, ebSize: nat)
    requires 0x2000 <= ebSize < 0x8000_0000 && Fits(marker, req, plus, ebSize) && Sizes(req, plus)
    ensures Room(marker, 0, 0, ebSize) && Room(marker + Pad(req), plus, 1, ebSize)
    ensures marker + Pad(req) + 40 <= ebSize
  {
  }

  // A block that was written with a summary, and the nodes it holds after `base` bytes of cleanmarker; `cln` is the
  // size of cleanmarkers that the summary says.
  datatype Written = Written(bytes: seq<byte>, nodes: seq<Node>, base: nat, cln: nat)

  ghost predicate GoodBlock(w: Written, e: Endian, ebSize: nat, crc: seq<byte> -> Word) {
    && |w.bytes| == ebSize && Summarised(w.bytes, e, w.nodes) && In(w.bytes, w.base, Layout(w.nodes))
    && Get32(w.bytes, ebSize - 8, e) == w.base + |Layout(w.nodes)|
    && Sealed(w.bytes, w.base + |Layout(w.nodes)|, crc, e)
    && Get32(w.bytes, w.base + |Layout(w.nodes)| + 16, e) == w.cln
    && Get32(w.bytes, w.base + |Layout(w.nodes)| + 20, e) == 0
  }

  // The header of a cleanmarker of `size` bytes, and all of it, up to a multiple of four.
  function MarkerHead(size: Word, e: Endian, crc: seq<byte> -> Word): (b: seq<byte>)
    ensures |b| == UNKNOWN_NODE_SIZE
  {
    var start := NodeStart(NODETYPE_CLEANMARKER, size, e);
    start + Put32(crc(start), e)
  }

  function MarkerBytes(size: Word, e: Endian, crc: seq<byte> -> Word): (b: seq<byte>)
    requires UNKNOWN_NODE_SIZE <= size
    ensures |b| == Pad(size)
  {
    MarkerHead(size, e, crc) + Ones(Pad(size) - UNKNOWN_NODE_SIZE)
  }

  // (Unfolds the definition.)
  lemma HeadIs(size: Word, e: Endian, crc: seq<byte> -> Word)
    ensures MarkerHead(size, e, crc) ==
            NodeStart(NODETYPE_CLEANMARKER, size, e) + Put32(crc(NodeStart(NODETYPE_CLEANMARKER, size, e)), e)
  {
  }

  // What a reader finds there.
  lemma MarkerReads(size: Word, e: Endian, crc: seq<byte> -> Word)
    requires UNKNOWN_NODE_SIZE <= size
    ensures var b := MarkerBytes(size, e, crc);
      && Get16(b, 0, e) == MAGIC_BITMASK && Get16(b, 2, e) == NODETYPE_CLEANMARKER && Get32(b, 4, e) == size
      && Get32(b, 8, e) == crc(b[..8]) && forall i :: 12 <= i < |b| ==> b[i] == 0xff
  {
    var start, b := NodeStart(NODETYPE_CLEANMARKER, size, e), MarkerBytes(size, e, crc);
    var ones := Ones(Pad(size) - UNKNOWN_NODE_SIZE);
    hide NodeStart, Put32, Get16, Get32, Pad;
    assert b == start + (Put32(crc(start), e) + ones) && b[0..|b|] == b;
    InParts(b, 0, start, Put32(crc(start), e) + ones);
    InParts(b, 8, Put32(crc(start), e), ones);
    StartFields(b, 0, NODETYPE_CLEANMARKER, size, e);
    WordIn(b, 8, crc(start), e);
    assert b[..8] == b[0..8] == start;
  }

  // The first `base` bytes are a cleanmarker.
  ghost predicate Begins(b: seq<byte>, base: nat, marked: bool, size: nat, e: Endian, crc: seq<byte> -> Word) {
    && base <= |b|
    && (base > 0 ==> marked && UNKNOWN_NODE_SIZE <= size <= UINT32_MAX && b[..base] == MarkerBytes(size, e, crc))
  }

  // So it is with all blocks, and the summary of such a block says the size.
  ghost predicate AllBegin(ws: seq<Written>, marked: bool, size: nat, e: Endian, crc: seq<byte> -> Word) {
    forall i :: 0 <= i < |ws| ==>
      && Begins(ws[i].bytes, ws[i].base, marked, size, e, crc)
      && (if ws[i].base > 0 then ws[i].cln == size else ws[i].cln == 0 || (marked && ws[i].cln == size))
  }

  lemma BeginsLonger(b: seq<byte>, x: seq<byte>, base: nat, marked: bool, size: nat, e: Endian, crc: seq<byte> -> Word)
    requires Begins(b, base, marked, size, e, crc)
    ensures Begins(b + x, base, marked, size, e, crc)
  {
    assert base > 0 ==> (b + x)[..base] == b[..base];
    hide MarkerBytes;
  }

  lemma NoMarker(marked: bool, size: nat, e: Endian, crc: seq<byte> -> Word)
    ensures Begins([], 0, marked, size, e, crc)
  {
  }

  lemma AllBeginNext(ws: seq<Written>, w: Written, marked: bool, size: nat, e: Endian, crc: seq<byte> -> Word)
    requires AllBegin(ws, marked, size, e, crc) && Begins(w.bytes, w.base, marked, size, e, crc)
    requires w.cln == if marked then size else 0
    ensures AllBegin(ws + [w], marked, size, e, crc)
  {
    hide MarkerBytes;
  }

  // As long as no cleanmarker was written its size does not matter.
  lemma Unmarked(b: seq<byte>, base: nat, ws: seq<Written>, size: nat, e: Endian, crc: seq<byte> -> Word)
    requires Begins(b, base, false, size, e, crc) && AllBegin(ws, false, size, e, crc)
    ensures forall marked: bool, size': nat ::
              Begins(b, base, marked, size', e, crc) && AllBegin(ws, marked, size', e, crc)
  {
  }

  function Joined(ws: seq<Written>): seq<byte> {
    if ws == [] then [] else Joined(ws[..|ws| - 1]) + ws[|ws| - 1].bytes
  }

  function NodesOf(ws: seq<Written>): seq<Node> {
    if ws == [] then [] else NodesOf(ws[..|ws| - 1]) + ws[|ws| - 1].nodes
  }

  // Everything written so far is blocks with a summary.
  ghost predicate AllGood(out: seq<byte>, ws: seq<Written>, e: Endian, ebSize: nat, crc: seq<byte> -> Word) {
    out == Joined(ws) && forall i :: 0 <= i < |ws| ==> GoodBlock(ws[i], e, ebSize, crc)
  }

  lemma AllGoodNext(out: seq<byte>, ws: seq<Written>, w: Written, e: Endian, ebSize: nat, crc: seq<byte> -> Word)
    requires AllGood(out, ws, e, ebSize, crc) && GoodBlock(w, e, ebSize, crc)
    ensures AllGood(out + w.bytes, ws + [w], e, ebSize, crc) && NodesOf(ws + [w]) == NodesOf(ws) + w.nodes
  {
    assert (ws + [w])[..|ws|] == ws;
  }

  lemma EmptyBuffer(e: Endian, ebSize: nat)
    requires 0x2000 <= ebSize < 0x8000_0000
    ensures InBuffer([], 0, [], [], 0, 0, e, ebSize)
  {
  }

  // Only a cleanmarker is in the buffer.
  lemma MarkerInBuffer(data: seq<byte>, e: Endian, ebSize: nat)
    requires |data| % 4 == 0 && Room(|data|, 0, 0, ebSize)
    ensures InBuffer(data, |data|, [], [], 0, 0, e, ebSize)
  {
  }

  lemma BufferSize(data: seq<byte>, base: nat, nodes: seq<Node>, recs: seq<Record>, sumSize: nat, sumNum: nat,
                   e: Endian, ebSize: nat)
    requires InBuffer(data, base, nodes, recs, sumSize, sumNum, e, ebSize)
    ensures Room(|data|, sumSize, sumNum, ebSize) && |data| % 4 == 0 && 0x2000 <= ebSize < 0x8000_0000
    ensures nodes == [] ==> base == |data| && sumSize == 0 && sumNum == 0
  {
  }

  lemma TailGrows(data: seq<byte>, base: nat, n: seq<byte>, pad: seq<byte>)
    requires base <= |data|
    ensures (data + n + pad)[base..] == data[base..] + (n + pad)
  {
  }

  lemma LayoutNext(data: seq<byte>, base: nat, nodes: seq<Node>, n: Node)
    requires base <= |data| && data[base..] == Layout(nodes)
    ensures var data' := data + n + Ones(Pad(|n|) - |n|);
      data'[base..] == Layout(nodes + [n]) && |data'| == |data| + Pad(|n|)
  {
    hide Layout, Ones, Pad;
    LayoutLast(nodes + [n]);
    assert (nodes + [n])[..|nodes|] == nodes;
    TailGrows(data, base, n, Ones(Pad(|n|) - |n|));
  }

  lemma RecsNext(nodes: seq<Node>, e: Endian, base: nat, n: Node)
    requires AllValid(nodes, e) && ValidNode(n, e)
    ensures AllValid(nodes + [n], e)
    ensures RecsOf(nodes + [n], e, base) == RecsOf(nodes, e, base) + [RecOf(n, e, base + |Layout(nodes)|)]
    ensures SizeOf(nodes + [n], e) == SizeOf(nodes, e) + RecSize(RecOf(n, e, 0))
  {
    var nodes' := nodes + [n];
    assert nodes'[..|nodes|] == nodes && nodes'[|nodes|] == n;
    hide ValidNode, RecOf, RecSize, Layout;
  }

  // A node and its record are added.
  lemma {:induction false} NodeAdded(data: seq<byte>, base: nat, nodes: seq<Node>, recs: seq<Record>, sumSize: nat,
                                     sumNum: nat, e: Endian, ebSize: nat, n: Node)
    requires InBuffer(data, base, nodes, recs, sumSize, sumNum, e, ebSize) && ValidNode(n, e)
    requires Room(|data| + Pad(|n|), sumSize + RecSize(RecOf(n, e, 0)), sumNum + 1, ebSize)
    ensures InBuffer(data + n + Ones(Pad(|n|) - |n|), base, nodes + [n], recs + [RecOf(n, e, |data|)],
                     sumSize + RecSize(RecOf(n, e, 0)), sumNum + 1, e, ebSize)
  {
    hide *;
    BufferIs(data, base, nodes, recs, sumSize, sumNum, e, ebSize);
    LayoutNext(data, base, nodes, n);
    RecsNext(nodes, e, base, n);
    PadSum(|data|, |n|);
    PadWhole(|data|, |n|);
    BufferIs(data + n + Ones(Pad(|n|) - |n|), base, nodes + [n], recs + [RecOf(n, e, |data|)],
             sumSize + RecSize(RecOf(n, e, 0)), sumNum + 1, e, ebSize);
  }

  lemma PadWhole(a: nat, n: nat)
    requires a % 4 == 0
    ensures (a + Pad(n)) % 4 == 0 && n <= Pad(n)
  {
    hide Pad;
    var i, k := a / 4, Pad(n) / 4;
    assert a == 4 * i && Pad(n) == 4 * k;
    assert a + Pad(n) == 4 * (i + k);
  }

  // (Unfolds the definition.)
  lemma BufferIs(data: seq<byte>, base: nat, nodes: seq<Node>, recs: seq<Record>, sumSize: nat, sumNum: nat, e: Endian,
                 ebSize: nat)
    ensures InBuffer(data, base, nodes, recs, sumSize, sumNum, e, ebSize) <==>
      && AllValid(nodes, e) && base <= |data| && data[base..] == Layout(nodes) && |data| % 4 == 0
      && recs == RecsOf(nodes, e, base) && sumSize == SizeOf(nodes, e) && sumNum == |nodes|
      && Room(|data|, sumSize, sumNum, ebSize)
    ensures base <= |data| && data[base..] == Layout(nodes) ==> |data| == base + |Layout(nodes)|
  {
    hide AllValid, Layout, RecsOf, SizeOf, Room;
  }

  lemma BlockHolds(data: seq<byte>, base: nat, nodes: seq<Node>, recs: seq<Record>, sumSize: nat, sumNum: nat,
                   e: Endian, ebSize: nat, clnMkr: Word, crc: seq<byte> -> Word)
    requires InBuffer(data, base, nodes, recs, sumSize, sumNum, e, ebSize)
    ensures AllInRange(recs) && |recs| <= UINT32_MAX && TotalSize(recs) == sumSize
    ensures sumSize + RAW_SUMMARY_SIZE + SUM_MARKER_SIZE <= ebSize - |data| <= UINT32_MAX
    ensures GoodBlock(Written(data + SummaryBytes(recs, |data|, ebSize - |data|, clnMkr, crc, e), nodes, base, clnMkr),
                      e, ebSize, crc)
  {
    hide InBuffer, Summarised, Sealed, In, SummaryBytes, Layout, Get32, AllInRange, RecsOf, AllValid, TotalSize, Room;
    RecsFit(data, base, nodes, recs, sumSize, sumNum, e, ebSize);
    BlockSummarised(data, base, nodes, recs, sumSize, sumNum, e, ebSize, clnMkr, crc);
    InWhole(data, SummaryBytes(recs, |data|, ebSize - |data|, clnMkr, crc, e), base, Layout(nodes));
  }

  // The nodes of a block without a summary; at most padding follows them.
  ghost predicate Plain(w: Written, ebSize: nat) {
    && |w.bytes| <= ebSize && In(w.bytes, w.base, Layout(w.nodes))
    && forall i :: w.base + |Layout(w.nodes)| <= i < |w.bytes| ==> w.bytes[i] == 0xff
  }

  // All of the output: blocks with a summary, and perhaps a last one without.
  ghost predicate Output(out: seq<byte>, ws: seq<Written>, last: Written, e: Endian, ebSize: nat,
                         crc: seq<byte> -> Word) {
    && out == Joined(ws) + last.bytes && AllGood(Joined(ws), ws, e, ebSize, crc) && Plain(last, ebSize)
  }

  lemma NoRest(out: seq<byte>, ws: seq<Written>, e: Endian, ebSize: nat, crc: seq<byte> -> Word)
    requires AllGood(out, ws, e, ebSize, crc)
    ensures Output(out, ws, Written([], [], 0, 0), e, ebSize, crc)
  {
    assert out + [] == out;
    hide GoodBlock;
  }

  lemma WithRest(out: seq<byte>, ws: seq<Written>, data: seq<byte>, base: nat, nodes: seq<Node>, recs: seq<Record>,
                 sumSize: nat, sumNum: nat, e: Endian, ebSize: nat, crc: seq<byte> -> Word, n: nat)
    requires AllGood(out, ws, e, ebSize, crc) && InBuffer(data, base, nodes, recs, sumSize, sumNum, e, ebSize)
    requires |data| + n <= ebSize
    ensures Output(out + (data + Ones(n)), ws, Written(data + Ones(n), nodes, base, 0), e, ebSize, crc)
  {
    hide GoodBlock, AllValid, RecsOf, SizeOf, Room;
    assert (data + Ones(n))[base..|data|] == data[base..];
  }

  lemma LayoutSome(nodes: seq<Node>)
    requires nodes != [] && |nodes[|nodes| - 1]| > 0
    ensures |Layout(nodes)| > 0
  {
  }

  // What decides where the next node goes, and whether the last flush takes the buffer for empty.
  datatype Level = Level(ofs: nat, sumSize: nat, found: bool, markerSize: nat)

  class Sumtool {
    const ebSize: nat
    const e: Endian
    const crc: seq<byte> -> Word
    const addCleanmarkers: bool
    const padto: bool
    const useInputSize: bool
    const dataBuffer: array<byte>
    var dataOfs: nat
    var sumList: seq<Record>     // sum_collected: the list, its size on flash, its length
    var sumSize: nat
    var sumNum: nat
    var foundCleanmarkers: bool
    var cleanmarkerSize: nat
    var cleanmarker: seq<byte>
    var out: seq<byte>           // what was written to the output file
    ghost var base: nat          // the length of the cleanmarker in the buffer
    ghost var nodes: seq<Node>   // the nodes in the buffer
    ghost var blocks: seq<Written>

    ghost function Data(): seq<byte>
      reads this, dataBuffer
      requires dataOfs <= dataBuffer.Length
    {
      dataBuffer[..dataOfs]
    }

    ghost predicate Shape()
      reads this
    {
      && dataBuffer.Length == ebSize && dataOfs <= ebSize && AllGood(out, blocks, e, ebSize, crc)
      && UNKNOWN_NODE_SIZE <= cleanmarkerSize <= UINT32_MAX && cleanmarker == MarkerHead(cleanmarkerSize, e, crc)
      && AllBegin(blocks, addCleanmarkers && foundCleanmarkers, cleanmarkerSize, e, crc)
    }

    // The block in the buffer starts with a cleanmarker, if with anything but a node.
    ghost predicate Begun()
      reads this, dataBuffer
      requires dataOfs <= dataBuffer.Length
    {
      Begins(Data(), base, addCleanmarkers && foundCleanmarkers, cleanmarkerSize, e, crc)
    }

    ghost predicate Inv()
      reads this, dataBuffer
    {
      Shape() && InBuffer(Data(), base, nodes, sumList, sumSize, sumNum, e, ebSize) && Begun()
    }

    // Every node taken so far, in order.
    ghost function AllNodes(): seq<Node>
      reads `nodes, `blocks
    {
      NodesOf(blocks) + nodes
    }

    constructor (ebSize: nat, e: Endian, crc: seq<byte> -> Word, addCleanmarkers: bool, padto: bool, useInputSize: bool,
                 foundCleanmarkers: bool, cleanmarkerSize: nat)
      requires 0x2000 <= ebSize < 0x8000_0000 && UNKNOWN_NODE_SIZE <= cleanmarkerSize <= UINT32_MAX
      ensures Inv() && AllNodes() == [] && nodes == [] && dataOfs == 0 && fresh(dataBuffer)
      ensures this.ebSize == ebSize && this.e == e && this.crc == crc && this.addCleanmarkers == addCleanmarkers
      ensures this.padto == padto && this.useInputSize == useInputSize
      ensures this.foundCleanmarkers == foundCleanmarkers && this.cleanmarkerSize == cleanmarkerSize
    {
      this.ebSize, this.e, this.crc, this.addCleanmarkers, this.padto := ebSize, e, crc, addCleanmarkers, padto;
      this.useInputSize, this.foundCleanmarkers, this.cleanmarkerSize := useInputSize, foundCleanmarkers,
        cleanmarkerSize;
      var start := NodeStart(NODETYPE_CLEANMARKER, cleanmarkerSize, e);
      cleanmarker := start + Put32(crc(start), e);
      dataBuffer := new byte[ebSize];
      dataOfs, sumList, sumSize, sumNum, out := 0, [], 0, 0, [];
      base, nodes, blocks := 0, [], [];
      new;
      hide *;
      EmptyBuffer(e, ebSize);
      NoMarker(addCleanmarkers && foundCleanmarkers, cleanmarkerSize, e, crc);
      HeadIs(cleanmarkerSize, e, crc);
      NothingYet();
    }

    // (Unfolds the definitions.)
    lemma NothingYet()
      requires dataBuffer.Length == ebSize && dataOfs == 0 && sumList == [] && sumSize == sumNum == 0 && out == []
      requires base == 0 && nodes == [] && blocks == [] && InBuffer([], 0, [], [], 0, 0, e, ebSize)
      requires Begins([], 0, addCleanmarkers && foundCleanmarkers, cleanmarkerSize, e, crc)
      requires UNKNOWN_NODE_SIZE <= cleanmarkerSize <= UINT32_MAX && cleanmarker == MarkerHead(cleanmarkerSize, e, crc)
      ensures Inv() && AllNodes() == []
    {
      hide InBuffer, Begins, MarkerHead;
      assert Data() == [];
    }

    method FullWrite(buf: seq<byte>)
      requires dataBuffer.Length == ebSize && dataOfs + |buf| <= ebSize
      modifies dataBuffer, `dataOfs
      ensures dataOfs == old(dataOfs) + |buf| && Data() == old(Data()) + buf
    {
      forall i | 0 <= i < |buf| {
        dataBuffer[dataOfs + i] := buf[i];
      }
      dataOfs := dataOfs + |buf|;
    }

    method PadBytes(n: nat)
      requires dataBuffer.Length == ebSize && dataOfs + n <= ebSize
      modifies dataBuffer, `dataOfs
      ensures dataOfs == old(dataOfs) + n && Data() == old(Data()) + Ones(n)
    {
      var req: nat := n;
      while req > 0
        invariant req <= n && dataOfs == old(dataOfs) + n - req <= ebSize && Data() == old(Data()) + Ones(n - req)
      {
        assert Ones(n - req) + Ones(if req > 16 then 16 else req) == Ones(n - req + if req > 16 then 16 else req);
        if req > 16 {
          FullWrite(Ones(16));
          req := req - 16;
        } else {
          FullWrite(Ones(req));
          req := 0;
        }
      }
    }

    method PadWord()
      requires dataBuffer.Length == ebSize && Pad(dataOfs) <= ebSize
      modifies dataBuffer, `dataOfs
      ensures dataOfs == old(Pad(dataOfs)) && Data() == old(Data()) + Ones(old(Pad(dataOfs) - dataOfs))
    {
      if dataOfs % 4 != 0 {
        FullWrite(Ones(4 - dataOfs % 4));
      }
    }

    method WriteBuffToFile()
      requires dataOfs <= dataBuffer.Length
      modifies `out, `dataOfs
      ensures out == old(out) + old(Data()) && dataOfs == 0
    {
      var len: nat, from: nat := dataOfs, 0;
      while len > 0
        invariant from + len == dataOfs == old(dataOfs) <= dataBuffer.Length && out == old(out) + dataBuffer[..from]
      {
        var ret: int := *;
        if ret <= 0 || ret > len {
          ret := len;
        }
        assert dataBuffer[..from + ret] == dataBuffer[..from] + dataBuffer[from..from + ret];
        out := out + dataBuffer[from..from + ret];
        len := len - ret;
        from := from + ret;
      }
      dataOfs := 0;
    }

    // The record is copied into the page of the summary.
    method PutRecord(tpage: array<byte>, wpage: nat, r: Record) returns (wpage': nat)
      requires InRange(r) && wpage + RecSize(r) <= tpage.Length
      modifies tpage
      ensures wpage' == wpage + RecSize(r) && tpage[..wpage'] == old(tpage[..wpage]) + RecBytes(r, e)
      ensures tpage[wpage'..] == old(tpage[wpage'..])
    {
      hide RecBytes, RecSize, InRange, Put16, Put32;
      var b := RecBytes(r, e);
      forall i | 0 <= i < |b| {
        tpage[wpage + i] := b[i];
      }
      wpage' := wpage + |b|;
    }

    // All records, which empties the list.
    method PutRecords(tpage: array<byte>) returns (wpage: nat)
      requires AllInRange(sumList) && TotalSize(sumList) <= tpage.Length && tpage != dataBuffer && sumNum == |sumList|
      modifies `sumList, `sumNum, tpage
      ensures wpage == TotalSize(old(sumList)) && sumList == [] && sumNum == 0
      ensures AllInRange(old(sumList)) && tpage[..wpage] == RecsBytes(old(sumList), e)
      ensures tpage[wpage..] == old(tpage[wpage..])
    {
      hide *;
      ghost var recs, i := sumList, 0;
      ghost var page := tpage[..];
      wpage := 0;
      assert tpage[..0] == [] && tpage[0..] == page[0..];
      CopiedStart(recs, e);
      while sumNum > 0
        invariant 0 <= i <= |recs| && sumList == recs[i..] && sumNum == |sumList|
        invariant 0 <= wpage <= tpage.Length == |page|
        invariant Copied(recs, i, e, tpage[..wpage]) && tpage[wpage..] == page[wpage..]
      {
        CopiedNext(recs, i, e, tpage[..wpage]);
        assert sumList[0] == recs[i] && recs[i..][1..] == recs[i + 1..];
        ghost var from := wpage;
        wpage := PutRecord(tpage, wpage, sumList[0]);
        assert page[from..][wpage - from..] == page[wpage..];
        sumList := sumList[1..];
        sumNum := sumNum - 1;
        i := i + 1;
      }
      CopiedEnd(recs, e, tpage[..wpage]);
    }

    method PutMarker(tpage: array<byte>, wpage: nat, offset: Word)
      requires wpage + SUM_MARKER_SIZE == tpage.Length
      modifies tpage
      ensures tpage[..] == old(tpage[..wpage]) + (Put32(offset, e) + Put32(SUM_MAGIC, e))
    {
      var marker := Put32(offset, e) + Put32(SUM_MAGIC, e);
      hide Put32;
      forall i | 0 <= i < SUM_MARKER_SIZE {
        tpage[wpage + i] := marker[i];
      }
      assert tpage[..] == tpage[..wpage] + tpage[wpage..] && tpage[wpage..] == marker;
    }

    // The page after the header of the summary: records, 0xff, and the marker at the end.
    method BuildPage(infosize: nat) returns (tpage: array<byte>)
      requires AllInRange(sumList) && sumNum == |sumList| && dataOfs <= UINT32_MAX
      requires TotalSize(sumList) + RAW_SUMMARY_SIZE + SUM_MARKER_SIZE <= infosize <= UINT32_MAX
      modifies `sumList, `sumNum
      ensures fresh(tpage) && sumList == [] && sumNum == 0
      ensures AllInRange(old(sumList)) && tpage[..] == SummaryBody(old(sumList), dataOfs, infosize, e)
    {
      ghost var recs := sumList;
      hide RecsBytes, AllInRange, TotalSize, Put32;
      var datasize := infosize - RAW_SUMMARY_SIZE;
      tpage := new byte[datasize](_ => 0xff);
      var wpage := PutRecords(tpage);
      ghost var n, page := wpage, tpage[..];
      wpage := datasize - SUM_MARKER_SIZE;
      assert page[n..wpage] == Ones(wpage - n) by {
        assert forall i :: n <= i < datasize ==> page[i] == tpage[n..][i - n] == 0xff;
      }
      assert page[..wpage] == page[..n] + page[n..wpage] && page[..n] == RecsBytes(recs, e);
      PutMarker(tpage, wpage, dataOfs);
      BodyParts(recs, dataOfs, infosize, e);
      assert tpage[..] == RecsBytes(recs, e) + (Ones(wpage - n) + (Put32(dataOfs, e) + Put32(SUM_MAGIC, e)));
    }

    // The summary node goes to the end of the buffer.
    method AppendSummary(tpage: array<byte>, num: nat, clnMkr: Word, infosize: nat, ghost recs: seq<Record>)
      requires dataBuffer.Length == ebSize && dataOfs + infosize == ebSize <= UINT32_MAX && num == |recs| <= UINT32_MAX
      requires AllInRange(recs) && TotalSize(recs) + RAW_SUMMARY_SIZE + SUM_MARKER_SIZE <= infosize
      requires tpage != dataBuffer && tpage[..] == SummaryBody(recs, dataOfs, infosize, e)
      modifies dataBuffer, `dataOfs
      ensures dataOfs == ebSize && Data() == old(Data()) + SummaryBytes(recs, old(dataOfs), infosize, clnMkr, crc, e)
    {
      hide SummaryBody, AllInRange, TotalSize, Unsealed, Put32;
      ghost var data := Data();
      var head := Unsealed(infosize, crc(NodeStart(NODETYPE_SUMMARY, infosize, e)), num, clnMkr, e);
      var page := tpage[..];
      FullWrite(head + Put32(crc(page), e) + Put32(crc(head), e));
      FullWrite(page);
      assert Data() == data + (head + Put32(crc(page), e) + Put32(crc(head), e) + page);
    }

    // `dump_sum_records`: nothing if there are no records, else the summary fills up the block.
    method DumpSumRecords()
      requires Inv()
      modifies dataBuffer, `dataOfs, `sumList, `sumSize, `sumNum
      ensures Shape() && Begun()
      ensures nodes == [] ==> Inv() && dataOfs == old(dataOfs) && Data() == old(Data())
      ensures nodes != [] ==> dataOfs == ebSize && IsBlock(Data()) && sumList == [] && sumSize == 0 && sumNum == 0
    {
      hide Begins, AllBegin, MarkerHead, AllGood, SummaryBody, GoodBlock, InBuffer, AllInRange, TotalSize,
           SummaryBytes, In, Layout, RecsOf, AllValid;
      RecsFit(Data(), base, nodes, sumList, sumSize, sumNum, e, ebSize);
      if sumNum == 0 || sumList == [] {
        return;
      }
      var clnMkr := if addCleanmarkers && foundCleanmarkers then cleanmarkerSize else 0;
      BlockHolds(Data(), base, nodes, sumList, sumSize, sumNum, e, ebSize, clnMkr, crc);
      ghost var recs := sumList;
      var num := sumNum;
      var datasize := sumSize + SUM_MARKER_SIZE;
      var infosize := RAW_SUMMARY_SIZE + datasize;
      var padsize := ebSize - dataOfs - infosize;
      infosize := infosize + padsize;
      var tpage := BuildPage(infosize);
      sumSize := 0;
      BeginsLonger(Data(), SummaryBytes(recs, dataOfs, infosize, clnMkr, crc, e), base,
                   addCleanmarkers && foundCleanmarkers, cleanmarkerSize, e, crc);
      AppendSummary(tpage, num, clnMkr, infosize, recs);
    }

    // The buffer is a whole block, with a summary.
    ghost predicate IsBlock(data: seq<byte>)
      reads this
    {
      GoodBlock(Written(data, nodes, base, SizeSaid()), e, ebSize, crc)
    }

    // Every block written starts with a cleanmarker, or none does, and the summaries say so.
    ghost predicate Uniform()
      reads `blocks, `foundCleanmarkers, `cleanmarkerSize
    {
      forall i :: 0 <= i < |blocks| ==> blocks[i].base == MarkerSize() && blocks[i].cln == SizeSaid()
    }

    // The size of cleanmarkers that a summary says.
    ghost function SizeSaid(): nat
      reads `foundCleanmarkers, `cleanmarkerSize
    {
      if addCleanmarkers && foundCleanmarkers then cleanmarkerSize else 0
    }

    ghost function MarkerSize(): nat
      reads `foundCleanmarkers, `cleanmarkerSize
    {
      if addCleanmarkers && foundCleanmarkers then Pad(cleanmarkerSize) else 0
    }

    // The buffer goes out, as a block with a summary if it has records; otherwise it is empty.
    method FlushBlock()
      requires Inv() && (nodes == [] ==> dataOfs == 0)
      modifies dataBuffer, `dataOfs, `sumList, `sumSize, `sumNum, `out, `nodes, `base, `blocks
      ensures Inv() && nodes == [] && dataOfs == 0 && sumSize == 0 && AllNodes() == old(AllNodes())
      ensures if old(nodes) == [] then blocks == old(blocks)
              else |blocks| == |old(blocks)| + 1 && blocks[..|old(blocks)|] == old(blocks)
                   && blocks[|old(blocks)|].base == old(base) && blocks[|old(blocks)|].cln == SizeSaid()
      ensures old(Marked() && Uniform()) ==> Uniform()
    {
      hide Begins, AllBegin, MarkerHead, AllGood, GoodBlock, InBuffer, Room, NodesOf, Summarised, Sealed, Layout,
           Joined, SummaryBytes, MarkerBytes;
      BufferSize(Data(), base, nodes, sumList, sumSize, sumNum, e, ebSize);
      DumpSumRecords();
      ghost var block := Written(Data(), nodes, base, SizeSaid());
      if nodes == [] {
        BufferSize(Data(), base, nodes, sumList, sumSize, sumNum, e, ebSize);
        assert out + Data() == out;
      } else {
        AllGoodNext(out, blocks, block, e, ebSize, crc);
      }
      WriteBuffToFile();
      AllBeginNext(blocks, block, addCleanmarkers && foundCleanmarkers, cleanmarkerSize, e, crc);
      if nodes != [] {
        blocks, nodes := blocks + [block], [];
      }
      base := 0;
      EmptyBuffer(e, ebSize);
      assert Data() == [];
      NoMarker(addCleanmarkers && foundCleanmarkers, cleanmarkerSize, e, crc);
    }

    // At the start of a block: the cleanmarker, if there is to be one.
    method StartBlock(ghost req: nat, ghost plus: nat)
      requires Inv() && (nodes == [] ==> dataOfs == 0) && Fits(MarkerSize(), req, plus, ebSize) && Sizes(req, plus)
      requires dataOfs > 0 ==> Room(dataOfs + Pad(req), sumSize + plus, sumNum + 1, ebSize)
      modifies dataBuffer, `dataOfs, `base
      ensures Inv() && Room(dataOfs + Pad(req), sumSize + plus, sumNum + 1, ebSize)
      ensures if nodes == [] then dataOfs == base == MarkerSize() else dataOfs == old(dataOfs) && base == old(base)
    {
      hide AllBegin, MarkerHead, AllGood, InBuffer, Room, Fits, Sizes;
      BufferSize(Data(), base, nodes, sumList, sumSize, sumNum, e, ebSize);
      RoomAfterMarker(MarkerSize(), req, plus, ebSize);
      if addCleanmarkers && foundCleanmarkers {
        if dataOfs == 0 {
          MarkerFits(MarkerSize(), ebSize);
          AtZero(Data(), base, nodes, sumList, sumSize, sumNum, e, ebSize);
          FullWrite(cleanmarker);
          PadBytes(cleanmarkerSize - UNKNOWN_NODE_SIZE);
          PadWord();
          base := dataOfs;
          assert Data() == MarkerBytes(cleanmarkerSize, e, crc);
          assert Data()[..base] == Data();
          MarkerInBuffer(Data(), e, ebSize);
        }
      }
      if dataOfs == 0 {
        AtZero(Data(), base, nodes, sumList, sumSize, sumNum, e, ebSize);
      }
    }

    ghost function Now(): Level
      reads `dataOfs, `sumSize, `foundCleanmarkers, `cleanmarkerSize
    {
      Level(dataOfs, sumSize, foundCleanmarkers, cleanmarkerSize)
    }

    // After a node of `req` bytes with a record of `plus`: it starts a new block if the check says so.
    ghost function WithNode(l: Level, req: nat, plus: nat): Level {
      if l.ofs == 0 || Unsigned(l.ofs + req) > Unsigned(ebSize - Need(req, plus, l.sumSize)) then
        l.(ofs := (if addCleanmarkers && l.found then Pad(l.markerSize) else 0) + Pad(req), sumSize := plus)
      else
        l.(ofs := l.ofs + Pad(req), sumSize := l.sumSize + plus)
    }

    // After a cleanmarker: the first one counts.
    ghost function WithMarker(l: Level, totlen: nat): Level {
      if l.found then l
      else l.(found := true, markerSize := if addCleanmarkers && useInputSize then totlen else l.markerSize)
    }

    // (Unfolds the definitions.)
    lemma NowIs(l: Level, req: nat, plus: nat)
      ensures Now() == Level(dataOfs, sumSize, foundCleanmarkers, cleanmarkerSize)
      ensures MarkerSize() == if addCleanmarkers && foundCleanmarkers then Pad(cleanmarkerSize) else 0
      ensures WithNode(l, req, plus) ==
              if l.ofs == 0 || Unsigned(l.ofs + req) > Unsigned(ebSize - Need(req, plus, l.sumSize)) then
                l.(ofs := (if addCleanmarkers && l.found then Pad(l.markerSize) else 0) + Pad(req), sumSize := plus)
              else
                l.(ofs := l.ofs + Pad(req), sumSize := l.sumSize + plus)
    {
      hide Unsigned, Need, Pad;
    }

    // `pad_block_if_less_than`
    method PadBlockIfLessThan(req: nat, plus: nat)
      requires Inv() && (nodes == [] ==> dataOfs == 0) && Fits(MarkerSize(), req, plus, ebSize) && Sizes(req, plus)
      modifies dataBuffer, `dataOfs, `sumList, `sumSize, `sumNum, `out, `nodes, `base, `blocks
      ensures Inv() && Room(dataOfs + Pad(req), sumSize + plus, sumNum + 1, ebSize) && AllNodes() == old(AllNodes())
      ensures if nodes == [] then dataOfs == base == MarkerSize()
              else nodes == old(nodes) && dataOfs == old(dataOfs) && base == old(base)
      ensures WithNode(old(Now()), req, plus) == Now().(ofs := dataOfs + Pad(req), sumSize := sumSize + plus)
      ensures old(Marked() && Uniform()) ==> Uniform()
    {
      hide *;
      InvIs();
      ghost var was := Now();
      NowIs(was, req, plus);
      if dataOfs == 0 {
        AtZero(Data(), base, nodes, sumList, sumSize, sumNum, e, ebSize);
      }
      BufferSize(Data(), base, nodes, sumList, sumSize, sumNum, e, ebSize);
      var datasize := req + plus + sumSize + RAW_SUMMARY_SIZE + SUM_MARKER_SIZE;
      PadForm(datasize);
      datasize := datasize + (4 - datasize % 4) % 4;
      NeedIs(req, plus, sumSize);
      CheckRoom(dataOfs, sumSize, sumNum, MarkerSize(), req, plus, ebSize);
      if Unsigned(dataOfs + req) > Unsigned(ebSize - datasize) {
        FlushBlock();
      }
      StartBlock(req, plus);
      InvIs();
      BufferSize(Data(), base, nodes, sumList, sumSize, sumNum, e, ebSize);
      NowIs(was, req, plus);
    }

    // (Unfolds the definition.)
    lemma InvIs()
      requires Inv()
      ensures dataBuffer.Length == ebSize && dataOfs <= ebSize && |Data()| == dataOfs
      ensures InBuffer(Data(), base, nodes, sumList, sumSize, sumNum, e, ebSize)
      ensures AllGood(out, blocks, e, ebSize, crc)
      ensures AllBegin(blocks, addCleanmarkers && foundCleanmarkers, cleanmarkerSize, e, crc)
      ensures Begins(Data(), base, addCleanmarkers && foundCleanmarkers, cleanmarkerSize, e, crc)
    {
      hide InBuffer, AllGood, Begins, AllBegin, MarkerHead;
    }

    // The `add_sum_*_mem` functions: the record of a node that is about to be written.
    method AddSum(n: Node)
      requires ValidNode(n, e)
      modifies `sumList, `sumSize, `sumNum
      ensures sumList == old(sumList) + [RecOf(n, e, dataOfs)] && sumNum == old(sumNum) + 1
      ensures sumSize == old(sumSize) + RecSize(RecOf(n, e, 0))
    {
      var t := Get16(n, 2, e);
      if t == NODETYPE_INODE {
        sumList := sumList + [SumInode(Get32(n, 12, e), Get32(n, 16, e), dataOfs, Get32(n, 4, e))];
        sumSize := sumSize + 18;
      } else if t == NODETYPE_DIRENT {
        var name := n[40..40 + n[28] as int];
        sumList := sumList + [SumDirent(Get32(n, 4, e), dataOfs, Get32(n, 12, e), Get32(n, 16, e), Get32(n, 20, e),
                                        n[28], n[29], name)];
        sumSize := sumSize + 24 + n[28] as int;
      } else if t == NODETYPE_XATTR {
        sumList := sumList + [SumXattr(Get32(n, 12, e), Get32(n, 16, e), dataOfs, Get32(n, 4, e))];
        sumSize := sumSize + 18;
      } else {
        sumList := sumList + [SumXref(dataOfs)];
        sumSize := sumSize + 6;
      }
      sumNum := sumNum + 1;
    }

    // The second argument the `write_*_to_buff` functions give `pad_block_if_less_than`.
    function RecordSpace(n: Node): (plus: nat)
      requires ValidNode(n, e)
      ensures plus == RecSize(RecOf(n, e, 0))
    {
      var t := Get16(n, 2, e);
      if t == NODETYPE_DIRENT then 24 + n[28] as nat else if t == NODETYPE_XREF then 6 else 18
    }

    // A node for which there is room goes into the buffer.
    method AddNode(n: Node)
      requires Inv() && ValidNode(n, e)
      requires Room(dataOfs + Pad(|n|), sumSize + RecSize(RecOf(n, e, 0)), sumNum + 1, ebSize)
      modifies dataBuffer, `dataOfs, `sumList, `sumSize, `sumNum, `nodes
      ensures Inv() && nodes == old(nodes) + [n] && dataOfs == old(dataOfs) + Pad(|n|)
      ensures sumSize == old(sumSize) + RecSize(RecOf(n, e, 0))
    {
      hide Begins, AllBegin, MarkerHead, AllGood, InBuffer, ValidNode, RecOf, RecSize, Room, Ones;
      NodeAdded(Data(), base, nodes, sumList, sumSize, sumNum, e, ebSize, n);
      BufferSize(Data(), base, nodes, sumList, sumSize, sumNum, e, ebSize);
      RoomBound(dataOfs + Pad(|n|), sumSize + RecSize(RecOf(n, e, 0)), sumNum + 1, ebSize);
      AddSum(n);
      BeginsLonger(Data(), n, base, addCleanmarkers && foundCleanmarkers, cleanmarkerSize, e, crc);
      BeginsLonger(Data() + n, Ones(Pad(|n|) - |n|), base, addCleanmarkers && foundCleanmarkers, cleanmarkerSize, e,
                   crc);
      PutNode(n);
      nodes := nodes + [n];
    }

    method PutNode(n: Node)
      requires dataBuffer.Length == ebSize && dataOfs % 4 == 0 && dataOfs + Pad(|n|) <= ebSize
      modifies dataBuffer, `dataOfs
      ensures dataOfs == old(dataOfs) + Pad(|n|) && Data() == old(Data()) + n + Ones(Pad(|n|) - |n|)
    {
      PadSum(dataOfs, |n|);
      hide Pad, Ones;
      FullWrite(n);
      PadWord();
    }

    // `write_inode_to_buff`, `write_dirent_to_buff`, `write_xattr_to_buff` and `write_xref_to_buff`.
    method WriteToBuff(n: Node)
      requires Inv() && (nodes == [] ==> dataOfs == 0) && ValidNode(n, e)
      requires Fits(MarkerSize(), |n|, RecordSpace(n), ebSize)
      modifies dataBuffer, `dataOfs, `sumList, `sumSize, `sumNum, `out, `nodes, `base, `blocks
      ensures Inv() && nodes != [] && AllNodes() == old(AllNodes()) + [n]
      ensures if nodes == [n] then dataOfs == MarkerSize() + Pad(|n|)
              else nodes == old(nodes) + [n] && dataOfs == old(dataOfs) + Pad(|n|)
      ensures old(Marked()) ==> Marked()
      ensures Now() == WithNode(old(Now()), |n|, RecordSpace(n))
      ensures old(Marked() && Uniform()) ==> Uniform()
    {
      MarkedIs();
      hide Inv, Room, Fits, Sizes, ValidNode, RecOf, RecSize, RecordSpace, NodesOf, Pad, MarkerSize, WithNode,
           Uniform;
      ghost var all := AllNodes();
      RecordSizes(n, e);
      PadBlockIfLessThan(|n|, RecordSpace(n));
      ghost var front, tail := NodesOf(blocks), nodes;
      assert all == front + tail;
      AddNode(n);
      assert front + tail + [n] == front + (tail + [n]);
      assert [] + [n] == [n];
      MarkedIs();
    }

    // The block in the buffer starts with a cleanmarker as it should by now.
    ghost predicate Marked()
      reads `nodes, `base, `foundCleanmarkers, `cleanmarkerSize
    {
      nodes == [] || base == MarkerSize()
    }

    // (Unfolds the definition.)
    lemma MarkedIs()
      ensures Marked() <==> nodes == [] || base == MarkerSize()
    {
    }

    // A cleanmarker in the input.
    method FoundCleanmarker(totlen: nat)
      requires Inv() && UNKNOWN_NODE_SIZE <= totlen <= UINT32_MAX
      modifies `foundCleanmarkers, `cleanmarkerSize, `cleanmarker
      ensures Inv() && foundCleanmarkers
      ensures cleanmarkerSize == if !old(foundCleanmarkers) && addCleanmarkers
              && useInputSize then totlen else old(cleanmarkerSize)
      ensures old(Steady() || nodes == []) ==> Steady()
      ensures Now() == WithMarker(old(Now()), totlen)
      ensures old(Steady() && Uniform()) || blocks == [] ==> Uniform()
    {
      hide AllGood, InBuffer, Begins, AllBegin;
      if !foundCleanmarkers {
        Unmarked(Data(), base, blocks, cleanmarkerSize, e, crc);
        foundCleanmarkers := true;
        if addCleanmarkers && useInputSize {
          cleanmarkerSize := totlen;
          var start := NodeStart(NODETYPE_CLEANMARKER, totlen, e);
          cleanmarker := start + Put32(crc(start), e);
        }
      }
    }

    // From now on every block starts with a cleanmarker, or none does.
    ghost predicate Steady()
      reads `nodes, `base, `foundCleanmarkers, `cleanmarkerSize
    {
      Marked() && (foundCleanmarkers || !addCleanmarkers)
    }

    // Would `flush_buffers` end the block with a summary?
    ghost predicate NearlyFull()
      reads this
    {
      dataOfs + RAW_INODE_SIZE + 256 > ebSize - Need(0, 0, sumSize)
    }

    // `flush_buffers` takes the buffer for empty.
    ghost predicate TakenForEmpty()
      reads this
    {
      dataOfs == if addCleanmarkers && foundCleanmarkers then cleanmarkerSize else 0
    }

    // There are nodes in the buffer, and `flush_buffers` leaves them there.
    ghost predicate Loses()
      reads this
    {
      nodes != [] && TakenForEmpty()
    }

    // The output is complete: blocks with a summary and perhaps a last one without.
    ghost predicate Complete(last: Written)
      reads this
    {
      && Output(out, blocks, last, e, ebSize, crc)
      && AllBegin(blocks, addCleanmarkers && foundCleanmarkers, cleanmarkerSize, e, crc)
      && Begins(last.bytes, last.base, addCleanmarkers && foundCleanmarkers, cleanmarkerSize, e, crc)
    }

    // (Unfolds the definition.)
    lemma LosesIs()
      ensures addCleanmarkers && foundCleanmarkers ==> (Loses() <==> nodes != [] && dataOfs == cleanmarkerSize)
      ensures Loses() && |AllNodes()| == 1 ==> NodesOf(blocks) == []
    {
    }

    // (Unfolds the definitions.)
    lemma StartsReady(limit: nat)
      requires Inv() && nodes == [] && dataOfs == 0 && Pad(cleanmarkerSize) <= limit
      ensures Ready(limit) && Now() == Level(0, 0, foundCleanmarkers, cleanmarkerSize)
    {
      hide AllGood;
    }

    // (Unfolds the definitions.)
    lemma StartsAt(n: Node)
      requires ValidNode(n, e)
      ensures RecordSpace(n) == RecSize(RecOf(n, e, 0)) && Now().ofs == dataOfs && Now().sumSize == sumSize
      ensures foundCleanmarkers || MarkerSize() == 0
      ensures Fits(28, |n|, RecordSpace(n), ebSize) ==> Fits(0, |n|, RecordSpace(n), ebSize)
      ensures forall l: Level :: l.ofs == 0 && !l.found ==>
                WithNode(l, |n|, RecordSpace(n)) == l.(ofs := Pad(|n|), sumSize := RecordSpace(n))
      ensures Now().found == foundCleanmarkers
      ensures |AllNodes()| == 1 && nodes != [] ==> nodes == AllNodes()
    {
      hide ValidNode, RecOf, RecSize, NodesOf, Unsigned, Need, MostRecords, Pad;
    }

    // The rest of the buffer goes out, with a summary if the block is nearly full.
    method FlushRest() returns (ghost last: Written)
      requires Inv() && (nodes == [] ==> dataOfs == 0)
      modifies dataBuffer, `dataOfs, `sumList, `sumSize, `sumNum, `out, `nodes, `base, `blocks
      ensures Complete(last) && nodes == [] && NodesOf(blocks) + last.nodes == old(AllNodes())
      ensures if old(dataOfs + 324 > ebSize - (sumSize + 43) / 4 * 4)
        then |blocks| == |old(blocks)| + 1 && last.bytes == [] && last.nodes == []
        else
          && blocks == old(blocks) && last.nodes == old(nodes)
          && last.bytes == old(Data()) + if padto then Ones(ebSize - old(dataOfs)) else []
      ensures old(Marked() && Uniform()) ==> Uniform() && (last.nodes == [] || last.base == MarkerSize())
    {
      hide *;
      InvIs();
      MarkedIs();
      NearlyFullIs();
      assert AllNodes() == NodesOf(blocks) + nodes;
      BufferSize(Data(), base, nodes, sumList, sumSize, sumNum, e, ebSize);
      NoWrapAtEnd(dataOfs, sumSize, sumNum, ebSize);
      var datasize := sumSize + RAW_SUMMARY_SIZE + SUM_MARKER_SIZE;
      PadForm(datasize);
      datasize := datasize + (4 - datasize % 4) % 4;
      if Unsigned(dataOfs + RAW_INODE_SIZE + 256) > Unsigned(ebSize - datasize) {
        FlushBlock();
        InvIs();
        NearlyFullIs();
        last := Written([], [], 0, 0);
        NoRest(out, blocks, e, ebSize, crc);
        NoMarker(addCleanmarkers && foundCleanmarkers, cleanmarkerSize, e, crc);
        CompleteIs(last);
      } else {
        var n := if padto then ebSize - dataOfs else 0;
        last := Written(Data() + Ones(n), nodes, base, 0);
        assert Data() + Ones(n) == Data() + if padto then Ones(ebSize - dataOfs) else [];
        BeginsLonger(Data(), Ones(n), base, addCleanmarkers && foundCleanmarkers, cleanmarkerSize, e, crc);
        WithRest(out, blocks, Data(), base, nodes, sumList, sumSize, sumNum, e, ebSize, crc, n);
        WriteRest();
        nodes := [];
        CompleteIs(last);
      }
    }

    // (Unfolds the definition.)
    lemma CompleteIs(last: Written)
      ensures Complete(last) <==>
        && Output(out, blocks, last, e, ebSize, crc)
        && AllBegin(blocks, addCleanmarkers && foundCleanmarkers, cleanmarkerSize, e, crc)
        && Begins(last.bytes, last.base, addCleanmarkers && foundCleanmarkers, cleanmarkerSize, e, crc)
    {
      hide Output, AllBegin, Begins;
    }

    // (Unfolds the definition.)
    lemma NearlyFullIs()
      ensures NearlyFull() <==>
                dataOfs + RAW_INODE_SIZE + 256 > ebSize - Pad(sumSize + RAW_SUMMARY_SIZE + SUM_MARKER_SIZE)
      ensures NearlyFull() <==> dataOfs + 324 > ebSize - (sumSize + 43) / 4 * 4
      ensures Need(0, 0, sumSize) == Pad(sumSize + RAW_SUMMARY_SIZE + SUM_MARKER_SIZE)
      ensures AllNodes() == NodesOf(blocks) + nodes && |Ones(0)| == 0
    {
      hide NodesOf;
    }

    method WriteRest()
      requires dataBuffer.Length == ebSize && dataOfs <= ebSize
      modifies dataBuffer, `dataOfs, `out
      ensures out == old(out) + (old(Data()) + Ones(if padto then ebSize - old(dataOfs) else 0))
    {
      ghost var data := Data();
      if padto {
        PadBytes(ebSize - dataOfs);
      }
      WriteBuffToFile();
      assert data + Ones(0) == data;
    }

    // `flush_buffers`: every node is in the output then, unless the buffer that holds some is taken for empty.
    method FlushBuffers() returns (ghost last: Written)
      requires Inv() && (nodes == [] ==> dataOfs == 0)
      modifies dataBuffer, `dataOfs, `sumList, `sumSize, `sumNum, `out, `nodes, `base, `blocks
      ensures Complete(last) && (NodesOf(blocks) + last.nodes == old(AllNodes()) <==> !old(Loses()))
      ensures Loses() == old(Loses()) && (Loses() ==> last == Written([], [], 0, 0) && AllNodes() == old(AllNodes()))
      ensures var empty := old(dataOfs == if addCleanmarkers && foundCleanmarkers then cleanmarkerSize else 0);
        var full := old(dataOfs + 324 > ebSize - (sumSize + 43) / 4 * 4);
        && (empty ==> out == old(out) && last.nodes == [])
        && (!empty && full ==> |blocks| == |old(blocks)| + 1 && last.bytes == [] && last.nodes == [])
        && (!empty && !full ==>
              && blocks == old(blocks) && last.nodes == old(nodes)
              && last.bytes == old(Data()) + if padto then Ones(ebSize - old(dataOfs)) else [])
      ensures old(Marked() && Uniform()) ==> Uniform() && (last.nodes == [] || last.base == MarkerSize())
    {
      hide Begins, AllBegin, InBuffer, Need, NodesOf, Output, AllGood;
      NoMarker(addCleanmarkers && foundCleanmarkers, cleanmarkerSize, e, crc);
      NoRest(out, blocks, e, ebSize, crc);
      last := Written([], [], 0, 0);
      assert NodesOf(blocks) + [] == NodesOf(blocks);
      if addCleanmarkers && foundCleanmarkers {
        if dataOfs != cleanmarkerSize {
          last := FlushRest();
        }
      } else {
        if dataOfs != 0 {
          last := FlushRest();
        }
      }
    }

    // A block that starts with a cleanmarker is not taken for empty.
    lemma MarkedKeeps()
      requires Inv() && Marked()
      ensures !Loses()
    {
      hide AllGood;
      if nodes != [] {
        LayoutSome(nodes);
      }
    }

    ghost predicate Ready(limit: nat)
      reads this, dataBuffer
    {
      Inv() && (nodes == [] ==> dataOfs == 0) && Pad(cleanmarkerSize) <= limit
    }

    // After a node with a sound header.
    ghost function WithItem(l: Level, n: Node): Level
      requires UNKNOWN_NODE_SIZE <= |n| && Long(n, e) && (IsData(n, e) && NodeSound(n, e, crc) ==> ValidNode(n, e))
    {
      if IsData(n, e) then if NodeSound(n, e, crc) then WithNode(l, |n|, RecordSpace(n)) else l
      else if Get16(n, 2, e) == NODETYPE_CLEANMARKER then WithMarker(l, |n|)
      else l
    }

    // After the bytes from `p` on of a block of the input.
    ghost function Scanned(b: seq<byte>, p: nat, limit: nat, l: Level): Level
      requires InputOk(b, p, e, crc, limit, ebSize)
      decreases |b| - p
    {
      if p >= |b| then l
      else if HeaderAt(b, p, e, crc) then Scanned(b, p + Stride(b, p, e), limit, WithItem(l, NodeAt(b, p, e)))
      else Scanned(b, p + 4, limit, l)
    }

    // After all that is read.
    ghost function ScannedAll(inputs: seq<seq<byte>>, limit: nat, l: Level): Level
      requires ReadsOk(inputs, e, crc, limit, ebSize)
    {
      if inputs == [] then l
      else Scanned(inputs[|inputs| - 1], 0, limit, ScannedAll(inputs[..|inputs| - 1], limit, l))
    }

    lemma ScannedEnd(b: seq<byte>, p: nat, limit: nat, l: Level)
      requires InputOk(b, p, e, crc, limit, ebSize) && p >= |b|
      ensures Scanned(b, p, limit, l) == l
    {
    }

    lemma {:induction false} ScannedGap(b: seq<byte>, p: nat, limit: nat, l: Level)
      requires InputOk(b, p, e, crc, limit, ebSize) && p < |b| && p + 4 <= |b| && !HeaderAt(b, p, e, crc)
      ensures InputOk(b, p + 4, e, crc, limit, ebSize) && Scanned(b, p, limit, l) == Scanned(b, p + 4, limit, l)
    {
      hide HeaderAt, NodeOk, WithItem;
    }

    lemma {:induction false} ScannedItem(b: seq<byte>, p: nat, limit: nat, l: Level)
      requires InputOk(b, p, e, crc, limit, ebSize) && p + 4 <= |b| && HeaderAt(b, p, e, crc)
      requires UNKNOWN_NODE_SIZE <= Get32(b, p + 4, e) && p + Get32(b, p + 4, e) <= |b|
      requires var n := NodeAt(b, p, e);
        Long(n, e) && (IsData(n, e) && NodeSound(n, e, crc) ==> ValidNode(n, e))
      requires 4 <= Stride(b, p, e) && InputOk(b, p + Stride(b, p, e), e, crc, limit, ebSize)
      ensures Scanned(b, p, limit, l) == Scanned(b, p + Stride(b, p, e), limit, WithItem(l, NodeAt(b, p, e)))
    {
      hide NodeOk, WithItem, NodeAt, Stride, Long, IsData, NodeSound, ValidNode, InputOk;
    }

    lemma ScannedNone(inputs: seq<seq<byte>>, limit: nat, l: Level)
      requires ReadsOk(inputs[..0], e, crc, limit, ebSize)
      ensures ScannedAll(inputs[..0], limit, l) == l
    {
    }

    lemma {:induction false} ScannedNext(inputs: seq<seq<byte>>, i: nat, limit: nat, l: Level)
      requires i < |inputs| && ReadsOk(inputs[..i], e, crc, limit, ebSize)
      requires ReadsOk(inputs[..i + 1], e, crc, limit, ebSize)
      requires InputOk(inputs[i], 0, e, crc, limit, ebSize)
      ensures ScannedAll(inputs[..i + 1], limit, l) == Scanned(inputs[i], 0, limit, ScannedAll(inputs[..i], limit, l))
    {
      hide InputOk, Scanned;
      assert inputs[..i + 1][..i] == inputs[..i];
    }

    // The buffer holds nodes and is as long as a cleanmarker.
    ghost predicate Loss(l: Level) {
      l.ofs > 0 && addCleanmarkers && l.found && l.ofs == l.markerSize
    }

    lemma LossIs()
      requires Inv() && (nodes == [] ==> dataOfs == 0)
      ensures Loses() <==> Loss(Now())
    {
      hide AllGood, InBuffer;
      if dataOfs == 0 {
        AtZero(Data(), base, nodes, sumList, sumSize, sumNum, e, ebSize);
      }
    }

    // A node with a sound header: take it if its checksums are right.
    method TakeNode(n: Node, ghost limit: nat)
      requires Ready(limit) && UNKNOWN_NODE_SIZE <= |n| <= UINT32_MAX && Long(n, e)
      requires IsData(n, e) && NodeSound(n, e, crc) ==>
               ValidNode(n, e) && Fits(limit, |n|, RecSize(RecOf(n, e, 0)), ebSize)
      requires Get16(n, 2, e) == NODETYPE_CLEANMARKER ==> Pad(|n|) <= limit
      modifies this, dataBuffer
      ensures Ready(limit)
      ensures AllNodes() == old(AllNodes()) + if IsData(n, e) && NodeSound(n, e, crc) then [n] else []
      ensures old(Steady() || (nodes == [] && Get16(n, 2, e) == NODETYPE_CLEANMARKER)) ==> Steady()
      ensures Now() == WithItem(old(Now()), n)
      ensures old(Steady() && Uniform()) ==> Uniform()
      ensures old(nodes == [] && blocks == [] && Get16(n, 2, e) == NODETYPE_CLEANMARKER) ==> Uniform()
    {
      hide Uniform, Now, WithNode, WithMarker, RecordSpace, Inv, Marked, Get16, ValidNode, RecOf, RecSize, Fits,
           NodeSound, Long, NodesOf;
      if IsData(n, e) {
        if NodeSound(n, e, crc) {
          FitsLess(MarkerSize(), limit, |n|, RecordSpace(n), ebSize);
          WriteToBuff(n);
        }
      } else if Get16(n, 2, e) == NODETYPE_CLEANMARKER {
        FoundCleanmarker(|n|);
      }
    }

    // `create_summed_image`: one block of the input.
    method CreateSummedImage(buf: seq<byte>, ghost limit: nat)
      requires Ready(limit) && InputOk(buf, 0, e, crc, limit, ebSize)
      modifies this, dataBuffer
      ensures Ready(limit) && AllNodes() == old(AllNodes()) + Taken(buf, 0, e, crc, limit, ebSize)
      ensures old(Steady() || (nodes == [] && MarkerAt(buf, 0, e, crc))) ==> Steady()
      ensures Now() == Scanned(buf, 0, limit, old(Now()))
      ensures old((Steady() && Uniform()) || (nodes == [] && blocks == [] && MarkerAt(buf, 0, e, crc))) ==> Uniform()
    {
      hide *;
      ghost var before, all := AllNodes(), Taken(buf, 0, e, crc, limit, ebSize);
      var p := 0;
      while p < |buf|
        invariant Ready(limit) && InputOk(buf, p, e, crc, limit, ebSize)
        invariant AllNodes() + Taken(buf, p, e, crc, limit, ebSize) == before + all
        invariant Scanned(buf, p, limit, Now()) == Scanned(buf, 0, limit, old(Now()))
        invariant p == 0 ==>
                    Steady() == old(Steady()) && nodes == old(nodes) && blocks == old(blocks)
                      && Uniform() == old(Uniform())
        invariant p > 0 && old((Steady() && Uniform()) || (nodes == [] && blocks == [] && MarkerAt(buf, 0, e, crc))) ==>
                    Uniform()
        invariant p > 0 && old(Steady() || (nodes == [] && MarkerAt(buf, 0, e, crc))) ==> Steady()
      {
        p := See(buf, p, limit);
      }
      NothingTaken(buf, p, e, crc, limit, ebSize);
      ScannedEnd(buf, p, limit, Now());
    }

    // `main`: all blocks that are read, then the flush. Every sound node of the input is in the output, unless at the
    // end the buffer holds nodes and is taken for empty. It is not if cleanmarkers are wanted from the start or not at
    // all, or if the input starts with one.
    method SumImage(inputs: seq<seq<byte>>, ghost limit: nat) returns (ghost last: Written)
      requires Ready(limit) && AllNodes() == [] && ReadsOk(inputs, e, crc, limit, ebSize)
      modifies this, dataBuffer
      ensures Complete(last) && (NodesOf(blocks) + last.nodes == TakenOf(inputs, e, crc, limit, ebSize) <==> !Loses())
      ensures Loses() ==> last == Written([], [], 0, 0) && AllNodes() == TakenOf(inputs, e, crc, limit, ebSize)
      ensures Loses() <==> Loss(ScannedAll(inputs, limit, old(Now())))
      ensures old(foundCleanmarkers) || !addCleanmarkers || (inputs != [] && MarkerAt(inputs[0], 0, e, crc)) ==>
              !Loses()
      ensures old(blocks) == [] && (old(foundCleanmarkers) || !addCleanmarkers
                                    || (inputs != [] && MarkerAt(inputs[0], 0, e, crc))) ==>
                Uniform() && (last.nodes == [] || last.base == MarkerSize())
    {
      hide Uniform, Now, Scanned, ScannedAll, Loss, Ready, Steady, AllNodes, InputOk, Taken, TakenOf, Loses, Complete,
           MarkerAt;
      StartIs(limit);
      UniformStart();
      NoReads(inputs, e, crc, limit, ebSize);
      ghost var steady, level := Steady(), Now();
      ScannedNone(inputs, limit, level);
      var i := 0;
      while i < |inputs|
        invariant i <= |inputs| && Ready(limit) && ReadsOk(inputs[..i], e, crc, limit, ebSize)
        invariant AllNodes() == TakenOf(inputs[..i], e, crc, limit, ebSize) && (i == 0 ==> nodes == [])
        invariant Now() == ScannedAll(inputs[..i], limit, level)
        invariant steady || (i > 0 && MarkerAt(inputs[0], 0, e, crc)) ==> Steady()
        invariant i == 0 ==> blocks == old(blocks)
        invariant old(blocks) == [] && (steady || (i > 0 && MarkerAt(inputs[0], 0, e, crc))) ==> Uniform()
      {
        ReadsNext(inputs, i, e, crc, limit, ebSize);
        ScannedNext(inputs, i, limit, level);
        CreateSummedImage(inputs[i], limit);
        i := i + 1;
      }
      assert inputs[..i] == inputs;
      ReadyIs(limit);
      LossIs();
      if Steady() {
        MarkedKeeps();
      }
      last := FlushBuffers();
    }

    lemma UniformStart()
      ensures blocks == [] ==> Uniform()
      ensures Steady() ==> Marked()
    {
    }

    lemma StartIs(limit: nat)
      requires Ready(limit) && AllNodes() == []
      ensures nodes == [] && (foundCleanmarkers || !addCleanmarkers ==> Steady())
    {
      hide Inv;
    }

    // (Unfolds the definitions.)
    lemma ReadyIs(limit: nat)
      requires Ready(limit)
      ensures Inv() && (nodes == [] ==> dataOfs == 0) && (Steady() ==> Marked())
    {
      hide Inv;
    }

    // One round of the scan.
    method See(buf: seq<byte>, p: nat, ghost limit: nat) returns (p': nat)
      requires Ready(limit) && InputOk(buf, p, e, crc, limit, ebSize) && p < |buf|
      modifies this, dataBuffer
      ensures Ready(limit) && p < p' && InputOk(buf, p', e, crc, limit, ebSize)
      ensures AllNodes() + Taken(buf, p', e, crc, limit, ebSize) == old(AllNodes())
              + Taken(buf, p, e, crc, limit, ebSize)
      ensures old(Steady() || (nodes == [] && MarkerAt(buf, p, e, crc))) ==> Steady()
      ensures Scanned(buf, p', limit, Now()) == Scanned(buf, p, limit, old(Now()))
      ensures old((Steady() && Uniform()) || (nodes == [] && blocks == [] && MarkerAt(buf, p, e, crc))) ==> Uniform()
    {
      hide Uniform, Now, Scanned, WithItem, Steady, Ready, AllNodes, InputOk, Taken, NodeOk, ValidNode, NodeSound, Long,
           IsData, Fits, NodeAt, HeaderSound, RecOf, RecSize;
      SeeGap(buf, p, e, crc, limit, ebSize);
      ghost var level := Now();
      if !HeaderAt(buf, p, e, crc) {
        ScannedGap(buf, p, limit, level);
      }
      if Get16(buf, p, e) == 0xffff && Get16(buf, p + 2, e) == 0xffff {
        return p + 4;
      }
      if Get16(buf, p, e) != MAGIC_BITMASK {
        return p + 4;
      }
      if !HeaderSound(buf, p, e, crc) {
        return p + 4;
      }
      SeeHeader(buf, p, e, crc, limit, ebSize);
      ScannedItem(buf, p, limit, level);
      ghost var all := AllNodes();
      var n := NodeAt(buf, p, e);
      NodeKind(buf, p, e);
      TakeNode(n, limit);
      p' := p + Stride(buf, p, e);
      ghost var taken, rest := if IsData(n, e) && NodeSound(n, e, crc) then [n] else [],
        Taken(buf, p', e, crc, limit, ebSize);
      assert all + taken + rest == all + (taken + rest);
    }
  }

  // A cleanmarker with a sound header.
  ghost predicate MarkerAt(b: seq<byte>, p: nat, e: Endian, crc: seq<byte> -> Word) {
    p + UNKNOWN_NODE_SIZE <= |b| && HeaderAt(b, p, e, crc) && Accurate(Get16(b, p + 2, e)) == NODETYPE_CLEANMARKER
  }

  lemma NothingTaken(b: seq<byte>, p: nat, e: Endian, crc: seq<byte> -> Word, limit: nat, ebSize: nat)
    requires InputOk(b, p, e, crc, limit, ebSize) && p >= |b|
    ensures Taken(b, p, e, crc, limit, ebSize) == [] && !MarkerAt(b, p, e, crc)
  {
  }

  lemma RoomBound(ofs: nat, sumSize: nat, num: nat, ebSize: nat)
    requires Room(ofs, sumSize, num, ebSize)
    ensures ofs + 40 <= ebSize
  {
  }

  lemma NoWrapAtEnd(ofs: nat, sumSize: nat, num: nat, ebSize: nat)
    requires Room(ofs, sumSize, num, ebSize)
    ensures Unsigned(ofs + RAW_INODE_SIZE + 256) == ofs + RAW_INODE_SIZE + 256
    ensures Unsigned(ebSize - Need(0, 0, sumSize)) == ebSize - Need(0, 0, sumSize) && ofs <= ebSize
    ensures ofs == 0 ==> ofs + RAW_INODE_SIZE + 256 <= ebSize - Need(0, 0, sumSize)
  {
  }

  lemma MarkerFits(marker: nat, ebSize: nat)
    requires Room(marker, 0, 0, ebSize)
    ensures marker + 40 <= ebSize
  {
  }

  lemma AtZero(data: seq<byte>, base: nat, nodes: seq<Node>, recs: seq<Record>, sumSize: nat, sumNum: nat, e: Endian,
               ebSize: nat)
    requires InBuffer(data, base, nodes, recs, sumSize, sumNum, e, ebSize) && data == []
    ensures nodes == [] && base == 0 && recs == [] && sumSize == 0 && sumNum == 0
  {
    if nodes != [] {
      LayoutLast(nodes);
    }
  }

  // The check of `pad_block_if_less_than`: without a flush there is room.
  lemma CheckRoom(ofs: nat, sumSize: nat, num: nat, marker: nat, req: nat, plus: nat, ebSize: nat)
    requires Room(ofs, sumSize, num, ebSize) && Fits(marker, req, plus, ebSize) && Sizes(req, plus)
    ensures Unsigned(ofs + req) <= Unsigned(ebSize - Need(req, plus, sumSize)) ==>
            Room(ofs + Pad(req), sumSize + plus, num + 1, ebSize)
  {
    NoWrap(ofs, sumSize, num, marker, req, plus, ebSize);
    if ofs + req <= ebSize - Need(req, plus, sumSize) {
      RoomFor(ofs, sumSize, num, req, plus, ebSize);
    }
  }

  // `page` is the first `i` records.
  ghost predicate Copied(recs: seq<Record>, i: nat, e: Endian, page: seq<byte>) {
    AllInRange(recs) && i <= |recs| && AllInRange(recs[..i]) && page == RecsBytes(recs[..i], e)
  }

  lemma CopiedStart(recs: seq<Record>, e: Endian)
    requires AllInRange(recs)
    ensures Copied(recs, 0, e, [])
  {
    assert recs[..0] == [];
  }

  lemma CopiedEnd(recs: seq<Record>, e: Endian, page: seq<byte>)
    requires Copied(recs, |recs|, e, page)
    ensures AllInRange(recs) && page == RecsBytes(recs, e) && |page| == TotalSize(recs)
  {
    assert recs[..|recs|] == recs;
  }

  lemma CopiedNext(recs: seq<Record>, i: nat, e: Endian, page: seq<byte>)
    requires Copied(recs, i, e, page) && i < |recs|
    ensures InRange(recs[i]) && |page| + RecSize(recs[i]) <= TotalSize(recs)
    ensures Copied(recs, i + 1, e, page + RecBytes(recs[i], e))
  {
    hide RecsBytes, RecBytes, InRange, RecSize, TotalSize;
    assert recs[..i + 1] == recs[..i] + [recs[i]];
    PrefixSize(recs, i + 1);
    BytesLast(recs[..i], recs[i], e);
  }

  lemma {:induction false} PrefixSize(recs: seq<Record>, i: nat)
    requires i <= |recs|
    ensures TotalSize(recs[..i]) <= TotalSize(recs)
    decreases |recs|
  {
    if i < |recs| {
      PrefixSize(recs[..|recs| - 1], i);
      assert recs[..|recs| - 1][..i] == recs[..i];
    } else {
      assert recs[..i] == recs;
    }
  }

  ghost predicate MagicAt(b: seq<byte>, p: nat, e: Endian)
    requires p + 4 <= |b|
  {
    Get16(b, p, e) == MAGIC_BITMASK
  }

  // The node at `p`, its type made accurate.
  function NodeAt(b: seq<byte>, p: nat, e: Endian): (n: seq<byte>)
    requires p + UNKNOWN_NODE_SIZE <= |b| && p + Get32(b, p + 4, e) <= |b| && UNKNOWN_NODE_SIZE <= Get32(b, p + 4, e)
    ensures |n| == Get32(b, p + 4, e)
  {
    b[p..p + 2] + Put16(Accurate(Get16(b, p + 2, e)), e) + b[p + 4..p + Get32(b, p + 4, e)]
  }

  lemma NodeKind(b: seq<byte>, p: nat, e: Endian)
    requires p + UNKNOWN_NODE_SIZE <= |b| && p + Get32(b, p + 4, e) <= |b| && UNKNOWN_NODE_SIZE <= Get32(b, p + 4, e)
    ensures Get16(NodeAt(b, p, e), 2, e) == Accurate(Get16(b, p + 2, e))
  {
    var kind := Put16(Accurate(Get16(b, p + 2, e)), e);
    assert NodeAt(b, p, e)[2] == kind[0] && NodeAt(b, p, e)[3] == kind[1];
  }

  // The checksum over the header.
  function HeaderSound(b: seq<byte>, p: nat, e: Endian, crc: seq<byte> -> Word): bool
    requires p + UNKNOWN_NODE_SIZE <= |b|
  {
    crc(b[p..p + 2] + Put16(Accurate(Get16(b, p + 2, e)), e) + b[p + 4..p + 8]) == Get32(b, p + 8, e)
  }

  // The other checksums of a node, if its kind has them.
  predicate NodeSound(n: Node, e: Endian, crc: seq<byte> -> Word)
    requires UNKNOWN_NODE_SIZE <= |n| && Long(n, e)
  {
    var t := Get16(n, 2, e);
    if t == NODETYPE_INODE then
      crc(n[..60]) == Get32(n, 64, e) && crc(n[68..68 + Get32(n, 48, e)]) == Get32(n, 60, e)
    else if t == NODETYPE_DIRENT then
      crc(n[..32]) == Get32(n, 32, e) && crc(n[40..40 + n[28] as nat]) == Get32(n, 36, e)
    else if t == NODETYPE_XATTR then
      crc(n[..28]) == Get32(n, 28, e) && crc(n[32..32 + n[21] as nat + 1 + Get16(n, 22, e)]) == Get32(n, 24, e)
    else
      t == NODETYPE_XREF && crc(n[..24]) == Get32(n, 24, e)
  }

  // The node is long enough for what its fields say about it.
  predicate Long(n: Node, e: Endian)
    requires UNKNOWN_NODE_SIZE <= |n|
  {
    var t := Get16(n, 2, e);
    if t == NODETYPE_INODE then RAW_INODE_SIZE <= |n| && RAW_INODE_SIZE + Get32(n, 48, e) <= |n|
    else if t == NODETYPE_DIRENT then RAW_DIRENT_SIZE <= |n| && RAW_DIRENT_SIZE + n[28] as nat <= |n|
    else if t == NODETYPE_XATTR then RAW_XATTR_SIZE <= |n| && RAW_XATTR_SIZE + n[21] as nat + 1 + Get16(n, 22, e) <= |n|
    else if t == NODETYPE_XREF then RAW_XREF_SIZE <= |n|
    else true
  }

  ghost predicate HeaderAt(b: seq<byte>, p: nat, e: Endian, crc: seq<byte> -> Word)
    requires p + 4 <= |b|
  {
    MagicAt(b, p, e) && p + UNKNOWN_NODE_SIZE <= |b| && HeaderSound(b, p, e, crc)
  }

  predicate IsData(n: Node, e: Endian)
    requires UNKNOWN_NODE_SIZE <= |n|
  {
    var t := Get16(n, 2, e);
    t == NODETYPE_INODE || t == NODETYPE_DIRENT || t == NODETYPE_XATTR || t == NODETYPE_XREF
  }

  // How far the scan goes on after position `p`.
  function Stride(b: seq<byte>, p: nat, e: Endian): nat
    requires p + UNKNOWN_NODE_SIZE <= |b|
  {
    if Get16(b, p + 2, e) == 0xffff then 4 else Pad(Get32(b, p + 4, e))
  }

  // What the scan relies on from `p` on: a node with a sound header lies inside the block, is as
  // long as its fields say, and fits the output after a cleanmarker of `limit` bytes.
  ghost predicate InputOk(b: seq<byte>, p: nat, e: Endian, crc: seq<byte> -> Word, limit: nat, ebSize: nat)
    decreases |b| - p
  {
    p >= |b| ||
    (p + 4 <= |b| && (MagicAt(b, p, e) ==> p + UNKNOWN_NODE_SIZE <= |b|)
     && if HeaderAt(b, p, e, crc) then NodeOk(b, p, e, crc, limit, ebSize)
     && InputOk(b, p + Stride(b, p, e), e, crc, limit, ebSize)
        else InputOk(b, p + 4, e, crc, limit, ebSize))
  }

  ghost predicate NodeOk(b: seq<byte>, p: nat, e: Endian, crc: seq<byte> -> Word, limit: nat, ebSize: nat)
    requires p + 4 <= |b| && HeaderAt(b, p, e, crc)
    ensures NodeOk(b, p, e, crc, limit, ebSize) ==> 4 <= Stride(b, p, e)
  {
    && UNKNOWN_NODE_SIZE <= Get32(b, p + 4, e) && p + Get32(b, p + 4, e) <= |b|
    && var n := NodeAt(b, p, e);
      && Long(n, e)
      && (IsData(n, e) && NodeSound(n, e, crc) ==> ValidNode(n, e) && Fits(limit, |n|, RecSize(RecOf(n, e, 0)), ebSize))
      && (Get16(n, 2, e) == NODETYPE_CLEANMARKER ==> Pad(|n|) <= limit)
  }

  // The nodes the scan takes from `p` on.
  ghost function Taken(b: seq<byte>, p: nat, e: Endian, crc: seq<byte> -> Word, limit: nat, ebSize: nat): seq<Node>
    requires InputOk(b, p, e, crc, limit, ebSize)
    decreases |b| - p
  {
    if p >= |b| then []
    else if HeaderAt(b, p, e, crc) then
      var n := NodeAt(b, p, e);
      (if IsData(n, e) && NodeSound(n, e, crc) then [n] else []) + Taken(b, p + Stride(b, p, e), e, crc, limit, ebSize)
    else Taken(b, p + 4, e, crc, limit, ebSize)
  }

  ghost predicate ReadsOk(inputs: seq<seq<byte>>, e: Endian, crc: seq<byte> -> Word, limit: nat, ebSize: nat) {
    forall i :: 0 <= i < |inputs| ==> InputOk(inputs[i], 0, e, crc, limit, ebSize)
  }

  // The nodes taken from all that is read.
  ghost function TakenOf(inputs: seq<seq<byte>>, e: Endian, crc: seq<byte> -> Word, limit: nat, ebSize: nat): seq<Node>
    requires ReadsOk(inputs, e, crc, limit, ebSize)
  {
    if inputs == [] then []
    else TakenOf(inputs[..|inputs| - 1], e, crc, limit, ebSize) + Taken(inputs[|inputs| - 1], 0, e, crc, limit, ebSize)
  }

  lemma NoReads(inputs: seq<seq<byte>>, e: Endian, crc: seq<byte> -> Word, limit: nat, ebSize: nat)
    ensures ReadsOk(inputs[..0], e, crc, limit, ebSize) && TakenOf(inputs[..0], e, crc, limit, ebSize) == []
  {
  }

  lemma ReadsNext(inputs: seq<seq<byte>>, i: nat, e: Endian, crc: seq<byte> -> Word, limit: nat, ebSize: nat)
    requires ReadsOk(inputs, e, crc, limit, ebSize) && i < |inputs|
    ensures InputOk(inputs[i], 0, e, crc, limit, ebSize) && ReadsOk(inputs[..i + 1], e, crc, limit, ebSize)
    ensures ReadsOk(inputs[..i], e, crc, limit, ebSize)
    ensures TakenOf(inputs[..i + 1], e, crc, limit, ebSize) ==
            TakenOf(inputs[..i], e, crc, limit, ebSize) + Taken(inputs[i], 0, e, crc, limit, ebSize)
  {
    hide InputOk, Taken;
    assert inputs[..i + 1][..i] == inputs[..i];
  }

  lemma FitsLess(marker: nat, limit: nat, req: nat, plus: nat, ebSize: nat)
    requires Fits(limit, req, plus, ebSize) && marker <= limit
    ensures Fits(marker, req, plus, ebSize)
  {
  }

  lemma SeeGap(b: seq<byte>, p: nat, e: Endian, crc: seq<byte> -> Word, limit: nat, ebSize: nat)
    requires InputOk(b, p, e, crc, limit, ebSize) && p < |b|
    ensures p + 4 <= |b| && (MagicAt(b, p, e) ==> p + UNKNOWN_NODE_SIZE <= |b|)
    ensures !HeaderAt(b, p, e, crc) ==>
              && InputOk(b, p + 4, e, crc, limit, ebSize)
              && Taken(b, p, e, crc, limit, ebSize) == Taken(b, p + 4, e, crc, limit, ebSize)
  {
  }

  lemma SeeHeader(b: seq<byte>, p: nat, e: Endian, crc: seq<byte> -> Word, limit: nat, ebSize: nat)
    requires InputOk(b, p, e, crc, limit, ebSize) && p + 4 <= |b| && HeaderAt(b, p, e, crc)
    ensures UNKNOWN_NODE_SIZE <= Get32(b, p + 4, e) && p + Get32(b, p + 4, e) <= |b| && 4 <= Stride(b, p, e)
    ensures var n, p' := NodeAt(b, p, e), p + Stride(b, p, e);
      && Long(n, e) && InputOk(b, p', e, crc, limit, ebSize)
      && (IsData(n, e) && NodeSound(n, e, crc) ==> ValidNode(n, e) && Fits(limit, |n|, RecSize(RecOf(n, e, 0)), ebSize))
      && (Get16(n, 2, e) == NODETYPE_CLEANMARKER ==> Pad(|n|) <= limit)
      && Taken(b, p, e, crc, limit, ebSize) ==
         (if IsData(n, e) && NodeSound(n, e, crc) then [n] else []) + Taken(b, p', e, crc, limit, ebSize)
  {
    hide NodeAt, Long, IsData, NodeSound, ValidNode, Fits, Stride;
  }

  // The checksum of the runs below is 0, whatever it is of: so are those in the nodes.
  function XrefNode(): (n: Node)
    ensures |n| == 28 && ValidNode(n, Little) && Get16(n, 2, Little) == NODETYPE_XREF
    ensures Get32(n, 8, Little) == 0 && Get32(n, 24, Little) == 0
  {
    [0x85, 0x19, 0x09, 0xE0, 28, 0, 0, 0] + seq(20, _ => 0)
  }

  function MarkerNode(): (n: Node)
    ensures |n| == 28 && Get16(n, 0, Little) == MAGIC_BITMASK && Get16(n, 2, Little) == NODETYPE_CLEANMARKER
    ensures Get32(n, 4, Little) == 28 && Get32(n, 8, Little) == 0
  {
    [0x85, 0x19, 0x03, 0x20, 28, 0, 0, 0] + seq(20, _ => 0)
  }

  // A block of input: a node, and then a cleanmarker that is as long.
  function LateMarker(): seq<byte> {
    XrefNode() + MarkerNode()
  }

  ghost predicate NoChecksum(crc: seq<byte> -> Word) {
    forall b :: crc(b) == 0
  }

  lemma PutBack(b: seq<byte>, p: nat)
    requires p + 2 <= |b|
    ensures Put16(Get16(b, p, Little), Little) == b[p..p + 2]
  {
  }

  // Where a node of the input is found.
  lemma ItemIs(b: seq<byte>, p: nat, n: Node, crc: seq<byte> -> Word)
    requires In(b, p, n) && |n| >= UNKNOWN_NODE_SIZE && Get16(n, 0, Little) == MAGIC_BITMASK && NoChecksum(crc)
    requires Get32(n, 4, Little) == |n| == Pad(|n|) && Get32(n, 8, Little) == 0
    requires Accurate(Get16(n, 2, Little)) == Get16(n, 2, Little) != 0xffff
    ensures p + UNKNOWN_NODE_SIZE <= |b| && Get32(b, p + 4, Little) == |n|
    ensures HeaderAt(b, p, Little, crc) && NodeAt(b, p, Little) == n && Stride(b, p, Little) == |n|
  {
    ItemFields(b, p, n);
    hide Get16, Get32, Put16, Pad, Accurate, In;
    ThreeParts(b, p, |n|);
    assert HeaderSound(b, p, Little, crc);
  }

  lemma ItemFields(b: seq<byte>, p: nat, n: Node)
    requires In(b, p, n) && |n| >= UNKNOWN_NODE_SIZE
    ensures p + |n| <= |b| && b[p..p + |n|] == n && Put16(Get16(n, 2, Little), Little) == b[p + 2..p + 4]
    ensures Get16(b, p, Little) == Get16(n, 0, Little) && Get16(b, p + 2, Little) == Get16(n, 2, Little)
    ensures Get32(b, p + 4, Little) == Get32(n, 4, Little) && Get32(b, p + 8, Little) == Get32(n, 8, Little)
  {
    hide Get32;
    GetSlice(b, p, |n|, 0, Little);
    GetSlice(b, p, |n|, 2, Little);
    GetSlice(b, p, |n|, 4, Little);
    GetSlice(b, p, |n|, 8, Little);
    PutBack(b, p + 2);
    hide Get16, Put16;
  }

  lemma ThreeParts(b: seq<byte>, p: nat, n: nat)
    requires p + n <= |b| && 4 <= n
    ensures b[p..p + 2] + b[p + 2..p + 4] + b[p + 4..p + n] == b[p..p + n]
  {
  }

  lemma XrefFacts(crc: seq<byte> -> Word)
    requires NoChecksum(crc)
    ensures var n := XrefNode();
      && Long(n, Little) && IsData(n, Little) && NodeSound(n, Little, crc) && RecSize(RecOf(n, Little, 0)) == 6
      && Fits(28, |n|, 6, 0x2000) && Accurate(NODETYPE_XREF) == NODETYPE_XREF && Pad(28) == 28
      && Get16(n, 2, Little) != NODETYPE_CLEANMARKER
  {
    hide XrefNode, Get16, Get32;
  }

  lemma MarkerFacts()
    ensures Long(MarkerNode(), Little) && !IsData(MarkerNode(), Little) && Pad(28) == 28
    ensures Accurate(NODETYPE_CLEANMARKER) == NODETYPE_CLEANMARKER
  {
    hide MarkerNode, Get16, Get32;
  }

  lemma LateMarkerItems(crc: seq<byte> -> Word)
    requires NoChecksum(crc)
    ensures var b := LateMarker();
      && |b| == 56 && HeaderAt(b, 0, Little, crc) && NodeAt(b, 0, Little) == XrefNode() && Stride(b, 0, Little) == 28
      && HeaderAt(b, 28, Little, crc) && NodeAt(b, 28, Little) == MarkerNode() && Stride(b, 28, Little) == 28
      && Get32(b, 4, Little) == 28 && Get32(b, 32, Little) == 28
  {
    var b := LateMarker();
    XrefFacts(crc);
    MarkerFacts();
    XrefMagic();
    hide XrefNode, MarkerNode, ValidNode, HeaderAt, NodeAt, Stride, Get16, Get32, Accurate, Pad, Long, IsData,
         NodeSound, RecOf, RecSize, Fits, NoChecksum;
    assert b[0..28] == XrefNode() && b[28..56] == MarkerNode();
    ItemIs(b, 0, XrefNode(), crc);
    ItemIs(b, 28, MarkerNode(), crc);
  }

  lemma XrefMagic()
    ensures Get16(XrefNode(), 0, Little) == MAGIC_BITMASK && Get32(XrefNode(), 4, Little) == 28
  {
    hide XrefNode;
  }

  // Backwards from the end of a block.
  lemma {:induction false} OkItem(b: seq<byte>, p: nat, e: Endian, crc: seq<byte> -> Word, limit: nat, ebSize: nat)
    requires p < |b| && p + 12 <= |b| && HeaderAt(b, p, e, crc) && NodeOk(b, p, e, crc, limit, ebSize)
    requires InputOk(b, p + Stride(b, p, e), e, crc, limit, ebSize)
    ensures InputOk(b, p, e, crc, limit, ebSize)
  {
    hide HeaderAt, NodeOk, Stride;
  }

  lemma OkEnd(b: seq<byte>, e: Endian, crc: seq<byte> -> Word, limit: nat, ebSize: nat)
    ensures InputOk(b, |b|, e, crc, limit, ebSize) && Taken(b, |b|, e, crc, limit, ebSize) == []
  {
  }

  lemma NodeIsOk(b: seq<byte>, p: nat, n: Node, e: Endian, crc: seq<byte> -> Word, limit: nat, ebSize: nat)
    requires p + 12 <= |b| && HeaderAt(b, p, e, crc) && 12 <= Get32(b, p + 4, e) && p + Get32(b, p + 4, e) <= |b|
    requires NodeAt(b, p, e) == n && Long(n, e) && (Get16(n, 2, e) == NODETYPE_CLEANMARKER ==> Pad(|n|) <= limit)
    requires IsData(n, e) && NodeSound(n, e, crc) ==>
               ValidNode(n, e) && Fits(limit, |n|, RecSize(RecOf(n, e, 0)), ebSize)
    ensures NodeOk(b, p, e, crc, limit, ebSize)
  {
    hide HeaderAt, NodeAt, Long, IsData, NodeSound, ValidNode, Fits, RecOf, RecSize, Get16, Get32;
  }

  lemma LateMarkerOk(crc: seq<byte> -> Word)
    requires NoChecksum(crc)
    ensures var b := LateMarker();
      && |b| == 56 && HeaderAt(b, 0, Little, crc) && HeaderAt(b, 28, Little, crc)
      && NodeOk(b, 0, Little, crc, 28, 0x2000) && NodeOk(b, 28, Little, crc, 28, 0x2000)
      && Get16(MarkerNode(), 2, Little) == NODETYPE_CLEANMARKER && ValidNode(XrefNode(), Little)
  {
    hide *;
    LateMarkerItems(crc);
    XrefFacts(crc);
    MarkerFacts();
    NodeIsOk(LateMarker(), 0, XrefNode(), Little, crc, 28, 0x2000);
    NodeIsOk(LateMarker(), 28, MarkerNode(), Little, crc, 28, 0x2000);
  }

  lemma LateMarkerTaken(crc: seq<byte> -> Word)
    requires NoChecksum(crc)
    ensures var b := LateMarker();
      && InputOk(b, 0, Little, crc, 28, 0x2000) && InputOk(b, 28, Little, crc, 28, 0x2000)
      && InputOk(b, 56, Little, crc, 28, 0x2000) && |b| == 56
      && Taken(b, 0, Little, crc, 28, 0x2000) == [XrefNode()]
  {
    hide *;
    LateMarkerItems(crc);
    LateMarkerOk(crc);
    XrefFacts(crc);
    MarkerFacts();
    var b := LateMarker();
    OkEnd(b, Little, crc, 28, 0x2000);
    OkItem(b, 28, Little, crc, 28, 0x2000);
    OkItem(b, 0, Little, crc, 28, 0x2000);
    SeeHeader(b, 28, Little, crc, 28, 0x2000);
    SeeHeader(b, 0, Little, crc, 28, 0x2000);
    assert [XrefNode()] + [] + [] == [XrefNode()];
  }

  lemma XrefLevel(tool: Sumtool, l: Level)
    requires NoChecksum(tool.crc) && tool.e == Little && tool.ebSize == 0x2000 && l.ofs == 0 && !l.found
    ensures Long(XrefNode(), tool.e) && tool.WithItem(l, XrefNode()) == l.(ofs := 28, sumSize := 6)
  {
    XrefFacts(tool.crc);
    hide XrefNode, Get16, Get32, Long, IsData, NodeSound, RecOf, RecSize, Fits, NoChecksum, ValidNode;
    hide Sumtool.RecordSpace, Need, Unsigned;
  }

  lemma MarkerLevel(tool: Sumtool, l: Level)
    requires tool.e == Little && tool.addCleanmarkers && tool.useInputSize && !l.found
    ensures Long(MarkerNode(), tool.e) && !IsData(MarkerNode(), tool.e)
    ensures tool.WithItem(l, MarkerNode()) == l.(found := true, markerSize := 28)
  {
    MarkerFacts();
    hide MarkerNode, Get16, Get32, Long, IsData, NodeSound;
  }

  // The first cleanmarker is found with the node in the buffer, and the buffer is as long as it says.
  lemma LateMarkerLevel(tool: Sumtool)
    requires NoChecksum(tool.crc) && tool.e == Little && tool.ebSize == 0x2000
    requires tool.addCleanmarkers && tool.useInputSize && InputOk(LateMarker(), 0, Little, tool.crc, 28, 0x2000)
    ensures tool.Scanned(LateMarker(), 0, 28, Level(0, 0, false, UNKNOWN_NODE_SIZE)) == Level(28, 6, true, 28)
    ensures tool.Loss(Level(28, 6, true, 28))
  {
    hide Sumtool.Scanned, Sumtool.WithItem, LateMarker, HeaderAt, NodeAt, Stride, NodeOk, InputOk, Taken;
    hide XrefNode, MarkerNode, Get16, Get32, Accurate, Long, IsData, NodeSound, RecOf, RecSize, Fits, ValidNode;
    var b, l := LateMarker(), Level(0, 0, false, UNKNOWN_NODE_SIZE);
    XrefLevel(tool, l);
    MarkerLevel(tool, Level(28, 6, false, UNKNOWN_NODE_SIZE));
    LateMarkerTaken(tool.crc);
    LateMarkerItems(tool.crc);
    LateMarkerOk(tool.crc);
    tool.ScannedItem(b, 0, 28, l);
    tool.ScannedItem(b, 28, 28, Level(28, 6, false, UNKNOWN_NODE_SIZE));
    tool.ScannedEnd(b, 56, 28, Level(28, 6, true, 28));
  }

  // Such a run exists. The flush takes the buffer for one with nothing but a cleanmarker, and the node is not in the
  // output.
  method LosesNode() returns (tool: Sumtool, ghost last: Written)
    ensures NoChecksum(tool.crc) && ReadsOk([LateMarker()], Little, tool.crc, 28, 0x2000)
    ensures TakenOf([LateMarker()], Little, tool.crc, 28, 0x2000) == [XrefNode()]
    ensures tool.Complete(last) && NodesOf(tool.blocks) + last.nodes == []
  {
    var crc: seq<byte> -> Word := _ => 0;
    tool := new Sumtool(0x2000, Little, crc, true, false, true, false, UNKNOWN_NODE_SIZE);
    assert NoChecksum(tool.crc);
    hide *;
    LateMarkerTaken(tool.crc);
    LateMarkerLevel(tool);
    OneInput(LateMarker(), tool);
    tool.StartsReady(28);
    last := tool.SumImage([LateMarker()], 28);
    tool.LosesIs();
  }

  lemma OneInput(b: seq<byte>, tool: Sumtool)
    requires InputOk(b, 0, tool.e, tool.crc, 28, tool.ebSize)
    ensures ReadsOk([b], tool.e, tool.crc, 28, tool.ebSize)
    ensures TakenOf([b], tool.e, tool.crc, 28, tool.ebSize) == Taken(b, 0, tool.e, tool.crc, 28, tool.ebSize)
    ensures forall l: Level :: tool.ScannedAll([b], 28, l) == tool.Scanned(b, 0, 28, l)
  {
    hide InputOk, Taken, Sumtool.Scanned;
    assert [b][..0] == [];
  }

  lemma LongNode()
    ensures var req, plus := 8132, 18;
      && Pad(req) + Pad(plus + 40) <= 0x2000 && Pad(28) == 28
      && Unsigned(28 + req) <= Unsigned(0x2000 - Need(req, plus, 6)) && 28 + Pad(req) + Pad(6 + plus + 40) > 0x2000
  {
  }

  // The check can be wrong: an inode node of 8132 bytes fits an empty block of 0x2000, but behind the node of 28 bytes
  // the size computed for the summary is beyond the block; nothing is flushed, and there is no room.
  method NoRoomBehind() returns (tool: Sumtool)
    ensures tool.Inv() && tool.nodes == [XrefNode()] && tool.ebSize == 0x2000
    ensures var req, plus := 8132, 18;
      && Pad(req) + Pad(plus + 40) <= tool.ebSize
      && Unsigned(tool.dataOfs + req) <= Unsigned(tool.ebSize - Need(req, plus, tool.sumSize))
      && tool.dataOfs + Pad(req) + Pad(tool.sumSize + plus + 40) > tool.ebSize
  {
    var crc: seq<byte> -> Word := _ => 0;
    tool := new Sumtool(0x2000, Little, crc, true, false, true, false, UNKNOWN_NODE_SIZE);
    assert NoChecksum(tool.crc);
    XrefFacts(tool.crc);
    hide *;
    var n := XrefNode();
    tool.StartsAt(n);
    tool.WriteToBuff(n);
    tool.StartsAt(n);
    LongNode();
  }
}
