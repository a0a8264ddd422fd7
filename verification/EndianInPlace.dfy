/**
 The conversion loop of `do_endianconvert` (external/mtd-utils/jffs2dump.c): a pointer moves over
 the image in memory, whose summary records are swapped where they stand, and the new image is written out.
 */
module EndianInPlace {
  import opened Jffs2Format
  import opened EndianNodes
  import opened EndianConvert

  // `b` with `r` in place of what was at `p`.
  function Splice(b: seq<byte>, p: nat, r: seq<byte>): (s: seq<byte>)
    requires p + |r| <= |b|
    ensures |s| == |b| && s[..p] == b[..p] && s[p..p + |r|] == r && s[p + |r|..] == b[p + |r|..]
  {
    b[..p] + r + b[p + |r|..]
  }

  lemma SpliceOn(b: seq<byte>, p: nat, x: seq<byte>, y: seq<byte>)
    requires p + |x| + |y| <= |b|
    ensures Splice(Splice(b, p, x), p + |x|, y) == Splice(b, p, x + y)
  {
  }

  // What is behind the splice is as it was.
  lemma SpliceBehind(b: seq<byte>, p: nat, x: seq<byte>, q: nat)
    requires p + |x| <= q <= |b|
    ensures Splice(b, p, x)[p + |x|..q] == b[p + |x|..q] && Splice(b, p, x)[q..] == b[q..]
  {
    assert Splice(b, p, x)[p + |x|..q] == Splice(b, p, x)[p + |x|..][..q - p - |x|];
    assert Splice(b, p, x)[q..] == Splice(b, p, x)[p + |x|..][q - p - |x|..];
    assert b[q..] == b[p + |x|..][q - p - |x|..];
  }

  lemma SpliceLater(d: seq<byte>, p: nat, x: seq<byte>, y: seq<byte>)
    requires p + |x| + |y| <= |d| && d[p..p + |x|] == x
    ensures Splice(d, p + |x|, y) == Splice(d, p, x + y)
  {
    assert d[..p + |x|] == d[..p] + x;
  }

  lemma SliceHead(d: seq<byte>, q: nat, end: nat, w: nat)
    requires q + w <= end <= |d|
    ensures d[q..end][..w] == d[q..q + w] && d[q..end][w..] == d[q + w..end]
  {
  }

  lemma JoinBody(x: seq<byte>, y: seq<byte>, z: seq<byte>)
    ensures x + (y + z) == (x + y) + z
  {
  }

  lemma SpliceSame(d: seq<byte>, p: nat, w: nat)
    requires p + w <= |d|
    ensures Splice(d, p, d[p..p + w]) == d
  {
  }

  lemma SpliceNone(b: seq<byte>, p: nat)
    requires p <= |b|
    ensures Splice(b, p, []) == b
  {
  }

  method SwapField(data: array<byte>, p: nat, w: nat)
    requires p + w <= data.Length && w in [2, 4]
    modifies data
    ensures data[..] == Splice(old(data[..]), p, Swap(old(data[p..p + w])))
  {
    ghost var d := data[..];
    if w == 2 {
      data[p], data[p + 1] := data[p + 1], data[p];
    } else {
      data[p], data[p + 1], data[p + 2], data[p + 3] := data[p + 3], data[p + 2], data[p + 1], data[p];
    }
    assert data[..] == d[..p] + Swap(d[p..p + w]) + d[p + w..];
  }

  // The assignments to the fields of one record, in turn.
  method SwapRecord(data: array<byte>, p: nat, end: nat, ws: seq<nat>)
    requires p + Sum(ws) <= end <= data.Length && forall i :: 0 <= i < |ws| ==> ws[i] in [2, 4]
    modifies data
    ensures data[..] == Splice(old(data[..]), p, SwapFields(old(data[p..end]), ws))
    decreases |ws|
  {
    hide Splice, Swap, SwapFields;
    ghost var d, b := data[..], data[p..end];
    if ws == [] {
      FieldsNone(b);
      SpliceSame(d, p, end - p);
      return;
    }
    FieldsSplit(b, ws);
    SwapField(data, p, ws[0]);
    assert b[..ws[0]] == d[p..p + ws[0]] && b[ws[0]..] == d[p + ws[0]..end];
    SpliceBehind(d, p, Swap(b[..ws[0]]), end);
    SwapRecord(data, p + ws[0], end, ws[1..]);
    SpliceOn(d, p, Swap(b[..ws[0]]), SwapFields(b[ws[0]..], ws[1..]));
  }

  lemma FieldsNone(b: seq<byte>)
    ensures SwapFields(b, []) == b
  {
  }

  // A record of each type.
  lemma RecordIs(b: seq<byte>, e: Endian)
    requires 0 < RecordLength(b, e) <= |b|
    ensures |b| >= 18
    ensures Get16(b, 0, e) == NODETYPE_INODE ==>
              RecordLength(b, e) == 18 && ConvRecord(b[..18], e) == SwapFields(b[..18], SUM_INODE)
    ensures Get16(b, 0, e) != NODETYPE_INODE ==>
              && |b| >= 24 && Get16(b, 0, e) == NODETYPE_DIRENT && RecordLength(b, e) == 24 + b[22] as nat
              && ConvRecord(b[..RecordLength(b, e)], e) == SwapFields(b[..22], SUM_DIRENT) + b[22..RecordLength(b, e)]
  {
    var w := RecordLength(b, e);
    RecordAlone(b, e);
    GetSlice(b, 0, w, 0, e);
    assert b[0..w] == b[..w];
    if Get16(b, 0, e) != NODETYPE_INODE {
      assert b[..w][..22] == b[..22] && b[..w][22..] == b[22..w];
    }
  }

  lemma SpliceLonger(d: seq<byte>, p: nat, r: seq<byte>, w: nat)
    requires |r| <= w && p + w <= |d|
    ensures Splice(d, p, r) == Splice(d, p, r + d[p + |r|..p + w])
  {
    assert d[p + |r|..] == d[p + |r|..p + w] + d[p + w..];
  }

  // One record of the summary: swapped, and stepped over.
  method SwapOne(data: array<byte>, q: nat, end: nat, e: Endian) returns (w: nat)
    requires q <= end <= data.Length && 0 < RecordLength(data[q..end], e) <= end - q
    modifies data
    ensures w == RecordLength(old(data[q..end]), e) && q + w <= end
    ensures data[..] == Splice(old(data[..]), q, ConvRecord(old(data[q..q + w]), e))
  {
    hide Splice, Swap, SwapFields, RecordLength, ConvRecord, Get16, Get32, Sum, BodyFits, Field, Flip;
    ghost var d, b := data[..], data[q..end];
    RecordIs(b, e);
    Records();
    GetSlice(d, q, end - q, 0, e);
    assert b == d[q..q + (end - q)];
    if Get16(data[..], q, e) == NODETYPE_INODE {
      assert data[q..q + 18] == b[..18];
      SwapRecord(data, q, q + 18, SUM_INODE);
      w := 18;
    } else {
      assert data[q..q + 22] == b[..22];
      w := 24 + data[q + 22] as nat;
      assert d[q..q + w] == b[..w] && d[q + 22..q + w] == b[22..w];
      SwapRecord(data, q, q + 22, SUM_DIRENT);
      SpliceLonger(d, q, SwapFields(b[..22], SUM_DIRENT), w);
    }
  }

  lemma BodySteps(b: seq<byte>, e: Endian, num: nat)
    requires BodyFits(b, e, num)
    ensures num == 0 ==> |b| >= 8
    ensures num > 0 ==>
      && 0 < RecordLength(b, e) <= |b| && BodyFits(b[RecordLength(b, e)..], e, num - 1)
      && RecordLength(b[..RecordLength(b, e)], e) == RecordLength(b, e)
      && ConvBody(b, e, num) == ConvRecord(b[..RecordLength(b, e)], e) + ConvBody(b[RecordLength(b, e)..], e, num - 1)
  {
    if num > 0 { RecordAlone(b, e); }
  }

  lemma BodyEnd(d: seq<byte>, q: nat, end: nat, e: Endian)
    requires q + 8 <= end <= |d|
    ensures BodyFits(d[q..end], e, 0)
    ensures d[end - 8..end - 4] == d[q..end][end - q - 8..end - q - 4] && d[end - 4..end] == d[q..end][end - q - 4..]
    ensures Splice(Splice(d, end - 8, Swap(d[end - 8..end - 4])), end - 4, Swap(d[end - 4..end]))
            == Splice(d, q, ConvBody(d[q..end], e, 0))
  {
    hide Splice, Swap;
    var b := d[q..end];
    var n := |b|;
    var x, y := Swap(b[n - 8..n - 4]), Swap(b[n - 4..]);
    SliceHead(d, q, end, n - 8);
    assert d[end - 8..end][..4] == d[end - 8..end - 4] && d[end - 8..end][4..] == d[end - 4..end];
    assert b[n - 8..][..4] == b[n - 8..n - 4] && b[n - 8..][4..] == b[n - 4..];
    SpliceOn(d, end - 8, x, y);
    SpliceLater(d, q, b[..n - 8], x + y);
    assert b[..n - 8] + x + y == b[..n - 8] + (x + y);
  }

  // The records up to `q` are swapped, `left` are still to come.
  ghost predicate Swapping(d: seq<byte>, p: nat, end: nat, e: Endian, num: nat, now: seq<byte>, q: nat, left: nat) {
    && p <= q <= end <= |d| == |now| && BodyFits(d[p..end], e, num)
    && now == Splice(d, p, now[p..q]) && BodyFits(d[q..end], e, left)
    && now[p..q] + ConvBody(d[q..end], e, left) == ConvBody(d[p..end], e, num)
  }

  lemma SwapStart(d: seq<byte>, p: nat, end: nat, e: Endian, num: nat)
    requires p <= end <= |d| && BodyFits(d[p..end], e, num)
    ensures Swapping(d, p, end, e, num, d, p, num)
  {
    SpliceNone(d, p);
    assert d[p..p] == [];
  }

  lemma SwapAhead(d: seq<byte>, p: nat, end: nat, e: Endian, num: nat, now: seq<byte>, q: nat, left: nat)
    requires Swapping(d, p, end, e, num, now, q, left)
    ensures p <= q <= end <= |now| && now[q..end] == d[q..end] && BodyFits(now[q..end], e, left)
  {
    SpliceBehind(d, p, now[p..q], end);
  }

  lemma SwapStep(d: seq<byte>, p: nat, end: nat, e: Endian, num: nat, now: seq<byte>, q: nat, left: nat)
    requires Swapping(d, p, end, e, num, now, q, left) && left > 0
    ensures var b := now[q..end]; var w := RecordLength(b, e);
      && 0 < w <= |b| && now[q..q + w] == b[..w]
      && Swapping(d, p, end, e, num, Splice(now, q, ConvRecord(now[q..q + w], e)), q + w, left - 1)
  {
    hide RecordLength, ConvRecord, Splice, ConvBody, BodyFits;
    SwapAhead(d, p, end, e, num, now, q, left);
    var b := now[q..end];
    BodySteps(b, e, left);
    var w := RecordLength(b, e);
    SliceHead(now, q, end, w);
    SliceHead(d, q, end, w);
    var r := ConvRecord(b[..w], e);
    SpliceOn(d, p, now[p..q], r);
    JoinBody(now[p..q], r, ConvBody(d[q + w..end], e, left - 1));
    var next := Splice(now, q, r);
    assert next[p..q + w] == next[..q][p..] + next[q..q + w] == now[p..q] + r;
  }

  lemma SwapEnd(d: seq<byte>, p: nat, end: nat, e: Endian, num: nat, now: seq<byte>, q: nat)
    requires Swapping(d, p, end, e, num, now, q, 0)
    ensures q + 8 <= end && var half := Splice(now, end - 8, Swap(now[end - 8..end - 4]));
      Splice(half, end - 4, Swap(half[end - 4..end])) == Splice(d, p, ConvBody(d[p..end], e, num))
  {
    hide Splice, ConvBody, BodyFits, Swap;
    SwapAhead(d, p, end, e, num, now, q, 0);
    BodySteps(now[q..end], e, 0);
    BodyEnd(now, q, end, e);
    SpliceBehind(now, end - 8, Swap(now[end - 8..end - 4]), end);
    SpliceOn(d, p, now[p..q], ConvBody(d[q..end], e, 0));
  }

  // The records one by one, over the padding, and the marker.
  method SwapBody(data: array<byte>, p: nat, end: nat, num: nat, e: Endian)
    requires p <= end <= data.Length && BodyFits(data[p..end], e, num)
    modifies data
    ensures data[..] == Splice(old(data[..]), p, ConvBody(old(data[p..end]), e, num))
  {
    hide *;
    ghost var d := data[..];
    assert data[p..end] == d[p..end];
    var q, i := p, 0;
    SwapStart(d, p, end, e, num);
    while i < num
      invariant 0 <= i <= num && p <= q <= end && Swapping(d, p, end, e, num, data[..], q, num - i)
    {
      ghost var now := data[..];
      SwapStep(d, p, end, e, num, now, q, num - i);
      assert data[q..end] == now[q..end];
      var w := SwapOne(data, q, end, e);
      q, i := q + w, i + 1;
    }
    ghost var now := data[..];
    SwapEnd(d, p, end, e, num, now, q);
    q := end - 8;
    assert data[q..q + 4] == now[end - 8..end - 4];
    SwapField(data, q, 4);
    ghost var half := data[..];
    assert data[q + 4..end] == half[end - 4..end];
    SwapField(data, q + 4, 4);
  }

  // What an item leaves in memory: a summary has its records and marker swapped.
  function InMemory(n: seq<byte>, e: Endian): (r: seq<byte>)
    requires IsItem(n, e)
    ensures |r| == |n|
  {
    assert n[..|n|] == n;
    if KindOf(n, e) == Kind.Summary then n[..32] + ConvBody(n[32..], e, Get32(n, 12, e)) else n
  }

  function Memory(b: seq<byte>, e: Endian): (r: seq<byte>)
    requires Sized(b, e)
    ensures |r| == |b|
  {
    if b == [] then []
    else
      ItemAlone(b, e);
      InMemory(b[..Length(b, e)], e) + Memory(b[Length(b, e)..], e)
  }

  lemma SummaryParts(n: seq<byte>, e: Endian, crc: seq<byte> -> Word, recalc: bool)
    requires IsItem(n, e) && KindOf(n, e) == Kind.Summary
    ensures |n| >= 40 && |n| >= RAW_SUMMARY_SIZE && BodyFits(n[32..], e, Get32(n, 12, e))
    ensures var front, body := SummaryFront(n, e, crc), ConvBody(n[32..], e, Get32(n, 12, e));
      && ConvItem(n, e, crc, recalc) == front + Seal(crc, body, Flip(e)) + Seal(crc, front, Flip(e)) + body
      && InMemory(n, e) == n[..32] + body
  {
    assert n[..|n|] == n;
  }

  // A summary node: its records are swapped in place before they are summed up and written out.
  method ConvertSummary(data: array<byte>, p: nat, end: nat, e: Endian, crc: seq<byte> -> Word, ghost recalc: bool)
    returns (out: seq<byte>)
    requires p <= end <= data.Length && IsItem(data[p..end], e) && KindOf(data[p..end], e) == Kind.Summary
    modifies data
    ensures out == ConvItem(old(data[p..end]), e, crc, recalc)
    ensures data[..] == Splice(old(data[..]), p, InMemory(old(data[p..end]), e))
  {
    hide *;
    ghost var d := data[..];
    var n := data[p..end];
    SummaryParts(n, e, crc, recalc);
    ghost var body := ConvBody(n[32..], e, Get32(n, 12, e));
    var front := SummaryFront(n, e, crc);
    assert d[p..p + 32] == n[..32] && data[p + 32..end] == n[32..];
    SwapBody(data, p + 32, end, Get32(n, 12, e), e);
    assert data[p + 32..end] == data[..][p + 32..p + 32 + |body|] == body;
    out := front + Seal(crc, data[p + 32..end], Flip(e)) + Seal(crc, front, Flip(e)) + data[p + 32..end];
    SpliceLater(d, p, n[..32], body);
  }

  // Which item is where the pointer is, and what is written for it.
  lemma ItemIs(b: seq<byte>, e: Endian, crc: seq<byte> -> Word, recalc: bool)
    requires ItemFits(b, e)
    ensures 4 <= Length(b, e) <= |b| && IsItem(b[..Length(b, e)], e) && KindOf(b[..Length(b, e)], e) == KindOf(b, e)
    ensures var n := b[..Length(b, e)]; var out := ConvItem(n, e, crc, recalc);
      && (KindOf(b, e) != Kind.Summary ==> InMemory(n, e) == n)
      && match KindOf(b, e)
         case Empty => |n| == 4 && out == n
         case Word => |n| == 4 && out == Swap(n[..2]) + Swap(n[2..])
         case Odd => |n| == 4 && out == n
         case Inode => |b| >= 12 && |n| == Pad(Get32(b, 4, e)) && InodeFits(n, e) && out == ConvInode(n, e, crc, recalc)
         case Dirent => |b| >= 12 && |n| == Pad(Get32(b, 4, e)) && DirentFits(n) && out == ConvDirent(n, e, crc, recalc)
         case Plain => |b| >= 12 && |n| == Pad(Get32(b, 4, e)) >= 12 && out == ConvPlain(n, e, crc)
         case Summary => |b| >= 12 && |n| == Get32(b, 4, e)
         case Dropped => |b| >= 12 && |n| == Pad(Get32(b, 4, e)) && out == []
  {
    ItemAlone(b, e);
    hide ConvInode, ConvDirent, ConvPlain, ConvSummary, InodeFits, DirentFits, SummaryFits, Swap, Get16, Get32;
    var n := b[..Length(b, e)];
    assert n[..|n|] == n;
  }

  lemma KindIs(b: seq<byte>, e: Endian)
    requires |b| >= 4
    ensures var magic, t := Get16(b, 0, e), Get16(b, 2, e);
      KindOf(b, e) ==
        if magic == 0xffff && t == 0xffff then Empty
        else if magic != MAGIC_BITMASK then Kind.Word
        else if t == NODETYPE_INODE then Inode
        else if t == NODETYPE_DIRENT then Dirent
        else if t == NODETYPE_CLEANMARKER || t == NODETYPE_PADDING then Plain
        else if t == NODETYPE_SUMMARY then Kind.Summary
        else if t == 0xffff then Odd
        else Dropped
  {
  }

  // What stands at the pointer is written out converted, and stepped over.
  method ConvertItem(data: array<byte>, p: nat, e: Endian, crc: seq<byte> -> Word, recalc: bool)
    returns (out: seq<byte>, w: nat)
    requires p <= data.Length && ItemFits(data[p..], e)
    modifies data
    ensures w == Length(old(data[p..]), e) && 0 < w <= data.Length - p
    ensures IsItem(old(data[p..p + w]), e) && out == ConvItem(old(data[p..p + w]), e, crc, recalc)
    ensures data[..] == Splice(old(data[..]), p, InMemory(old(data[p..p + w]), e))
  {
    hide *;
    var b := data[p..];
    ghost var d := data[..];
    ItemIs(b, e, crc, recalc);
    KindIs(b, e);
    w := Length(b, e);
    var n := b[..w];
    assert d[p..] == b && data[p..p + w] == d[p..p + w] == n;
    SpliceSame(d, p, w);
    var magic, t := Get16(b, 0, e), Get16(b, 2, e);
    if magic == 0xffff && t == 0xffff {
      out := n;
    } else if magic != MAGIC_BITMASK {
      out := Swap(n[..2]) + Swap(n[2..]);
    } else if t == NODETYPE_INODE {
      out := ConvInode(n, e, crc, recalc);
    } else if t == NODETYPE_DIRENT {
      out := ConvDirent(n, e, crc, recalc);
    } else if t == NODETYPE_CLEANMARKER || t == NODETYPE_PADDING {
      out := ConvPlain(n, e, crc);
    } else if t == NODETYPE_SUMMARY {
      out := ConvertSummary(data, p, p + w, e, crc, recalc);
    } else if t == 0xffff {
      out := n;
    } else {
      out := [];
    }
  }

  // The image up to `p` is written out as `out`.
  ghost predicate Converting(d: seq<byte>, e: Endian, crc: seq<byte> -> Word, recalc: bool, now: seq<byte>, p: nat,
                             out: seq<byte>) {
    && p <= |d| == |now| && Sized(d, e) && Sized(d[p..], e) && now[p..] == d[p..]
    && out + Convert(d[p..], e, crc, recalc) == Convert(d, e, crc, recalc)
    && now[..p] + Memory(d[p..], e) == Memory(d, e)
  }

  lemma ConvertingAt(d: seq<byte>, e: Endian, crc: seq<byte> -> Word, recalc: bool, now: seq<byte>, p: nat,
                     out: seq<byte>)
    requires Converting(d, e, crc, recalc, now, p, out) && p < |d|
    ensures p < |now| && ItemFits(now[p..], e) && Length(now[p..], e) <= |now| - p
    ensures IsItem(now[p..p + Length(now[p..], e)], e)
  {
    hide *;
    ConvertingIs(d, e, crc, recalc, now, p, out);
    var b := d[p..];
    assert b != [];
    SizedSplit(b, e);
    SizedFits(b, e);
    assert b[..Length(b, e)] == now[p..p + Length(b, e)];
  }

  lemma ConvertingStep(d: seq<byte>, e: Endian, crc: seq<byte> -> Word, recalc: bool, now: seq<byte>, p: nat,
                       out: seq<byte>, n: seq<byte>)
    requires Converting(d, e, crc, recalc, now, p, out) && p < |d| == |now|
    requires IsItem(n, e) && p + |n| <= |now| && n == now[p..p + |n|] && |n| == Length(now[p..], e)
    ensures Converting(d, e, crc, recalc, Splice(now, p, InMemory(n, e)), p + |n|, out + ConvItem(n, e, crc, recalc))
  {
    hide *;
    ConvertingIs(d, e, crc, recalc, now, p, out);
    var b := d[p..];
    assert b != [];
    SizedSplit(b, e);
    var rest := b[|n|..];
    assert rest == d[p + |n|..] == now[p + |n|..] && b == n + rest;
    SizedCons(n, rest, e, crc, recalc);
    MemoryCons(n, rest, e);
    var next := Splice(now, p, InMemory(n, e));
    assert next[..p + |n|] == next[..p] + next[p..p + |n|] == now[..p] + InMemory(n, e);
    JoinBody(out, ConvItem(n, e, crc, recalc), Convert(rest, e, crc, recalc));
    JoinBody(now[..p], InMemory(n, e), Memory(rest, e));
    ConvertingIs(d, e, crc, recalc, next, p + |n|, out + ConvItem(n, e, crc, recalc));
  }

  lemma MemoryCons(m: seq<byte>, rest: seq<byte>, e: Endian)
    requires IsItem(m, e) && Sized(rest, e)
    ensures Sized(m + rest, e) && Memory(m + rest, e) == InMemory(m, e) + Memory(rest, e)
  {
    hide ItemFits, InMemory;
    ItemFirst(m, rest, e);
    ItemLengths(m, e);
  }

  lemma SizedFits(b: seq<byte>, e: Endian)
    requires Sized(b, e) && b != []
    ensures ItemFits(b, e)
  {
  }

  // (Unfolds the definition.)
  lemma ConvertingIs(d: seq<byte>, e: Endian, crc: seq<byte> -> Word, recalc: bool, now: seq<byte>, p: nat,
                     out: seq<byte>)
    ensures Converting(d, e, crc, recalc, now, p, out) <==>
      && p <= |d| == |now| && Sized(d, e) && Sized(d[p..], e) && now[p..] == d[p..]
      && out + Convert(d[p..], e, crc, recalc) == Convert(d, e, crc, recalc)
      && now[..p] + Memory(d[p..], e) == Memory(d, e)
  {
  }

  lemma ConvertingEnds(d: seq<byte>, e: Endian, crc: seq<byte> -> Word, recalc: bool, now: seq<byte>, out: seq<byte>)
    requires Sized(d, e)
    ensures Converting(d, e, crc, recalc, d, 0, [])
    ensures Converting(d, e, crc, recalc, now, |d|, out) ==> out == Convert(d, e, crc, recalc) && now == Memory(d, e)
  {
    hide ItemFits, Length, ConvItem, InMemory;
    assert d[0..] == d && d[..0] == [];
    if Converting(d, e, crc, recalc, now, |d|, out) {
      assert d[|d|..] == [] && now[..|d|] == now;
    }
  }

  // The whole image: what is written is its conversion.
  method DoEndianConvert(data: array<byte>, e: Endian, crc: seq<byte> -> Word, recalc: bool) returns (out: seq<byte>)
    requires Sized(data[..], e)
    modifies data
    ensures out == Convert(old(data[..]), e, crc, recalc)
    ensures data[..] == Memory(old(data[..]), e)
  {
    hide *;
    ghost var d := data[..];
    var p := 0;
    out := [];
    ConvertingEnds(d, e, crc, recalc, d, []);
    while p < data.Length
      invariant p <= data.Length && Converting(d, e, crc, recalc, data[..], p, out)
    {
      ghost var now := data[..];
      ConvertingAt(d, e, crc, recalc, now, p, out);
      assert data[p..] == now[p..];
      var bytes, w := ConvertItem(data, p, e, crc, recalc);
      ConvertingStep(d, e, crc, recalc, now, p, out, now[p..p + w]);
      p, out := p + w, out + bytes;
    }
    ConvertingEnds(d, e, crc, recalc, data[..], out);
  }
}
