/**
 What the image says that `do_endianconvert` writes (external/mtd-utils/jffs2dump.c), read item by item in its own byte
 order beside the one it was made from.
 */
module EndianMirror {
  import opened Jffs2Format
  import opened EndianNodes
  import opened EndianConvert

  // The halves and words at these places are the same, each in its byte order.
  ghost predicate Same(n: seq<byte>, m: seq<byte>, halves: set<nat>, words: set<nat>, e: Endian) {
    && |m| == |n|
    && (forall p :: p in halves ==> p + 2 <= |n| && Get16(m, p, Flip(e)) == Get16(n, p, e))
    && (forall p :: p in words ==> p + 4 <= |n| && Get32(m, p, Flip(e)) == Get32(n, p, e))
  }

  // The word at `p` is the checksum of `b`.
  ghost predicate Checked(m: seq<byte>, p: nat, b: seq<byte>, crc: seq<byte> -> Word, e: Endian)
    requires p + 4 <= |m|
  {
    Get32(m, p, e) == crc(b)
  }

  // The records of a summary, in the order inode, version, offset and length after the type, or length, offset, parent,
  // version and inode, the size and type of the name, and the name; then padding and the two words of the marker.
  ghost predicate SameBody(b: seq<byte>, c: seq<byte>, e: Endian, num: nat) {
    && |c| == |b|
    && if num == 0 then
         |b| >= 8 && c[..|b| - 8] == b[..|b| - 8] && Same(b, c, {}, {|b| - 8, |b| - 4}, e)
       else
         && |b| >= 18
         && match Get16(b, 0, e) {
              case 0xE002 =>
                Same(b[..18], c[..18], {0}, {2, 6, 10, 14}, e) && SameBody(b[18..], c[18..], e, num - 1)
              case 0xE001 =>
                && 24 <= |b| && 24 + b[22] as int <= |b|
                && var w := 24 + b[22] as int;
                  && Same(b[..w], c[..w], {0}, {2, 6, 10, 14, 18}, e) && c[22..w] == b[22..w]
                  && SameBody(b[w..], c[w..], e, num - 1)
              case _ => false
            }
  }

  // An inode node: its fields and data, and the right checksums; that of the data as it was if it is not computed anew.
  ghost predicate SameInode(n: seq<byte>, m: seq<byte>, e: Endian, crc: seq<byte> -> Word, recalc: bool) {
    && |n| >= 68 && Same(n, m, {0, 2}, {4}, e) && Same(n, m, {24, 26, 58}, {12, 16, 20, 28, 32, 36, 40, 44, 52}, e)
    && Same(n, m, {}, {48}, e)
    && 68 + Get32(n, 48, e) <= |n| && m[56..58] == n[56..58] && m[68..] == n[68..]
    && Checked(m, 8, m[..8], crc, Flip(e)) && Checked(m, 64, m[..60], crc, Flip(e))
    && if recalc then Checked(m, 60, n[68..68 + Get32(n, 48, e)], crc, Flip(e)) else Same(n, m, {}, {60}, e)
  }

  ghost predicate SameDirent(n: seq<byte>, m: seq<byte>, e: Endian, crc: seq<byte> -> Word, recalc: bool) {
    && |n| >= 40 && Same(n, m, {0, 2}, {4}, e) && Same(n, m, {}, {12, 16, 20, 24}, e)
    && 40 + n[28] as int <= |n| && m[28..32] == n[28..32] && m[40..] == n[40..]
    && Checked(m, 8, m[..8], crc, Flip(e)) && Checked(m, 32, m[..32], crc, Flip(e))
    && if recalc then Checked(m, 36, n[40..40 + n[28] as int], crc, Flip(e)) else Same(n, m, {}, {36}, e)
  }

  ghost predicate SamePlain(n: seq<byte>, m: seq<byte>, e: Endian, crc: seq<byte> -> Word) {
    |n| >= 12 && Same(n, m, {0, 2}, {4}, e) && m[12..] == n[12..] && Checked(m, 8, m[..8], crc, Flip(e))
  }

  ghost predicate SameSummary(n: seq<byte>, m: seq<byte>, e: Endian, crc: seq<byte> -> Word) {
    && |n| >= 40 && Same(n, m, {0, 2}, {4}, e) && Same(n, m, {}, {12, 16, 20}, e)
    && SameBody(n[32..], m[32..], e, Get32(n, 12, e))
    && Checked(m, 8, m[..8], crc, Flip(e)) && Checked(m, 24, m[32..], crc, Flip(e))
    && Checked(m, 28, m[..24], crc, Flip(e))
  }

  // An image `c` that says in the other byte order what `b` says. Erased words, and the magic with 0xffff behind it,
  // are the same in both, other words that are not the start of a node have the bytes of their halves swapped, and
  // nodes of another type are left out.
  ghost predicate Mirrors(b: seq<byte>, c: seq<byte>, e: Endian, crc: seq<byte> -> Word, recalc: bool)
    decreases |b|
  {
    if b == [] then c == []
    else
      && |b| >= 4
      && var magic, t := Get16(b, 0, e), Get16(b, 2, e);
        if t == 0xffff && magic in [0xffff, 0x1985] then
          |c| >= 4 && c[..4] == b[..4] && Mirrors(b[4..], c[4..], e, crc, recalc)
        else if magic != 0x1985 then
          |c| >= 4 && c[..4] == [b[1], b[0], b[3], b[2]] && Mirrors(b[4..], c[4..], e, crc, recalc)
        else
          && |b| >= 12
          && var w := if t == 0x2006 then Get32(b, 4, e) else Pad(Get32(b, 4, e));
            && 12 <= w <= |b|
            && if t !in [0xE001, 0xE002, 0x2003, 0x2004, 0x2006] then Mirrors(b[w..], c, e, crc, recalc)
               else
                 && w <= |c| && Mirrors(b[w..], c[w..], e, crc, recalc)
                 && match t {
                      case 0xE001 => SameDirent(b[..w], c[..w], e, crc, recalc)
                      case 0xE002 => SameInode(b[..w], c[..w], e, crc, recalc)
                      case 0x2006 => SameSummary(b[..w], c[..w], e, crc)
                      case _ => SamePlain(b[..w], c[..w], e, crc)
                    }
  }

  lemma {:induction false} SumNext(ws: seq<nat>, k: nat)
    requires k < |ws|
    ensures Sum(ws[..0]) == 0 && Sum(ws[..k + 1]) == Sum(ws[..k]) + ws[k]
    decreases k
  {
    if k > 0 {
      SumNext(ws[1..], k - 1);
      assert ws[..k][1..] == ws[1..][..k - 1] && ws[..k + 1][1..] == ws[1..][..k];
    } else {
      assert ws[..1][1..] == [];
    }
  }

  // The `k`th of the fields, which starts at `p`.
  lemma FieldSame(n: seq<byte>, m: seq<byte>, q: nat, ws: seq<nat>, e: Endian, k: nat)
    requires k < |ws| && SameFields(n, m, q, ws, e)
    ensures var p := q + Sum(ws[..k]);
      && p + ws[k] <= |n| == |m| && (ws[k] == 2 ==> Get16(m, p, Flip(e)) == Get16(n, p, e))
      && (ws[k] == 4 ==> Get32(m, p, Flip(e)) == Get32(n, p, e))
    ensures Sum(ws[..0]) == 0 && Sum(ws[..k + 1]) == Sum(ws[..k]) + ws[k]
  {
    hide Sum, Get16, Get32, Flip;
    SumNext(ws, k);
  }

  lemma InodeFields(n: seq<byte>, m: seq<byte>, e: Endian)
    requires SameFields(n, m, 12, INODE_NAMES, e) && SameFields(n, m, 52, INODE_REST, e)
    ensures Same(n, m, {24, 26, 58}, {12, 16, 20, 28, 32, 36, 40, 44, 52}, e)
  {
    hide SameFields, Sum, Get16, Get32, Flip;
    FieldSame(n, m, 12, INODE_NAMES, e, 0);
    FieldSame(n, m, 12, INODE_NAMES, e, 1);
    FieldSame(n, m, 12, INODE_NAMES, e, 2);
    FieldSame(n, m, 12, INODE_NAMES, e, 3);
    FieldSame(n, m, 12, INODE_NAMES, e, 4);
    FieldSame(n, m, 12, INODE_NAMES, e, 5);
    FieldSame(n, m, 12, INODE_NAMES, e, 6);
    FieldSame(n, m, 12, INODE_NAMES, e, 7);
    FieldSame(n, m, 12, INODE_NAMES, e, 8);
    FieldSame(n, m, 12, INODE_NAMES, e, 9);
    FieldSame(n, m, 52, INODE_REST, e, 0);
    FieldSame(n, m, 52, INODE_REST, e, 1);
    FieldSame(n, m, 52, INODE_REST, e, 2);
    FieldSame(n, m, 52, INODE_REST, e, 3);
  }

  lemma DirentFields(n: seq<byte>, m: seq<byte>, e: Endian)
    requires SameFields(n, m, 12, DIRENT_NAMES, e)
    ensures Same(n, m, {}, {12, 16, 20, 24}, e)
  {
    hide SameFields, Sum, Get16, Get32, Flip;
    FieldSame(n, m, 12, DIRENT_NAMES, e, 0);
    FieldSame(n, m, 12, DIRENT_NAMES, e, 1);
    FieldSame(n, m, 12, DIRENT_NAMES, e, 2);
    FieldSame(n, m, 12, DIRENT_NAMES, e, 3);
  }

  lemma SummaryFields(n: seq<byte>, m: seq<byte>, e: Endian)
    requires SameFields(n, m, 12, [4, 4, 4], e)
    ensures Same(n, m, {}, {12, 16, 20}, e)
  {
    hide SameFields, Sum, Get16, Get32, Flip;
    FieldSame(n, m, 12, [4, 4, 4], e, 0);
    FieldSame(n, m, 12, [4, 4, 4], e, 1);
    FieldSame(n, m, 12, [4, 4, 4], e, 2);
  }

  lemma InodeRecordFields(r: seq<byte>, s: seq<byte>, e: Endian)
    requires SameFields(r, s, 0, SUM_INODE, e)
    ensures Same(r, s, {0}, {2, 6, 10, 14}, e)
  {
    hide SameFields, Sum, Get16, Get32, Flip;
    FieldSame(r, s, 0, SUM_INODE, e, 0);
    FieldSame(r, s, 0, SUM_INODE, e, 1);
    FieldSame(r, s, 0, SUM_INODE, e, 2);
    FieldSame(r, s, 0, SUM_INODE, e, 3);
    FieldSame(r, s, 0, SUM_INODE, e, 4);
  }

  lemma DirentRecordFields(r: seq<byte>, s: seq<byte>, e: Endian)
    requires SameFields(r, s, 0, SUM_DIRENT, e)
    ensures Same(r, s, {0}, {2, 6, 10, 14, 18}, e)
  {
    hide SameFields, Sum, Get16, Get32, Flip;
    FieldSame(r, s, 0, SUM_DIRENT, e, 0);
    FieldSame(r, s, 0, SUM_DIRENT, e, 1);
    FieldSame(r, s, 0, SUM_DIRENT, e, 2);
    FieldSame(r, s, 0, SUM_DIRENT, e, 3);
    FieldSame(r, s, 0, SUM_DIRENT, e, 4);
    FieldSame(r, s, 0, SUM_DIRENT, e, 5);
  }

  // (Unfolds the definition.)
  lemma BodyIs(b: seq<byte>, c: seq<byte>, e: Endian, num: nat)
    requires |c| == |b|
    ensures num == 0 ==> (SameBody(b, c, e, num) <==>
      |b| >= 8 && c[..|b| - 8] == b[..|b| - 8] && Same(b, c, {}, {|b| - 8, |b| - 4}, e))
    ensures num > 0 && |b| >= 18 && Get16(b, 0, e) == 0xE002 ==> (SameBody(b, c, e, num) <==>
      Same(b[..18], c[..18], {0}, {2, 6, 10, 14}, e) && SameBody(b[18..], c[18..], e, num - 1))
    ensures num > 0 && |b| >= 24 && Get16(b, 0, e) == 0xE001 && 24 + b[22] as int <= |b| ==>
      var w := 24 + b[22] as int;
      (SameBody(b, c, e, num) <==>
        && Same(b[..w], c[..w], {0}, {2, 6, 10, 14, 18}, e) && c[22..w] == b[22..w]
        && SameBody(b[w..], c[w..], e, num - 1))
  {
  }

  lemma RecordKind(b: seq<byte>, e: Endian)
    requires 0 < RecordLength(b, e) <= |b|
    ensures var w := RecordLength(b, e);
      && 18 <= w && (Get16(b, 0, e) == 0xE001 ==> 24 <= w) && Get16(b[..w], 0, e) == Get16(b, 0, e)
      && (if Get16(b, 0, e) == 0xE002 then w == 18 else Get16(b, 0, e) == 0xE001 && w == 24 + b[22] as int)
  {
    GetSlice(b, 0, RecordLength(b, e), 0, e);
    assert b[0..RecordLength(b, e)] == b[..RecordLength(b, e)];
    hide Get16;
  }

  lemma MarkerSame(b: seq<byte>, e: Endian)
    requires BodyFits(b, e, 0)
    ensures SameBody(b, ConvBody(b, e, 0), e, 0)
  {
    var n := |b|;
    var c := ConvBody(b, e, 0);
    hide Get32, Get16, Swap;
    CutThree8(b[..n - 8], Swap(b[n - 8..n - 4]), Swap(b[n - 4..]));
    WordSame(b, c, n - 8, e);
    WordSame(b, c, n - 4, e);
  }

  lemma CutThree8(x: seq<byte>, y: seq<byte>, z: seq<byte>)
    requires |y| == |z| == 4
    ensures var c := x + y + z; var n := |c|; c[..n - 8] == x && c[n - 8..n - 4] == y && c[n - 4..n] == z
  {
  }

  lemma WordSame(n: seq<byte>, m: seq<byte>, p: nat, e: Endian)
    requires p + 4 <= |n| == |m| && m[p..p + 4] == Swap(n[p..p + 4])
    ensures Get32(m, p, Flip(e)) == Get32(n, p, e)
  {
    SwapTwice(n[p..p + 4]);
    GetSlice(n, p, 4, 0, e);
    GetSlice(m, p, 4, 0, Flip(e));
  }

  // The records of a summary say what they said.
  lemma {:induction false} BodySame(b: seq<byte>, e: Endian, num: nat)
    requires BodyFits(b, e, num)
    ensures SameBody(b, ConvBody(b, e, num), e, num)
    decreases num
  {
    hide *;
    if num == 0 {
      MarkerSame(b, e);
    } else {
      BodyRecord(b, e, num);
      var w := RecordLength(b, e);
      var r, rest := b[..w], b[w..];
      RecordKind(b, e);
      assert b == r + rest;
      BodyCons(r, rest, e, num);
      BodySame(rest, e, num - 1);
      RecordReads(r, e);
      Kinds();
      if Get16(b, 0, e) == 0xE002 {
        InodeRecordFields(r, ConvRecord(r, e), e);
      } else {
        DirentRecordFields(r, ConvRecord(r, e), e);
      }
      CutCat(ConvRecord(r, e), ConvBody(rest, e, num - 1));
      BodyIs(b, ConvBody(b, e, num), e, num);
      assert Get16(b, 0, e) == 0xE001 ==>
        ConvBody(b, e, num)[22..w] == ConvRecord(r, e)[22..] && b[22..w] == r[22..];
    }
  }

  lemma Kinds()
    ensures NODETYPE_INODE == 0xE002 && NODETYPE_DIRENT == 0xE001
    ensures NODETYPE_CLEANMARKER == 0x2003 && NODETYPE_PADDING == 0x2004 && NODETYPE_SUMMARY == 0x2006
    ensures MAGIC_BITMASK == 0x1985
  {
  }

  lemma HeadSame(n: seq<byte>, m: seq<byte>, e: Endian)
    requires SameHead(n, m, e)
    ensures Same(n, m, {0, 2}, {4}, e)
  {
    hide Get16, Get32;
  }

  lemma InodeChecked(m: seq<byte>, e: Endian, crc: seq<byte> -> Word, recalc: bool)
    requires SoundInode(m, e, crc, recalc)
    ensures |m| >= 68 && 68 + Get32(m, 48, e) <= |m| && Checked(m, 8, m[..8], crc, e)
    ensures Checked(m, 64, m[..60], crc, e) && (recalc ==> Checked(m, 60, m[68..][..Get32(m, 48, e)], crc, e))
  {
    hide Sealed, Get32;
    SealIs(m, 8, m[..8], crc, e);
    SealIs(m, 64, m[..60], crc, e);
    SealIs(m, 60, m[68..68 + Get32(m, 48, e)], crc, e);
    assert m[68..68 + Get32(m, 48, e)] == m[68..][..Get32(m, 48, e)];
  }

  // What is left of the parts that were not said yet.
  lemma InodeParts(n: seq<byte>, e: Endian, crc: seq<byte> -> Word, recalc: bool)
    requires InodeFits(n, e)
    ensures var m := ConvInode(n, e, crc, recalc);
      && |m| == |n| >= 68 && 68 + Get32(n, 48, e) <= |n| && m[56..58] == n[56..58] && m[68..] == n[68..]
      && Same(n, m, {}, {48}, e) && (!recalc ==> Same(n, m, {}, {60}, e))
  {
    hide *;
    var m := ConvInode(n, e, crc, recalc);
    InodeRoom(n, e);
    InodeAt(n, e, crc, recalc);
    OneWord(n, m, 48, e);
    PayloadKept(n[60..64], n[68..68 + Get32(n, 48, e)], e, crc);
    if !recalc { OneWord(n, m, 60, e); }
    RestKept(n[52..60]);
    Inner(n);
    Inner(m);
  }

  // (Unfolds the definitions.)
  lemma InodeRoom(n: seq<byte>, e: Endian)
    requires InodeFits(n, e)
    ensures |n| >= 68 && 68 + Get32(n, 48, e) <= |n|
  {
  }

  lemma PayloadKept(stored: seq<byte>, payload: seq<byte>, e: Endian, crc: seq<byte> -> Word)
    requires |stored| == 4
    ensures Payload(stored, payload, false, e, crc) == Swap(stored)
  {
  }

  lemma OneWord(n: seq<byte>, m: seq<byte>, p: nat, e: Endian)
    requires p + 4 <= |n| == |m| && m[p..p + 4] == Swap(n[p..p + 4])
    ensures Same(n, m, {}, {p}, e) && Get32(m, p, Flip(e)) == Get32(n, p, e)
  {
    WordSame(n, m, p, e);
    hide Get32, Get16, Swap;
  }

  lemma Inner(n: seq<byte>)
    requires |n| >= 60
    ensures n[52..60][4..6] == n[56..58]
  {
  }

  // A converted inode node says what it said, with the right checksums.
  lemma InodeSame(n: seq<byte>, e: Endian, crc: seq<byte> -> Word, recalc: bool)
    requires InodeFits(n, e)
    ensures SameInode(n, ConvInode(n, e, crc, recalc), e, crc, recalc)
  {
    hide *;
    var m := ConvInode(n, e, crc, recalc);
    InodeReads(n, e, crc, recalc);
    InodeRepaired(n, e, crc, recalc);
    InodeParts(n, e, crc, recalc);
    InodeFields(n, m, e);
    HeadSame(n, m, e);
    InodeChecked(m, Flip(e), crc, recalc);
    assert n[68..68 + Get32(n, 48, e)] == m[68..][..Get32(n, 48, e)];
    SameInodeIs(n, m, e, crc, recalc);
  }

  // (Unfolds the definition.)
  lemma SameInodeIs(n: seq<byte>, m: seq<byte>, e: Endian, crc: seq<byte> -> Word, recalc: bool)
    requires |n| >= 68 && Same(n, m, {0, 2}, {4}, e)
    requires Same(n, m, {24, 26, 58}, {12, 16, 20, 28, 32, 36, 40, 44, 52}, e)
    requires Same(n, m, {}, {48}, e)
    requires |m| == |n| && 68 + Get32(n, 48, e) <= |n| && m[56..58] == n[56..58] && m[68..] == n[68..]
    requires Checked(m, 8, m[..8], crc, Flip(e)) && Checked(m, 64, m[..60], crc, Flip(e))
    requires if recalc then Checked(m, 60, n[68..68 + Get32(n, 48, e)], crc, Flip(e)) else Same(n, m, {}, {60}, e)
    ensures SameInode(n, m, e, crc, recalc)
  {
    hide Same, Checked, Get32;
  }

  lemma RestKept(b: seq<byte>)
    requires |b| == 8
    ensures SwapFields(b, INODE_REST)[4..6] == b[4..6]
  {
    assert b == b[..4] + ([b[4]] + ([b[5]] + b[6..]));
    FieldsCons(b[..4], [b[4]] + ([b[5]] + b[6..]), INODE_REST);
    FieldsCons([b[4]], [b[5]] + b[6..], [1, 1, 2]);
    FieldsCons([b[5]], b[6..], [1, 2]);
  }

  lemma DirentChecked(m: seq<byte>, e: Endian, crc: seq<byte> -> Word, recalc: bool)
    requires SoundDirent(m, e, crc, recalc)
    ensures |m| >= 40 && 40 + m[28] as int <= |m| && Checked(m, 8, m[..8], crc, e)
    ensures Checked(m, 32, m[..32], crc, e) && (recalc ==> Checked(m, 36, m[40..][..m[28] as int], crc, e))
  {
    hide Sealed, Get32;
    SealIs(m, 8, m[..8], crc, e);
    SealIs(m, 32, m[..32], crc, e);
    SealIs(m, 36, m[40..40 + m[28] as int], crc, e);
    assert m[40..40 + m[28] as int] == m[40..][..m[28] as int];
  }

  lemma DirentParts(n: seq<byte>, e: Endian, crc: seq<byte> -> Word, recalc: bool)
    requires DirentFits(n)
    ensures var m := ConvDirent(n, e, crc, recalc);
      && |m| == |n| >= 40 && 40 + n[28] as int <= |n| && m[28] == n[28] && m[28..32] == n[28..32] && m[40..] == n[40..]
      && (!recalc ==> Same(n, m, {}, {36}, e))
  {
    hide *;
    var m := ConvDirent(n, e, crc, recalc);
    DirentRoom(n);
    DirentAt(n, e, crc, recalc);
    PayloadKept(n[36..40], n[40..40 + n[28] as nat], e, crc);
    if !recalc { OneWord(n, m, 36, e); }
  }

  lemma DirentRoom(n: seq<byte>)
    requires DirentFits(n)
    ensures |n| >= 40 && 40 + n[28] as int <= |n|
  {
  }

  lemma DirentSame(n: seq<byte>, e: Endian, crc: seq<byte> -> Word, recalc: bool)
    requires DirentFits(n)
    ensures SameDirent(n, ConvDirent(n, e, crc, recalc), e, crc, recalc)
  {
    hide *;
    var m := ConvDirent(n, e, crc, recalc);
    DirentReads(n, e, crc, recalc);
    DirentRepaired(n, e, crc, recalc);
    DirentParts(n, e, crc, recalc);
    DirentFields(n, m, e);
    HeadSame(n, m, e);
    DirentChecked(m, Flip(e), crc, recalc);
    assert n[40..40 + n[28] as int] == m[40..][..n[28] as int];
    SameDirentIs(n, m, e, crc, recalc);
  }

  // (Unfolds the definition.)
  lemma SameDirentIs(n: seq<byte>, m: seq<byte>, e: Endian, crc: seq<byte> -> Word, recalc: bool)
    requires |n| >= 40 && Same(n, m, {0, 2}, {4}, e) && Same(n, m, {}, {12, 16, 20, 24}, e)
    requires |m| == |n| && 40 + n[28] as int <= |n| && m[28..32] == n[28..32] && m[40..] == n[40..]
    requires Checked(m, 8, m[..8], crc, Flip(e)) && Checked(m, 32, m[..32], crc, Flip(e))
    requires if recalc then Checked(m, 36, n[40..40 + n[28] as int], crc, Flip(e)) else Same(n, m, {}, {36}, e)
    ensures SameDirent(n, m, e, crc, recalc)
  {
    hide Same, Checked;
  }

  lemma PlainSame(n: seq<byte>, e: Endian, crc: seq<byte> -> Word)
    requires |n| >= 12
    ensures SamePlain(n, ConvPlain(n, e, crc), e, crc)
  {
    var m := ConvPlain(n, e, crc);
    PlainTwice(n, e, crc);
    PlainRepaired(n, e, crc);
    CutCat(ConvHead(n, e, crc), n[12..]);
    hide ConvHead, Get16, Get32, Sealed;
    SealIs(m, 8, m[..8], crc, Flip(e));
  }

  lemma SummaryChecked(m: seq<byte>, e: Endian, crc: seq<byte> -> Word)
    requires SoundSummary(m, e, crc)
    ensures |m| >= 40 && Checked(m, 8, m[..8], crc, e) && Checked(m, 24, m[32..], crc, e)
    ensures Checked(m, 28, m[..24], crc, e)
  {
    hide Sealed, Get32, BodyFits;
    SealIs(m, 8, m[..8], crc, e);
    SealIs(m, 24, m[32..], crc, e);
    SealIs(m, 28, m[..24], crc, e);
  }

  lemma SummaryRoom(n: seq<byte>, e: Endian)
    requires SummaryFits(n, e)
    ensures |n| >= 40 && BodyFits(n[32..], e, Get32(n, 12, e))
  {
  }

  lemma SummarySame(n: seq<byte>, e: Endian, crc: seq<byte> -> Word)
    requires SummaryFits(n, e)
    ensures SameSummary(n, ConvSummary(n, e, crc), e, crc)
  {
    hide *;
    var m := ConvSummary(n, e, crc);
    SummaryRoom(n, e);
    SummaryReads(n, e, crc);
    SummaryRepaired(n, e, crc);
    SummaryFields(n, m, e);
    HeadSame(n, m, e);
    SummaryChecked(m, Flip(e), crc);
    BodySame(n[32..], e, Get32(n, 12, e));
    SameSummaryIs(n, m, e, crc);
  }

  // (Unfolds the definition.)
  lemma SameSummaryIs(n: seq<byte>, m: seq<byte>, e: Endian, crc: seq<byte> -> Word)
    requires |n| >= 40 && Same(n, m, {0, 2}, {4}, e) && Same(n, m, {}, {12, 16, 20}, e) && |m| == |n|
    requires SameBody(n[32..], m[32..], e, Get32(n, 12, e))
    requires Checked(m, 8, m[..8], crc, Flip(e)) && Checked(m, 24, m[32..], crc, Flip(e))
    requires Checked(m, 28, m[..24], crc, Flip(e))
    ensures SameSummary(n, m, e, crc)
  {
    hide Same, Checked, SameBody;
  }

  // The header of an item, read in front of others.
  lemma StartIs(n: seq<byte>, rest: seq<byte>, e: Endian)
    requires |n| >= 4
    ensures Get16(n + rest, 0, e) == Get16(n, 0, e) && Get16(n + rest, 2, e) == Get16(n, 2, e)
    ensures |n| >= 12 ==> Get32(n + rest, 4, e) == Get32(n, 4, e)
  {
    GetSlice(n + rest, 0, |n|, 0, e);
    GetSlice(n + rest, 0, |n|, 2, e);
    GetSlice(n + rest, 0, |n|, 4, e);
    assert (n + rest)[0..|n|] == n;
  }

  // (Unfolds the definitions.)
  lemma ItemIs(n: seq<byte>, e: Endian)
    requires IsItem(n, e)
    ensures |n| >= 4
    ensures var t := Get16(n, 2, e);
      if Get16(n, 0, e) != 0x1985 || t == 0xffff then |n| == 4
      else |n| >= 12 && |n| == if t == 0x2006 then Get32(n, 4, e) else Pad(Get32(n, 4, e))
  {
    assert n[..|n|] == n;
    hide Get16, Get32, InodeFits, DirentFits, SummaryFits, Pad;
  }

  lemma ItemConverted(n: seq<byte>, e: Endian, crc: seq<byte> -> Word, recalc: bool)
    requires IsItem(n, e)
    ensures |n| >= 4
    ensures var magic, t, m := Get16(n, 0, e), Get16(n, 2, e), ConvItem(n, e, crc, recalc);
      if t == 0xffff && magic in [0xffff, 0x1985] then m == n
      else if magic != 0x1985 then |n| == 4 && m == [n[1], n[0], n[3], n[2]]
      else match t
        case 0xE001 => DirentFits(n) && m == ConvDirent(n, e, crc, recalc)
        case 0xE002 => InodeFits(n, e) && m == ConvInode(n, e, crc, recalc)
        case 0x2006 => SummaryFits(n, e) && m == ConvSummary(n, e, crc)
        case _ =>
          if t in [0x2003, 0x2004] then |n| >= 12 && m == ConvPlain(n, e, crc) else m == []
  {
    assert n[..|n|] == n;
    hide Get16, Get32, InodeFits, DirentFits, SummaryFits, Pad, ConvInode, ConvDirent, ConvPlain, ConvSummary;
    if KindOf(n, e) == Kind.Word { WordSwapped(n); }
  }

  lemma WordSwapped(n: seq<byte>)
    requires |n| >= 4
    ensures |n| == 4 ==> Swap(n[..2]) + Swap(n[2..]) == [n[1], n[0], n[3], n[2]]
  {
  }

  // An item that is passed on, and one that is a node, in front of what is mirrored already.
  lemma WordMirrors(n: seq<byte>, m: seq<byte>, b: seq<byte>, c: seq<byte>, e: Endian, crc: seq<byte> -> Word,
                    recalc: bool)
    requires |n| == |m| == 4 && (Get16(n, 0, e) != 0x1985 || Get16(n, 2, e) == 0xffff)
    requires m == if Get16(n, 2, e) == 0xffff && Get16(n, 0, e) in [0xffff, 0x1985] then n
                  else [n[1], n[0], n[3], n[2]]
    requires Mirrors(b, c, e, crc, recalc)
    ensures Mirrors(n + b, m + c, e, crc, recalc)
  {
    StartIs(n, b, e);
    CutCat(n, b);
    CutCat(m, c);
    hide Get16, Get32, SameInode, SameDirent, SamePlain, SameSummary;
  }

  ghost predicate SameNode(n: seq<byte>, m: seq<byte>, e: Endian, crc: seq<byte> -> Word, recalc: bool)
    requires |n| >= 4
  {
    match Get16(n, 2, e)
    case 0xE001 => SameDirent(n, m, e, crc, recalc)
    case 0xE002 => SameInode(n, m, e, crc, recalc)
    case 0x2006 => SameSummary(n, m, e, crc)
    case _ => SamePlain(n, m, e, crc)
  }

  lemma NodeMirrors(n: seq<byte>, m: seq<byte>, b: seq<byte>, c: seq<byte>, e: Endian, crc: seq<byte> -> Word,
                    recalc: bool)
    requires |n| >= 12 && Get16(n, 0, e) == 0x1985 && Get16(n, 2, e) != 0xffff
    requires |n| == if Get16(n, 2, e) == 0x2006 then Get32(n, 4, e) else Pad(Get32(n, 4, e))
    requires if Get16(n, 2, e) in [0xE001, 0xE002, 0x2003, 0x2004, 0x2006]
      then |m| == |n| && SameNode(n, m, e, crc, recalc) else m == []
    requires Mirrors(b, c, e, crc, recalc)
    ensures Mirrors(n + b, m + c, e, crc, recalc)
  {
    StartIs(n, b, e);
    CutCat(n, b);
    CutCat(m, c);
    assert [] + c == c;
    hide Get16, Get32, SameInode, SameDirent, SamePlain, SameSummary, Pad;
  }

  lemma ItemMirrors(n: seq<byte>, b: seq<byte>, c: seq<byte>, e: Endian, crc: seq<byte> -> Word, recalc: bool)
    requires IsItem(n, e) && Mirrors(b, c, e, crc, recalc)
    ensures Mirrors(n + b, ConvItem(n, e, crc, recalc) + c, e, crc, recalc)
  {
    hide *;
    ItemIs(n, e);
    ItemConverted(n, e, crc, recalc);
    var m, t := ConvItem(n, e, crc, recalc), Get16(n, 2, e);
    if Get16(n, 0, e) != 0x1985 || t == 0xffff {
      WordMirrors(n, m, b, c, e, crc, recalc);
    } else {
      if t == 0xE001 { DirentSame(n, e, crc, recalc); }
      if t == 0xE002 { InodeSame(n, e, crc, recalc); }
      if t == 0x2006 { SummarySame(n, e, crc); }
      if t in [0x2003, 0x2004] { PlainSame(n, e, crc); }
      SameNodeIs(n, m, e, crc, recalc);
      NodeMirrors(n, m, b, c, e, crc, recalc);
    }
  }

  // (Unfolds the definition.)
  lemma SameNodeIs(n: seq<byte>, m: seq<byte>, e: Endian, crc: seq<byte> -> Word, recalc: bool)
    requires |n| >= 4
    ensures SameNode(n, m, e, crc, recalc) <==>
      match Get16(n, 2, e)
      case 0xE001 => SameDirent(n, m, e, crc, recalc)
      case 0xE002 => SameInode(n, m, e, crc, recalc)
      case 0x2006 => SameSummary(n, m, e, crc)
      case _ => SamePlain(n, m, e, crc)
  {
  }

  lemma NothingMirrors(e: Endian, crc: seq<byte> -> Word, recalc: bool)
    ensures Mirrors([], [], e, crc, recalc)
  {
  }

  // The image that is written says what the image said.
  lemma {:induction false} ConvertMirrors(b: seq<byte>, e: Endian, crc: seq<byte> -> Word, recalc: bool)
    requires Sized(b, e)
    ensures Mirrors(b, Convert(b, e, crc, recalc), e, crc, recalc)
    decreases |b|
  {
    hide *;
    NothingLeft(e, crc, recalc);
    NothingMirrors(e, crc, recalc);
    if b != [] {
      SizedSplit(b, e);
      var n, rest := b[..Length(b, e)], b[Length(b, e)..];
      SizedCons(n, rest, e, crc, recalc);
      ConvertMirrors(rest, e, crc, recalc);
      ItemMirrors(n, rest, Convert(rest, e, crc, recalc), e, crc, recalc);
    }
  }

  lemma {:induction false} SameBodyFits(b: seq<byte>, c: seq<byte>, e: Endian, num: nat)
    requires SameBody(b, c, e, num)
    ensures BodyFits(b, e, num)
    decreases num
  {
    hide Same, Get16;
    if num > 0 {
      var w := RecordLength(b, e);
      SameBodyFits(b[w..], c[w..], e, num - 1);
    }
  }

  lemma SameNodeFits(n: seq<byte>, m: seq<byte>, e: Endian, crc: seq<byte> -> Word, recalc: bool)
    ensures SameInode(n, m, e, crc, recalc) ==> InodeFits(n, e)
    ensures SameDirent(n, m, e, crc, recalc) ==> DirentFits(n)
    ensures SameSummary(n, m, e, crc) ==> SummaryFits(n, e)
  {
    hide Get32, BodyFits, SameBody, Checked;
    if SameSummary(n, m, e, crc) { SameBodyFits(n[32..], m[32..], e, Get32(n, 12, e)); }
  }

  lemma MirroredNode(n: seq<byte>, e: Endian)
    requires |n| >= 12 && Get16(n, 0, e) == 0x1985 && Get16(n, 2, e) != 0xffff
    requires var t := Get16(n, 2, e);
      && |n| == (if t == 0x2006 then Get32(n, 4, e) else Pad(Get32(n, 4, e))) && (t == 0xE001 ==> DirentFits(n))
      && (t == 0xE002 ==> InodeFits(n, e)) && (t == 0x2006 ==> SummaryFits(n, e))
    ensures IsItem(n, e)
  {
    assert n[..|n|] == n;
    hide Get16, Get32, Pad, InodeFits, DirentFits, SummaryFits;
  }

  lemma MirroredWord(n: seq<byte>, e: Endian)
    requires |n| == 4 && (Get16(n, 0, e) != 0x1985 || Get16(n, 2, e) == 0xffff)
    ensures IsItem(n, e)
  {
    assert n[..|n|] == n;
    hide Get16, Get32;
  }

  // (Unfolds the definition.)
  lemma MirrorsIs(b: seq<byte>, c: seq<byte>, e: Endian, crc: seq<byte> -> Word, recalc: bool)
    requires Mirrors(b, c, e, crc, recalc) && b != []
    ensures |b| >= 4
    ensures var magic, t := Get16(b, 0, e), Get16(b, 2, e);
      if magic != 0x1985 || t == 0xffff then |c| >= 4 && Mirrors(b[4..], c[4..], e, crc, recalc)
      else
        && |b| >= 12
        && var w := if t == 0x2006 then Get32(b, 4, e) else Pad(Get32(b, 4, e));
          && 12 <= w <= |b|
          && if t !in [0xE001, 0xE002, 0x2003, 0x2004, 0x2006] then Mirrors(b[w..], c, e, crc, recalc)
             else
               && w <= |c| && Mirrors(b[w..], c[w..], e, crc, recalc)
               && (t == 0xE001 ==> SameDirent(b[..w], c[..w], e, crc, recalc))
               && (t == 0xE002 ==> SameInode(b[..w], c[..w], e, crc, recalc))
               && (t == 0x2006 ==> SameSummary(b[..w], c[..w], e, crc))
  {
    hide Get16, Get32, SameInode, SameDirent, SamePlain, SameSummary, Pad;
  }

  // How the image was cut for it.
  lemma MirroredItem(b: seq<byte>, c: seq<byte>, e: Endian, crc: seq<byte> -> Word, recalc: bool)
    requires Mirrors(b, c, e, crc, recalc) && b != []
    ensures exists w: nat, d :: 0 < w <= |b| && IsItem(b[..w], e) && Mirrors(b[w..], d, e, crc, recalc)
  {
    hide *;
    MirrorsIs(b, c, e, crc, recalc);
    var t := Get16(b, 2, e);
    if Get16(b, 0, e) != 0x1985 || t == 0xffff {
      assert b == b[..4] + b[4..];
      StartIs(b[..4], b[4..], e);
      MirroredWord(b[..4], e);
      assert Mirrors(b[4..], c[4..], e, crc, recalc);
    } else {
      var w := if t == 0x2006 then Get32(b, 4, e) else Pad(Get32(b, 4, e));
      assert b == b[..w] + b[w..];
      StartIs(b[..w], b[w..], e);
      if w <= |c| { SameNodeFits(b[..w], c[..w], e, crc, recalc); }
      MirroredNode(b[..w], e);
      var d := if t in [0xE001, 0xE002, 0x2003, 0x2004, 0x2006] then c[w..] else c;
      assert Mirrors(b[w..], d, e, crc, recalc);
    }
  }

  // No other images are converted: whatever has a mirror image is one of items from start to end.
  lemma {:induction false} MirroredSized(b: seq<byte>, c: seq<byte>, e: Endian, crc: seq<byte> -> Word, recalc: bool)
    requires Mirrors(b, c, e, crc, recalc)
    ensures Sized(b, e)
    decreases |b|
  {
    hide *;
    NothingLeft(e, crc, recalc);
    if b != [] {
      MirroredItem(b, c, e, crc, recalc);
      var w: nat, d :| 0 < w <= |b| && IsItem(b[..w], e) && Mirrors(b[w..], d, e, crc, recalc);
      MirroredSized(b[w..], d, e, crc, recalc);
      SizedCons(b[..w], b[w..], e, crc, recalc);
      assert b == b[..w] + b[w..];
    }
  }
}
