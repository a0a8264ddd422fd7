/**
 Converting the byte order of a whole JFFS2 image (`do_endianconvert` in
 external/mtd-utils/jffs2dump.c).
 */
module EndianConvert {
  import opened Jffs2Format
  import opened EndianNodes

  const RAW_SUMMARY_SIZE: nat := 32
  const SUM_MARKER_SIZE: nat := 8
  const SUM_INODE: seq<nat> := [2, 4, 4, 4, 4]
  const SUM_DIRENT: seq<nat> := [2, 4, 4, 4, 4, 4]

  // The length of the summary record at the start of `b`; 0 if its type is unknown.
  function RecordLength(b: seq<byte>, e: Endian): nat {
    if |b| >= 18 && Get16(b, 0, e) == NODETYPE_INODE then 18
    else if |b| >= 24 && Get16(b, 0, e) == NODETYPE_DIRENT then 24 + b[22] as nat
    else 0
  }

  function ConvRecord(r: seq<byte>, e: Endian): (s: seq<byte>)
    requires 0 < RecordLength(r, e) <= |r|
    ensures |s| == |r|
  {
    if Get16(r, 0, e) == NODETYPE_INODE then SwapFields(r, SUM_INODE) else SwapFields(r[..22], SUM_DIRENT) + r[22..]
  }

  // The records, the padding after them, and the marker.
  predicate BodyFits(b: seq<byte>, e: Endian, num: nat) {
    if num == 0 then |b| >= SUM_MARKER_SIZE
    else 0 < RecordLength(b, e) <= |b| && BodyFits(b[RecordLength(b, e)..], e, num - 1)
  }

  function ConvBody(b: seq<byte>, e: Endian, num: nat): (r: seq<byte>)
    requires BodyFits(b, e, num)
    ensures |r| == |b|
  {
    if num == 0 then b[..|b| - 8] + Swap(b[|b| - 8..|b| - 4]) + Swap(b[|b| - 4..])
    else
      var w := RecordLength(b, e);
      ConvRecord(b[..w], e) + ConvBody(b[w..], e, num - 1)
  }

  lemma MarkerTwice(b: seq<byte>, e: Endian)
    requires |b| >= SUM_MARKER_SIZE
    ensures ConvBody(ConvBody(b, e, 0), Flip(e), 0) == b
  {
    var n := |b|;
    var c := b[..n - 8] + Swap(b[n - 8..n - 4]) + Swap(b[n - 4..]);
    SwapTwice(b[n - 8..n - 4]);
    SwapTwice(b[n - 4..]);
    hide Swap;
    assert c[..n - 8] == b[..n - 8] && c[n - 8..n - 4] == Swap(b[n - 8..n - 4]) && c[n - 4..] == Swap(b[n - 4..]);
    assert b == b[..n - 8] + b[n - 8..n - 4] + b[n - 4..];
  }

  // The first field of a record, swapped.
  lemma FirstField(r: seq<byte>, ws: seq<nat>, e: Endian)
    requires ws != [] && ws[0] == 2 && |r| >= 2
    ensures Get16(SwapFields(r, ws), 0, Flip(e)) == Get16(r, 0, e)
  {
    assert r == r[..2] + r[2..];
    FieldsCons(r[..2], r[2..], ws);
    SwapTwice(r[..2]);
    GetSlice(r, 0, 2, 0, e);
    assert r[0..2] == r[..2];
  }

  lemma RecordTwice(r: seq<byte>, rest: seq<byte>, e: Endian)
    requires 0 < RecordLength(r, e) == |r|
    ensures var s := ConvRecord(r, e);
      && RecordLength(s + rest, Flip(e)) == |r| && 0 < RecordLength(s, Flip(e)) == |r| && ConvRecord(s, Flip(e)) == r
  {
    var s := ConvRecord(r, e);
    GetSlice(s + rest, 0, |s|, 0, Flip(e));
    assert (s + rest)[0..|s|] == s;
    if Get16(r, 0, e) == NODETYPE_INODE {
      FirstField(r, SUM_INODE, e);
      FieldsTwice(r, SUM_INODE);
      hide SwapFields, Get16;
    } else {
      var front := SwapFields(r[..22], SUM_DIRENT);
      FirstField(r[..22], SUM_DIRENT, e);
      FieldsTwice(r[..22], SUM_DIRENT);
      GetSlice(s, 0, 22, 0, Flip(e));
      GetSlice(r, 0, 22, 0, e);
      assert r[0..22] == r[..22] && s[0..22] == s[..22] == front && s[22..] == r[22..];
      assert s[22] == r[22..][0] == r[22] && (s + rest)[22] == s[22];
      hide SwapFields, Get16;
      assert r == r[..22] + r[22..];
    }
  }

  // A body with its first record.
  lemma BodyCons(s: seq<byte>, y: seq<byte>, e: Endian, num: nat)
    requires num > 0 && 0 < RecordLength(s + y, e) == |s| && 0 < RecordLength(s, e) == |s|
    ensures BodyFits(s + y, e, num) <==> BodyFits(y, e, num - 1)
    ensures BodyFits(y, e, num - 1) ==> ConvBody(s + y, e, num) == ConvRecord(s, e) + ConvBody(y, e, num - 1)
  {
    CutCat(s, y);
  }

  lemma BodyRecord(b: seq<byte>, e: Endian, num: nat)
    requires BodyFits(b, e, num) && num > 0
    ensures 0 < RecordLength(b, e) <= |b| && RecordLength(b[..RecordLength(b, e)], e) == RecordLength(b, e)
  {
    RecordAlone(b, e);
  }

  lemma BodyMarker(b: seq<byte>, e: Endian)
    requires BodyFits(b, e, 0)
    ensures BodyFits(ConvBody(b, e, 0), Flip(e), 0) && ConvBody(ConvBody(b, e, 0), Flip(e), 0) == b
  {
    MarkerTwice(b, e);
  }

  lemma {:induction false} BodyTwice(b: seq<byte>, e: Endian, num: nat)
    requires BodyFits(b, e, num)
    ensures BodyFits(ConvBody(b, e, num), Flip(e), num) && ConvBody(ConvBody(b, e, num), Flip(e), num) == b
    decreases num
  {
    hide *;
    if num == 0 {
      BodyMarker(b, e);
    } else {
      BodyRecord(b, e, num);
      var w := RecordLength(b, e);
      var r, rest := b[..w], b[w..];
      assert b == r + rest;
      BodyCons(r, rest, e, num);
      BodyTwice(rest, e, num - 1);
      RecordTwice(r, ConvBody(rest, e, num - 1), e);
      BodyCons(ConvRecord(r, e), ConvBody(rest, e, num - 1), Flip(e), num);
    }
  }

  lemma RecordAlone(b: seq<byte>, e: Endian)
    requires 0 < RecordLength(b, e) <= |b|
    ensures RecordLength(b[..RecordLength(b, e)], e) == RecordLength(b, e)
  {
    var w := RecordLength(b, e);
    GetSlice(b, 0, w, 0, e);
    assert b[0..w] == b[..w];
    assert w >= 24 ==> b[..w][22] == b[22];
  }

  // A summary node: header, records and marker; its length is not rounded up.
  predicate SummaryFits(n: seq<byte>, e: Endian) {
    |n| >= RAW_SUMMARY_SIZE + SUM_MARKER_SIZE && BodyFits(n[32..], e, Get32(n, 12, e))
  }

  function SummaryFront(n: seq<byte>, e: Endian, crc: seq<byte> -> Word): (r: seq<byte>)
    requires |n| >= RAW_SUMMARY_SIZE
    ensures |r| == 24
  {
    ConvHead(n, e, crc) + Swap(n[12..16]) + Swap(n[16..20]) + Swap(n[20..24])
  }

  function ConvSummary(n: seq<byte>, e: Endian, crc: seq<byte> -> Word): (r: seq<byte>)
    requires SummaryFits(n, e)
    ensures |r| == |n|
  {
    var front, body := SummaryFront(n, e, crc), ConvBody(n[32..], e, Get32(n, 12, e));
    front + Seal(crc, body, Flip(e)) + Seal(crc, front, Flip(e)) + body
  }

  ghost predicate SoundSummary(n: seq<byte>, e: Endian, crc: seq<byte> -> Word) {
    SummaryFits(n, e) && Sealed(n, 8, n[..8], crc, e) && Sealed(n, 24, n[32..], crc, e)
      && Sealed(n, 28, n[..24], crc, e)
  }

  lemma SummaryAt(n: seq<byte>, e: Endian, crc: seq<byte> -> Word)
    requires SummaryFits(n, e)
    ensures var m := ConvSummary(n, e, crc);
      && m[..12] == ConvHead(n, e, crc) && m[12..16] == Swap(n[12..16]) && m[16..20] == Swap(n[16..20])
      && m[20..24] == Swap(n[20..24])
      && m[32..] == ConvBody(n[32..], e, Get32(n, 12, e))
  {
    hide ConvHead, Swap, Seal, ConvBody;
  }

  lemma SummaryFrontTwice(n: seq<byte>, m: seq<byte>, e: Endian, crc: seq<byte> -> Word)
    requires |n| >= RAW_SUMMARY_SIZE && |m| == |n| && m[..12] == ConvHead(n, e, crc)
    requires m[12..16] == Swap(n[12..16]) && m[16..20] == Swap(n[16..20]) && m[20..24] == Swap(n[20..24])
    ensures SummaryFront(m, Flip(e), crc) == n[..8] + Seal(crc, n[..8], e) + n[12..24] && SameHead(n, m, e)
    ensures Get32(m, 12, Flip(e)) == Get32(n, 12, e)
  {
    hide ConvHead, Seal, Get16, Get32, Swap;
    HeadTwice(n, m, e, crc);
    SwapTwice(n[12..16]);
    SwapTwice(n[16..20]);
    SwapTwice(n[20..24]);
    GetSlice(n, 12, 4, 0, e);
    GetSlice(m, 12, 4, 0, Flip(e));
    assert n[12..24] == n[12..16] + n[16..20] + n[20..24];
  }

  // A reader of the other byte order finds the fields of the summary's header ...
  lemma SummaryReads(n: seq<byte>, e: Endian, crc: seq<byte> -> Word)
    requires SummaryFits(n, e)
    ensures var m := ConvSummary(n, e, crc);
      SameHead(n, m, e) && SameFields(n, m, 12, [4, 4, 4], e) && m[32..] == ConvBody(n[32..], e, Get32(n, 12, e))
  {
    hide ConvHead, Seal, SummaryFront, SameHead, SameFields, Get16, Get32, Swap, ConvBody, BodyFits, SwapFields;
    var m := ConvSummary(n, e, crc);
    SummaryAt(n, e, crc);
    SummaryFrontTwice(n, m, e, crc);
    ThreeWords(n[12..16], n[16..20], n[20..24]);
    assert n[12..24] == n[12..16] + n[16..20] + n[20..24] && m[12..24] == m[12..16] + m[16..20] + m[20..24];
    SwappedFields(n, m, 12, [4, 4, 4], e);
  }

  lemma ThreeWords(x: seq<byte>, y: seq<byte>, z: seq<byte>)
    requires |x| == |y| == |z| == 4
    ensures Sum([4, 4, 4]) == 12 && SwapFields(x + y + z, [4, 4, 4]) == Swap(x) + Swap(y) + Swap(z)
  {
    assert x + y + z == x + (y + z) && z == z + [];
    FieldsCons(x, y + z, [4, 4, 4]);
    FieldsCons(y, z, [4, 4]);
    FieldsCons(z, [], [4]);
    hide Swap;
  }

  // ... and of each record, with the name of a dirent.
  lemma RecordReads(r: seq<byte>, e: Endian)
    requires 0 < RecordLength(r, e) == |r|
    ensures var s := ConvRecord(r, e);
      if Get16(r, 0, e) == NODETYPE_INODE then SameFields(r, s, 0, SUM_INODE, e)
      else SameFields(r, s, 0, SUM_DIRENT, e) && s[22..] == r[22..]
  {
    var s := ConvRecord(r, e);
    Records();
    hide SwapFields, SameFields, Get16, Sum;
    if Get16(r, 0, e) == NODETYPE_INODE {
      assert r[0..18] == r && s[0..18] == s;
      SwappedFields(r, s, 0, SUM_INODE, e);
    } else {
      assert r[0..22] == r[..22] && s[0..22] == SwapFields(r[..22], SUM_DIRENT);
      SwappedFields(r, s, 0, SUM_DIRENT, e);
    }
  }

  lemma Records()
    ensures Sum(SUM_INODE) == 18 && Sum(SUM_DIRENT) == 22
  {
    assert Sum([4, 4, 4]) == 12 && Sum([4, 4, 4, 4]) == 16;
    assert SUM_INODE[2..] == [4, 4, 4] && SUM_DIRENT[2..] == [4, 4, 4, 4];
  }

  // Twice gives a summary node back exactly when its checksums were right.
  lemma SummaryTwice(n: seq<byte>, e: Endian, crc: seq<byte> -> Word)
    requires SummaryFits(n, e)
    ensures var m := ConvSummary(n, e, crc);
      SameHead(n, m, e) && SummaryFits(m, Flip(e)) && (ConvSummary(m, Flip(e), crc) == n <==> SoundSummary(n, e, crc))
  {
    hide ConvHead, Seal, Sealed, SameHead, SummaryFront, Get16, Get32, Swap, ConvBody, BodyFits;
    var m := ConvSummary(n, e, crc);
    SummaryAt(n, e, crc);
    SummaryFrontTwice(n, m, e, crc);
    BodyTwice(n[32..], e, Get32(n, 12, e));
    var front := SummaryFront(m, Flip(e), crc);
    var h, s, t := Seal(crc, n[..8], e), Seal(crc, n[32..], e), Seal(crc, front, e);
    FlipTwice(e);
    assert ConvSummary(m, Flip(e), crc) == front + s + t + n[32..];
    Resealed(n, h, 24, s, t, front);
    assert h == n[8..12] ==> front == n[..24];
    IsSealed(n, 8, n[..8], crc, e);
    IsSealed(n, 24, n[32..], crc, e);
    IsSealed(n, 28, n[..24], crc, e);
  }

  // What is at the start of `b`: a word that is passed on, or a node.
  datatype Kind = Empty | Word | Odd | Inode | Dirent | Plain | Summary | Dropped

  // `Odd` is a word that has the magic but the node type 0xffff.
  function KindOf(b: seq<byte>, e: Endian): Kind
    requires |b| >= 4
  {
    var magic, t := Get16(b, 0, e), Get16(b, 2, e);
    if magic == 0xffff && t == 0xffff then Empty
    else if magic != MAGIC_BITMASK then Kind.Word
    else if t == NODETYPE_INODE then Inode
    else if t == NODETYPE_DIRENT then Dirent
    else if t == NODETYPE_CLEANMARKER || t == NODETYPE_PADDING then Plain
    else if t == NODETYPE_SUMMARY then Kind.Summary
    else if t == 0xffff then Odd
    else Dropped
  }

  // How many bytes it takes; more than there are if there is no room for a header.
  function Length(b: seq<byte>, e: Endian): nat
    requires |b| >= 4
  {
    match KindOf(b, e)
    case Empty => 4
    case Word => 4
    case Odd => 4
    case Summary => if |b| < 12 then |b| + 1 else Get32(b, 4, e)
    case _ => if |b| < 12 then |b| + 1 else Pad(Get32(b, 4, e))
  }

  // It lies inside the image, with all that is read of it.
  predicate ItemFits(b: seq<byte>, e: Endian) {
    && |b| >= 4 && Length(b, e) <= |b|
    && var n := b[..Length(b, e)];
      match KindOf(b, e)
      case Empty => true
      case Word => true
      case Odd => true
      case Inode => InodeFits(n, e)
      case Dirent => DirentFits(n)
      case Plain => |n| >= 12
      case Summary => SummaryFits(n, e)
      case Dropped => |n| >= 12
  }

  // ... just it.
  predicate IsItem(n: seq<byte>, e: Endian) {
    ItemFits(n, e) && Length(n, e) == |n|
  }

  // What is written for it.
  function ConvItem(n: seq<byte>, e: Endian, crc: seq<byte> -> Word, recalc: bool): seq<byte>
    requires IsItem(n, e)
  {
    assert n[..|n|] == n;
    match KindOf(n, e)
    case Empty => n
    case Word => Swap(n[..2]) + Swap(n[2..])
    case Odd => n
    case Inode => ConvInode(n, e, crc, recalc)
    case Dirent => ConvDirent(n, e, crc, recalc)
    case Plain => ConvPlain(n, e, crc)
    case Summary => ConvSummary(n, e, crc)
    case Dropped => []
  }

  // Nodes of a known kind with the right checksums, and words that do not look like nodes.
  ghost predicate ItemGood(n: seq<byte>, e: Endian, crc: seq<byte> -> Word, recalc: bool)
    requires |n| >= 4
  {
    match KindOf(n, e)
    case Empty => true
    case Word => true
    case Odd => false
    case Inode => SoundInode(n, e, crc, recalc)
    case Dirent => SoundDirent(n, e, crc, recalc)
    case Plain => |n| >= 12 && Sealed(n, 8, n[..8], crc, e)
    case Summary => SoundSummary(n, e, crc)
    case Dropped => false
  }

  lemma SameStart(b: seq<byte>, n: seq<byte>, e: Endian)
    requires n <= b && |n| >= 4
    ensures KindOf(n, e) == KindOf(b, e) && (|n| >= 12 ==> Length(n, e) == Length(b, e))
  {
    assert b == n + b[|n|..];
    GetSlice(b, 0, |n|, 0, e);
    GetSlice(b, 0, |n|, 2, e);
    GetSlice(b, 0, |n|, 4, e);
    assert b[0..|n|] == n;
  }

  // The item at the start, by itself.
  lemma ItemAlone(b: seq<byte>, e: Endian)
    requires ItemFits(b, e)
    ensures IsItem(b[..Length(b, e)], e) && 4 <= Length(b, e) && KindOf(b[..Length(b, e)], e) == KindOf(b, e)
  {
    var n := b[..Length(b, e)];
    SameStart(b, n, e);
    assert n[..|n|] == n;
    hide InodeFits, DirentFits, SummaryFits, Get16, Get32;
    ItemLong(b, e);
  }

  lemma ItemLong(b: seq<byte>, e: Endian)
    requires ItemFits(b, e)
    ensures Length(b, e) == 4 || Length(b, e) >= 12
  {
    hide Get16, Get32;
  }

  // An item in front of others.
  lemma ItemFirst(m: seq<byte>, rest: seq<byte>, e: Endian)
    requires IsItem(m, e)
    ensures ItemFits(m + rest, e) && Length(m + rest, e) == |m| && (m + rest)[..|m|] == m && (m + rest)[|m|..] == rest
  {
    CutCat(m, rest);
    SameStart(m + rest, m, e);
    assert m[..|m|] == m;
    hide InodeFits, DirentFits, SummaryFits, Get16, Get32;
    ItemLong(m, e);
  }

  // The word that is passed on with its halves swapped.
  lemma WordTwice(n: seq<byte>, e: Endian)
    requires |n| == 4
    ensures var m := Swap(n[..2]) + Swap(n[2..]);
      && Get16(m, 0, Flip(e)) == Get16(n, 0, e) && Get16(m, 2, Flip(e)) == Get16(n, 2, e)
      && Swap(m[..2]) + Swap(m[2..]) == n
  {
    assert n == [n[0], n[1], n[2], n[3]];
  }

  // Read in the other byte order, the magic is not the magic.
  lemma MagicTurned(n: seq<byte>, e: Endian)
    requires |n| == 4 && KindOf(n, e) == Odd
    ensures KindOf(n, Flip(e)) == Kind.Word && Swap(n[..2]) + Swap(n[2..]) != n
  {
    assert Swap(n[..2]) == [n[1], n[0]];
    assert (Swap(n[..2]) + Swap(n[2..]))[0] == n[1];
  }

  // Kind and length follow from the header.
  lemma HeadKind(n: seq<byte>, m: seq<byte>, e: Endian)
    requires SameHead(n, m, e)
    ensures KindOf(m, Flip(e)) == KindOf(n, e) && Length(m, Flip(e)) == Length(n, e)
  {
    hide Get16, Get32;
  }

  // Converting one item twice: it is the same kind and length again, and it is given back exactly
  // when its checksums were right; a node of an unknown type is gone.
  lemma ItemTwice(n: seq<byte>, e: Endian, crc: seq<byte> -> Word, recalc: bool)
    requires IsItem(n, e)
    ensures var m := ConvItem(n, e, crc, recalc);
      if KindOf(n, e) == Dropped then m == []
      else
        && IsItem(m, Flip(e)) && KindOf(m, Flip(e)) != Dropped && |m| == |n|
        && (ConvItem(m, Flip(e), crc, recalc) == n <==> ItemGood(n, e, crc, recalc))
  {
    hide ConvInode, ConvDirent, ConvPlain, ConvSummary, SoundInode, SoundDirent, SoundSummary, InodeFits, DirentFits,
         SummaryFits;
    hide Swap, Get16, Get32, Sealed, SameHead;
    var m := ConvItem(n, e, crc, recalc);
    assert n[..|n|] == n && m[..|m|] == m;
    match KindOf(n, e)
    case Empty => FullTurned(n, e);
    case Word => WordTwice(n, e);
    case Odd => MagicTurned(n, e);
    case Inode => InodeTwice(n, e, crc, recalc); HeadKind(n, m, e);
    case Dirent => DirentTwice(n, e, crc, recalc); HeadKind(n, m, e);
    case Plain => PlainTwice(n, e, crc); HeadKind(n, m, e);
    case Summary => SummaryTwice(n, e, crc); HeadKind(n, m, e);
    case Dropped =>
  }

  lemma FullTurned(n: seq<byte>, e: Endian)
    requires |n| >= 4 && Get16(n, 0, e) == 0xffff && Get16(n, 2, e) == 0xffff
    ensures Get16(n, 0, Flip(e)) == 0xffff && Get16(n, 2, Flip(e)) == 0xffff
  {
  }

  // An image that is items from start to end.
  predicate Sized(b: seq<byte>, e: Endian) {
    b == [] || (ItemFits(b, e) && 0 < Length(b, e) && Sized(b[Length(b, e)..], e))
  }

  // The image that is written.
  function Convert(b: seq<byte>, e: Endian, crc: seq<byte> -> Word, recalc: bool): (r: seq<byte>)
    requires Sized(b, e)
  {
    if b == [] then []
    else
      var w := Length(b, e);
      ItemAlone(b, e);
      ConvItem(b[..w], e, crc, recalc) + Convert(b[w..], e, crc, recalc)
  }

  ghost predicate AllGood(b: seq<byte>, e: Endian, crc: seq<byte> -> Word, recalc: bool)
    requires Sized(b, e)
  {
    b == [] || (ItemGood(b[..Length(b, e)], e, crc, recalc) && AllGood(b[Length(b, e)..], e, crc, recalc))
  }

  // How much of the image is left where each item starts.
  function Left(b: seq<byte>, e: Endian): (s: seq<nat>)
    requires Sized(b, e)
  {
    if b == [] then [] else [|b|] + Left(b[Length(b, e)..], e)
  }

  lemma SizedCons(m: seq<byte>, rest: seq<byte>, e: Endian, crc: seq<byte> -> Word, recalc: bool)
    requires IsItem(m, e) && Sized(rest, e)
    ensures Sized(m + rest, e)
    ensures Convert(m + rest, e, crc, recalc) == ConvItem(m, e, crc, recalc) + Convert(rest, e, crc, recalc)
    ensures AllGood(m + rest, e, crc, recalc) <==> ItemGood(m, e, crc, recalc) && AllGood(rest, e, crc, recalc)
    ensures Left(m + rest, e) == [|m + rest|] + Left(rest, e)
  {
    hide ItemFits, ConvItem, ItemGood;
    ItemFirst(m, rest, e);
    ItemLengths(m, e);
  }

  lemma ItemLengths(m: seq<byte>, e: Endian)
    requires IsItem(m, e)
    ensures |m| >= 4
  {
  }

  // An image, taken apart at its first item.
  lemma SizedSplit(b: seq<byte>, e: Endian)
    requires Sized(b, e) && b != []
    ensures 4 <= Length(b, e) <= |b| && IsItem(b[..Length(b, e)], e) && Sized(b[Length(b, e)..], e)
    ensures b == b[..Length(b, e)] + b[Length(b, e)..]
  {
    ItemAlone(b, e);
  }

  lemma SplitEqual(x: seq<byte>, y: seq<byte>, x': seq<byte>, y': seq<byte>)
    requires |x| == |x'|
    ensures x + y == x' + y' <==> x == x' && y == y'
  {
    CutCat(x, y);
    CutCat(x', y');
  }

  lemma NothingLeft(e: Endian, crc: seq<byte> -> Word, recalc: bool)
    ensures Sized([], e) && Convert([], e, crc, recalc) == [] && AllGood([], e, crc, recalc) && Left([], e) == []
  {
  }

  lemma DroppedIsBad(n: seq<byte>, e: Endian, crc: seq<byte> -> Word, recalc: bool)
    requires |n| >= 4 && KindOf(n, e) == Dropped
    ensures !ItemGood(n, e, crc, recalc)
  {
  }

  // Converting an image twice: what is written is items again, never more than there was, and converting
  // it back gives the image exactly when every node is of a known kind with the right checksums; then
  // the items have also kept their places.
  lemma {:induction false} ConvertTwice(b: seq<byte>, e: Endian, crc: seq<byte> -> Word, recalc: bool)
    requires Sized(b, e)
    ensures var c := Convert(b, e, crc, recalc);
      && Sized(c, Flip(e)) && |c| <= |b|
      && (Convert(c, Flip(e), crc, recalc) == b <==> AllGood(b, e, crc, recalc))
      && |Convert(c, Flip(e), crc, recalc)| <= |c|
      && (AllGood(b, e, crc, recalc) ==> |c| == |b| && Left(c, Flip(e)) == Left(b, e))
    decreases |b|
  {
    hide *;
    NothingLeft(e, crc, recalc);
    NothingLeft(Flip(e), crc, recalc);
    if b != [] {
      SizedSplit(b, e);
      var n, rest := b[..Length(b, e)], b[Length(b, e)..];
      ItemLengths(n, e);
      SizedCons(n, rest, e, crc, recalc);
      var m, c := ConvItem(n, e, crc, recalc), Convert(rest, e, crc, recalc);
      ConvertTwice(rest, e, crc, recalc);
      ItemTwice(n, e, crc, recalc);
      if KindOf(n, e) == Dropped {
        DroppedIsBad(n, e, crc, recalc);
        assert m + c == c;
      } else {
        SizedCons(m, c, Flip(e), crc, recalc);
        ItemTwice(m, Flip(e), crc, recalc);
        SplitEqual(ConvItem(m, Flip(e), crc, recalc), Convert(c, Flip(e), crc, recalc), n, rest);
      }
    }
  }

  lemma PlainRepaired(n: seq<byte>, e: Endian, crc: seq<byte> -> Word)
    requires |n| >= 12
    ensures var m := ConvPlain(n, e, crc); Sealed(m, 8, m[..8], crc, Flip(e))
  {
    hide ConvHead, Sealed;
    var m := ConvPlain(n, e, crc);
    assert m[..12] == ConvHead(n, e, crc);
    HeadSealed(n, m, e, crc);
  }

  lemma SummaryRepaired(n: seq<byte>, e: Endian, crc: seq<byte> -> Word)
    requires SummaryFits(n, e)
    ensures SoundSummary(ConvSummary(n, e, crc), Flip(e), crc)
  {
    hide ConvHead, Seal, Sealed, SummaryFront, SameHead, Swap, ConvBody, BodyFits, Get32, Get16;
    var m := ConvSummary(n, e, crc);
    SummaryTwice(n, e, crc);
    SummaryAt(n, e, crc);
    HeadSealed(n, m, e, crc);
    assert m[..24] == SummaryFront(n, e, crc);
    IsSealed(m, 24, m[32..], crc, Flip(e));
    IsSealed(m, 28, m[..24], crc, Flip(e));
  }

  lemma ItemRepaired(n: seq<byte>, e: Endian, crc: seq<byte> -> Word, recalc: bool)
    requires IsItem(n, e) && KindOf(n, e) != Dropped
    ensures |ConvItem(n, e, crc, recalc)| >= 4 && ItemGood(ConvItem(n, e, crc, recalc), Flip(e), crc, recalc)
  {
    hide ConvInode, ConvDirent, ConvPlain, ConvSummary, SoundInode, SoundDirent, SoundSummary, InodeFits, DirentFits,
         SummaryFits;
    hide Swap, Get16, Get32, Sealed, SameHead;
    var m := ConvItem(n, e, crc, recalc);
    assert n[..|n|] == n;
    match KindOf(n, e)
    case Empty => FullTurned(n, e);
    case Word => WordTwice(n, e);
    case Odd => MagicTurned(n, e);
    case Inode => InodeTwice(n, e, crc, recalc); HeadKind(n, m, e); InodeRepaired(n, e, crc, recalc);
    case Dirent => DirentTwice(n, e, crc, recalc); HeadKind(n, m, e); DirentRepaired(n, e, crc, recalc);
    case Plain => PlainTwice(n, e, crc); HeadKind(n, m, e); PlainRepaired(n, e, crc);
    case Summary => SummaryTwice(n, e, crc); HeadKind(n, m, e); SummaryRepaired(n, e, crc);
  }

  // Whatever the image was, what is written for it has only known nodes with the right checksums ...
  lemma {:induction false} ConvertRepairs(b: seq<byte>, e: Endian, crc: seq<byte> -> Word, recalc: bool)
    requires Sized(b, e)
    ensures var c := Convert(b, e, crc, recalc); Sized(c, Flip(e)) && AllGood(c, Flip(e), crc, recalc)
    decreases |b|
  {
    hide *;
    NothingLeft(e, crc, recalc);
    NothingLeft(Flip(e), crc, recalc);
    if b != [] {
      SizedSplit(b, e);
      var n, rest := b[..Length(b, e)], b[Length(b, e)..];
      ItemLengths(n, e);
      SizedCons(n, rest, e, crc, recalc);
      var m, c := ConvItem(n, e, crc, recalc), Convert(rest, e, crc, recalc);
      ConvertRepairs(rest, e, crc, recalc);
      ItemTwice(n, e, crc, recalc);
      if KindOf(n, e) == Dropped {
        assert m + c == c;
      } else {
        ItemRepaired(n, e, crc, recalc);
        SizedCons(m, c, Flip(e), crc, recalc);
      }
    }
  }

  // ... so that there and back again from it is nothing lost.
  lemma ThereAndBack(b: seq<byte>, e: Endian, crc: seq<byte> -> Word, recalc: bool)
    requires Sized(b, e)
    ensures var c := Convert(b, e, crc, recalc); Sized(c, Flip(e)) && var d := Convert(c, Flip(e), crc, recalc);
      Sized(d, e) && Convert(d, e, crc, recalc) == c
  {
    hide *;
    var c := Convert(b, e, crc, recalc);
    ConvertRepairs(b, e, crc, recalc);
    ConvertTwice(c, Flip(e), crc, recalc);
    FlipTwice(e);
  }
}
