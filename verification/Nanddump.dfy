/**
 The dump loop of nanddump (external/mtd-utils/nanddump.c) in `skipbad` mode without OOB data,
 and what it gives back of an image written by nandwrite.
 */
module Nanddump {
  import opened Arithmetic
  import opened Jffs2Format
  import opened NandFlash
  import Nandwrite

  // Up to a multiple of the page size.
  function RoundUp(n: nat, page: nat): nat
    requires 0 < page
  {
    n + Missing(n, page)
  }

  // What a dump of `length` bytes (0: of the whole device) from block `lo` on must be: that many
  // bytes, in whole pages, of the good blocks, or all there are.
  function Dumped(blocks: seq<Block>, bad: set<nat>, lo: nat, length: nat, page: nat): seq<byte>
    requires 0 < page
  {
    var g := Good(blocks, bad, lo, |blocks|);
    if length == 0 || RoundUp(length, page) >= |g| then g else g[..RoundUp(length, page)]
  }

  function Least(a: nat, b: nat): nat {
    if a < b then a else b
  }

  // The dump has come to byte `r` of block `cur`, `skipped` bytes were in bad blocks.
  ghost predicate Dumping(blocks: seq<Block>, bad: set<nat>, lo: nat, cur: nat, r: nat, out: seq<byte>) {
    && lo <= cur <= |blocks| && (r > 0 ==> cur < |blocks| && cur !in bad && r <= |blocks[cur]|)
    && out == Good(blocks, bad, lo, cur) + if r > 0 then blocks[cur][..r] else []
  }

  lemma DumpingPrefix(blocks: seq<Block>, bad: set<nat>, lo: nat, cur: nat, r: nat, out: seq<byte>)
    requires Dumping(blocks, bad, lo, cur, r, out)
    ensures out <= Good(blocks, bad, lo, |blocks|)
    ensures r == 0 && cur == |blocks| ==> out == Good(blocks, bad, lo, |blocks|)
  {
    if r > 0 {
      StoredAt(blocks, bad, lo, cur, r);
    } else {
      StoredBefore(blocks, bad, lo, cur);
    }
  }

  lemma DumpingStart(blocks: seq<Block>, bad: set<nat>, lo: nat)
    requires lo <= |blocks|
    ensures Dumping(blocks, bad, lo, lo, 0, [])
  {
  }

  lemma DumpingSkip(blocks: seq<Block>, bad: set<nat>, lo: nat, cur: nat, out: seq<byte>)
    requires Dumping(blocks, bad, lo, cur, 0, out) && cur < |blocks| && cur in bad
    ensures Dumping(blocks, bad, lo, cur + 1, 0, out)
  {
  }

  lemma DumpingPage(blocks: seq<Block>, bad: set<nat>, lo: nat, cur: nat, r: nat, out: seq<byte>, n: nat)
    requires Dumping(blocks, bad, lo, cur, r, out) && cur < |blocks| && cur !in bad && 0 < n && r + n <= |blocks[cur]|
    ensures Dumping(blocks, bad, lo, cur, r + n, out + blocks[cur][r..r + n])
    ensures r + n == |blocks[cur]| ==> Dumping(blocks, bad, lo, cur + 1, 0, out + blocks[cur][r..r + n])
  {
    assert blocks[cur][..r] + blocks[cur][r..r + n] == blocks[cur][..r + n];
    if r == 0 {
      assert out + blocks[cur][..n] == Good(blocks, bad, lo, cur) + blocks[cur][..n];
    }
  }

  // Where the loop is in the device.
  ghost predicate At(ebSize: nat, page: nat, start: nat, ofs: nat, cur: nat, r: nat, blockstart: nat,
                     firstblock: bool, badblock: int) {
    && 0 < page && ofs == cur * ebSize + r && r < ebSize && r % page == 0
    && (r > 0 ==> blockstart == cur * ebSize && !firstblock && badblock == 0)
    && (r == 0 ==> blockstart != cur * ebSize || firstblock)
  }

  // How far the loop has come: `want` bytes are asked for.
  ghost predicate Counted(size: nat, start: nat, want: nat, skipped: nat, ofs: nat, endAddr: nat, page: nat, len: nat)
    requires 0 < page
  {
    && start + skipped + len == ofs && endAddr == Least(size, start + want + skipped)
    && len % page == 0 && len < want + page
  }

  lemma AtPage(ebSize: nat, page: nat, start: nat, ofs: nat, cur: nat, r: nat, blockstart: nat, firstblock: bool,
               badblock: int)
    requires At(ebSize, page, start, ofs, cur, r, blockstart, firstblock, badblock) && ebSize % page == 0
    ensures ofs / ebSize == cur && ofs % ebSize == r && BlockStart(ofs, ebSize) == cur * ebSize && r + page <= ebSize
    ensures (blockstart != cur * ebSize || firstblock <==> r == 0) && (r > 0 ==> badblock == 0)
    ensures ofs == cur * ebSize + r
    ensures if r + page < ebSize then At(ebSize, page, start, ofs + page, cur, r + page, cur * ebSize, false, 0)
            else At(ebSize, page, start, ofs + page, cur + 1, 0, cur * ebSize, false, 0)
    ensures At(ebSize, page, start, cur * ebSize + ebSize, cur + 1, 0, cur * ebSize, false, 1)
  {
    InBlock(ebSize, cur, r);
    Multiples(page, r, ebSize);
    Multiples(page, r, page);
    MulOrder(ebSize, cur, cur + 1);
    assert (cur + 1) * ebSize == cur * ebSize + ebSize;
  }

  lemma RoundUpAt(n: nat, page: nat)
    requires 0 < page
    ensures n <= RoundUp(n, page) < n + page && RoundUp(n, page) % page == 0
  {
    var k := n / page;
    assert n == k * page + n % page;
    if n % page != 0 {
      assert RoundUp(n, page) == k * page + page == (k + 1) * page + 0;
      DivMod(page, k + 1, 0);
    }
  }

  lemma RoundUpIs(want: nat, len: nat, page: nat)
    requires 0 < page && len % page == 0 && len < want + page
    ensures len <= RoundUp(want, page) && (want <= len ==> RoundUp(want, page) == len)
  {
    RoundUpAt(want, page);
    Multiples(page, len, RoundUp(want, page));
    Multiples(page, RoundUp(want, page), len);
  }

  // The end of the loop: at the end of the device, or with enough in the dump.
  lemma DumpEnds(blocks: seq<Block>, bad: set<nat>, lo: nat, cur: nat, r: nat, out: seq<byte>, page: nat, length: nat,
                 size: nat, start: nat, want: nat, skipped: nat, ofs: nat, endAddr: nat)
    requires 0 < page && Dumping(blocks, bad, lo, cur, r, out)
    requires Counted(size, start, want, skipped, ofs, endAddr, page, |out|) && ofs >= endAddr
    requires start <= size && want == if length == 0 then size - start else length
    requires ofs >= size ==> r == 0 && cur == |blocks|
    ensures out == Dumped(blocks, bad, lo, length, page)
  {
    DumpingPrefix(blocks, bad, lo, cur, r, out);
    hide Dumping, Good;
    RoundUpIs(want, |out|, page);
    hide RoundUp;
  }

  lemma AtEnd(ebSize: nat, page: nat, start: nat, ofs: nat, cur: nat, r: nat, blockstart: nat, firstblock: bool,
              badblock: int, count: nat)
    requires At(ebSize, page, start, ofs, cur, r, blockstart, firstblock, badblock) && cur <= count
    requires r > 0 ==> cur < count
    requires 0 < ebSize
    ensures ofs >= count * ebSize ==> r == 0 && cur == count
    ensures ofs < count * ebSize ==> cur < count
    ensures ofs <= count * ebSize
  {
    MulOrder(ebSize, cur, count);
  }

  lemma CountedStart(size: nat, start: nat, length: nat, page: nat)
    requires 0 < page && start <= size
    ensures Counted(size, start, if length == 0 then size - start else length, 0, start,
                    if length == 0 || start + length > size then size else start + length, page, 0)
  {
  }

  lemma CountedBad(size: nat, start: nat, want: nat, skipped: nat, ofs: nat, endAddr: nat, page: nat, len: nat, n: nat)
    requires 0 < page && Counted(size, start, want, skipped, ofs, endAddr, page, len)
    ensures Counted(size, start, want, skipped + n, ofs + n, if endAddr + n > size then size else endAddr + n, page,
                    len)
  {
  }

  lemma CountedPage(size: nat, start: nat, want: nat, skipped: nat, ofs: nat, endAddr: nat, page: nat, len: nat)
    requires 0 < page && Counted(size, start, want, skipped, ofs, endAddr, page, len) && ofs < endAddr
    ensures Counted(size, start, want, skipped, ofs + page, endAddr, page, len + page) && endAddr <= size
  {
    Multiples(page, len, page);
  }

  lemma AtStart(ebSize: nat, page: nat, start: nat, count: nat)
    requires 0 < page <= ebSize && start % ebSize == 0 && start <= count * ebSize
    ensures At(ebSize, page, start, start, start / ebSize, 0, 1, true, 0) && start / ebSize <= count
  {
    MulOrder(ebSize, count, start / ebSize);
    assert start == start / ebSize * ebSize;
  }

  method Dump(flash: Flash, start: nat, length: nat) returns (ok: bool, out: seq<byte>)
    requires flash.Valid() && start % flash.ebSize == 0 && start <= flash.count * flash.ebSize
    ensures ok ==> out == Dumped(flash.blocks, flash.bad, start / flash.ebSize, length, flash.pageSize)
    ensures flash.reliable ==> ok
    ensures flash.Valid()
  {
    hide Good, Dumping, Counted, At, Dumped, RoundUp, Least;
    var size, bs := flash.count * flash.ebSize, flash.pageSize;
    var endAddr: nat := start + length;
    if length == 0 || endAddr > size {
      endAddr := size;
    }
    ghost var lo := start / flash.ebSize;
    ghost var cur: nat, r: nat, skipped: nat := lo, 0, 0;
    ghost var want := if length == 0 then size - start else length;
    out := [];
    var ofs: nat, blockstart: nat, firstblock, badblock := start, 1, true, 0;
    CountedStart(size, start, length, bs);
    AtStart(flash.ebSize, bs, start, flash.count);
    DumpingStart(flash.blocks, flash.bad, lo);
    while ofs < endAddr
      invariant At(flash.ebSize, bs, start, ofs, cur, r, blockstart, firstblock, badblock)
      invariant Dumping(flash.blocks, flash.bad, lo, cur, r, out)
      invariant Counted(size, start, want, skipped, ofs, endAddr, bs, |out|)
      invariant cur <= flash.count && (r > 0 ==> cur < flash.count && cur !in flash.bad)
      decreases size - ofs
    {
      AtPage(flash.ebSize, bs, start, ofs, cur, r, blockstart, firstblock, badblock);
      AtEnd(flash.ebSize, bs, start, ofs, cur, r, blockstart, firstblock, badblock, flash.count);
      CountedPage(size, start, want, skipped, ofs, endAddr, bs, |out|);
      if blockstart != BlockStart(ofs, flash.ebSize) || firstblock {
        blockstart := BlockStart(ofs, flash.ebSize);
        firstblock := false;
        badblock := flash.IsBad(ofs / flash.ebSize);
        if badblock < 0 {
          return false, out;
        }
      }
      if badblock != 0 {
        DumpingSkip(flash.blocks, flash.bad, lo, cur, out);
        CountedBad(size, start, want, skipped, ofs, endAddr, bs, |out|, flash.ebSize);
        endAddr := endAddr + flash.ebSize;
        ofs := ofs + flash.ebSize - bs;
        if endAddr > size {
          endAddr := size;
        }
        cur, skipped := cur + 1, skipped + flash.ebSize;
      } else {
        var read, data := flash.Read(ofs / flash.ebSize, ofs % flash.ebSize, bs);
        if !read {
          return false, out;
        }
        DumpingPage(flash.blocks, flash.bad, lo, cur, r, out, bs);
        out := out + data;
        cur, r := if r + bs == flash.ebSize then cur + 1 else cur, if r + bs == flash.ebSize then 0 else r + bs;
      }
      ofs := ofs + bs;
    }
    AtEnd(flash.ebSize, bs, start, ofs, cur, r, blockstart, firstblock, badblock, flash.count);
    DumpEnds(flash.blocks, flash.bad, lo, cur, r, out, bs, length, size, start, want, skipped, ofs, endAddr);
    ok := true;
  }

  // An image stored by nandwrite comes back, when the blocks it gave up are marked bad.
  lemma DumpGivesBack(blocks: seq<Block>, bad: set<nat>, failed: set<nat>, lo: nat, image: seq<byte>, page: nat)
    requires 0 < page && Stored(blocks, bad + failed, lo, image) && failed <= bad && image != [] && |image| % page == 0
    ensures Dumped(blocks, bad, lo, |image|, page) == image
  {
    assert bad + failed == bad;
    assert RoundUp(|image|, page) == |image|;
  }

  // An empty image does not: a length of 0 dumps all good blocks.
  lemma DumpOfNothing(blocks: seq<Block>, bad: set<nat>, lo: nat, page: nat)
    requires 0 < page
    ensures Stored(blocks, bad, lo, []) && Dumped(blocks, bad, lo, 0, page) == Good(blocks, bad, lo, |blocks|)
  {
  }

  ghost predicate Sized(blocks: seq<Block>, ebSize: nat) {
    forall b :: 0 <= b < |blocks| ==> |blocks[b]| == ebSize
  }

  // Block `f` is the first that was given up without being marked bad; those that were are blank.
  ghost predicate FirstUnmarked(blocks: seq<Block>, bad: set<nat>, failed: set<nat>, lo: nat, f: nat) {
    && lo <= f < |blocks| && f in failed && f !in bad
    && forall g :: g in failed && g !in bad && lo <= g < |blocks| ==>
       f <= g && blocks[g] == Nandwrite.Erased(|blocks[g]|)
  }

  // Byte `i` of the dump is blank, or is what was written for an earlier one, behind `d`.
  ghost predicate Late(dump: seq<byte>, stored: seq<byte>, d: nat, i: nat)
    requires i < |dump|
  {
    dump[i] == 0xff || exists j :: d <= j < i && j < |stored| && dump[i] == stored[j]
  }

  // From the first unmarked block on the dump lags behind what was written.
  ghost predicate Lags(dump: seq<byte>, stored: seq<byte>, d: nat, ebSize: nat) {
    && d <= |stored| && |stored| + ebSize <= |dump| && (forall i :: 0 <= i < d ==> dump[i] == stored[i])
    && forall i :: d <= i < |dump| ==> Late(dump, stored, d, i)
  }

  lemma LagsMore(dump: seq<byte>, stored: seq<byte>, d: nat, ebSize: nat, b: Block)
    requires Lags(dump, stored, d, ebSize) && 0 < ebSize
    ensures Lags(dump + b, stored + b, d, ebSize)
    ensures b == Nandwrite.Erased(|b|) ==> Lags(dump + b, stored, d, ebSize)
  {
    forall i | d <= i < |dump + b| ensures Late(dump + b, stored + b, d, i) {
      if i < |dump| {
        assert Late(dump, stored, d, i);
        if dump[i] != 0xff {
          var j :| d <= j < i && j < |stored| && dump[i] == stored[j];
          assert (stored + b)[j] == stored[j];
        }
      } else {
        var j := |stored| + (i - |dump|);
        assert (stored + b)[j] == (dump + b)[i];
      }
    }
    if b == Nandwrite.Erased(|b|) {
      forall i | d <= i < |dump + b| ensures Late(dump + b, stored, d, i) {
        if i < |dump| {
          assert Late(dump, stored, d, i);
        }
      }
    }
  }

  lemma {:induction false} DumpLags(blocks: seq<Block>, bad: set<nat>, failed: set<nat>, lo: nat, f: nat, hi: nat,
                                    ebSize: nat)
    requires Sized(blocks, ebSize) && 0 < ebSize && FirstUnmarked(blocks, bad, failed, lo, f) && f < hi <= |blocks|
    ensures Lags(Good(blocks, bad, lo, hi), Good(blocks, bad + failed, lo, hi), |Good(blocks, bad, lo, f)|, ebSize)
    decreases hi
  {
    var d := |Good(blocks, bad, lo, f)|;
    if hi == f + 1 {
      GoodFrame(blocks, bad, blocks, bad + failed, lo, f);
      var dump, stored := Good(blocks, bad, lo, hi), Good(blocks, bad + failed, lo, hi);
      forall i | d <= i < |dump| ensures Late(dump, stored, d, i) {
        assert dump[i] == blocks[f][i - d];
      }
    } else {
      DumpLags(blocks, bad, failed, lo, f, hi - 1, ebSize);
      LagsMore(Good(blocks, bad, lo, hi - 1), Good(blocks, bad + failed, lo, hi - 1), d, ebSize, blocks[hi - 1]);
      hide Lags;
      assert Good(blocks, bad, lo, hi - 1) + [] == Good(blocks, bad, lo, hi - 1);
      assert Good(blocks, bad + failed, lo, hi - 1) + [] == Good(blocks, bad + failed, lo, hi - 1);
    }
  }

  // If the dump begins with the image, which agrees with what was written, the image is blank from `d` on ...
  lemma {:induction false} BlankAt(dump: seq<byte>, stored: seq<byte>, d: nat, ebSize: nat, image: seq<byte>, i: nat)
    requires Lags(dump, stored, d, ebSize) && (image <= stored || stored <= image) && image <= dump && d <= i < |image|
    ensures image[i] == 0xff
    decreases i
  {
    assert Late(dump, stored, d, i);
    if dump[i] != 0xff {
      var j :| d <= j < i && j < |stored| && dump[i] == stored[j];
      BlankAt(dump, stored, d, ebSize, image, j);
    }
  }

  // ... and the other way round.
  lemma BlankBegins(dump: seq<byte>, stored: seq<byte>, d: nat, ebSize: nat, image: seq<byte>)
    requires Lags(dump, stored, d, ebSize) && (image <= stored || stored <= image) && |image| <= |dump|
    requires forall i :: d <= i < |image| ==> image[i] == 0xff
    ensures image <= dump
  {
    forall i | 0 <= i < |image| ensures dump[i] == image[i] {
      if i >= d {
        assert Late(dump, stored, d, i);
      }
    }
  }

  lemma DumpedIs(blocks: seq<Block>, bad: set<nat>, lo: nat, image: seq<byte>, page: nat)
    requires 0 < page && image != [] && |image| % page == 0
    ensures Dumped(blocks, bad, lo, |image|, page) == image <==> image <= Good(blocks, bad, lo, |blocks|)
  {
    assert RoundUp(|image|, page) == |image|;
    hide Good;
  }

  ghost predicate BlankFrom(image: seq<byte>, d: nat) {
    forall i :: d <= i < |image| ==> image[i] == 0xff
  }

  // As far as the image reaches, it has the bytes of `b` at `d`.
  ghost predicate SameAt(image: seq<byte>, d: nat, b: Block) {
    forall i :: d <= i < d + |b| && i < |image| ==> image[i] == b[i - d]
  }

  // An image that was written around blocks given up and erased but not marked bad comes back exactly if it
  // fits the blocks not marked, and is blank from the place of the first of them on.
  lemma UnmarkedGivesBack(blocks: seq<Block>, bad: set<nat>, failed: set<nat>, lo: nat, f: nat, image: seq<byte>,
                          page: nat, ebSize: nat)
    requires 0 < page && image != [] && |image| % page == 0 && Sized(blocks, ebSize) && 0 < ebSize
    requires FirstUnmarked(blocks, bad, failed, lo, f)
    requires var stored := Good(blocks, bad + failed, lo, |blocks|); image <= stored || stored <= image
    ensures Dumped(blocks, bad, lo, |image|, page) == image <==>
            |image| <= GoodCount(bad, lo, |blocks|) * ebSize && BlankFrom(image, GoodCount(bad, lo, f) * ebSize)
  {
    hide *;
    FirstIs(blocks, bad, failed, lo, f);
    SizedIs(blocks, ebSize);
    DumpedIs(blocks, bad, lo, image, page);
    DumpLags(blocks, bad, failed, lo, f, |blocks|, ebSize);
    GoodSize(blocks, bad, lo, |blocks|, ebSize);
    GoodSize(blocks, bad, lo, f, ebSize);
    var dump, stored := Good(blocks, bad, lo, |blocks|), Good(blocks, bad + failed, lo, |blocks|);
    var d := |Good(blocks, bad, lo, f)|;
    if image <= dump {
      forall i | d <= i < |image| ensures image[i] == 0xff {
        BlankAt(dump, stored, d, ebSize, image, i);
      }
    }
    BlankIs(image, d);
    if |image| <= |dump| && BlankFrom(image, d) {
      BlankBegins(dump, stored, d, ebSize, image);
    }
  }

  lemma BlankIs(image: seq<byte>, d: nat)
    ensures BlankFrom(image, d) <==> forall i :: d <= i < |image| ==> image[i] == 0xff
  {
  }

  lemma FirstIs(blocks: seq<Block>, bad: set<nat>, failed: set<nat>, lo: nat, f: nat)
    requires FirstUnmarked(blocks, bad, failed, lo, f)
    ensures lo <= f < |blocks|
  {
  }

  lemma SizedIs(blocks: seq<Block>, ebSize: nat)
    requires Sized(blocks, ebSize)
    ensures forall b :: 0 <= b < |blocks| ==> |blocks[b]| == ebSize
  {
  }

  // Whatever is in a block given up but not marked bad, it is in the dump, so that the image comes back only
  // if it is the same there.
  lemma UnmarkedIsDumped(blocks: seq<Block>, bad: set<nat>, lo: nat, f: nat, image: seq<byte>, page: nat, ebSize: nat)
    requires 0 < page && image != [] && |image| % page == 0 && Sized(blocks, ebSize) && lo <= f < |blocks| && f !in bad
    requires Dumped(blocks, bad, lo, |image|, page) == image
    ensures SameAt(image, GoodCount(bad, lo, f) * ebSize, blocks[f])
  {
    DumpedIs(blocks, bad, lo, image, page);
    SizedIs(blocks, ebSize);
    GoodSize(blocks, bad, lo, f, ebSize);
    StoredAt(blocks, bad, lo, f, ebSize);
    assert blocks[f][..ebSize] == blocks[f];
    hide Good, GoodCount, Dumped, Stored;
    StoredIs(blocks, bad, lo, Good(blocks, bad, lo, f) + blocks[f]);
  }

  lemma StoredIs(blocks: seq<Block>, skip: set<nat>, lo: nat, data: seq<byte>)
    ensures Stored(blocks, skip, lo, data) <==> data <= Good(blocks, skip, lo, |blocks|)
  {
  }

  lemma {:induction false} LeastOf(s: set<nat>) returns (m: nat)
    requires s != {}
    ensures m in s && forall x :: x in s ==> m <= x
    decreases s
  {
    m :| m in s;
    if s != {m} {
      var n := LeastOf(s - {m});
      assert forall x :: x in s ==> x == m || x in s - {m};
      if n < m {
        m := n;
      }
    }
  }

  lemma PaddedPages(image: seq<byte>, page: nat)
    requires 0 < page
    ensures |Nandwrite.Padded(image, page)| == RoundUp(|image|, page) && |Nandwrite.Padded(image, page)| % page == 0
    ensures image <= Nandwrite.Padded(image, page) && |Nandwrite.Padded(image, page)| < |image| + page
    ensures forall i :: |image| <= i < |Nandwrite.Padded(image, page)| ==> Nandwrite.Padded(image, page)[i] == 0xff
  {
    RoundUpAt(|image|, page);
  }

  // The image is blank behind the place of each block given up but not marked.
  ghost predicate BlankBehind(image: seq<byte>, bad: set<nat>, failed: set<nat>, lo: nat, ebSize: nat) {
    forall f :: f in failed && f !in bad ==> BlankFrom(image, GoodCount(bad, lo, f) * ebSize)
  }

  // What nandwrite leaves behind: the good blocks it did not give up hold the image, or a beginning of it that fills
  // them.
  ghost predicate Left(blocks: seq<Block>, bad: set<nat>, failed: set<nat>, unerased: set<nat>, lo: nat, ebSize: nat,
                       image: seq<byte>) {
    var stored := Good(blocks, bad + failed, lo, |blocks|);
    && Sized(blocks, ebSize) && (forall f :: f in failed ==> lo <= f < |blocks|)
    && Nandwrite.Blanked(blocks, failed, unerased)
    && if |image| <= GoodCount(bad + failed, lo, |blocks|) * ebSize then image <= stored else stored <= image
  }

  // What a dump of the padded image's length gives: the image, exactly if it fits the blocks not marked and is blank
  // behind the place of each block that was given up without being marked; if all were marked, at least its beginning.
  ghost predicate CameBack(dump: seq<byte>, blocks: seq<Block>, bad: set<nat>, failed: set<nat>, unerased: set<nat>,
                           lo: nat, ebSize: nat, image: seq<byte>) {
    var room := GoodCount(bad, lo, |blocks|) * ebSize;
    && (failed <= bad || unerased == {} ==>
          (dump == image <==> |image| <= room && BlankBehind(image, bad, failed, lo, ebSize)))
    && (failed <= bad ==> dump == if |image| <= room then image else image[..room])
    && (dump == image ==> SameBehind(image, blocks, bad, failed, lo, ebSize))
  }

  lemma DumpOfLeft(blocks: seq<Block>, bad: set<nat>, failed: set<nat>, unerased: set<nat>, lo: nat, ebSize: nat,
                   image: seq<byte>, page: nat)
    requires 0 < page && image != [] && |image| % page == 0 && 0 < ebSize
    requires Left(blocks, bad, failed, unerased, lo, ebSize, image)
    ensures CameBack(Dumped(blocks, bad, lo, |image|, page), blocks, bad, failed, unerased, lo, ebSize, image)
  {
    hide Dumped, GoodCount, BlankBehind, SameBehind, Left, Sized, Nandwrite.Blanked, Good;
    LeftIs(blocks, bad, failed, unerased, lo, ebSize, image);
    if failed <= bad {
      MarkedLeft(blocks, bad, failed, unerased, lo, ebSize, image, page);
    } else if unerased == {} {
      UnmarkedLeft(blocks, bad, failed, lo, ebSize, image, page);
    }
    if Dumped(blocks, bad, lo, |image|, page) == image {
      SameLeft(blocks, bad, failed, lo, ebSize, image, page);
    }
  }

  // The image has the bytes that each block given up but not marked holds, where that is in the dump.
  ghost predicate SameBehind(image: seq<byte>, blocks: seq<Block>, bad: set<nat>, failed: set<nat>, lo: nat,
                             ebSize: nat) {
    forall f :: f in failed && f !in bad && f < |blocks| ==> SameAt(image, GoodCount(bad, lo, f) * ebSize, blocks[f])
  }

  lemma SameLeft(blocks: seq<Block>, bad: set<nat>, failed: set<nat>, lo: nat, ebSize: nat, image: seq<byte>, page: nat)
    requires 0 < page && image != [] && |image| % page == 0 && Sized(blocks, ebSize)
    requires forall f :: f in failed ==> lo <= f < |blocks|
    requires Dumped(blocks, bad, lo, |image|, page) == image
    ensures SameBehind(image, blocks, bad, failed, lo, ebSize)
  {
    hide Dumped, Sized, GoodCount, SameAt;
    forall f | f in failed && f !in bad
      ensures SameAt(image, GoodCount(bad, lo, f) * ebSize, blocks[f])
    {
      UnmarkedIsDumped(blocks, bad, lo, f, image, page, ebSize);
    }
  }

  lemma LeftIs(blocks: seq<Block>, bad: set<nat>, failed: set<nat>, unerased: set<nat>, lo: nat, ebSize: nat,
               image: seq<byte>)
    requires Left(blocks, bad, failed, unerased, lo, ebSize, image)
    ensures Sized(blocks, ebSize) && (forall f :: f in failed ==> lo <= f < |blocks|)
    ensures Nandwrite.Blanked(blocks, failed, unerased)
    ensures var stored := Good(blocks, bad + failed, lo, |blocks|); image <= stored || stored <= image
  {
    hide Good, GoodCount, Sized;
  }

  lemma MarkedLeft(blocks: seq<Block>, bad: set<nat>, failed: set<nat>, unerased: set<nat>, lo: nat, ebSize: nat,
                   image: seq<byte>, page: nat)
    requires 0 < page && image != [] && |image| % page == 0 && 0 < ebSize && failed <= bad
    requires Left(blocks, bad, failed, unerased, lo, ebSize, image)
    ensures BlankBehind(image, bad, failed, lo, ebSize)
    ensures Dumped(blocks, bad, lo, |image|, page) ==
            if |image| <= GoodCount(bad, lo, |blocks|) * ebSize then image
            else image[..GoodCount(bad, lo, |blocks|) * ebSize]
  {
    assert bad + failed == bad;
    GoodSize(blocks, bad, lo, |blocks|, ebSize);
    assert RoundUp(|image|, page) == |image|;
    hide Good, GoodCount, Nandwrite.Blanked;
  }

  lemma UnmarkedLeft(blocks: seq<Block>, bad: set<nat>, failed: set<nat>, lo: nat, ebSize: nat, image: seq<byte>,
                     page: nat)
    requires 0 < page && image != [] && |image| % page == 0 && 0 < ebSize && !(failed <= bad)
    requires Left(blocks, bad, failed, {}, lo, ebSize, image)
    ensures Dumped(blocks, bad, lo, |image|, page) == image <==>
            |image| <= GoodCount(bad, lo, |blocks|) * ebSize && BlankBehind(image, bad, failed, lo, ebSize)
  {
    hide *;
    LeftIs(blocks, bad, failed, {}, lo, ebSize, image);
    var g :| g in failed && g !in bad;
    assert g in failed - bad;
    var f := LeastOf(failed - bad);
    FirstOf(blocks, bad, failed, lo, f);
    UnmarkedGivesBack(blocks, bad, failed, lo, f, image, page, ebSize);
    BehindFirst(image, bad, failed, lo, ebSize, f);
  }

  lemma FirstOf(blocks: seq<Block>, bad: set<nat>, failed: set<nat>, lo: nat, f: nat)
    requires Nandwrite.Blanked(blocks, failed, {}) && f in failed && f !in bad
    requires forall g :: g in failed - bad ==> f <= g
    requires forall g :: g in failed ==> lo <= g < |blocks|
    ensures FirstUnmarked(blocks, bad, failed, lo, f)
  {
    assert forall g :: g in failed && g !in bad ==> g in failed - bad;
  }

  lemma BehindFirst(image: seq<byte>, bad: set<nat>, failed: set<nat>, lo: nat, ebSize: nat, f: nat)
    requires f in failed && f !in bad && (forall g :: g in failed - bad ==> f <= g) && 0 < ebSize
    ensures BlankBehind(image, bad, failed, lo, ebSize) <==> BlankFrom(image, GoodCount(bad, lo, f) * ebSize)
  {
    hide GoodCount;
    forall g | g in failed && g !in bad
      ensures GoodCount(bad, lo, f) * ebSize <= GoodCount(bad, lo, g) * ebSize
    {
      assert g in failed - bad;
      CountMore(bad, lo, f, g);
      MulOrder(ebSize, GoodCount(bad, lo, f), GoodCount(bad, lo, g));
    }
  }

  lemma {:induction false} CountMore(bad: set<nat>, lo: nat, f: nat, g: nat)
    requires f <= g
    ensures GoodCount(bad, lo, f) <= GoodCount(bad, lo, g)
    decreases g
  {
    if f < g && g > lo {
      CountMore(bad, lo, f, g - 1);
    }
  }

  // The device after a successful run of the writer.
  lemma FinishedLeaves(writer: Nandwrite.Writer, image: seq<byte>)
    requires 0 < writer.flash.pageSize && writer.Finished()
    requires image == Nandwrite.Padded(writer.input.content, writer.flash.pageSize)
    ensures var flash := writer.flash;
      && flash.Valid() && flash.count == |flash.blocks| && 0 < flash.ebSize
      && Left(flash.blocks, flash.bad, writer.failed, writer.unerased, writer.lo, flash.ebSize, image)
      && flash.bad == writer.wasBad + (if writer.markbad then writer.failed else {}) && writer.failed !! writer.wasBad
  {
    hide Good, GoodCount, Nandwrite.Padded, Nandwrite.Blanked;
    var content, pos := writer.input.content, writer.input.pos;
    PaddedPages(content, writer.flash.pageSize);
    if pos == |content| {
      assert content[..pos] == content;
    } else {
      assert content[..pos] <= content;
    }
  }

  // Write an image and dump its padded length from the same start. If writes and erasures fail with EIO at worst,
  // success depends on nothing but the input and the blocks that are bad at the start or were given up.
  method WriteThenDump(flash: Flash, image: seq<byte>, start: nat, pad: bool, markbad: bool, stdin: bool)
    returns (wrote: bool, read: bool, out: seq<byte>, ghost failed: set<nat>, ghost unerased: set<nat>)
    requires flash.Valid() && 0 < flash.pageSize && 0 < flash.ebSize
    requires start % flash.ebSize == 0 && start <= flash.count * flash.ebSize && image != []
    modifies flash
    ensures wrote ==> flash.Valid() && failed !! old(flash.bad) && unerased <= flash.refused
    ensures wrote ==> flash.bad == old(flash.bad) + if markbad then failed else {}
    ensures flash.reliable ==> failed == {} && flash.bad == old(flash.bad) && (wrote ==> read)
    ensures wrote && read ==>
              CameBack(out, flash.blocks, flash.bad, failed, unerased, start / flash.ebSize, flash.ebSize,
                       Nandwrite.Padded(image, flash.pageSize))
    ensures var lo, padded := start / flash.ebSize, Nandwrite.Padded(image, flash.pageSize);
            var room := GoodCount(flash.bad + failed, lo, flash.count) * flash.ebSize;
      && (wrote && !stdin ==> |padded| <= room)
      && (flash.mild && !stdin ==> (wrote <==> (pad || |image| % flash.pageSize == 0) && |padded| <= room))
      && (flash.mild && stdin ==>
            (wrote <==>
              if lo < flash.count && flash.count - 1 !in old(flash.bad) then
                flash.count - 1 !in failed && (pad || |image| % flash.pageSize == 0 || |image| > room)
              else (pad || |image| % flash.pageSize == 0) && |image| < room))
  {
    hide *;
    BlockOf(flash.ebSize, start, flash.count);
    PaddedPages(image, flash.pageSize);
    read, out := false, [];
    var input := new Nandwrite.Input(image, flash.mild);
    var writer := new Nandwrite.Writer(flash, input, start, pad, markbad, stdin);
    wrote := writer.Run();
    failed, unerased := writer.failed, writer.unerased;
    writer.MeansIs();
    if wrote {
      writer.FinishedIs();
      read, out := DumpBack(writer, start);
      writer.FinishedIs();
    }
  }

  // The second half.
  method DumpBack(writer: Nandwrite.Writer, start: nat) returns (read: bool, out: seq<byte>)
    requires 0 < writer.flash.pageSize && writer.Finished() && writer.input.content != []
    requires 0 < writer.flash.ebSize && start % writer.flash.ebSize == 0
    requires start <= writer.flash.count * writer.flash.ebSize
    requires writer.lo == start / writer.flash.ebSize
    ensures writer.Finished() && writer.failed !! writer.wasBad
    ensures writer.flash.bad == writer.wasBad + if writer.markbad then writer.failed else {}
    ensures writer.flash.reliable ==> read
    ensures var flash := writer.flash;
            read ==> CameBack(out, flash.blocks, flash.bad, writer.failed, writer.unerased, writer.lo, flash.ebSize,
                              Nandwrite.Padded(writer.input.content, flash.pageSize))
  {
    hide *;
    var flash := writer.flash;
    ghost var padded := Nandwrite.Padded(writer.input.content, flash.pageSize);
    FinishedLeaves(writer, padded);
    PaddedPages(writer.input.content, flash.pageSize);
    DumpOfLeft(flash.blocks, flash.bad, writer.failed, writer.unerased, writer.lo, flash.ebSize, padded,
               flash.pageSize);
    read, out := Dump(flash, start, RoundUp(|writer.input.content|, flash.pageSize));
  }

  lemma BlockOf(ebSize: nat, start: nat, count: nat)
    requires 0 < ebSize && start % ebSize == 0 && start <= count * ebSize
    ensures start / ebSize <= count
  {
    MulOrder(ebSize, count, start / ebSize);
    assert start == start / ebSize * ebSize;
  }

  // Such runs exist: from standard input, two bytes go to a device of one, and the second is lost without a word.
  method DropsInput() returns (wrote: bool, out: seq<byte>)
    ensures wrote && out == [1]
  {
    var flash := new Flash(1, 1, [[0xff]], {}, true, true);
    var read;
    ghost var failed, unerased;
    wrote, read, out, failed, unerased := WriteThenDump(flash, [1, 2], 0, false, false, true);
    assert GoodCount({}, 0, 1) == 1;
    assert Nandwrite.Padded([1, 2], 1) == [1, 2];
    ghost var none: set<nat>, image: seq<byte> := {}, [1, 2];
    assert none + none == none && image[..1] == [1];
  }

  // And the other way: a byte from standard input fills the only good block of the device, but a bad one follows, and
  // the run ends in an error.
  method FailsAtEnd() returns (wrote: bool, out: seq<byte>)
    ensures !wrote
  {
    var flash := new Flash(1, 1, [[0xff], [0xff]], {1}, true, true);
    var read;
    ghost var failed, unerased;
    wrote, read, out, failed, unerased := WriteThenDump(flash, [1], 0, false, false, true);
    assert GoodCount({1}, 0, 1) == 1 && GoodCount({1}, 0, 2) == 1;
    assert Nandwrite.Padded([1], 1) == [1];
    ghost var bad: set<nat> := {1};
    assert bad + {} == bad;
  }
}
