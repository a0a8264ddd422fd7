/**
 The write loop of nandwrite (external/mtd-utils/nandwrite.c), without OOB data, with a
 `blockalign` of 1 and skipping bad blocks.
 */
module Nandwrite {
  import opened Arithmetic
  import opened Jffs2Format
  import opened NandFlash

  // The input file, or standard input.
  class Input {
    const content: seq<byte>
    const reliable: bool // no `read` fails
    var pos: nat

    constructor (content: seq<byte>, reliable: bool)
      ensures this.content == content && this.reliable == reliable && pos == 0
    {
      this.content, this.reliable, pos := content, reliable, 0;
    }

    // `read`: any number of the bytes that are left, none at the end, or an error.
    method Read(buf: array<byte>, at: nat, n: nat) returns (cnt: int)
      requires 0 < n && at + n <= buf.Length && pos <= |content|
      modifies `pos, buf
      ensures cnt <= n && old(pos) <= pos <= |content| && (cnt == 0 ==> pos == |content|)
      ensures cnt >= 0 ==> pos == old(pos) + cnt
      ensures cnt >= 0 ==> buf[..] == old(buf[..at]) + content[old(pos)..pos] + old(buf[at + cnt..])
      ensures reliable ==> cnt >= 0
    {
      cnt := *;
      if cnt < 0 && !reliable {
        return -1;
      }
      if cnt <= 0 || cnt > n || pos + cnt > |content| {
        cnt := if pos < |content| then 1 else 0;
      }
      forall i | 0 <= i < cnt {
        buf[at + i] := content[pos + i];
      }
      pos := pos + cnt;
    }
  }

  function Erased(n: nat): (s: seq<byte>)
    ensures |s| == n && forall i :: 0 <= i < n ==> s[i] == 0xff
  {
    seq(n, _ => 0xff)
  }

  // The image, filled up to whole pages.
  function Padded(image: seq<byte>, page: nat): seq<byte>
    requires 0 < page
  {
    image + Erased(Missing(|image|, page))
  }

  lemma PaddedWhole(image: seq<byte>, page: nat)
    requires 0 < page && |image| % page == 0
    ensures Padded(image, page) == image
  {
  }

  lemma PaddedMore(image: seq<byte>, more: seq<byte>, page: nat)
    requires 0 < page && |image| % page == 0 && 0 < |more| <= page
    ensures Padded(image + more, page) == image + more + Erased(page - |more|)
  {
    var k := |image| / page;
    assert |image| == k * page && |image + more| == k * page + |more|;
    if |more| == page {
      Multiples(page, |image|, page);
    } else {
      DivMod(page, k, |more|);
    }
  }

  // What has been read is in the finished blocks and the buffer.
  ghost predicate Buffered(content: seq<byte>, pos: nat, page: nat, done: seq<byte>, buf: seq<byte>)
    requires 0 < page
  {
    && pos <= |content| && (pos % page == 0 || pos == |content|) && |buf| % page == 0
    && done + buf == Padded(content[..pos], page)
  }

  lemma BufferedMore(content: seq<byte>, pos: nat, pos': nat, page: nat, done: seq<byte>, buf: seq<byte>)
    requires 0 < page && Buffered(content, pos, page, done, buf) && pos < pos' <= |content| && pos' - pos <= page
    requires pos' - pos == page || pos' == |content|
    ensures Buffered(content, pos', page, done, buf + content[pos..pos'] + Erased(page - (pos' - pos)))
  {
    var more := content[pos..pos'];
    PaddedWhole(content[..pos], page);
    PaddedMore(content[..pos], more, page);
    assert content[..pos'] == content[..pos] + more;
    assert done + (buf + more + Erased(page - |more|)) == content[..pos] + more + Erased(page - |more|);
    Multiples(page, |buf|, 0);
    Multiples(page, pos, 0);
  }

  lemma StartBuffered(content: seq<byte>, page: nat)
    requires 0 < page
    ensures Buffered(content, 0, page, [], [])
  {
    PaddedWhole([], page);
    assert content[..0] == [];
  }

  // Block `cur` is good and holds the first `w` bytes of the buffer.
  ghost predicate Filling(blocks: seq<Block>, skip: set<nat>, lo: nat, cur: nat, done: seq<byte>, buf: seq<byte>,
                          w: int) {
    && lo <= cur < |blocks| && cur !in skip && Good(blocks, skip, lo, cur) == done
    && 0 <= w <= |buf| && w <= |blocks[cur]| && blocks[cur][..w] == buf[..w]
  }

  // Block `cur` is yet to be looked at; the buffer is to be replayed (`w` is 0) or is all written.
  ghost predicate Between(blocks: seq<Block>, skip: set<nat>, lo: nat, cur: nat, done: seq<byte>, buf: seq<byte>,
                          w: int) {
    && lo <= cur <= |blocks| && -1 <= w && (w == -1 ==> buf == []) && (w > 0 ==> w == |buf|)
    && Good(blocks, skip, lo, cur) == if w == 0 then done else done + buf
  }

  lemma FillingStored(blocks: seq<Block>, skip: set<nat>, lo: nat, cur: nat, done: seq<byte>, buf: seq<byte>, w: int)
    requires Filling(blocks, skip, lo, cur, done, buf, w) && w == |buf|
    ensures Stored(blocks, skip, lo, done + buf)
  {
    StoredAt(blocks, skip, lo, cur, w);
    assert buf[..w] == buf;
  }

  lemma BetweenStored(blocks: seq<Block>, skip: set<nat>, lo: nat, cur: nat, done: seq<byte>, buf: seq<byte>, w: int)
    requires Between(blocks, skip, lo, cur, done, buf, w) && w >= |buf|
    ensures Stored(blocks, skip, lo, done + buf)
  {
    StoredBefore(blocks, skip, lo, cur);
    assert w == 0 ==> done + buf == done;
  }

  // A page goes from the buffer to block `cur`.
  lemma FillingMore(blocks: seq<Block>, blocks': seq<Block>, skip: set<nat>, lo: nat, cur: nat, done: seq<byte>,
                    buf: seq<byte>, w: nat, n: nat)
    requires Filling(blocks, skip, lo, cur, done, buf, w) && w + n <= |buf| && |blocks'| == |blocks|
    requires w + n <= |blocks[cur]|
    requires forall b :: 0 <= b < |blocks| && b != cur ==> blocks'[b] == blocks[b]
    requires blocks'[cur] == blocks[cur][..w] + buf[w..w + n] + blocks[cur][w + n..]
    ensures Filling(blocks', skip, lo, cur, done, buf, w + n)
    ensures w + n == |blocks[cur]| == |buf| > 0 ==> Between(blocks', skip, lo, cur + 1, done, buf, w + n)
  {
    GoodFrame(blocks, skip, blocks', skip, lo, cur);
    assert blocks'[cur][..w + n] == buf[..w + n];
    if w + n == |blocks[cur]| == |buf| {
      assert blocks'[cur] == buf;
    }
  }

  // A write to block `cur` failed.
  lemma FillingFails(blocks: seq<Block>, blocks': seq<Block>, skip: set<nat>, lo: nat, cur: nat, done: seq<byte>,
                     buf: seq<byte>, w: int)
    requires Filling(blocks, skip, lo, cur, done, buf, w) && |blocks'| == |blocks|
    requires forall b :: 0 <= b < |blocks| && b != cur ==> blocks'[b] == blocks[b]
    ensures Between(blocks', skip + {cur}, lo, cur + 1, done, buf, 0)
  {
    GoodFrame(blocks, skip, blocks', skip + {cur}, lo, cur);
  }

  lemma BetweenFresh(blocks: seq<Block>, skip: set<nat>, lo: nat, cur: nat, done: seq<byte>, buf: seq<byte>, w: int)
    requires Between(blocks, skip, lo, cur, done, buf, w)
    ensures w != 0 ==> Between(blocks, skip, lo, cur, done + buf, [], 0)
    ensures w != 0 ==> done + buf + [] == done + buf
  {
  }

  lemma BetweenBad(blocks: seq<Block>, skip: set<nat>, lo: nat, cur: nat, done: seq<byte>, buf: seq<byte>)
    requires Between(blocks, skip, lo, cur, done, buf, 0) && cur < |blocks|
    ensures cur in skip ==> Between(blocks, skip, lo, cur + 1, done, buf, 0)
    ensures cur !in skip ==> Filling(blocks, skip, lo, cur, done, buf, 0)
  {
  }

  datatype Fetch = Fetched | AtEof | Failed

  // Where in the device the loop is: filling the checked block `cur`, or about to check it.
  ghost predicate Placed(blocks: seq<Block>, skip: set<nat>, lo: nat, cur: nat, done: seq<byte>, buf: seq<byte>, w: int,
                         mtdoffset: nat, blockstart: int, ebSize: nat) {
    if blockstart == cur * ebSize then Filling(blocks, skip, lo, cur, done, buf, w) && w < ebSize
      && mtdoffset == cur * ebSize + w
    else Between(blocks, skip, lo, cur, done, buf, w) && mtdoffset == cur * ebSize
  }

  lemma PlacedNext(blocks: seq<Block>, skip: set<nat>, lo: nat, cur: nat, done: seq<byte>, buf: seq<byte>, ebSize: nat)
    requires Between(blocks, skip, lo, cur, done, buf, 0) && cur < |blocks| && 0 < ebSize
    ensures cur in skip ==> Placed(blocks, skip, lo, cur + 1, done, buf, 0, cur * ebSize + ebSize, cur * ebSize, ebSize)
    ensures cur !in skip ==> Placed(blocks, skip, lo, cur, done, buf, 0, cur * ebSize, cur * ebSize, ebSize)
  {
    BetweenBad(blocks, skip, lo, cur, done, buf);
    MulOrder(ebSize, cur, cur + 1);
    assert (cur + 1) * ebSize == cur * ebSize + ebSize;
    hide Between, Filling;
  }

  lemma PlacedMore(blocks: seq<Block>, skip: set<nat>, lo: nat, cur: nat, done: seq<byte>, buf: seq<byte>,
                   buf': seq<byte>, w: int, mtdoffset: nat, blockstart: int, ebSize: nat)
    requires Placed(blocks, skip, lo, cur, done, buf, w, mtdoffset, blockstart, ebSize) && blockstart == cur * ebSize
    requires buf <= buf'
    ensures Placed(blocks, skip, lo, cur, done, buf', w, mtdoffset, blockstart, ebSize)
  {
  }

  // Only block `cur` differs.
  ghost predicate Differ(blocks: seq<Block>, blocks': seq<Block>, cur: nat) {
    |blocks'| == |blocks| && forall b :: 0 <= b < |blocks| && b != cur ==> blocks'[b] == blocks[b]
  }

  lemma PlacedWritten(blocks: seq<Block>, blocks': seq<Block>, skip: set<nat>, lo: nat, cur: nat, done: seq<byte>,
                      buf: seq<byte>, w: nat, n: nat, mtdoffset: nat, blockstart: int, ebSize: nat)
    requires Placed(blocks, skip, lo, cur, done, buf, w, mtdoffset, blockstart, ebSize) && blockstart == cur * ebSize
    requires 0 < n && w + n <= |buf| <= ebSize && Differ(blocks, blocks', cur) && |blocks[cur]| == ebSize
    requires blocks'[cur] == blocks[cur][..w] + buf[w..w + n] + blocks[cur][w + n..]
    ensures Placed(blocks', skip, lo, if w + n == ebSize then cur + 1 else cur, done, buf, w + n, mtdoffset + n,
                   blockstart, ebSize)
  {
    FillingMore(blocks, blocks', skip, lo, cur, done, buf, w, n);
    MulOrder(ebSize, cur, cur + 1);
    hide Filling, Between;
  }

  lemma PlacedFailed(blocks: seq<Block>, blocks': seq<Block>, skip: set<nat>, lo: nat, cur: nat, done: seq<byte>,
                     buf: seq<byte>, w: nat, mtdoffset: nat, blockstart: int, ebSize: nat)
    requires Placed(blocks, skip, lo, cur, done, buf, w, mtdoffset, blockstart, ebSize) && blockstart == cur * ebSize
    requires Differ(blocks, blocks', cur)
    ensures Placed(blocks', skip + {cur}, lo, cur + 1, done, buf, 0, blockstart + ebSize, blockstart, ebSize)
  {
    FillingFails(blocks, blocks', skip, lo, cur, done, buf, w);
    MulOrder(ebSize, cur, cur + 1);
    hide Filling, Between;
  }

  lemma PlacedBounds(blocks: seq<Block>, skip: set<nat>, lo: nat, cur: nat, done: seq<byte>, buf: seq<byte>,
                     w: nat, mtdoffset: nat, blockstart: int, ebSize: nat)
    requires Placed(blocks, skip, lo, cur, done, buf, w, mtdoffset, blockstart, ebSize) && blockstart == cur * ebSize
    ensures blockstart <= mtdoffset < blockstart + ebSize
  {
  }

  lemma PlacedEnd(blocks: seq<Block>, skip: set<nat>, lo: nat, cur: nat, done: seq<byte>, buf: seq<byte>, w: int,
                  mtdoffset: nat, blockstart: int, ebSize: nat)
    requires Placed(blocks, skip, lo, cur, done, buf, w, mtdoffset, blockstart, ebSize) && w >= |buf|
    ensures Stored(blocks, skip, lo, done + buf)
  {
    if blockstart == cur * ebSize {
      FillingStored(blocks, skip, lo, cur, done, buf, w);
    } else {
      BetweenStored(blocks, skip, lo, cur, done, buf, w);
    }
  }

  // The blocks given up after a failed write: they are behind, and were good at the start.
  ghost predicate GivenUp(failed: set<nat>, lo: nat, cur: nat, bad: set<nat>, wasBad: set<nat>, markbad: bool) {
    && (forall f :: f in failed ==> lo <= f < cur && f !in wasBad)
    && bad == wasBad + if markbad then failed else {}
  }

  lemma GivenUpNext(failed: set<nat>, lo: nat, cur: nat, bad: set<nat>, wasBad: set<nat>, markbad: bool)
    requires GivenUp(failed, lo, cur, bad, wasBad, markbad)
    ensures GivenUp(failed, lo, cur + 1, bad, wasBad, markbad) && cur !in failed
  {
  }

  lemma GivenUpMore(failed: set<nat>, lo: nat, cur: nat, bad: set<nat>, wasBad: set<nat>, markbad: bool)
    requires GivenUp(failed, lo, cur, bad, wasBad, markbad) && lo <= cur && cur !in bad + failed
    ensures GivenUp(failed + {cur}, lo, cur + 1, if markbad then bad + {cur} else bad, wasBad, markbad)
  {
  }

  // Those that were erased are blank.
  ghost predicate Blanked(blocks: seq<Block>, failed: set<nat>, unerased: set<nat>) {
    && unerased <= failed
    && forall f :: f in failed && f !in unerased ==> f < |blocks| && blocks[f] == Erased(|blocks[f]|)
  }

  lemma BlankedStill(blocks: seq<Block>, blocks': seq<Block>, failed: set<nat>, unerased: set<nat>, cur: nat)
    requires Blanked(blocks, failed, unerased) && Differ(blocks, blocks', cur) && cur !in failed
    ensures Blanked(blocks', failed, unerased)
  {
  }

  lemma BlankedMore(blocks: seq<Block>, failed: set<nat>, unerased: set<nat>, cur: nat, erased: bool)
    requires Blanked(blocks, failed, unerased) && cur !in failed && cur < |blocks|
    requires erased ==> forall i :: 0 <= i < |blocks[cur]| ==> blocks[cur][i] == 0xff
    ensures Blanked(blocks, failed + {cur}, if erased then unerased else unerased + {cur})
  {
  }

  // A page of block `cur` failed and the block is given up, on values.
  lemma PlacedGivenUp(blocks: seq<Block>, blocks': seq<Block>, bad: set<nat>, failed: set<nat>, unerased: set<nat>,
                      lo: nat, cur: nat, done: seq<byte>, buf: seq<byte>, w: nat, mtdoffset: nat, blockstart: int,
                      ebSize: nat, wasBad: set<nat>, markbad: bool, erased: bool)
    requires Placed(blocks, bad + failed, lo, cur, done, buf, w, mtdoffset, blockstart, ebSize)
    requires blockstart == cur * ebSize
    requires Differ(blocks, blocks', cur) && GivenUp(failed, lo, cur, bad, wasBad, markbad)
    requires Blanked(blocks, failed, unerased)
    requires cur < |blocks'| && (erased ==> forall i :: 0 <= i < |blocks'[cur]| ==> blocks'[cur][i] == 0xff)
    ensures var bad' := if markbad then bad + {cur} else bad;
      && Placed(blocks', bad' + (failed + {cur}), lo, cur + 1, done, buf, 0, blockstart + ebSize, blockstart, ebSize)
      && GivenUp(failed + {cur}, lo, cur + 1, bad', wasBad, markbad)
      && Blanked(blocks', failed + {cur}, if erased then unerased else unerased + {cur})
  {
    hide *;
    PlacedAt(blocks, bad + failed, lo, cur, done, buf, w, mtdoffset, blockstart, ebSize);
    PlacedFailed(blocks, blocks', bad + failed, lo, cur, done, buf, w, mtdoffset, blockstart, ebSize);
    GivenUpMore(failed, lo, cur, bad, wasBad, markbad);
    BlankedStill(blocks, blocks', failed, unerased, cur);
    BlankedMore(blocks', failed, unerased, cur, erased);
    assert bad + failed + {cur} == bad + (failed + {cur}) == bad + {cur} + (failed + {cur});
  }

  lemma PlacedBetween(blocks: seq<Block>, skip: set<nat>, lo: nat, cur: nat, done: seq<byte>, buf: seq<byte>,
                      w: int, mtdoffset: nat, blockstart: int, ebSize: nat)
    requires Placed(blocks, skip, lo, cur, done, buf, w, mtdoffset, blockstart, ebSize) && blockstart != cur * ebSize
    ensures Between(blocks, skip, lo, cur, done, buf, w) && mtdoffset == cur * ebSize
  {
  }

  // A good block is being filled: there is room in the device for all of it.
  lemma PlacedRoom(blocks: seq<Block>, skip: set<nat>, lo: nat, cur: nat, done: seq<byte>, buf: seq<byte>,
                   w: int, mtdoffset: nat, blockstart: int, ebSize: nat)
    requires Placed(blocks, skip, lo, cur, done, buf, w, mtdoffset, blockstart, ebSize) && blockstart == cur * ebSize
    requires forall b :: 0 <= b < |blocks| ==> |blocks[b]| == ebSize
    ensures |done| + ebSize <= GoodCount(skip, lo, |blocks|) * ebSize
  {
    GoodSplit(blocks, skip, lo, cur, |blocks|);
    GoodSplit(blocks, skip, cur, cur + 1, |blocks|);
    GoodSize(blocks, skip, lo, |blocks|, ebSize);
  }

  lemma DifferAgain(a: seq<Block>, b: seq<Block>, c: seq<Block>, cur: nat)
    requires Differ(a, b, cur) && |c| == |b| && forall i :: 0 <= i < |b| && i != cur ==> c[i] == b[i]
    ensures Differ(a, c, cur)
  {
  }

  lemma BufferedWhole(content: seq<byte>, pos: nat, page: nat, done: seq<byte>, buf: seq<byte>)
    requires 0 < page && Buffered(content, pos, page, done, buf)
    ensures pos <= |content| && (pos < |content| ==> pos % page == 0 && |done| + |buf| == pos)
  {
    if pos < |content| {
      PaddedWhole(content[..pos], page);
    }
  }

  lemma PageOn(pos: nat, page: nat)
    requires 0 < page
    ensures pos % page == 0 ==> (pos + page) % page == 0
  {
    if pos % page == 0 {
      DivMod(page, pos / page + 1, 0);
      assert (pos / page + 1) * page == pos / page * page + page;
    }
  }

  lemma Behind(whole: seq<byte>, a: seq<byte>, b: seq<byte>, c: seq<byte>)
    requires whole == a + b + c
    ensures whole[..|a|] == a && whole[|a|..] == b + c
  {
  }

  lemma WholePages(n: nat, page: nat)
    requires 0 < page
    ensures n / page * page <= n && page % page == 0 && page / page * page == page
  {
  }

  lemma PaddedLonger(content: seq<byte>, page: nat)
    requires 0 < page
    ensures |content| <= |Padded(content, page)|
  {
  }

  lemma ShortEnd(content: seq<byte>, pos: nat, page: nat)
    requires 0 < page && pos % page == 0 && 0 < |content| - pos < page
    ensures |content| % page != 0
  {
    var k := pos / page;
    assert pos == k * page + pos % page;
    DivMod(page, k, |content| - pos);
  }

  // At the end of the device everything that was read is in it.
  lemma PlacedFull(blocks: seq<Block>, skip: set<nat>, lo: nat, cur: nat, done: seq<byte>, buf: seq<byte>,
                   w: int, mtdoffset: nat, blockstart: int, ebSize: nat)
    requires Placed(blocks, skip, lo, cur, done, buf, w, mtdoffset, blockstart, ebSize) && 0 < ebSize
    requires mtdoffset >= |blocks| * ebSize && w >= |buf|
    ensures Good(blocks, skip, lo, |blocks|) == done + buf
  {
    MulOrder(ebSize, cur, |blocks|);
    assert w == 0 ==> done + buf == done;
  }

  // The good blocks are all behind.
  lemma PlacedLast(blocks: seq<Block>, skip: set<nat>, lo: nat, cur: nat, done: seq<byte>, buf: seq<byte>,
                   w: int, mtdoffset: nat, blockstart: int, ebSize: nat)
    requires Placed(blocks, skip, lo, cur, done, buf, w, mtdoffset, blockstart, ebSize)
    requires forall g :: cur <= g < |blocks| ==> g in skip
    ensures |Good(blocks, skip, lo, |blocks|)| <= |done| + |buf|
  {
    GoodSplit(blocks, skip, lo, cur, |blocks|);
    NoneGood(blocks, skip, cur, |blocks|);
  }

  lemma {:induction false} NoneGood(blocks: seq<Block>, skip: set<nat>, lo: nat, hi: nat)
    requires hi <= |blocks| && forall g :: lo <= g < hi ==> g in skip
    ensures Good(blocks, skip, lo, hi) == []
    decreases hi
  {
    if hi > lo {
      NoneGood(blocks, skip, lo, hi - 1);
    }
  }

  lemma BufferedIs(content: seq<byte>, pos: nat, page: nat, done: seq<byte>, buf: seq<byte>)
    requires 0 < page && Buffered(content, pos, page, done, buf)
    ensures pos <= |content| && (pos % page == 0 || pos == |content|) && done + buf == Padded(content[..pos], page)
    ensures |Padded(content, page)| >= |content| && pos <= |done| + |buf|
  {
  }

  lemma PlacedAt(blocks: seq<Block>, skip: set<nat>, lo: nat, cur: nat, done: seq<byte>, buf: seq<byte>,
                 w: int, mtdoffset: nat, blockstart: int, ebSize: nat)
    requires Placed(blocks, skip, lo, cur, done, buf, w, mtdoffset, blockstart, ebSize)
    ensures lo <= cur <= |blocks| && (blockstart == cur * ebSize ==> cur !in skip)
  {
  }

  ghost predicate AheadOf(cur: nat, count: nat, bad: set<nat>) {
    exists g :: cur <= g < count && g !in bad
  }

  // No good block is to come: what the good blocks hold is what is finished, and the buffer unless it is to be
  // replayed.
  lemma PlacedStuck(blocks: seq<Block>, skip: set<nat>, lo: nat, cur: nat, done: seq<byte>, buf: seq<byte>, w: int,
                    mtdoffset: nat, blockstart: int, ebSize: nat)
    requires Placed(blocks, skip, lo, cur, done, buf, w, mtdoffset, blockstart, ebSize)
    requires forall g :: cur <= g < |blocks| ==> g in skip
    ensures -1 <= w && (w == -1 ==> buf == []) && (w > 0 ==> w == |buf|)
    ensures |Good(blocks, skip, lo, |blocks|)| == |done| + if w == 0 then 0 else |buf|
  {
    GoodSplit(blocks, skip, lo, cur, |blocks|);
    NoneGood(blocks, skip, cur, |blocks|);
  }

  // What has been read is about as long as what it is padded to.
  lemma BufferedSizes(content: seq<byte>, pos: nat, page: nat, done: seq<byte>, buf: seq<byte>)
    requires 0 < page && Buffered(content, pos, page, done, buf)
    ensures pos <= |content| && pos <= |done| + |buf| && (pos % page == 0 ==> |done| + |buf| == pos)
    ensures (buf != [] ==> |done| < pos) && (pos < |content| ==> pos % page == 0)
    ensures pos == |content| ==> |done| + |buf| == |Padded(content, page)|
    ensures |content| <= |Padded(content, page)| && |Padded([], page)| == 0
  {
    if pos == |content| {
      assert content[..pos] == content;
    }
    if buf != [] {
      Multiples(page, 0, |buf|);
    }
    PaddedShort(content[..pos], page);
    ZeroPages(page);
  }

  lemma PaddedShort(content: seq<byte>, page: nat)
    requires 0 < page
    ensures |Padded(content, page)| < |content| + page
    ensures |content| % page == 0 ==> |Padded(content, page)| == |content|
    ensures |content| % page != 0 ==> |Padded(content, page)| > |content|
  {
  }

  lemma NoneAhead(cur: nat, count: nat, bad: set<nat>)
    requires !AheadOf(cur, count, bad)
    ensures forall g :: cur <= g < count ==> g in bad
  {
  }

  lemma ZeroPages(page: nat)
    requires 0 < page
    ensures 0 % page == 0
  {
  }

  class Writer {
    const flash: Flash
    const input: Input
    const filebuf: array<byte>
    const pad: bool
    const markbad: bool
    const stdin: bool
    var mtdoffset: nat
    var blockstart: int
    var writebuf: int     // -1 for NULL, else relative to `filebuf`
    var filebufLen: nat
    var imglen: int
    ghost const lo: nat           // the block to start at
    ghost const wasBad: set<nat>  // the bad blocks of the device at the start
    ghost var cur: nat            // the block at `mtdoffset`
    ghost var done: seq<byte>     // the bytes in the finished blocks
    ghost var failed: set<nat>    // the blocks in which a write failed
    ghost var unerased: set<nat>  // those of them in which the erasure failed too

    constructor (flash: Flash, input: Input, start: nat, pad: bool, markbad: bool, stdin: bool)
      requires flash.Valid() && input.pos == 0 && start % flash.ebSize == 0 && start / flash.ebSize <= flash.count
      ensures Inv() && this.flash == flash && this.input == input && lo == start / flash.ebSize && fresh(filebuf)
      ensures this.pad == pad && this.markbad == markbad && this.stdin == stdin && wasBad == flash.bad
      ensures AtStart()
    {
      this.flash, this.input, this.pad, this.markbad, this.stdin := flash, input, pad, markbad, stdin;
      filebuf := new byte[flash.ebSize](_ => 0xff);
      mtdoffset, blockstart, writebuf, filebufLen := start, -1, -1, 0;
      imglen := if stdin then flash.pageSize else |input.content|;
      lo, cur, done := start / flash.ebSize, start / flash.ebSize, [];
      failed, unerased, wasBad := {}, {}, flash.bad;
      new;
      assert Good(flash.blocks, flash.bad + failed, lo, lo) == [];
      StartBuffered(input.content, flash.pageSize);
      assert filebuf[..0] == [];
      assert start == lo * flash.ebSize;
      hide Buffered, Good, Padded, Flash.Valid;
    }

    ghost function Buffer(): seq<byte>
      reads this`filebufLen, filebuf
      requires filebufLen <= filebuf.Length
    {
      filebuf[..filebufLen]
    }

    // The state with the blocks as they were before the page was written.
    ghost predicate Steady(blocks: seq<Block>)
      reads this, flash, filebuf, input
    {
      && flash.Valid() && filebuf.Length == flash.ebSize && filebufLen <= filebuf.Length
      && (writebuf >= 0 ==> writebuf % flash.pageSize == 0) && GivenUp(failed, lo, cur, flash.bad, wasBad, markbad)
      && Blanked(blocks, failed, unerased) && unerased <= flash.refused && Counted()
      && Buffered(input.content, input.pos, flash.pageSize, done, Buffer())
    }

    ghost predicate Counted()
      reads this`imglen, input
    {
      imglen >= 0 && (!stdin ==> imglen == |input.content| - input.pos)
        && (imglen == 0 ==> input.pos == |input.content|)
    }

    ghost predicate Inv()
      reads this, flash, filebuf, input
    {
      && Steady(flash.blocks)
      && Placed(flash.blocks, flash.bad + failed, lo, cur, done, Buffer(), writebuf, mtdoffset, blockstart,
                flash.ebSize)
    }

    // Nothing is read yet.
    ghost predicate AtStart()
      reads this, flash, input
    {
      && imglen == (if stdin then flash.pageSize else |input.content|)
      && cur == lo && failed == {} && writebuf == -1 && filebufLen == 0 && input.pos == 0
    }

    // There is a good block to come, or this one is.
    ghost predicate Ahead()
      reads this, flash
    {
      AheadOf(cur, flash.count, flash.bad)
    }

    lemma AheadIs()
      ensures Ahead() <==> AheadOf(cur, flash.count, flash.bad)
    {
    }

    lemma AheadNext()
      ensures Ahead() ==> cur < flash.count && (cur in flash.bad ==> AheadOf(cur + 1, flash.count, flash.bad))
      ensures Ahead() ==> AheadOf(cur, flash.count, flash.bad)
    {
    }

    lemma SizeIs()
      requires Inv()
      ensures flash.Valid() && 0 < flash.pageSize <= flash.ebSize
    {
    }

    lemma AtBlock()
      requires Inv()
      ensures BlockStart(mtdoffset, flash.ebSize) == cur * flash.ebSize && lo <= cur <= flash.count
      ensures blockstart == cur * flash.ebSize ==>
                cur < flash.count && mtdoffset / flash.ebSize == cur && mtdoffset % flash.ebSize == writebuf
      ensures (cur * flash.ebSize) / flash.ebSize == cur
    {
      InBlock(flash.ebSize, cur, 0);
      if blockstart == cur * flash.ebSize {
        InBlock(flash.ebSize, cur, writebuf);
      }
    }

    // Unless the buffer is to be replayed, a new block starts with an empty one.
    method DropBuffer()
      requires Steady(flash.blocks)
      requires Between(flash.blocks, flash.bad + failed, lo, cur, done, Buffer(), writebuf)
      modifies `done, `filebufLen, `writebuf
      ensures Steady(flash.blocks) && writebuf == 0 && filebufLen == if old(writebuf) == 0 then old(filebufLen) else 0
      ensures Between(flash.blocks, flash.bad + failed, lo, cur, done, Buffer(), 0)
    {
      BetweenFresh(flash.blocks, flash.bad + failed, lo, cur, done, Buffer(), writebuf);
      hide Between, Padded, GivenUp, Blanked;
      if writebuf != 0 {
        done := done + Buffer();
        filebufLen := 0;
        writebuf := 0;
      }
    }

    // One look at a new block: it is good, or the next one is to be looked at.
    method CheckBlock() returns (ok: bool)
      requires Inv() && blockstart != cur * flash.ebSize
      modifies `blockstart, `done, `filebufLen, `writebuf, `mtdoffset, `cur
      ensures ok ==> Inv()
      ensures ok ==>
                if old(cur) in flash.bad then cur == old(cur) + 1
                else cur == old(cur) && blockstart == cur * flash.ebSize
      ensures mtdoffset >= old(mtdoffset) && writebuf == 0
              && filebufLen == if old(writebuf) == 0 then old(filebufLen) else 0
      ensures flash.mild && old(cur) < flash.count ==> ok
    {
      hide *;
      AtBlock();
      InvIs();
      SteadyIs(flash.blocks);
      SizeIs();
      PlacedBetween(flash.blocks, flash.bad + failed, lo, cur, done, Buffer(), writebuf, mtdoffset, blockstart,
                    flash.ebSize);
      blockstart := BlockStart(mtdoffset, flash.ebSize);
      SteadyIs(flash.blocks);
      DropBuffer();
      SteadyIs(flash.blocks);
      var ret := flash.IsBad(blockstart / flash.ebSize);
      if ret < 0 {
        return false;
      }
      PlacedNext(flash.blocks, flash.bad + failed, lo, cur, done, Buffer(), flash.ebSize);
      GivenUpNext(failed, lo, cur, flash.bad, wasBad, markbad);
      if ret == 1 {
        mtdoffset := blockstart + flash.ebSize;
        cur := cur + 1;
      }
      ok := true;
      SteadyIs(flash.blocks);
      InvIs();
    }

    // A new eraseblock: pass over bad ones.
    method NextBlock() returns (ok: bool)
      requires Inv()
      modifies `blockstart, `done, `filebufLen, `writebuf, `mtdoffset, `cur
      ensures ok ==> Inv() && blockstart == cur * flash.ebSize
      ensures mtdoffset >= old(mtdoffset)
      ensures old(writebuf) == 0 ==> filebufLen == old(filebufLen)
      ensures flash.mild && old(Ahead()) ==> ok
    {
      hide *;
      AtBlock();
      SizeIs();
      while blockstart != BlockStart(mtdoffset, flash.ebSize)
        invariant Inv() && (old(Ahead()) ==> Ahead()) && 0 < flash.ebSize
        invariant BlockStart(mtdoffset, flash.ebSize) == cur * flash.ebSize && cur <= flash.count
        invariant mtdoffset >= old(mtdoffset)
        invariant old(writebuf) == 0 ==> writebuf == 0 && filebufLen == old(filebufLen)
        decreases flash.count - cur, if blockstart == cur * flash.ebSize then 0 else 1
      {
        AheadNext();
        var checked := CheckBlock();
        AheadIs();
        if !checked {
          return false;
        }
        AtBlock();
      }
      ok := true;
    }

    // The loop around `read`: `n` bytes, fewer at the end of the input, -1 on an error.
    method ReadInput(at: nat, n: nat) returns (tinycnt: int, cnt: int)
      requires at + n <= filebuf.Length && 0 < n && input.pos <= |input.content|
      modifies input, filebuf
      ensures tinycnt <= n && old(input.pos) <= input.pos <= |input.content|
      ensures tinycnt >= 0 ==>
                && input.pos == old(input.pos) + tinycnt && (cnt == 0 || tinycnt < n ==> input.pos == |input.content|)
                && filebuf[..at] == old(filebuf[..at])
                && filebuf[at..at + tinycnt] == input.content[old(input.pos)..input.pos]
      ensures tinycnt >= 0 ==> (cnt == 0 <==> tinycnt < n)
      ensures input.reliable ==> tinycnt >= 0
    {
      tinycnt, cnt := 0, -1;
      while tinycnt < n
        invariant 0 <= tinycnt <= n && input.pos == old(input.pos) + tinycnt <= |input.content|
        invariant filebuf[..at] == old(filebuf[..at])
        invariant filebuf[at..at + tinycnt] == input.content[old(input.pos)..input.pos]
        invariant cnt != 0
      {
        ghost var before, mid := filebuf[..], input.pos;
        cnt := input.Read(filebuf, at + tinycnt, n - tinycnt);
        if cnt == 0 {
          break;
        }
        if cnt < 0 {
          return -1, cnt;
        }
        assert filebuf[..at] == before[..at];
        assert filebuf[at..at + tinycnt + cnt] == before[at..at + tinycnt] + input.content[mid..input.pos];
        tinycnt := tinycnt + cnt;
      }
    }

    lemma BufferWhole()
      requires Inv() && blockstart == cur * flash.ebSize
      ensures 0 <= writebuf <= filebufLen && writebuf + flash.pageSize <= filebuf.Length && input.pos <= |input.content|
      ensures writebuf + flash.pageSize > filebufLen ==> filebufLen == writebuf
      ensures 0 < flash.pageSize && (imglen == 0 ==> input.pos == |input.content|)
    {
      Multiples(flash.pageSize, writebuf, flash.ebSize);
      if writebuf < filebufLen {
        assert |Buffer()| == filebufLen;
        Multiples(flash.pageSize, writebuf, filebufLen);
      }
    }

    // A page from the input, padded at its end if that is asked for.
    method FetchPage(at: nat) returns (tinycnt: int, cnt: int)
      requires 0 < flash.pageSize && at + flash.pageSize <= filebuf.Length && input.pos <= |input.content|
      modifies input, filebuf
      ensures tinycnt <= flash.pageSize && old(input.pos) <= input.pos <= |input.content|
      ensures tinycnt >= 0 ==>
                && input.pos == old(input.pos) + tinycnt && (cnt == 0 <==> tinycnt < flash.pageSize)
                && (cnt == 0 || tinycnt < flash.pageSize ==> input.pos == |input.content|)
      ensures tinycnt == 0 ==> filebuf[..at] == old(filebuf[..at])
      ensures tinycnt > 0 ==>
                filebuf[..at + flash.pageSize] ==
                old(filebuf[..at]) + input.content[old(input.pos)..input.pos] + Erased(flash.pageSize - tinycnt)
      ensures 0 < tinycnt < flash.pageSize ==> pad
      ensures tinycnt < 0 && input.reliable ==> !pad && 0 < |input.content| - old(input.pos) < flash.pageSize
    {
      tinycnt, cnt := ReadInput(at, flash.pageSize);
      if tinycnt <= 0 {
        return;
      }
      if tinycnt < flash.pageSize && !pad {
        return -1, cnt;
      }
      ghost var before := filebuf[..];
      forall i | tinycnt <= i < flash.pageSize {
        filebuf[at + i] := 0xff;
      }
      assert filebuf[..at + tinycnt] == before[..at + tinycnt] == before[..at] + before[at..at + tinycnt];
      assert filebuf[at + tinycnt..at + flash.pageSize] == Erased(flash.pageSize - tinycnt);
      assert filebuf[..at + flash.pageSize] == filebuf[..at + tinycnt] + filebuf[at + tinycnt..at + flash.pageSize];
    }

    // The input ends within a page, and there is room for more than it.
    ghost predicate EndsShort()
      reads this, flash, input
      requires flash.Valid()
    {
      && |input.content| % flash.pageSize != 0
      && |input.content| < GoodCount(flash.bad + failed, lo, flash.count) * flash.ebSize
    }

    // Nothing is read yet if no block was looked at.
    ghost predicate Fresh()
      reads `writebuf, `filebufLen, input
    {
      writebuf == -1 ==> input.pos == 0 && filebufLen == 0
    }

    // There is something left to write, or it is not known that there is not.
    ghost predicate Pending()
      reads `imglen, `writebuf, `filebufLen
    {
      imglen > 0 || writebuf < filebufLen
    }

    // The end of standard input is noticed in a page that it ends in, and else not before another page is asked for.
    ghost predicate Noticed()
      reads `imglen, input
      requires 0 < flash.pageSize
    {
      stdin ==> (imglen == 0 <==> input.pos % flash.pageSize != 0)
    }

    // (Unfolds the definitions.)
    lemma NoticedIs()
      requires 0 < flash.pageSize
      ensures Noticed() <==> (stdin ==> (imglen == 0 <==> input.pos % flash.pageSize != 0))
      ensures Fresh() <==> (writebuf == -1 ==> input.pos == 0 && filebufLen == 0)
      ensures Pending() <==> imglen > 0 || writebuf < filebufLen
    {
    }

    // Nothing but the input and the buffer behind its end has changed; `imglen` is still to be counted down.
    ghost predicate Reading(pos: nat)
      reads this, flash, filebuf, input
    {
      && flash.Valid() && filebuf.Length == flash.ebSize && filebufLen <= filebuf.Length && 0 <= writebuf
      && writebuf % flash.pageSize == 0 && GivenUp(failed, lo, cur, flash.bad, wasBad, markbad)
      && Blanked(flash.blocks, failed, unerased) && unerased <= flash.refused
      && Buffered(input.content, pos, flash.pageSize, done, Buffer())
      && Placed(flash.blocks, flash.bad + failed, lo, cur, done, Buffer(), writebuf, mtdoffset, blockstart,
                flash.ebSize)
      && pos <= input.pos <= |input.content|
      && imglen >= 0 && (!stdin ==> imglen == |input.content| - pos) && (imglen == 0 ==> pos == |input.content|)
    }

    // (Unfolds the definition.)
    lemma ReadingIs(pos: nat)
      ensures Reading(pos) <==>
        && flash.Valid() && filebuf.Length == flash.ebSize && filebufLen <= filebuf.Length && 0 <= writebuf
        && writebuf % flash.pageSize == 0 && GivenUp(failed, lo, cur, flash.bad, wasBad, markbad)
        && Blanked(flash.blocks, failed, unerased) && unerased <= flash.refused
        && Buffered(input.content, pos, flash.pageSize, done, Buffer())
        && Placed(flash.blocks, flash.bad + failed, lo, cur, done, Buffer(), writebuf, mtdoffset, blockstart,
                  flash.ebSize)
        && pos <= input.pos <= |input.content|
        && imglen >= 0 && (!stdin ==> imglen == |input.content| - pos) && (imglen == 0 ==> pos == |input.content|)
    {
      hide Buffered, Placed, GivenUp, Blanked;
    }

    lemma ReadingStarts()
      requires Inv() && blockstart == cur * flash.ebSize
      ensures Reading(input.pos) && filebufLen <= filebuf.Length && 0 < flash.pageSize
      ensures writebuf >= filebufLen ==> writebuf == filebufLen
      ensures input.pos < |input.content| ==> input.pos % flash.pageSize == 0
      ensures input.pos + flash.ebSize - filebufLen <= GoodCount(flash.bad + failed, lo, flash.count) * flash.ebSize
    {
      BufferWhole();
      BufferedIs(input.content, input.pos, flash.pageSize, done, Buffer());
      hide Buffered, Placed, GivenUp, Blanked;
      ghost var buf := Buffer();
      PlacedRoom(flash.blocks, flash.bad + failed, lo, cur, done, buf, writebuf, mtdoffset, blockstart, flash.ebSize);
      BufferedWhole(input.content, input.pos, flash.pageSize, done, buf);
    }

    // The page read is in the buffer.
    method AddPage(tinycnt: nat, cnt: int, ghost pos: nat)
      requires Reading(pos) && 0 < tinycnt <= flash.pageSize && input.pos == pos + tinycnt
      requires blockstart == cur * flash.ebSize
      requires cnt == 0 || tinycnt < flash.pageSize ==> input.pos == |input.content|
      requires filebufLen + flash.pageSize <= filebuf.Length
      requires filebuf[filebufLen..filebufLen + flash.pageSize] == input.content[pos..input.pos]
               + Erased(flash.pageSize - tinycnt)
      modifies `filebufLen, `imglen
      ensures Inv() && filebufLen == old(filebufLen) + flash.pageSize
      ensures stdin ==> imglen == if cnt == 0 then 0 else old(imglen)
    {
      hide *;
      ReadingIs(pos);
      SizesAre();
      BufferIs();
      ghost var buf := Buffer();
      ghost var page := filebuf[filebufLen..filebufLen + flash.pageSize];
      ghost var buf' := filebuf[..filebufLen + flash.pageSize];
      assert buf' == buf + page == buf + input.content[pos..input.pos] + Erased(flash.pageSize - tinycnt);
      BufferedMore(input.content, pos, input.pos, flash.pageSize, done, buf);
      PlacedMore(flash.blocks, flash.bad + failed, lo, cur, done, buf, buf', writebuf, mtdoffset, blockstart,
                 flash.ebSize);
      filebufLen := filebufLen + flash.pageSize;
      if !stdin {
        imglen := imglen - tinycnt;
      } else if cnt == 0 {
        imglen := 0;
      }
      BufferIs();
      CountedIs();
      SteadyIs(flash.blocks);
      InvIs();
    }

    // The end of the input was met at once.
    method EndInput(ghost pos: nat)
      requires Reading(pos) && input.pos == pos == |input.content|
      modifies `imglen
      ensures Inv() && imglen == 0
    {
      if stdin {
        imglen := 0;
      }
      hide Buffered, Placed, GivenUp, Blanked;
    }

    // Read a page from the input if there is none in the buffer.
    method FillPage() returns (r: Fetch)
      requires Inv() && blockstart == cur * flash.ebSize
      modifies `filebufLen, `imglen, filebuf, input
      ensures r != Failed ==> Inv()
      ensures r == Fetched ==> writebuf + flash.pageSize <= filebufLen
      ensures r == AtEof ==> imglen == 0 && writebuf == filebufLen
      ensures 0 < flash.pageSize
      ensures r != Failed && !pad && old(input.pos) % flash.pageSize == 0 ==> input.pos % flash.pageSize == 0
      ensures flash.Valid() && (r == Failed && input.reliable ==> !pad && EndsShort())
      ensures r == Fetched && old(Noticed()) ==> Noticed()
      ensures r == AtEof ==> input.pos == |input.content| < Capacity()
      ensures r == Fetched ==> input.content != []
    {
      hide *;
      BufferWhole();
      ReadingStarts();
      SizeIs();
      if writebuf + flash.pageSize <= filebufLen {
        SomeContent();
        return Fetched;
      }
      ghost var pos, buf := input.pos, Buffer();
      ReadingIs(pos);
      BufferIs();
      PageOn(pos, flash.pageSize);
      NoticedIs();
      CountedHere();
      MeansIs();
      var tinycnt, cnt := FetchPage(filebufLen);
      if tinycnt < 0 {
        if input.reliable {
          ShortEnd(input.content, pos, flash.pageSize);
          EndsShortIs();
        }
        return Failed;
      }
      if tinycnt > 0 {
        Behind(filebuf[..filebufLen + flash.pageSize], buf, input.content[pos..input.pos],
               Erased(flash.pageSize - tinycnt));
        assert filebuf[..filebufLen] == filebuf[..filebufLen + flash.pageSize][..filebufLen];
        assert filebuf[filebufLen..filebufLen + flash.pageSize] == filebuf[..filebufLen + flash.pageSize][filebufLen..];
      }
      BufferIs();
      ReadingIs(pos);
      NoticedIs();
      MeansIs();
      if tinycnt == 0 {
        EndInput(pos);
        return AtEof;
      }
      ShortOf(pos, tinycnt, flash.pageSize);
      AddPage(tinycnt, cnt, pos);
      NoticedIs();
      r := Fetched;
    }

    // Write a page. If that fails with EIO, give the block up.
    method WritePage() returns (ok: bool)
      requires Inv() && blockstart == cur * flash.ebSize && writebuf + flash.pageSize <= filebufLen
      modifies flash, `writebuf, `mtdoffset, `cur, `failed, `unerased
      ensures ok ==> Inv() && mtdoffset > old(mtdoffset) && writebuf >= 0
      ensures ok && writebuf == 0 ==> 0 < cur && failed == old(failed) + {cur - 1}
      ensures ok && writebuf > 0 ==> failed == old(failed) && mtdoffset == old(mtdoffset) + flash.pageSize
      ensures flash.mild ==> ok
      ensures flash.reliable ==> failed == old(failed) && flash.bad == old(flash.bad)
    {
      AtBlock();
      BufferWhole();
      ghost var blocks, buf := flash.blocks, Buffer();
      assert buf[writebuf..writebuf + flash.pageSize] == filebuf[writebuf..writebuf + flash.pageSize];
      hide Placed, Buffered, GivenUp, Blanked, BlockStart;
      var ret := flash.Write(mtdoffset / flash.ebSize, mtdoffset % flash.ebSize,
                             filebuf[writebuf..writebuf + flash.pageSize]);
      if ret == Done {
        Advance(blocks);
        return true;
      }
      if ret == Fatal {
        return false;
      }
      ok := GiveUp(blocks);
    }

    // The page is written.
    method Advance(ghost blocks: seq<Block>)
      requires Steady(blocks)
      requires Placed(blocks, flash.bad + failed, lo, cur, done, Buffer(), writebuf, mtdoffset, blockstart,
                      flash.ebSize)
      requires blockstart == cur * flash.ebSize && 0 <= writebuf && writebuf + flash.pageSize <= filebufLen
      requires Differ(blocks, flash.blocks, cur) && cur < flash.count && |blocks[cur]| == flash.ebSize
      requires flash.blocks[cur] ==
               blocks[cur][..writebuf] + Buffer()[writebuf..writebuf + flash.pageSize]
                 + blocks[cur][writebuf + flash.pageSize..]
      modifies `writebuf, `mtdoffset, `cur
      ensures Inv() && mtdoffset == old(mtdoffset) + flash.pageSize > old(mtdoffset)
      ensures writebuf == old(writebuf) + flash.pageSize
    {
      PlacedWritten(blocks, flash.blocks, flash.bad + failed, lo, cur, done, Buffer(), writebuf, flash.pageSize,
                    mtdoffset, blockstart, flash.ebSize);
      Multiples(flash.pageSize, writebuf, flash.pageSize);
      GivenUpNext(failed, lo, cur, flash.bad, wasBad, markbad);
      BlankedStill(blocks, flash.blocks, failed, unerased, cur);
      hide Placed, Buffered, GivenUp, Blanked, Differ;
      mtdoffset := mtdoffset + flash.pageSize;
      writebuf := writebuf + flash.pageSize;
      cur := if writebuf == flash.ebSize then cur + 1 else cur;
    }

    // The page failed: erase the block and mark it bad if that is asked for. What it was to
    // hold is in the buffer, to be written again to the next block.
    method GiveUp(ghost blocks: seq<Block>) returns (ok: bool)
      requires Steady(blocks)
      requires Placed(blocks, flash.bad + failed, lo, cur, done, Buffer(), writebuf, mtdoffset, blockstart,
                      flash.ebSize)
      requires blockstart == cur * flash.ebSize && cur < flash.count && mtdoffset / flash.ebSize == cur && 0 <= writebuf
      requires Differ(blocks, flash.blocks, cur)
      modifies flash, `writebuf, `mtdoffset, `cur, `failed, `unerased
      ensures ok ==> Inv() && mtdoffset > old(mtdoffset) && failed == old(failed) + {old(cur)} && writebuf == 0
      ensures ok ==> flash.bad == old(flash.bad) + if markbad then {old(cur)} else {}
      ensures ok ==> cur == old(cur) + 1
      ensures flash.mild ==> ok
    {
      hide *;
      SteadyIs(blocks);
      InBlock(flash.ebSize, cur, 0);
      ghost var buf, bad := Buffer(), flash.bad;
      PlacedBounds(blocks, bad + failed, lo, cur, done, buf, writebuf, mtdoffset, blockstart, flash.ebSize);
      var erased;
      ok, erased := Retire(blockstart / flash.ebSize, mtdoffset / flash.ebSize);
      if !ok {
        return;
      }
      SizesAre();
      assert flash.bad == if markbad then bad + {cur} else bad;
      DifferAgain(blocks, old(flash.blocks), flash.blocks, cur);
      PlacedGivenUp(blocks, flash.blocks, bad, failed, unerased, lo, cur, done, buf, writebuf, mtdoffset, blockstart,
                    flash.ebSize, wasBad, markbad, erased);
      Replay(erased);
    }

    // Go on behind block `cur` with the whole buffer.
    method Replay(ghost erased: bool)
      requires flash.Valid() && filebuf.Length == flash.ebSize && filebufLen <= filebuf.Length && Counted()
      requires Buffered(input.content, input.pos, flash.pageSize, done, Buffer()) && 0 <= blockstart
      requires Placed(flash.blocks, flash.bad + (failed + {cur}), lo, cur + 1, done, Buffer(), 0,
                      blockstart + flash.ebSize, blockstart, flash.ebSize)
      requires GivenUp(failed + {cur}, lo, cur + 1, flash.bad, wasBad, markbad)
      requires Blanked(flash.blocks, failed + {cur}, if erased then unerased else unerased + {cur})
      requires unerased <= flash.refused && (erased || cur in flash.refused)
      modifies `writebuf, `mtdoffset, `cur, `failed, `unerased
      ensures Inv() && mtdoffset == blockstart + flash.ebSize && failed == old(failed) + {old(cur)} && writebuf == 0
      ensures cur == old(cur) + 1
    {
      hide *;
      writebuf := 0;
      mtdoffset := blockstart + flash.ebSize;
      failed := failed + {cur};
      unerased := if erased then unerased else unerased + {cur};
      cur := cur + 1;
      SteadyIs(flash.blocks);
      InvIs();
    }

    // The block is erased, and marked bad if that is asked for; the erasure may fail with EIO.
    method Retire(b: nat, marked: nat) returns (ok: bool, erased: bool)
      requires flash.Valid() && b == marked < flash.count
      modifies flash
      ensures flash.Valid() && forall c :: 0 <= c < flash.count && c != b ==> flash.blocks[c] == old(flash.blocks[c])
      ensures erased ==> forall i :: 0 <= i < flash.ebSize ==> flash.blocks[b][i] == 0xff
      ensures ok ==> flash.bad == old(flash.bad) + if markbad then {b} else {}
      ensures old(flash.refused) <= flash.refused && (erased || b in flash.refused)
      ensures flash.mild ==> ok
    {
      var r := flash.Erase(b);
      erased := r == Status.Done;
      if r == Fatal {
        return false, erased;
      }
      ok := true;
      if markbad {
        ok := flash.MarkBad(marked);
      }
    }

    // A page in the buffer comes from the input.
    lemma SomeContent()
      requires Inv() && 0 < filebufLen
      ensures input.content != []
    {
      hide GivenUp, Blanked, Placed, Buffered, Padded;
      assert |Buffer()| == filebufLen;
      BufferedSizes(input.content, input.pos, flash.pageSize, done, Buffer());
    }

    lemma ShortOf(pos: nat, tinycnt: nat, page: nat)
      requires 0 < tinycnt <= page && pos % page == 0
      ensures (pos + tinycnt) % page == 0 <==> tinycnt == page
    {
      var k := pos / page;
      assert pos == k * page + 0;
      if tinycnt < page {
        DivMod(page, k, tinycnt);
      } else {
        Multiples(page, pos, page);
      }
    }

    lemma BufferIs()
      requires filebufLen <= filebuf.Length
      ensures Buffer() == filebuf[..filebufLen]
    {
    }

    // (Unfolds the definition.)
    lemma CountedIs()
      ensures Counted() <==>
        imglen >= 0 && (!stdin ==> imglen == |input.content| - input.pos)
          && (imglen == 0 ==> input.pos == |input.content|)
    {
    }

    lemma SizesAre()
      requires flash.Valid()
      ensures |flash.blocks| == flash.count && forall b :: 0 <= b < |flash.blocks| ==> |flash.blocks[b]| == flash.ebSize
    {
    }

    // (Unfolds the definition.)
    lemma EndsShortIs()
      requires flash.Valid()
      ensures EndsShort() <==>
        && |input.content| % flash.pageSize != 0
        && |input.content| < GoodCount(flash.bad + failed, lo, flash.count) * flash.ebSize
    {
    }

    // (Unfolds the definition.)
    lemma SteadyIs(blocks: seq<Block>)
      ensures Steady(blocks) <==>
        && flash.Valid() && filebuf.Length == flash.ebSize && filebufLen <= filebuf.Length
        && (writebuf >= 0 ==> writebuf % flash.pageSize == 0) && GivenUp(failed, lo, cur, flash.bad, wasBad, markbad)
        && Blanked(blocks, failed, unerased) && unerased <= flash.refused && Counted()
        && Buffered(input.content, input.pos, flash.pageSize, done, Buffer())
      ensures flash.Valid() ==> 0 < flash.pageSize <= flash.ebSize && flash.count == |flash.blocks|
    {
      hide GivenUp, Blanked, Counted, Buffered;
    }

    // (Unfolds the definition.)
    lemma InvIs()
      ensures Inv() <==>
        && Steady(flash.blocks)
        && Placed(flash.blocks, flash.bad + failed, lo, cur, done, Buffer(), writebuf, mtdoffset, blockstart,
                  flash.ebSize)
    {
      hide GivenUp, Blanked, Buffered, Placed;
    }

    ghost function Image(): seq<byte>
      reads input
      requires input.pos <= |input.content| && 0 < flash.pageSize
    {
      Padded(input.content[..input.pos], flash.pageSize)
    }

    // The bytes that the good blocks hold.
    ghost function Capacity(): nat
      reads this`failed, flash
    {
      GoodCount(flash.bad + failed, lo, flash.count) * flash.ebSize
    }

    lemma WhenDone()
      requires Inv() && writebuf >= filebufLen && 0 < flash.pageSize
      requires input.pos < |input.content| ==> mtdoffset >= flash.count * flash.ebSize
      ensures input.pos <= |input.content| && Stored(flash.blocks, flash.bad + failed, lo, Image()) && flash.Valid()
      ensures GivenUp(failed, lo, cur, flash.bad, wasBad, markbad) && Blanked(flash.blocks, failed, unerased)
      ensures cur <= flash.count && unerased <= flash.refused
      ensures input.pos == |input.content| <==> |Padded(input.content, flash.pageSize)| <= Capacity()
      ensures input.pos < |input.content| ==>
                Good(flash.blocks, flash.bad + failed, lo, flash.count) == input.content[..input.pos]
                  && input.pos == Capacity()
    {
      hide GivenUp, Blanked, Placed, Buffered;
      AtBlock();
      SizesAre();
      ghost var skip := flash.bad + failed;
      PlacedEnd(flash.blocks, skip, lo, cur, done, Buffer(), writebuf, mtdoffset, blockstart, flash.ebSize);
      BufferedIs(input.content, input.pos, flash.pageSize, done, Buffer());
      GoodSize(flash.blocks, skip, lo, flash.count, flash.ebSize);
      if input.pos < |input.content| {
        PlacedFull(flash.blocks, skip, lo, cur, done, Buffer(), writebuf, mtdoffset, blockstart, flash.ebSize);
        PaddedWhole(input.content[..input.pos], flash.pageSize);
      } else {
        assert input.content[..input.pos] == input.content;
      }
    }

    // If something is left to write and no good block is to come, the good blocks do not hold the input.
    lemma Stuck()
      requires Inv() && !Ahead() && 0 < flash.pageSize && Pending() && Fresh() && Noticed()
      ensures !stdin ==> !(Fits() && 0 < Capacity())
      ensures stdin ==> |input.content| >= Capacity()
    {
      hide *;
      InvIs();
      SteadyIs(flash.blocks);
      SizesAre();
      BufferIs();
      NoticedIs();
      AheadIs();
      CountedIs();
      MeansIs();
      NoneAhead(cur, flash.count, flash.bad);
      ghost var skip, buf := flash.bad + failed, Buffer();
      PlacedStuck(flash.blocks, skip, lo, cur, done, buf, writebuf, mtdoffset, blockstart, flash.ebSize);
      GoodSize(flash.blocks, skip, lo, flash.count, flash.ebSize);
      BufferedSizes(input.content, input.pos, flash.pageSize, done, buf);
    }

    // The page that is next is in a good block, and reaches the end of the device only if that block is the last.
    lemma OnGood()
      requires Inv() && blockstart == cur * flash.ebSize
      ensures mtdoffset + flash.pageSize >= flash.count * flash.ebSize ==> EndsGood()
    {
      hide Blanked, Buffered, Filling, Between;
      AtBlock();
      PlacedAt(flash.blocks, flash.bad + failed, lo, cur, done, Buffer(), writebuf, mtdoffset, blockstart,
               flash.ebSize);
      Multiples(flash.pageSize, writebuf, flash.ebSize);
      MulOrder(flash.ebSize, cur + 1, flash.count);
      assert (cur + 1) * flash.ebSize == cur * flash.ebSize + flash.ebSize;
    }

    lemma HasRoom()
      requires Inv() && blockstart == cur * flash.ebSize
      ensures 0 < Capacity()
    {
      hide *;
      InvIs();
      SteadyIs(flash.blocks);
      SizeIs();
      SizesAre();
      MeansIs();
      PlacedRoom(flash.blocks, flash.bad + failed, lo, cur, done, Buffer(), writebuf, mtdoffset, blockstart,
                 flash.ebSize);
    }

    lemma InDevice()
      requires Inv() && mtdoffset < flash.count * flash.ebSize
      ensures cur < flash.count && flash.count - 1 !in failed && (EndsGood() ==> Ahead())
    {
      hide Blanked, Buffered, Placed;
      AtBlock();
      MulOrder(flash.ebSize, cur, flash.count);
    }

    lemma PastDevice()
      requires Inv() && mtdoffset >= flash.count * flash.ebSize
      ensures !Ahead() && cur == flash.count && blockstart != cur * flash.ebSize
    {
      AtBlock();
      if blockstart == cur * flash.ebSize {
        MulOrder(flash.ebSize, cur, flash.count);
      } else {
        MulOrder(flash.ebSize, cur, flash.count);
      }
      hide Inv;
    }

    // What success means: the blocks hold the input, or as much of it as they can.
    ghost predicate Finished()
      reads this, flash, filebuf, input
    {
      && flash.Valid() && cur <= flash.count && GivenUp(failed, lo, cur, flash.bad, wasBad, markbad)
      && Blanked(flash.blocks, failed, unerased) && unerased <= flash.refused && input.pos <= |input.content|
      && Stored(flash.blocks, flash.bad + failed, lo, Image())
      && (input.pos == |input.content| <==> Fits())
      && (input.pos < |input.content| ==>
            Good(flash.blocks, flash.bad + failed, lo, flash.count) == input.content[..input.pos]
              && input.pos == Capacity())
    }

    // The padded input fits the good blocks.
    ghost predicate Fits()
      reads this`failed, flash
      requires 0 < flash.pageSize
    {
      |Padded(input.content, flash.pageSize)| <= Capacity()
    }

    // The last page is padded, or needs no padding.
    ghost predicate Whole()
      requires 0 < flash.pageSize
    {
      pad || |input.content| % flash.pageSize == 0
    }

    // The last block of the device was good at the start.
    ghost predicate EndsGood() {
      lo < flash.count && flash.count - 1 !in wasBad
    }

    // What has to hold for the run to succeed if writes and erasures fail with EIO at worst: of a file, that the blocks
    // that were not given up can hold it, and there is one; of standard input, that it fills them or ends before.
    ghost predicate Succeeds()
      reads this`failed, flash
      requires 0 < flash.pageSize
    {
      if !stdin then Whole() && Fits() && 0 < Capacity()
      else if EndsGood() then flash.count - 1 !in failed && (Whole() || |input.content| > Capacity())
      else Whole() && |input.content| < Capacity()
    }

    // (Unfolds the definitions.)
    lemma MeansIs()
      requires 0 < flash.pageSize
      ensures Succeeds() <==>
        if !stdin then Whole() && |Padded(input.content, flash.pageSize)| <= Capacity() && 0 < Capacity()
        else if EndsGood() then flash.count - 1 !in failed && (Whole() || |input.content| > Capacity())
        else Whole() && |input.content| < Capacity()
      ensures EndsGood() <==> lo < flash.count && flash.count - 1 !in wasBad
      ensures Whole() <==> pad || |input.content| % flash.pageSize == 0
      ensures Fits() <==> |Padded(input.content, flash.pageSize)| <= Capacity()
      ensures Capacity() == GoodCount(flash.bad + failed, lo, flash.count) * flash.ebSize
    {
      hide Padded, GoodCount;
    }

    lemma CountedHere()
      requires Inv()
      ensures imglen >= 0 && (!stdin ==> imglen == |input.content| - input.pos)
      ensures imglen == 0 ==> input.pos == |input.content|
      ensures input.pos <= |input.content|
    {
      hide GivenUp, Blanked, Placed;
    }

    // Between two rounds of the loop: what follows from the last block that was given up, or written.
    ghost predicate BetweenRounds()
      reads this, flash, input
      requires 0 < flash.pageSize
    {
      && Fresh() && Noticed() && (!pad ==> input.pos % flash.pageSize == 0)
      && (writebuf == 0 ==> cur > 0 && cur - 1 in failed && filebufLen > 0)
      && (writebuf >= 0 ==> input.content != [])
      && (flash.count - 1 in failed ==> writebuf == 0)
      && (mtdoffset >= flash.count * flash.ebSize ==> writebuf <= 0 || EndsGood())
    }

    // (Unfolds the definition.)
    lemma BetweenRoundsIs()
      requires 0 < flash.pageSize
      ensures BetweenRounds() <==>
        && Fresh() && Noticed() && (!pad ==> input.pos % flash.pageSize == 0)
        && (writebuf == 0 ==> cur > 0 && cur - 1 in failed && filebufLen > 0)
        && (writebuf >= 0 ==> input.content != [])
        && (flash.count - 1 in failed ==> writebuf == 0)
        && (mtdoffset >= flash.count * flash.ebSize ==> writebuf <= 0 || EndsGood())
    {
    }

    // One round of the loop. If it ends in an error, that is what the input and the blocks given up make of it.
    method Round() returns (r: Fetch)
      requires Inv() && 0 < flash.pageSize && BetweenRounds() && Pending() && mtdoffset < flash.count * flash.ebSize
      modifies this, flash, filebuf, input
      ensures 0 < flash.pageSize && (flash.reliable ==> failed == old(failed) && flash.bad == old(flash.bad))
      ensures r != Failed ==> Inv() && (!pad ==> input.pos % flash.pageSize == 0)
      ensures r == Fetched ==> BetweenRounds() && writebuf != -1 && mtdoffset > old(mtdoffset)
      ensures r == AtEof ==>
                imglen == 0 && writebuf == filebufLen && |input.content| < Capacity() && flash.count - 1 !in failed
      ensures r == Failed && flash.mild && input.reliable ==> !Succeeds()
    {
      hide *;
      BetweenRoundsIs();
      NoticedIs();
      InDevice();
      if !Ahead() {
        NotAhead();
      }
      var ok := NextBlock();
      if !ok {
        return Failed;
      }
      NoticedIs();
      BufferWhole();
      r := FillPage();
      if r == Failed {
        TooShort();
        return;
      }
      if r == AtEof {
        return;
      }
      ok := PutPage();
      r := if ok then Fetched else Failed;
    }

    // The second half of a round.
    method PutPage() returns (ok: bool)
      requires Inv() && blockstart == cur * flash.ebSize && writebuf + flash.pageSize <= filebufLen
      requires 0 < flash.pageSize && Noticed() && input.content != [] && flash.count - 1 !in failed
      requires !pad ==> input.pos % flash.pageSize == 0
      modifies flash, `writebuf, `mtdoffset, `cur, `failed, `unerased
      ensures ok ==> Inv() && BetweenRounds() && writebuf != -1 && mtdoffset > old(mtdoffset)
      ensures flash.mild ==> ok
      ensures flash.reliable ==> failed == old(failed) && flash.bad == old(flash.bad)
    {
      hide *;
      NoticedIs();
      BufferWhole();
      OnGood();
      ok := WritePage();
      if ok {
        NoticedIs();
        BetweenRoundsIs();
      }
    }

    lemma NotAhead()
      requires Inv() && !Ahead() && 0 < flash.pageSize && BetweenRounds() && Pending()
      requires mtdoffset < flash.count * flash.ebSize
      ensures !Succeeds()
    {
      hide *;
      BetweenRoundsIs();
      InDevice();
      MeansIs();
      Stuck();
    }

    lemma TooShort()
      requires flash.Valid() && 0 < flash.pageSize
      ensures !pad && EndsShort() ==> !Succeeds()
    {
      hide *;
      MeansIs();
      EndsShortIs();
      PaddedShort(input.content, flash.pageSize);
    }

    // The loop over pages.
    method WritePages() returns (ok: bool)
      requires Inv() && AtStart() && 0 < flash.pageSize
      modifies this, flash, filebuf, input
      ensures 0 < flash.pageSize && (flash.reliable ==> failed == old(failed) && flash.bad == old(flash.bad))
      ensures flash.mild && input.reliable && !ok ==> !Succeeds()
      ensures ok ==> Inv() && (!pad ==> input.pos % flash.pageSize == 0)
      ensures ok ==>
                || (imglen == 0 && writebuf == filebufLen && |input.content| < Capacity() && flash.count - 1 !in failed)
                || (BetweenRounds() && (!Pending() || mtdoffset >= flash.count * flash.ebSize))
      ensures ok && writebuf == -1 ==> mtdoffset == old(mtdoffset) && imglen == old(imglen)
    {
      hide *;
      AtStartIs();
      BetweenRoundsIs();
      SizeIs();
      var size := flash.count * flash.ebSize;
      ok := true;
      while (imglen > 0 || writebuf < filebufLen) && mtdoffset < size
        invariant Inv() && 0 < flash.pageSize && ok && BetweenRounds()
        invariant flash.reliable ==> failed == old(failed) && flash.bad == old(flash.bad)
        invariant writebuf == -1 ==> mtdoffset == old(mtdoffset) && imglen == old(imglen)
        decreases size - mtdoffset
      {
        NoticedIs();
        var round := Round();
        if round == Failed {
          return false;
        }
        if round == AtEof {
          AtEofIs();
          return;
        }
      }
      NoticedIs();
      BetweenRoundsIs();
    }

    lemma AtEofIs()
      requires Inv() && writebuf == filebufLen
      ensures writebuf != -1
    {
      hide GivenUp, Blanked, Placed, Buffered;
    }

    lemma AtStartIs()
      requires AtStart() && 0 < flash.pageSize
      ensures input.pos % flash.pageSize == 0 && failed == {} && writebuf == -1 && cur == lo
      ensures imglen == (if stdin then flash.pageSize else |input.content|) && Fresh() && Noticed()
    {
    }

    // The checks before the loop.
    lemma GuardsPass()
      requires Inv() && AtStart() && 0 < flash.pageSize
      ensures !stdin && Fits() ==>
                imglen / flash.pageSize * flash.pageSize <= flash.count * flash.ebSize - mtdoffset
      ensures stdin && lo < flash.count ==>
                && mtdoffset < flash.count * flash.ebSize
                && imglen / flash.pageSize * flash.pageSize <= flash.count * flash.ebSize - mtdoffset
      ensures imglen % flash.pageSize == if stdin then 0 else |input.content| % flash.pageSize
      ensures stdin && lo >= flash.count ==> Capacity() == 0
    {
      hide GivenUp, Blanked, Buffered, Between, Padded, GoodCount, Filling;
      AtBlock();
      MulOrder(flash.ebSize, lo, flash.count);
      GoodFew(flash.bad + failed, lo, flash.count, flash.ebSize);
      WholePages(imglen, flash.pageSize);
      PaddedLonger(input.content, flash.pageSize);
    }

    // (Unfolds the definition.)
    lemma FinishedIs()
      requires 0 < flash.pageSize
      ensures Finished() <==>
        && flash.Valid() && cur <= flash.count && GivenUp(failed, lo, cur, flash.bad, wasBad, markbad)
        && Blanked(flash.blocks, failed, unerased) && unerased <= flash.refused && input.pos <= |input.content|
        && Stored(flash.blocks, flash.bad + failed, lo, Image())
        && (input.pos == |input.content| <==> |Padded(input.content, flash.pageSize)| <= Capacity())
        && (input.pos < |input.content| ==>
              Good(flash.blocks, flash.bad + failed, lo, flash.count) == input.content[..input.pos]
                && input.pos == Capacity())
      ensures Fits() <==> |Padded(input.content, flash.pageSize)| <= Capacity()
    {
      hide GivenUp, Blanked, Stored, Capacity, Good;
    }

    // The main loop. On success the input, padded to whole pages, is in the blocks that are not bad and were not
    // given up; if it does not fit them, which only standard input may, they hold its beginning. If writes and erasures
    // fail with EIO at worst, success depends only on the input and on the blocks that are bad or were given up.
    method Run() returns (ok: bool)
      requires Inv() && AtStart()
      modifies this, flash, filebuf, input
      ensures 0 < flash.pageSize && (ok ==> Finished() && (!stdin ==> input.pos == |input.content|))
      ensures flash.reliable ==> failed == {} && flash.bad == old(flash.bad)
      ensures flash.mild && input.reliable && !stdin ==> (ok <==> Whole() && Fits() && 0 < Capacity())
      ensures flash.mild && input.reliable && stdin ==>
                (ok <==> if EndsGood() then flash.count - 1 !in failed && (Whole() || |input.content| > Capacity())
                         else Whole() && |input.content| < Capacity())
    {
      hide *;
      SizeIs();
      AtStartIs();
      GuardsPass();
      MeansIs();
      if !pad && imglen % flash.pageSize != 0 {
        return false;
      }
      if imglen / flash.pageSize * flash.pageSize > flash.count * flash.ebSize - mtdoffset {
        return false;
      }
      ok := WritePages();
      MeansIs();
      if !ok {
        return;
      }
      if (!stdin && imglen > 0) || writebuf < filebufLen {
        if BetweenRounds() {
          NoticedIs();
          FailsHere(old(mtdoffset));
        }
        return false;
      }
      CountedHere();
      LeftHere();
      WhenDone();
      FinishedIs();
      SucceedsHere();
    }

    // The loop was left at the end of the device with something still to write.
    lemma FailsHere(start: nat)
      requires Inv() && 0 < flash.pageSize && BetweenRounds() && Pending() && mtdoffset >= flash.count * flash.ebSize
      requires (!stdin && imglen > 0) || writebuf < filebufLen
      requires writebuf == -1 ==> mtdoffset == start
      requires stdin && lo < flash.count ==> start < flash.count * flash.ebSize
      ensures !Succeeds()
    {
      hide *;
      BetweenRoundsIs();
      PastDevice();
      Stuck();
      MeansIs();
      if writebuf < filebufLen {
        AtEnd();
      }
    }

    lemma LeftHere()
      requires Inv() && 0 < flash.pageSize && writebuf >= filebufLen && (stdin || imglen == 0)
      requires (imglen == 0 && writebuf == filebufLen)
               || (BetweenRounds() && (!Pending() || mtdoffset >= flash.count * flash.ebSize))
      ensures input.pos < |input.content| ==> mtdoffset >= flash.count * flash.ebSize
      ensures !stdin ==> input.pos == |input.content|
    {
      hide *;
      CountedHere();
      NoticedIs();
    }

    lemma SucceedsHere()
      requires 0 < flash.pageSize && Inv() && Finished() && writebuf >= filebufLen && (stdin || imglen == 0)
      requires !pad ==> input.pos % flash.pageSize == 0
      requires || (imglen == 0 && writebuf == filebufLen && |input.content| < Capacity() && flash.count - 1 !in failed)
               || (BetweenRounds() && (!Pending() || mtdoffset >= flash.count * flash.ebSize))
      ensures Succeeds()
    {
      hide *;
      CountedHere();
      NoticedIs();
      FinishedIs();
      MeansIs();
      PaddedShort(input.content, flash.pageSize);
      PaddedLonger(input.content, flash.pageSize);
      if BetweenRounds() {
        BetweenRoundsIs();
        NotNegative();
      }
    }

    lemma NotNegative()
      requires Inv()
      ensures filebufLen >= 0 && (input.content == [] ==> input.pos == 0)
    {
    }

    // At the end of the device a buffer that is not all written is to be replayed.
    lemma AtEnd()
      requires Inv() && mtdoffset >= flash.count * flash.ebSize && writebuf < filebufLen
      ensures -1 <= writebuf <= 0
    {
      hide GivenUp, Blanked, Buffered;
      PastDevice();
    }
  }
}
