/**
 NAND flash as nandwrite and nanddump see it through external/mtd-utils/lib/libmtd.c: a row of
 eraseblocks, some of them bad, with operations that may fail.
 */
module NandFlash {
  import opened Arithmetic
  import opened Jffs2Format

  // The outcome of an operation: `errno` is EIO, or something else.
  datatype Status = Done | Eio | Fatal

  type Block = seq<byte>

  class Flash {
    const ebSize: nat    // bytes in an eraseblock
    const pageSize: nat  // `min_io_size`
    const count: nat     // number of eraseblocks
    const reliable: bool // no operation fails
    const mild: bool     // writes and erasures fail with EIO at worst; looking for and marking bad blocks do not fail
    var blocks: seq<Block>
    var bad: set<nat>
    ghost var refused: set<nat> // blocks of which an erasure has failed

    ghost predicate Valid()
      reads this
    {
      && 0 < pageSize <= ebSize && ebSize % pageSize == 0 && |blocks| == count && (reliable ==> mild)
      && forall b :: 0 <= b < count ==> |blocks[b]| == ebSize
    }

    constructor (ebSize: nat, pageSize: nat, blocks: seq<Block>, bad: set<nat>, reliable: bool, mild: bool)
      requires 0 < pageSize <= ebSize && ebSize % pageSize == 0 && forall b :: 0 <= b < |blocks| ==>
               |blocks[b]| == ebSize
      requires reliable ==> mild
      ensures Valid() && this.ebSize == ebSize && this.pageSize == pageSize && this.blocks == blocks && this.bad == bad
      ensures this.reliable == reliable && this.mild == mild && refused == {}
    {
      this.ebSize, this.pageSize, this.count := ebSize, pageSize, |blocks|;
      this.reliable, this.mild := reliable, mild;
      this.blocks, this.bad, this.refused := blocks, bad, {};
    }

    // `mtd_is_bad`: 1, 0 or a negative error; a block beyond the device is an error.
    method IsBad(b: nat) returns (r: int)
      ensures r >= 0 ==> b < count && r == if b in bad then 1 else 0
      ensures mild && b < count ==> r >= 0
    {
      var fails: bool := *;
      r := if b >= count || (fails && !mild) then -1 else if b in bad then 1 else 0;
    }

    // `mtd_write` within one block: a failed write leaves anything in that block.
    method Write(b: nat, offs: nat, data: seq<byte>) returns (r: Status)
      requires Valid() && b < count && offs + |data| <= ebSize
      modifies `blocks
      ensures Valid() && forall c :: 0 <= c < count && c != b ==> blocks[c] == old(blocks[c])
      ensures r == Done ==> blocks[b] == old(blocks[b])[..offs] + data + old(blocks[b])[offs + |data|..]
      ensures (reliable ==> r == Done) && (mild ==> r != Fatal)
    {
      var fails: bool, fatal: bool := *, *;
      if fails && !reliable {
        Scramble(b);
        return if fatal && !mild then Fatal else Eio;
      }
      blocks := blocks[b := blocks[b][..offs] + data + blocks[b][offs + |data|..]];
      r := Done;
    }

    method Scramble(b: nat)
      requires Valid() && b < count
      modifies `blocks
      ensures Valid() && forall c :: 0 <= c < count && c != b ==> blocks[c] == old(blocks[c])
    {
      var junk: Block := *;
      if |junk| == ebSize {
        blocks := blocks[b := junk];
      }
    }

    // `mtd_erase`
    method Erase(b: nat) returns (r: Status)
      requires Valid() && b < count
      modifies `blocks, `refused
      ensures Valid() && forall c :: 0 <= c < count && c != b ==> blocks[c] == old(blocks[c])
      ensures r == Done ==> forall i :: 0 <= i < ebSize ==> blocks[b][i] == 0xff
      ensures refused == if r == Done then old(refused) else old(refused) + {b}
      ensures mild ==> r != Fatal
    {
      r := *;
      if r == Fatal && mild {
        r := Eio;
      }
      if r == Done {
        blocks := blocks[b := seq(ebSize, _ => 0xff)];
      } else {
        Scramble(b);
        refused := refused + {b};
      }
    }

    // `mtd_mark_bad`
    method MarkBad(b: nat) returns (ok: bool)
      requires Valid() && b < count
      modifies `bad
      ensures Valid() && bad == if ok then old(bad) + {b} else old(bad)
      ensures mild ==> ok
    {
      ok := *;
      ok := ok || mild;
      if ok {
        bad := bad + {b};
      }
    }

    // `mtd_read` within one block.
    method Read(b: nat, offs: nat, len: nat) returns (ok: bool, data: seq<byte>)
      requires Valid() && b < count && offs + len <= ebSize
      ensures ok ==> data == blocks[b][offs..offs + len]
      ensures reliable ==> ok
    {
      ok := *;
      ok := ok || reliable;
      data := blocks[b][offs..offs + len];
    }
  }

  // The contents of the blocks from `lo` up to `hi`, without those in `skip`.
  function Good(blocks: seq<Block>, skip: set<nat>, lo: nat, hi: nat): seq<byte>
    requires hi <= |blocks|
    decreases hi
  {
    if hi <= lo then [] else Good(blocks, skip, lo, hi - 1) + if hi - 1 in skip then [] else blocks[hi - 1]
  }

  lemma {:induction false} GoodFrame(blocks: seq<Block>, skip: set<nat>, blocks': seq<Block>, skip': set<nat>,
                                     lo: nat, hi: nat)
    requires hi <= |blocks| && hi <= |blocks'|
    requires forall b :: lo <= b < hi ==> blocks'[b] == blocks[b] && (b in skip' <==> b in skip)
    ensures Good(blocks', skip', lo, hi) == Good(blocks, skip, lo, hi)
    decreases hi
  {
    if hi > lo {
      GoodFrame(blocks, skip, blocks', skip', lo, hi - 1);
    }
  }

  lemma {:induction false} GoodSplit(blocks: seq<Block>, skip: set<nat>, lo: nat, mid: nat, hi: nat)
    requires lo <= mid <= hi <= |blocks|
    ensures Good(blocks, skip, lo, hi) == Good(blocks, skip, lo, mid) + Good(blocks, skip, mid, hi)
    decreases hi
  {
    if hi > mid {
      GoodSplit(blocks, skip, lo, mid, hi - 1);
    }
  }

  // How many of those blocks there are.
  function GoodCount(skip: set<nat>, lo: nat, hi: nat): (n: nat)
    ensures n <= hi
    decreases hi
  {
    if hi <= lo then 0 else GoodCount(skip, lo, hi - 1) + if hi - 1 in skip then 0 else 1
  }

  lemma {:induction false} GoodSize(blocks: seq<Block>, skip: set<nat>, lo: nat, hi: nat, ebSize: nat)
    requires hi <= |blocks| && forall b :: 0 <= b < |blocks| ==> |blocks[b]| == ebSize
    ensures |Good(blocks, skip, lo, hi)| == GoodCount(skip, lo, hi) * ebSize
    decreases hi
  {
    if hi > lo {
      GoodSize(blocks, skip, lo, hi - 1, ebSize);
      var n := GoodCount(skip, lo, hi - 1);
      assert (n + 1) * ebSize == n * ebSize + ebSize;
    }
  }

  lemma {:induction false} GoodFew(skip: set<nat>, lo: nat, hi: nat, ebSize: nat)
    requires lo <= hi
    ensures GoodCount(skip, lo, hi) * ebSize <= hi * ebSize - lo * ebSize
    decreases hi
  {
    if hi > lo {
      GoodFew(skip, lo, hi - 1, ebSize);
      var n := GoodCount(skip, lo, hi - 1);
      assert (n + 1) * ebSize == n * ebSize + ebSize && (hi - 1) * ebSize + ebSize == hi * ebSize;
    } else {
      assert 0 * ebSize == 0;
    }
  }

  // `data` is what the good blocks from `lo` on begin with.
  ghost predicate Stored(blocks: seq<Block>, skip: set<nat>, lo: nat, data: seq<byte>) {
    data <= Good(blocks, skip, lo, |blocks|)
  }

  // ... up to block `cur`, of which it takes the first `len` bytes.
  lemma StoredAt(blocks: seq<Block>, skip: set<nat>, lo: nat, cur: nat, len: nat)
    requires lo <= cur < |blocks| && cur !in skip && len <= |blocks[cur]|
    ensures Stored(blocks, skip, lo, Good(blocks, skip, lo, cur) + blocks[cur][..len])
  {
    GoodSplit(blocks, skip, lo, cur, |blocks|);
    GoodSplit(blocks, skip, cur, cur + 1, |blocks|);
  }

  lemma StoredBefore(blocks: seq<Block>, skip: set<nat>, lo: nat, cur: nat)
    requires lo <= cur <= |blocks|
    ensures Stored(blocks, skip, lo, Good(blocks, skip, lo, cur))
  {
    GoodSplit(blocks, skip, lo, cur, |blocks|);
  }

  // The offset masked with the block size, a power of two.
  function BlockStart(ofs: nat, ebSize: nat): nat
    requires 0 < ebSize
  {
    ofs - ofs % ebSize
  }

  // The bytes missing to a whole page.
  function Missing(n: nat, page: nat): nat
    requires 0 < page
  {
    if n % page == 0 then 0 else page - n % page
  }

  lemma InBlock(ebSize: nat, b: nat, r: nat)
    requires r < ebSize
    ensures (b * ebSize + r) / ebSize == b && (b * ebSize + r) % ebSize == r
    ensures BlockStart(b * ebSize + r, ebSize) == b * ebSize
  {
    DivMod(ebSize, b, r);
  }
}
