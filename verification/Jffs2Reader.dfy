/**
 Reading a JFFS2 image (external/mtd-utils/jffs2reader.c): `collectdir`, `find_raw_inode`,
 `resolvedirent` and `resolvename` over the bytes of the image.
 */
module Jffs2Reader {
  import opened Jffs2Format
  import opened Jffs2Scan
  import opened Jffs2Dir

  datatype Image = Image(bytes: seq<byte>, endian: Endian) {
    function Size(): nat {
      |bytes|
    }

    function Word(q: nat): nat
      requires q + 4 <= |bytes|
    {
      Get32(bytes, q, endian)
    }

    function Half(q: nat): nat
      requires q + 2 <= |bytes|
    {
      Get16(bytes, q, endian)
    }
  }

  // A node lies at `q`, inside the image with its header and, for a dirent, its name.
  ghost predicate NodeAt(im: Image, q: nat) {
    && q % 4 == 0 && q + UNKNOWN_NODE_SIZE <= im.Size() && im.Half(q) == MAGIC_BITMASK
    && UNKNOWN_NODE_SIZE <= im.Word(q + 4) && q + im.Word(q + 4) <= im.Size()
    && (im.Half(q + 2) == NODETYPE_INODE ==> RAW_INODE_SIZE <= im.Word(q + 4))
    && (im.Half(q + 2) == NODETYPE_DIRENT ==>
          RAW_DIRENT_SIZE <= im.Word(q + 4) && RAW_DIRENT_SIZE + im.bytes[q + 28] <= im.Word(q + 4))
  }

  function NodeEnd(im: Image, q: nat): nat
    requires NodeAt(im, q)
  {
    q + Pad(im.Word(q + 4))
  }

  predicate IsInode(im: Image, q: nat, ino: nat)
    requires NodeAt(im, q)
  {
    im.Half(q + 2) == NODETYPE_INODE && im.Word(q + 12) == ino
  }

  predicate IsDirent(im: Image, q: nat)
    requires NodeAt(im, q)
  {
    im.Half(q + 2) == NODETYPE_DIRENT
  }

  function VersionAt(im: Image, q: nat): nat
    requires NodeAt(im, q) && (IsDirent(im, q) || im.Half(q + 2) == NODETYPE_INODE)
  {
    im.Word(q + 16)
  }

  function ParentAt(im: Image, q: nat): nat
    requires NodeAt(im, q) && IsDirent(im, q)
  {
    im.Word(q + 12)
  }

  function EntryAt(im: Image, q: nat): Entry
    requires NodeAt(im, q) && IsDirent(im, q)
  {
    Entry(im.bytes[q + 40..q + 40 + im.bytes[q + 28] as int], im.Word(q + 20), im.bytes[q + 29])
  }

  // The next word that looks like the start of a node, or the end of the image.
  function NextNode(im: Image, n: nat): (q: nat)
    requires im.Size() % 4 == 0 && n % 4 == 0 && n <= im.Size()
    ensures n <= q <= im.Size() && q % 4 == 0
    ensures q < im.Size() ==> q + 4 <= im.Size() && im.Half(q) == MAGIC_BITMASK
    decreases im.Size() - n
  {
    FourMore(im.Size(), n);
    if n < im.Size() && im.Half(n) != MAGIC_BITMASK then NextNode(im, n + 4) else n
  }

  lemma FourMore(size: nat, n: nat)
    requires size % 4 == 0 && n % 4 == 0
    ensures n < size ==> n + 4 <= size && (n + 4) % 4 == 0
  {
  }

  // No word before it has the magic.
  lemma {:induction false} NextNodeFirst(im: Image, n: nat, p: nat)
    requires im.Size() % 4 == 0 && n % 4 == 0 && n <= im.Size() && p % 4 == 0 && n <= p < NextNode(im, n)
    ensures im.Half(p) != MAGIC_BITMASK
    decreases im.Size() - n
  {
    if n < p {
      NextNodeFirst(im, n + 4, p);
    }
  }

  // From `n` on the image is a row of nodes with gaps in between.
  ghost predicate Readable(im: Image, n: nat)
    decreases im.Size() - n
  {
    && im.Size() % 4 == 0 && n % 4 == 0 && n <= im.Size()
    && var q := NextNode(im, n); q < im.Size() ==> NodeAt(im, q) && Readable(im, NodeEnd(im, q))
  }

  // Where the nodes from `n` on are.
  ghost function Nodes(im: Image, n: nat): (qs: seq<nat>)
    requires Readable(im, n)
    ensures forall q :: q in qs ==> NodeAt(im, q) && n <= q
    decreases im.Size() - n
  {
    var q := NextNode(im, n);
    if q < im.Size() then [q] + Nodes(im, NodeEnd(im, q)) else []
  }

  // What `collectdir` sees of a node.
  function RecAt(im: Image, ino: nat, q: nat): Rec
    requires NodeAt(im, q)
  {
    Rec(q, NodeEnd(im, q), if IsDirent(im, q) && ParentAt(im, q) == ino then VersionAt(im, q) else 0)
  }

  ghost function LogFrom(im: Image, ino: nat, n: nat): (log: Log)
    requires Readable(im, n)
    decreases im.Size() - n
  {
    var q := NextNode(im, n);
    if q < im.Size() then [RecAt(im, ino, q)] + LogFrom(im, ino, NodeEnd(im, q)) else []
  }

  // The image is a row of nodes; the dirents of the directory have different versions, not the largest one.
  ghost predicate WellFormed(im: Image, ino: nat) {
    Readable(im, 0) && ValidLog(LogFrom(im, ino, 0))
  }

  lemma EndOf(im: Image, ino: nat, n: nat)
    requires Readable(im, n) && NextNode(im, n) < im.Size()
    ensures RecAt(im, ino, NextNode(im, n)).at == NextNode(im, n)
    ensures RecAt(im, ino, NextNode(im, n)).end == NodeEnd(im, NextNode(im, n))
    ensures n < NodeEnd(im, NextNode(im, n)) <= im.Size()
  {
  }

  lemma {:induction false} LogAt(im: Image, ino: nat, n: nat, j: nat)
    requires Readable(im, n) && j <= |LogFrom(im, ino, n)|
    ensures var log := LogFrom(im, ino, n); var b := if j == 0 then n else log[j - 1].end;
      && Readable(im, b) && LogFrom(im, ino, b) == log[j..]
      && (j < |log| ==> NodeAt(im, log[j].at) && log[j] == RecAt(im, ino, log[j].at))
      && NextNode(im, b) == if j < |log| then log[j].at else im.Size()
    decreases im.Size() - n
  {
    hide NodeAt, NodeEnd, NextNode, RecAt;
    if NextNode(im, n) < im.Size() {
      EndOf(im, ino, n);
    }
    if j > 0 {
      LogAt(im, ino, NodeEnd(im, NextNode(im, n)), j - 1);
    }
  }

  // One round of the loop of `collectdir`, from the node pointer on.
  ghost predicate Sane(im: Image, s: State) {
    Readable(im, 0) && Readable(im, s.n) && (s.mp.Some? ==> Readable(im, s.mp.value.end))
  }

  ghost function HalfStep(im: Image, ino: nat, s: State): State
    requires Sane(im, s)
  {
    var q := NextNode(im, s.n);
    if q < im.Size() then Meet(s, RecAt(im, ino, q)) else s.(n := 0)
  }

  ghost function Step(im: Image, ino: nat, s: State): (s': State)
    requires Sane(im, s)
    ensures Sane(im, s')
  {
    Lap(HalfStep(im, ino, s))
  }

  lemma StepIsRound(im: Image, ino: nat, s: State, j: nat)
    requires Sane(im, s) && j <= |LogFrom(im, ino, 0)| && s.n == Bound(LogFrom(im, ino, 0), j)
    ensures Step(im, ino, s) == Round(LogFrom(im, ino, 0), s, j)
    ensures HalfStep(im, ino, s) == Middle(LogFrom(im, ino, 0), s, j)
  {
    LogAt(im, ino, 0, j);
  }

  // The variables after `rounds` rounds of the loop; it is left once `vcur` has reached `vmax`.
  ghost function Rounds(im: Image, ino: nat, rounds: nat): (s: State)
    requires Readable(im, 0)
    ensures Sane(im, s)
  {
    if rounds == 0 then Start()
    else
      var s := Rounds(im, ino, rounds - 1);
      if s.vcur < s.vmax then Step(im, ino, s) else s
  }

  ghost predicate Returns(im: Image, ino: nat)
    requires Readable(im, 0)
  {
    exists rounds: nat :: Rounds(im, ino, rounds).vcur >= Rounds(im, ino, rounds).vmax
  }

  lemma Separate(im: Image, ino: nat)
    requires WellFormed(im, ino)
    ensures Readable(im, 0) && ValidLog(LogFrom(im, ino, 0))
  {
  }

  lemma NextRound(im: Image, ino: nat, rounds: nat, w: Where)
    requires WellFormed(im, ino) && Scanning(LogFrom(im, ino, 0), w, Rounds(im, ino, rounds))
    ensures ValidWhere(LogFrom(im, ino, 0), w)
    ensures Rounds(im, ino, rounds + 1) == Round(LogFrom(im, ino, 0), Rounds(im, ino, rounds), w.j)
  {
    hide Round, Readable, LogFrom, Step;
    ScanningFacts(LogFrom(im, ino, 0), w, Rounds(im, ino, rounds));
    StepIsRound(im, ino, Rounds(im, ino, rounds), w.j);
  }

  lemma {:induction false} NeverPast(im: Image, ino: nat, x: nat, rounds: nat) returns (w: Where)
    requires WellFormed(im, ino) && x < |LogFrom(im, ino, 0)| && StallsAt(LogFrom(im, ino, 0), x)
    ensures var s := Rounds(im, ino, rounds);
      Scanning(LogFrom(im, ino, 0), w, s) && Stuck(LogFrom(im, ino, 0), x, s) && s.vcur < s.vmax
  {
    hide *;
    if rounds == 0 {
      w := NeverPastStart(im, ino, x);
    } else {
      Separate(im, ino);
      var v := NeverPast(im, ino, x, rounds - 1);
      var log, s := LogFrom(im, ino, 0), Rounds(im, ino, rounds - 1);
      NextRound(im, ino, rounds - 1, v);
      RoundStuck(log, v, s, x);
      w := RoundScans(log, v, s);
    }
  }

  lemma NeverPastStart(im: Image, ino: nat, x: nat) returns (w: Where)
    requires WellFormed(im, ino) && x < |LogFrom(im, ino, 0)| && StallsAt(LogFrom(im, ino, 0), x)
    ensures var s := Rounds(im, ino, 0);
      Scanning(LogFrom(im, ino, 0), w, s) && Stuck(LogFrom(im, ino, 0), x, s) && s.vcur < s.vmax
  {
    StartScans(LogFrom(im, ino, 0));
    w := Where(0, 0, false);
  }

  lemma {:induction false} ReturnsFrom(im: Image, ino: nat, rounds: nat, w: Where)
    requires WellFormed(im, ino) && !Stalls(LogFrom(im, ino, 0))
    requires Scanning(LogFrom(im, ino, 0), w, Rounds(im, ino, rounds))
    ensures Returns(im, ino)
    decreases UINT32_MAX - Rounds(im, ino, rounds).vcur, Distance(LogFrom(im, ino, 0), w, Rounds(im, ino, rounds).vcur)
  {
    hide *;
    Separate(im, ino);
    var log, s, s' := LogFrom(im, ino, 0), Rounds(im, ino, rounds), Rounds(im, ino, rounds + 1);
    NextRound(im, ino, rounds, w);
    ScanningFacts(log, w, s);
    var w' := RoundScans(log, w, s);
    if s'.vcur < s'.vmax {
      ScanningFacts(log, w', s');
      VersionBound(log, s'.vcur);
      if s'.vcur == s.vcur {
        Progress(log, w, s);
      }
      ReturnsFrom(im, ino, rounds + 1, w');
    } else {
      ReturnsAt(im, ino, rounds + 1);
    }
  }

  lemma ReturnsAt(im: Image, ino: nat, rounds: nat)
    requires Readable(im, 0) && Rounds(im, ino, rounds).vcur >= Rounds(im, ino, rounds).vmax
    ensures Returns(im, ino)
  {
  }

  lemma VersionBound(log: Log, v: nat)
    requires ValidLog(log)
    ensures Has(log, v) ==> v < UINT32_MAX
  {
  }

  // `collectdir` returns exactly when no dirent stalls it.
  lemma CollectDirReturns(im: Image, ino: nat)
    requires WellFormed(im, ino)
    ensures Returns(im, ino) <==> !Stalls(LogFrom(im, ino, 0))
  {
    var log := LogFrom(im, ino, 0);
    if Stalls(log) {
      var x: nat :| x < |log| && StallsAt(log, x);
      forall rounds: nat ensures Rounds(im, ino, rounds).vcur < Rounds(im, ino, rounds).vmax {
        var w := NeverPast(im, ino, x, rounds);
      }
    } else {
      StartScans(log);
      ReturnsFrom(im, ino, 0, Where(0, 0, false));
    }
  }

  // A dirent of directory 1 without a name, in little endian.
  function EmptyDirent(version: byte): (b: seq<byte>)
    ensures |b| == 40
  {
    [0x85, 0x19, 0x01, 0xE0, 40, 0, 0, 0, 0, 0, 0, 0, 1, 0, 0, 0, version, 0, 0, 0] + seq(20, _ => 0)
  }

  lemma EmptyDirentFields(version: byte)
    ensures var b := EmptyDirent(version);
      && Get16(b, 0, Little) == MAGIC_BITMASK && Get16(b, 2, Little) == NODETYPE_DIRENT && Get32(b, 4, Little) == 40
      && Get32(b, 12, Little) == 1 && Get32(b, 16, Little) == version && b[28] == 0
  {
  }

  lemma EmptyDirentAt(im: Image, q: nat, version: byte)
    requires im.endian == Little && q % 4 == 0 && q + 40 <= im.Size() && im.Size() % 4 == 0
    requires im.bytes[q..q + 40] == EmptyDirent(version)
    ensures NodeAt(im, q) && NextNode(im, q) == q && RecAt(im, 1, q) == Rec(q, q + 40, version)
  {
    EmptyDirentFields(version);
    var b := im.bytes[q..q + 40];
    assert im.bytes[q + 28] == b[28];
    GetSlice(im.bytes, q, 40, 0, Little);
    GetSlice(im.bytes, q, 40, 2, Little);
    GetSlice(im.bytes, q, 40, 4, Little);
    GetSlice(im.bytes, q, 40, 12, Little);
    GetSlice(im.bytes, q, 40, 16, Little);
    hide EmptyDirent, Get16, Get32;
  }

  lemma EmptyDirentLog(im: Image, q: nat, version: byte)
    requires im.endian == Little && q % 4 == 0 && q + 40 <= im.Size() && im.Size() % 4 == 0
    requires im.bytes[q..q + 40] == EmptyDirent(version) && Readable(im, q + 40)
    ensures Readable(im, q) && LogFrom(im, 1, q) == [Rec(q, q + 40, version)] + LogFrom(im, 1, q + 40)
  {
    hide EmptyDirent, NodeAt, NextNode, NodeEnd, RecAt;
    EmptyDirentAt(im, q, version);
    EndIs(im, q);
  }

  lemma EndIs(im: Image, q: nat)
    requires NodeAt(im, q)
    ensures RecAt(im, 1, q).end == NodeEnd(im, q)
  {
  }

  lemma AfterGap(im: Image, q: nat)
    requires q + 4 <= im.Size() && Readable(im, q + 4) && im.bytes[q] == 0xff
    ensures Readable(im, q) && LogFrom(im, 1, q) == LogFrom(im, 1, q + 4)
  {
    hide NodeAt, NodeEnd, RecAt;
    assert NextNode(im, q) == NextNode(im, q + 4);
  }

  // The smallest images on which `collectdir` never returns: a dirent after a gap ...
  lemma GapImageHangs()
    ensures var im := Image([0xff, 0xff, 0xff, 0xff] + EmptyDirent(1), Little); WellFormed(im, 1) && !Returns(im, 1)
  {
    hide *;
    var im := Image([0xff, 0xff, 0xff, 0xff] + EmptyDirent(1), Little);
    SizeOf(im);
    AtEndOf(im, 44);
    assert im.bytes[4..44] == EmptyDirent(1);
    EmptyDirentLog(im, 4, 1);
    AfterGap(im, 0);
    assert LogFrom(im, 1, 0) == [Rec(4, 44, 1)];
    GapStalls();
    FormedIs(im, 1);
    CollectDirReturns(im, 1);
  }

  // ... and such a one followed by a dirent whose version is not the next.
  lemma MissingImageHangs()
    ensures var im := Image([0xff, 0xff, 0xff, 0xff] + EmptyDirent(1) + EmptyDirent(3), Little);
      WellFormed(im, 1) && !Returns(im, 1)
  {
    hide *;
    var im := Image([0xff, 0xff, 0xff, 0xff] + EmptyDirent(1) + EmptyDirent(3), Little);
    SizeOf(im);
    AtEndOf(im, 84);
    assert im.bytes[4..44] == EmptyDirent(1) && im.bytes[44..84] == EmptyDirent(3);
    EmptyDirentLog(im, 44, 3);
    EmptyDirentLog(im, 4, 1);
    AfterGap(im, 0);
    assert LogFrom(im, 1, 0) == [Rec(4, 44, 1), Rec(44, 84, 3)];
    MissingVersionStalls();
    FormedIs(im, 1);
    CollectDirReturns(im, 1);
  }

  lemma SizeOf(im: Image)
    ensures im.Size() == |im.bytes|
  {
  }

  lemma AtEndOf(im: Image, q: nat)
    requires q == im.Size() && q % 4 == 0
    ensures Readable(im, q) && LogFrom(im, 1, q) == []
  {
  }

  lemma FormedIs(im: Image, ino: nat)
    ensures WellFormed(im, ino) <==> Readable(im, 0) && ValidLog(LogFrom(im, ino, 0))
  {
  }

  method SkipGap(im: Image, n: nat) returns (q: nat)
    requires im.Size() % 4 == 0 && n % 4 == 0 && n <= im.Size()
    ensures q == NextNode(im, n)
  {
    q := n;
    FourMore(im.Size(), q);
    while q < im.Size() && im.Half(q) != MAGIC_BITMASK
      invariant q % 4 == 0 && q <= im.Size() && NextNode(im, n) == NextNode(im, q)
      invariant q < im.Size() ==> q + 4 <= im.Size()
    {
      FourMore(im.Size(), q);
      FourMore(im.Size(), q + 4);
      q := q + 4;
    }
  }

  ghost predicate AllDirents(im: Image, recs: seq<Rec>) {
    forall i :: 0 <= i < |recs| ==> NodeAt(im, recs[i].at) && IsDirent(im, recs[i].at)
  }

  ghost function Entries(im: Image, recs: seq<Rec>): seq<Entry>
    requires AllDirents(im, recs)
  {
    seq(|recs|, i requires 0 <= i < |recs| => EntryAt(im, recs[i].at))
  }

  // The variables of `collectdir` are those of the state `s`.
  ghost predicate Holds(im: Image, ino: nat, s: State, n: nat, lr: nat, mp: nat, vmint: nat, vmaxt: nat, vcur: nat) {
    && s.n == n && s.lr == lr && s.vmint == vmint && s.vmaxt == vmaxt && s.vcur == vcur
    && (s.mp.Some? ==> NodeAt(im, mp) && s.mp.value == RecAt(im, ino, mp))
  }

  // The list is what replaying the dirents applied so far has made of it.
  ghost predicate Replayed(im: Image, s: State, dir: seq<Entry>, dir': seq<Entry>) {
    AllDirents(im, s.applied) && dir' == Replay(dir, Entries(im, s.applied))
  }

  lemma ReplayedNext(im: Image, s: State, s': State, q: nat, dir: seq<Entry>, dir': seq<Entry>)
    requires Replayed(im, s, dir, dir') && NodeAt(im, q) && IsDirent(im, q)
    requires |s'.applied| == |s.applied| + 1 && s'.applied[..|s.applied|] == s.applied
    requires s'.applied[|s.applied|].at == q
    ensures Replayed(im, s', dir, Put(dir', EntryAt(im, q)))
  {
    var es, es' := Entries(im, s.applied), Entries(im, s'.applied);
    assert es'[..|es'| - 1] == es && es'[|es'| - 1] == EntryAt(im, q);
  }

  lemma SaneFacts(im: Image, s: State)
    requires Sane(im, s)
    ensures im.Size() % 4 == 0 && s.n % 4 == 0 && s.n <= im.Size()
    ensures NextNode(im, s.n) < im.Size() ==> NodeAt(im, NextNode(im, s.n))
  {
  }

  lemma NodeFacts(im: Image, ino: nat, q: nat)
    ensures NodeAt(im, q) ==>
              && q + 12 <= |im.bytes|
              && (im.Half(q + 2) == NODETYPE_DIRENT ==> IsDirent(im, q) && q + 40 <= |im.bytes|)
              && RecAt(im, ino, q) == Rec(q, q + Pad(im.Word(q + 4)),
                   if im.Half(q + 2) == NODETYPE_DIRENT && im.Word(q + 12) == ino then im.Word(q + 16) else 0)
  {
  }

  // The first half of a round: the node after the gap is met.
  method MeetNode(im: Image, ino: nat, n: nat, lr: nat, mp: nat, vmint: nat, vmaxt: nat, vcur: nat, d: DirNode?,
                  ghost nodes: seq<DirNode>, ghost s: State, ghost dir: seq<Entry>)
    returns (n': nat, lr': nat, mp': nat, vmint': nat, vmaxt': nat, vcur': nat, r: DirNode?,
             ghost nodes': seq<DirNode>, ghost s': State)
    requires Sane(im, s) && Holds(im, ino, s, n, lr, mp, vmint, vmaxt, vcur)
    requires Chain(d, nodes) && Replayed(im, s, dir, Listing(nodes))
    modifies nodes
    ensures s' == HalfStep(im, ino, s)
    ensures Holds(im, ino, s', n', lr', mp', vmint', vmaxt', vcur')
    ensures Chain(r, nodes') && Replayed(im, s', dir, Listing(nodes'))
    ensures forall x :: x in nodes' ==> x in nodes || fresh(x)
  {
    n', lr', mp', vmint', vmaxt', vcur', r, nodes' := n, lr, mp, vmint, vmaxt, vcur, d, nodes;
    SaneFacts(im, s);
    n' := SkipGap(im, n');
    s' := if n' < im.Size() then Meet(s, RecAt(im, ino, n')) else s.(n := 0);
    NodeFacts(im, ino, n');
    hide NodeAt, RecAt, IsDirent, VersionAt, ParentAt, NodeEnd, Readable, NextNode, Chain, Put, Replayed, Sane, Pad;
    if n' < im.Size() {
      if im.Half(n' + 2) == NODETYPE_DIRENT && im.Word(n' + 12) == ino && im.Word(n' + 16) > vcur {
        var v := im.Word(n' + 16);
        if vmaxt' < v {
          vmaxt' := v;
        }
        if vmint' > v {
          vmint' := v;
          mp' := n';
        }
        if v == vcur + 1 {
          ReplayedNext(im, s, s', n', dir, Listing(nodes));
          r, nodes' := PutDir(r, EntryAt(im, n'), nodes);
          lr' := n';
          vcur' := vcur' + 1;
          vmint' := UINT32_MAX;
        }
      }
      n' := n' + Pad(im.Word(n' + 4));
    } else {
      n' := 0;
    }
  }

  // The second half: is the scan back where it last applied a dirent?
  method EndRound(im: Image, ino: nat, n: nat, lr: nat, mp: nat, vmin: nat, vmint: nat, vmaxt: nat, vmax: nat,
                  vcur: nat, d: DirNode?, ghost nodes: seq<DirNode>, ghost s: State, ghost dir: seq<Entry>)
    returns (n': nat, lr': nat, vmin': nat, vmint': nat, vmax': nat, vcur': nat, r: DirNode?,
             ghost nodes': seq<DirNode>)
    requires Holds(im, ino, s, n, lr, mp, vmint, vmaxt, vcur) && s.vmin == vmin && s.vmax == vmax && MinimumKnown(s)
    requires Chain(d, nodes) && Replayed(im, s, dir, Listing(nodes))
    modifies nodes
    ensures Holds(im, ino, Lap(s), n', lr', mp, vmint', vmaxt, vcur') && Lap(s).vmin == vmin' && Lap(s).vmax == vmax'
    ensures Chain(r, nodes') && Replayed(im, Lap(s), dir, Listing(nodes'))
    ensures forall x :: x in nodes' ==> x in nodes || fresh(x)
  {
    n', lr', vmin', vmint', vmax', vcur', r, nodes' := n, lr, vmin, vmint, vmax, vcur, d, nodes;
    NodeFacts(im, ino, mp);
    hide NodeAt, RecAt, IsDirent, VersionAt, ParentAt, NodeEnd, Readable, NextNode, Chain, Put, Sane, Pad;
    if lr == n {
      vmax' := vmaxt;
      vmin' := vmint;
      vmint' := UINT32_MAX;
      if vcur < vmax' && vcur < vmin' {
        ReplayedNext(im, s, Lap(s), mp, dir, Listing(nodes));
        hide Replayed;
        r, nodes' := PutDir(r, EntryAt(im, mp), nodes);
        n' := mp + Pad(im.Word(mp + 4));
        lr' := n';
        vcur' := vmin';
      }
    }
  }

  // The scan is in good order at the top of the loop.
  ghost predicate Going(im: Image, ino: nat, w: Where, s: State, more: bool) {
    && WellFormed(im, ino) && !Stalls(LogFrom(im, ino, 0)) && Sane(im, s)
    && if more then Scanning(LogFrom(im, ino, 0), w, s) else Complete(LogFrom(im, ino, 0), s)
  }

  ghost function Left(im: Image, ino: nat, w: Where, s: State): nat
    requires Going(im, ino, w, s, true)
  {
    Distance(LogFrom(im, ino, 0), w, s.vcur)
  }

  lemma StartGoing(im: Image, ino: nat)
    requires WellFormed(im, ino) && !Stalls(LogFrom(im, ino, 0))
    ensures Going(im, ino, Where(0, 0, false), Start(), true)
    ensures Holds(im, ino, Start(), 0, 0, 0, UINT32_MAX, 0, 0)
    ensures forall dir :: Replayed(im, Start(), dir, dir)
    ensures Start().vmin == Start().vcur == 0 < UINT32_MAX == Start().vmax
  {
    StartScans(LogFrom(im, ino, 0));
  }

  lemma GoingFacts(im: Image, ino: nat, w: Where, s: State)
    requires Going(im, ino, w, s, false)
    ensures WellFormed(im, ino) && Readable(im, 0) && Complete(LogFrom(im, ino, 0), s)
  {
  }

  lemma HoldsFields(im: Image, ino: nat, s: State, n: nat, lr: nat, mp: nat, vmint: nat, vmaxt: nat, vcur: nat)
    requires Holds(im, ino, s, n, lr, mp, vmint, vmaxt, vcur)
    ensures s.vcur == vcur
  {
  }

  lemma StepGoing(im: Image, ino: nat, w: Where, s: State) returns (w': Where)
    requires Going(im, ino, w, s, true)
    ensures var s' := Step(im, ino, s); var more := s'.vcur < s'.vmax;
      && Going(im, ino, w', s', more) && s.vcur <= s'.vcur && (more ==> s'.vcur < UINT32_MAX)
      && (more && s'.vcur == s.vcur ==> Left(im, ino, w', s') < Left(im, ino, w, s))
    ensures Sane(im, s) && MinimumKnown(HalfStep(im, ino, s)) && Step(im, ino, s) == Lap(HalfStep(im, ino, s))
    ensures HalfStep(im, ino, s).vmin == s.vmin && HalfStep(im, ino, s).vmax == s.vmax
  {
    assert Step(im, ino, s) == Lap(HalfStep(im, ino, s));
    assert HalfStep(im, ino, s).vmin == s.vmin && HalfStep(im, ino, s).vmax == s.vmax;
    var log := LogFrom(im, ino, 0);
    hide Readable, LogFrom, Step, HalfStep, Scanning, Complete, Stalls, Middle, Lap, ValidLog, Distance;
    ScanningFacts(log, w, s);
    StepIsRound(im, ino, s, w.j);
    MiddleKnown(log, w, s);
    w' := RoundScans(log, w, s);
    var s' := Step(im, ino, s);
    if s'.vcur < s'.vmax {
      ScanningFacts(log, w', s');
      VersionBound(log, s'.vcur);
      if s'.vcur == s.vcur {
        Progress(log, w, s);
      }
    }
  }

  method CollectDir(im: Image, ino: nat, d: DirNode?, ghost nodes: seq<DirNode>)
    returns (r: DirNode?, ghost nodes': seq<DirNode>, ghost s: State)
    requires WellFormed(im, ino) && !Stalls(LogFrom(im, ino, 0)) && Chain(d, nodes)
    modifies nodes
    ensures Chain(r, nodes') && Replayed(im, s, old(Listing(nodes)), Listing(nodes'))
    ensures Complete(LogFrom(im, ino, 0), s)
  {
    hide *;
    ghost var dir := Listing(nodes);
    ghost var w, left := Where(0, 0, false), 0;
    s := Start();
    r, nodes' := d, nodes;
    var n: nat, lr: nat, mp: nat, vmin: nat := 0, 0, 0, 0;
    var vmint: nat, vmaxt: nat, vmax: nat, vcur: nat := UINT32_MAX, 0, UINT32_MAX, 0;
    var more := true;
    StartGoing(im, ino);
    left := Left(im, ino, w, s);
    while more
      invariant Going(im, ino, w, s, more) && (more ==> left == Left(im, ino, w, s))
      invariant Holds(im, ino, s, n, lr, mp, vmint, vmaxt, vcur) && s.vmin == vmin && s.vmax == vmax && s.vcur == vcur
      invariant Chain(r, nodes') && Replayed(im, s, dir, Listing(nodes'))
      invariant forall i :: 0 <= i < |nodes'| ==> nodes'[i] in nodes || fresh(nodes'[i])
      invariant more ==> vcur < UINT32_MAX
      decreases more, UINT32_MAX - vcur, left
    {
      ghost var half;
      ghost var w' := StepGoing(im, ino, w, s);
      n, lr, mp, vmint, vmaxt, vcur, r, nodes', half :=
        MeetNode(im, ino, n, lr, mp, vmint, vmaxt, vcur, r, nodes', s, dir);
      assert forall i :: 0 <= i < |nodes'| ==> nodes'[i] in nodes';
      n, lr, vmin, vmint, vmax, vcur, r, nodes' :=
        EndRound(im, ino, n, lr, mp, vmin, vmint, vmaxt, vmax, vcur, r, nodes', half, dir);
      assert forall i :: 0 <= i < |nodes'| ==> nodes'[i] in nodes';
      w, s := w', Step(im, ino, s);
      HoldsFields(im, ino, s, n, lr, mp, vmint, vmaxt, vcur);
      more := vcur < vmax;
      left := if more then Left(im, ino, w, s) else 0;
    }
    GoingFacts(im, ino, w, s);
  }

  predicate Named(im: Image, q: nat, ino: nat, pino: nat, name: seq<byte>)
    requires NodeAt(im, q)
  {
    && IsDirent(im, q) && (ino == 0 || EntryAt(im, q).ino == ino)
    && (pino == 0 || (ParentAt(im, q) == pino && EntryAt(im, q).name == name))
  }

  // `dd` is the first of the nodes `qs` with the highest version above 0 of those asked for.
  ghost predicate Newest(im: Image, qs: seq<nat>, ino: nat, pino: nat, name: seq<byte>, dd: Option<nat>)
    requires forall q :: q in qs ==> NodeAt(im, q)
  {
    if dd.None? then
      forall q :: q in qs && Named(im, q, ino, pino, name) ==> VersionAt(im, q) == 0
    else
      && dd.value in qs && Named(im, dd.value, ino, pino, name) && VersionAt(im, dd.value) > 0
      && (forall q :: q in qs && Named(im, q, ino, pino, name) ==>
            && VersionAt(im, q) <= VersionAt(im, dd.value)
            && (VersionAt(im, q) == VersionAt(im, dd.value) ==> dd.value <= q))
  }

  ghost predicate Resolved(im: Image, ino: nat, pino: nat, name: seq<byte>, dd: Option<nat>)
    requires Readable(im, 0)
  {
    if pino == 0 && ino <= 1 then dd == None else Newest(im, Nodes(im, 0), ino, pino, name, dd)
  }

  lemma NodesAscend(im: Image, n: nat)
    requires Readable(im, n)
    ensures var q := NextNode(im, n);
      if q < im.Size() then
        && NodeAt(im, q) && Readable(im, NodeEnd(im, q)) && Nodes(im, n) == [q] + Nodes(im, NodeEnd(im, q))
        && n <= q < NodeEnd(im, q)
      else Nodes(im, n) == []
  {
  }

  lemma NewestNext(im: Image, qs: seq<nat>, q: nat, ino: nat, pino: nat, name: seq<byte>, dd: Option<nat>)
    requires (forall p :: p in qs ==> NodeAt(im, p) && p < q) && NodeAt(im, q)
    requires Newest(im, qs, ino, pino, name, dd)
    ensures Newest(im, qs + [q], ino, pino, name,
                   if Named(im, q, ino, pino, name)
                      && VersionAt(im, q) > (if dd.Some? then VersionAt(im, dd.value) else 0)
                   then Some(q) else dd)
  {
  }

  // The condition on a node in the loop of `resolvedirent`.
  predicate Matches(im: Image, q: nat, ino: nat, vmax: nat, pino: nat, name: seq<byte>)
    requires NodeAt(im, q)
    ensures Matches(im, q, ino, vmax, pino, name) <==> Named(im, q, ino, pino, name) && VersionAt(im, q) > vmax
  {
    && im.Half(q + 2) == NODETYPE_DIRENT && (ino == 0 || im.Word(q + 20) == ino) && im.Word(q + 16) > vmax
    && (pino == 0 || (im.Word(q + 12) == pino && |name| == im.bytes[q + 28] as int
                      && name == im.bytes[q + 40..q + 40 + |name|]))
  }

  // The nodes before `n` have been looked at.
  ghost predicate Resolving(im: Image, n: nat, ino: nat, pino: nat, name: seq<byte>, vmax: nat, dd: Option<nat>,
                            met: seq<nat>) {
    && Readable(im, 0) && Readable(im, n) && met + Nodes(im, n) == Nodes(im, 0)
    && (forall q :: q in met ==> NodeAt(im, q) && q < n)
    && Newest(im, met, ino, pino, name, dd) && vmax == if dd.Some? then VersionAt(im, dd.value) else 0
  }

  lemma ResolvingStart(im: Image, ino: nat, pino: nat, name: seq<byte>)
    requires Readable(im, 0)
    ensures Resolving(im, 0, ino, pino, name, 0, None, []) && 0 <= im.Size()
    ensures pino == 0 && ino <= 1 ==> Resolved(im, ino, pino, name, None)
  {
  }

  lemma ResolvingReads(im: Image, n: nat, ino: nat, pino: nat, name: seq<byte>, vmax: nat, dd: Option<nat>,
                       met: seq<nat>)
    requires Resolving(im, n, ino, pino, name, vmax, dd, met)
    ensures im.Size() % 4 == 0 && n % 4 == 0 && n <= im.Size()
    ensures var q := NextNode(im, n);
      if q < im.Size() then
        NodeAt(im, q) && q + 8 <= |im.bytes| && n < q + Pad(im.Word(q + 4)) <= im.Size()
      else pino != 0 || ino > 1 ==> Resolved(im, ino, pino, name, dd)
  {
    NodesAscend(im, n);
    assert met + [] == met;
  }

  lemma ResolvingNext(im: Image, n: nat, ino: nat, pino: nat, name: seq<byte>, vmax: nat, dd: Option<nat>,
                      met: seq<nat>, q: nat)
    requires Resolving(im, n, ino, pino, name, vmax, dd, met)
    requires q == NextNode(im, n) < im.Size() && NodeAt(im, q)
    ensures if Matches(im, q, ino, vmax, pino, name) then
              q + 20 <= |im.bytes| && Resolving(im, q + Pad(im.Word(q + 4)), ino, pino, name, im.Word(q + 16),
                                                Some(q), met + [q])
            else
              Resolving(im, q + Pad(im.Word(q + 4)), ino, pino, name, vmax, dd, met + [q])
  {
    hide NodeAt, Newest, NextNode, Readable, Nodes, Pad, Matches;
    NodesAscend(im, n);
    NewestNext(im, met, q, ino, pino, name, dd);
    assert met + ([q] + Nodes(im, NodeEnd(im, q))) == met + [q] + Nodes(im, NodeEnd(im, q));
  }

  method ResolveDirent(im: Image, ino: nat, pino: nat, name: seq<byte>) returns (dd: Option<nat>)
    requires Readable(im, 0)
    ensures Resolved(im, ino, pino, name, dd)
  {
    hide *;
    ResolvingStart(im, ino, pino, name);
    dd := None;
    if pino == 0 && ino <= 1 {
      return;
    }
    var n: nat, vmax: nat := 0, 0;
    ghost var met: seq<nat> := [];
    while true
      invariant Resolving(im, n, ino, pino, name, vmax, dd, met) && n <= im.Size()
      decreases im.Size() - n
    {
      ResolvingReads(im, n, ino, pino, name, vmax, dd, met);
      var q := SkipGap(im, n);
      if q < im.Size() {
        ResolvingNext(im, n, ino, pino, name, vmax, dd, met, q);
        if Matches(im, q, ino, vmax, pino, name) {
          vmax := im.Word(q + 16);
          dd := Some(q);
        }
        met := met + [q];
        n := q + Pad(im.Word(q + 4));
      } else {
        return;
      }
    }
  }

  method ResolveName(im: Image, pino: nat, name: seq<byte>) returns (dd: Option<nat>)
    requires Readable(im, 0)
    ensures Resolved(im, 0, pino, name, dd)
  {
    dd := ResolveDirent(im, 0, pino, name);
  }

  // `mp` is the first of the nodes `qs` with the lowest version above 0 of the inode's; the
  // highest version there can be does not count.
  ghost predicate Oldest(im: Image, qs: seq<nat>, ino: nat, mp: Option<nat>)
    requires forall q :: q in qs ==> NodeAt(im, q)
  {
    if mp.None? then
      forall q :: q in qs && IsInode(im, q, ino) ==> VersionAt(im, q) == 0 || VersionAt(im, q) == UINT32_MAX
    else
      && mp.value in qs && IsInode(im, mp.value, ino) && 0 < VersionAt(im, mp.value) < UINT32_MAX
      && (forall q :: q in qs && IsInode(im, q, ino) && VersionAt(im, q) > 0 ==>
            && VersionAt(im, mp.value) <= VersionAt(im, q)
            && (VersionAt(im, mp.value) == VersionAt(im, q) ==> mp.value <= q))
  }

  ghost predicate Finding(im: Image, n: nat, ino: nat, vmint: nat, vmaxt: nat, mp: Option<nat>, met: seq<nat>) {
    && Readable(im, 0) && Readable(im, n) && met + Nodes(im, n) == Nodes(im, 0)
    && (forall q :: q in met ==> NodeAt(im, q) && q < n)
    && OldestSoFar(im, met, ino, vmint, vmaxt, mp)
  }

  ghost predicate OldestSoFar(im: Image, met: seq<nat>, ino: nat, vmint: nat, vmaxt: nat, mp: Option<nat>)
    requires forall q :: q in met ==> NodeAt(im, q)
  {
    && Oldest(im, met, ino, mp) && vmint == (if mp.Some? then VersionAt(im, mp.value) else UINT32_MAX) && vmint > 0
    && (vmaxt == 0 ==> forall q :: q in met && IsInode(im, q, ino) ==> VersionAt(im, q) == 0)
    && (forall q :: q in met && IsInode(im, q, ino) ==> VersionAt(im, q) != 1)
  }

  lemma OldestSoFarNext(im: Image, met: seq<nat>, q: nat, ino: nat, vmint: nat, vmaxt: nat, mp: Option<nat>, v: nat)
    requires (forall p :: p in met ==> NodeAt(im, p) && p < q) && NodeAt(im, q)
    requires OldestSoFar(im, met, ino, vmint, vmaxt, mp)
    requires v == (if IsInode(im, q, ino) then VersionAt(im, q) else 0) != 1
    ensures OldestSoFar(im, met + [q], ino, if v > 0 && vmint > v then v else vmint, if vmaxt < v then v else vmaxt,
                     if v > 0 && vmint > v then Some(q) else mp)
  {
    OldestNext(im, met, q, ino, mp);
    hide NodeAt, Oldest, VersionAt;
  }

  lemma FindingStart(im: Image, ino: nat)
    requires Readable(im, 0)
    ensures Finding(im, 0, ino, UINT32_MAX, 0, None, []) && 0 <= im.Size() && UINT32_MAX > 0
  {
  }

  predicate IsVersionOf(im: Image, q: nat, ino: nat)
    requires NodeAt(im, q)
    ensures IsVersionOf(im, q, ino) ==> IsInode(im, q, ino) && q + 20 <= |im.bytes|
  {
    im.Half(q + 2) == NODETYPE_INODE && im.Word(q + 12) == ino
  }

  lemma FindingReads(im: Image, n: nat, ino: nat, vmint: nat, vmaxt: nat, mp: Option<nat>, met: seq<nat>)
    requires Finding(im, n, ino, vmint, vmaxt, mp, met)
    ensures im.Size() % 4 == 0 && n % 4 == 0 && n <= im.Size() && vmint > 0 && Readable(im, 0)
    ensures var q := NextNode(im, n);
      if q < im.Size() then
        NodeAt(im, q) && q + 8 <= |im.bytes| && 0 < q + Pad(im.Word(q + 4)) <= im.Size() && n < q + Pad(im.Word(q + 4))
      else
        Oldest(im, Nodes(im, 0), ino, mp) && (vmaxt == 0 ==> Oldest(im, Nodes(im, 0), ino, None))
  {
    NodesAscend(im, n);
    assert met + [] == met;
  }

  lemma OldestNext(im: Image, qs: seq<nat>, q: nat, ino: nat, mp: Option<nat>)
    requires (forall p :: p in qs ==> NodeAt(im, p) && p < q) && NodeAt(im, q) && Oldest(im, qs, ino, mp)
    ensures Oldest(im, qs + [q], ino,
                   if IsInode(im, q, ino)
                      && 0 < VersionAt(im, q) < (if mp.Some? then VersionAt(im, mp.value) else UINT32_MAX)
                   then Some(q) else mp)
  {
  }

  lemma NodesSplit(im: Image, n: nat, met: seq<nat>, q: nat)
    requires Readable(im, 0) && Readable(im, n) && met + Nodes(im, n) == Nodes(im, 0)
    requires q == NextNode(im, n) < im.Size() && NodeAt(im, q)
    ensures Readable(im, NodeEnd(im, q)) && met + [q] + Nodes(im, NodeEnd(im, q)) == Nodes(im, 0)
    ensures q < NodeEnd(im, q) && n <= q
    ensures forall p :: p in Nodes(im, 0) <==> p in met || p == q || p in Nodes(im, NodeEnd(im, q))
    ensures forall p :: p in Nodes(im, NodeEnd(im, q)) ==> NodeEnd(im, q) <= p
  {
    NodesAscend(im, n);
    hide NodeAt, NextNode, Readable, Nodes, Pad;
    var rest := Nodes(im, NodeEnd(im, q));
    assert met + ([q] + rest) == met + [q] + rest;
  }

  lemma FirstIsOldest(im: Image, qs: seq<nat>, met: seq<nat>, q: nat, ino: nat)
    requires forall p :: p in qs ==> NodeAt(im, p) && (p in met || q <= p)
    requires q in qs && IsInode(im, q, ino) && VersionAt(im, q) == 1
    requires forall p :: p in met && p in qs && IsInode(im, p, ino) ==> VersionAt(im, p) != 1
    ensures Oldest(im, qs, ino, Some(q))
  {
    hide NodeAt, VersionAt, IsInode;
  }

  // (Unfolds the definition.)
  lemma FindingIs(im: Image, n: nat, ino: nat, vmint: nat, vmaxt: nat, mp: Option<nat>, met: seq<nat>)
    ensures Finding(im, n, ino, vmint, vmaxt, mp, met) <==>
      && Readable(im, 0) && Readable(im, n) && met + Nodes(im, n) == Nodes(im, 0)
      && (forall q :: q in met ==> NodeAt(im, q) && q < n)
      && OldestSoFar(im, met, ino, vmint, vmaxt, mp)
    ensures Finding(im, n, ino, vmint, vmaxt, mp, met) ==>
      forall q :: q in met && IsInode(im, q, ino) ==> VersionAt(im, q) != 1
  {
    hide NodeAt, Readable, Nodes, Oldest, IsInode, VersionAt;
  }

  lemma VersionIs(im: Image, q: nat, ino: nat)
    requires NodeAt(im, q)
    ensures IsVersionOf(im, q, ino) <==> IsInode(im, q, ino)
    ensures IsInode(im, q, ino) ==> q + 20 <= |im.bytes| && im.Word(q + 16) == VersionAt(im, q)
  {
  }

  lemma FindingOne(im: Image, n: nat, ino: nat, vmint: nat, vmaxt: nat, mp: Option<nat>, met: seq<nat>, q: nat)
    requires Finding(im, n, ino, vmint, vmaxt, mp, met) && q == NextNode(im, n) < im.Size() && NodeAt(im, q)
    requires IsVersionOf(im, q, ino) && im.Word(q + 16) == 1
    ensures Oldest(im, Nodes(im, 0), ino, Some(q))
  {
    hide *;
    FindingIs(im, n, ino, vmint, vmaxt, mp, met);
    NodesSplit(im, n, met, q);
    VersionIs(im, q, ino);
    FirstIsOldest(im, Nodes(im, 0), met, q, ino);
  }

  lemma FindingOther(im: Image, n: nat, ino: nat, vmint: nat, vmaxt: nat, mp: Option<nat>, met: seq<nat>, q: nat)
    requires Finding(im, n, ino, vmint, vmaxt, mp, met) && q == NextNode(im, n) < im.Size() && NodeAt(im, q)
    requires !(IsVersionOf(im, q, ino) && im.Word(q + 16) == 1)
    ensures var v := if IsVersionOf(im, q, ino) then im.Word(q + 16) else 0;
      Finding(im, NodeEnd(im, q), ino, if v > 0 && vmint > v then v else vmint, if vmaxt < v then v else vmaxt,
              if v > 0 && vmint > v then Some(q) else mp, met + [q])
  {
    hide *;
    FindingIs(im, n, ino, vmint, vmaxt, mp, met);
    NodesSplit(im, n, met, q);
    VersionIs(im, q, ino);
    var v := if IsVersionOf(im, q, ino) then im.Word(q + 16) else 0;
    OldestSoFarNext(im, met, q, ino, vmint, vmaxt, mp, v);
    FindingIs(im, NodeEnd(im, q), ino, if v > 0 && vmint > v then v else vmint, if vmaxt < v then v else vmaxt,
              if v > 0 && vmint > v then Some(q) else mp, met + [q]);
  }

  lemma FindingNext(im: Image, n: nat, ino: nat, vmint: nat, vmaxt: nat, mp: Option<nat>, met: seq<nat>, q: nat)
    requires Finding(im, n, ino, vmint, vmaxt, mp, met) && q == NextNode(im, n) < im.Size() && NodeAt(im, q)
    ensures var end := q + Pad(im.Word(q + 4));
      if IsVersionOf(im, q, ino) && im.Word(q + 16) > 0 then
        var v := im.Word(q + 16);
        if v == 1 then Oldest(im, Nodes(im, 0), ino, Some(q))
        else Finding(im, end, ino, if vmint > v then v else vmint, if vmaxt < v then v else vmaxt,
                     if vmint > v then Some(q) else mp, met + [q])
      else Finding(im, end, ino, vmint, vmaxt, mp, met + [q])
  {
    hide NodeAt, NextNode, Readable, Nodes, Pad, Oldest, Finding, IsVersionOf;
    if IsVersionOf(im, q, ino) && im.Word(q + 16) == 1 {
      FindingOne(im, n, ino, vmint, vmaxt, mp, met, q);
    } else {
      FindingOther(im, n, ino, vmint, vmaxt, mp, met, q);
    }
  }

  method FindRawInode(im: Image, ino: nat) returns (r: Option<nat>)
    requires Readable(im, 0)
    ensures Oldest(im, Nodes(im, 0), ino, r)
  {
    hide *;
    FindingStart(im, ino);
    var n: nat, lr: nat, mp: Option<nat> := 0, 0, None;
    var vmin: nat, vmint: nat, vmaxt: nat, vmax: nat, vcur: nat := 0, UINT32_MAX, 0, UINT32_MAX, 0;
    ghost var met: seq<nat> := [];
    var more := true;
    while more
      invariant lr == vcur == 0 && n <= im.Size()
      invariant if more then Finding(im, n, ino, vmint, vmaxt, mp, met) else Oldest(im, Nodes(im, 0), ino, None)
      invariant more ==> vmax > 0
      decreases more, im.Size() - n
    {
      ghost var before := n;
      FindingReads(im, n, ino, vmint, vmaxt, mp, met);
      n := SkipGap(im, n);
      if n < im.Size() {
        FindingNext(im, before, ino, vmint, vmaxt, mp, met, n);
        if IsVersionOf(im, n, ino) && im.Word(n + 16) > vcur {
          var v := im.Word(n + 16);
          if vmaxt < v {
            vmaxt := v;
          }
          if vmint > v {
            vmint := v;
            mp := Some(n);
          }
          if v == vcur + 1 {
            return Some(n);
          }
        }
        met := met + [n];
        n := n + Pad(im.Word(n + 4));
      } else {
        n := 0;
      }
      if lr == n {
        vmax := vmaxt;
        vmin := vmint;
        vmint := UINT32_MAX;
        if vcur < vmax && vcur < vmin {
          return mp;
        }
      }
      more := vcur < vmax;
    }
    return None;
  }

  lemma {:induction false} LogNodes(im: Image, ino: nat, n: nat)
    requires Readable(im, n)
    ensures forall r :: r in LogFrom(im, ino, n) ==> r.at in Nodes(im, n) && r == RecAt(im, ino, r.at)
    ensures forall q :: q in Nodes(im, n) ==> RecAt(im, ino, q) in LogFrom(im, ino, n)
    decreases im.Size() - n
  {
    NodesAscend(im, n);
    var q := NextNode(im, n);
    if q < im.Size() {
      LogNodes(im, ino, NodeEnd(im, q));
    }
  }

  lemma {:induction false} LatestAt(es: seq<Entry>, name: seq<byte>, i: nat)
    requires i <= |es| && forall j :: i <= j < |es| ==> es[j].name != name
    ensures Latest(es, name) == if i == 0 then None else if es[i - 1].name == name then Some(es[i - 1])
            else Latest(es[..i - 1], name)
    decreases |es|
  {
    if i < |es| {
      var front := es[..|es| - 1];
      LatestAt(front, name, i);
      if i > 0 {
        assert front[..i - 1] == es[..i - 1];
      }
    } else {
      assert es[..|es|] == es;
    }
  }

  // The dirents applied are all the dirents of the directory with a version.
  lemma AppliedNodes(im: Image, pino: nat, s: State)
    requires WellFormed(im, pino) && Complete(LogFrom(im, pino, 0), s)
    ensures forall r :: r in s.applied ==> r.at in Nodes(im, 0) && r == RecAt(im, pino, r.at) && r.version > 0
    ensures forall q :: q in Nodes(im, 0) && IsDirent(im, q) && ParentAt(im, q) == pino && VersionAt(im, q) > 0 ==>
              RecAt(im, pino, q) in s.applied
    ensures Ascending(s.applied)
  {
    LogNodes(im, pino, 0);
    AllApplied(LogFrom(im, pino, 0), s);
  }

  // No later dirent of the directory has the name of the newest.
  lemma LaterDiffers(im: Image, pino: nat, qs: seq<nat>, name: seq<byte>, q: nat, r: Rec)
    requires pino != 0 && (forall p :: p in qs ==> NodeAt(im, p)) && Newest(im, qs, 0, pino, name, Some(q))
    requires r.at in qs && r == RecAt(im, pino, r.at) && r.version > RecAt(im, pino, q).version
    ensures EntryAt(im, r.at).name != name
  {
    hide NodeAt, NodeEnd, EntryAt, IsDirent, VersionAt, ParentAt;
  }

  lemma EntriesAt(im: Image, recs: seq<Rec>, i: nat)
    requires AllDirents(im, recs) && i < |recs|
    ensures |Entries(im, recs)| == |recs| && NodeAt(im, recs[i].at) && IsDirent(im, recs[i].at)
    ensures Entries(im, recs)[i] == EntryAt(im, recs[i].at)
  {
    hide NodeAt, EntryAt, IsDirent;
  }

  lemma NewestIs(im: Image, pino: nat, qs: seq<nat>, name: seq<byte>, q: nat)
    requires pino != 0 && (forall p :: p in qs ==> NodeAt(im, p)) && Newest(im, qs, 0, pino, name, Some(q))
    ensures q in qs && IsDirent(im, q) && EntryAt(im, q).name == name && RecAt(im, pino, q).at == q
  {
    hide NodeAt, NodeEnd, EntryAt, IsDirent, VersionAt, ParentAt;
  }

  lemma LatestIsNewest(im: Image, pino: nat, s: State, name: seq<byte>, q: nat, i: nat)
    requires WellFormed(im, pino) && pino != 0 && Complete(LogFrom(im, pino, 0), s) && AllDirents(im, s.applied)
    requires Newest(im, Nodes(im, 0), 0, pino, name, Some(q)) && i < |s.applied| && s.applied[i] == RecAt(im, pino, q)
    ensures Latest(Entries(im, s.applied), name) == Some(EntryAt(im, q))
  {
    hide *;
    Separate(im, pino);
    AppliedNodes(im, pino, s);
    var recs, es := s.applied, Entries(im, s.applied);
    EntriesAt(im, recs, i);
    NewestIs(im, pino, Nodes(im, 0), name, q);
    forall j | i + 1 <= j < |es| ensures es[j].name != name {
      assert recs[j] in recs;
      AscendingAt(recs, i, j);
      EntriesAt(im, recs, j);
      LaterDiffers(im, pino, Nodes(im, 0), name, q, recs[j]);
    }
    LatestAt(es, name, i + 1);
  }

  lemma AscendingAt(recs: seq<Rec>, i: nat, j: nat)
    requires Ascending(recs) && i < j < |recs|
    ensures recs[i].version < recs[j].version
  {
  }

  lemma LatestIsNone(im: Image, pino: nat, s: State, name: seq<byte>)
    requires WellFormed(im, pino) && pino != 0 && Complete(LogFrom(im, pino, 0), s) && AllDirents(im, s.applied)
    requires Newest(im, Nodes(im, 0), 0, pino, name, None)
    ensures Latest(Entries(im, s.applied), name) == None
  {
    var recs, es := s.applied, Entries(im, s.applied);
    AppliedNodes(im, pino, s);
    hide NodeAt, NodeEnd, Readable, Nodes, WellFormed, LogFrom, Complete;
    forall j | 0 <= j < |es| ensures es[j].name != name {
      assert recs[j] in recs && recs[j] == RecAt(im, pino, recs[j].at);
    }
    LatestAt(es, name, 0);
  }

  // `collectdir` lists a name exactly when `resolvename` finds a dirent for it that links an
  // inode; the two agree on the inode and the type, and no name is listed twice.
  lemma ListedIffResolved(im: Image, pino: nat, s: State, dir: seq<Entry>, name: seq<byte>, dd: Option<nat>)
    requires WellFormed(im, pino) && pino != 0 && Complete(LogFrom(im, pino, 0), s) && Replayed(im, s, [], dir)
    requires Resolved(im, 0, pino, name, dd)
    ensures NoDuplicates(dir) && (dd.Some? ==> NodeAt(im, dd.value) && IsDirent(im, dd.value))
    ensures dd.Some? ==> RAW_DIRENT_SIZE + dd.value <= |im.bytes|
    ensures Find(dir, name) ==
            if dd.Some? && Get32(im.bytes, dd.value + 20, im.endian) != 0 then
              Some(Entry(name, Get32(im.bytes, dd.value + 20, im.endian), im.bytes[dd.value + 29]))
            else None
  {
    if dd.Some? {
      NewestEntry(im, Nodes(im, 0), 0, pino, name, dd.value);
    }
    ListedAsEntry(im, pino, s, dir, name, dd);
  }

  // The fields of the node found, in its bytes.
  lemma NewestEntry(im: Image, qs: seq<nat>, ino: nat, pino: nat, name: seq<byte>, q: nat)
    requires (forall p :: p in qs ==> NodeAt(im, p)) && pino != 0 && Newest(im, qs, ino, pino, name, Some(q))
    ensures NodeAt(im, q) && IsDirent(im, q) && q + 40 <= |im.bytes|
    ensures EntryAt(im, q) == Entry(name, Get32(im.bytes, q + 20, im.endian), im.bytes[q + 29])
  {
    hide Get32, Get16;
  }

  // A dirent that is asked for: of the inode, unless this is 0, and of the name in the directory, unless that is 0.
  ghost predicate AskedFor(b: seq<byte>, e: Endian, q: nat, ino: nat, pino: nat, name: seq<byte>) {
    && q + 40 <= |b| && Get16(b, q + 2, e) == 0xE001 && (ino == 0 || Get32(b, q + 20, e) == ino)
    && (pino == 0 || (Get32(b, q + 12, e) == pino && b[q + 28] == |name| && q + 40 + |name| <= |b|
                      && b[q + 40..q + 40 + |name|] == name))
  }

  // What `resolvedirent` finds, in the bytes of the image: the first of those asked for with the highest version.
  lemma ResolvedMeans(im: Image, ino: nat, pino: nat, name: seq<byte>, dd: Option<nat>)
    requires Readable(im, 0) && Resolved(im, ino, pino, name, dd) && (pino != 0 || ino > 1)
    ensures var b, e, qs := im.bytes, im.endian, Nodes(im, 0);
      if dd.None? then
        forall q :: q in qs && AskedFor(b, e, q, ino, pino, name) ==> Get32(b, q + 16, e) == 0
      else
        && dd.value in qs && AskedFor(b, e, dd.value, ino, pino, name) && Get32(b, dd.value + 16, e) > 0
        && forall q :: q in qs && AskedFor(b, e, q, ino, pino, name) ==>
             && Get32(b, q + 16, e) <= Get32(b, dd.value + 16, e)
             && (Get32(b, q + 16, e) == Get32(b, dd.value + 16, e) ==> dd.value <= q)
  {
    hide Readable, Nodes, Get16, Get32;
    forall q | q in Nodes(im, 0)
      ensures AskedFor(im.bytes, im.endian, q, ino, pino, name) <==> Named(im, q, ino, pino, name)
      ensures Named(im, q, ino, pino, name) ==> VersionAt(im, q) == Get32(im.bytes, q + 16, im.endian)
    {
      NamedMeans(im, q, ino, pino, name);
    }
    hide Named, AskedFor, VersionAt, NodeAt;
  }

  lemma NamedMeans(im: Image, q: nat, ino: nat, pino: nat, name: seq<byte>)
    requires NodeAt(im, q)
    ensures AskedFor(im.bytes, im.endian, q, ino, pino, name) <==> Named(im, q, ino, pino, name)
    ensures Named(im, q, ino, pino, name) ==> q + 20 <= |im.bytes|
    ensures Named(im, q, ino, pino, name) ==> VersionAt(im, q) == Get32(im.bytes, q + 16, im.endian)
  {
    hide Get16, Get32;
  }

  // What `find_raw_inode` finds, in the bytes of the image: the first node of the inode with the lowest version above
  // 0.
  lemma OldestMeans(im: Image, ino: nat, r: Option<nat>)
    requires Readable(im, 0) && Oldest(im, Nodes(im, 0), ino, r)
    ensures var b, e, qs := im.bytes, im.endian, Nodes(im, 0);
      if r.None? then
        forall q :: q in qs && InodeNode(b, e, q, ino) ==> Get32(b, q + 16, e) in {0, UINT32_MAX}
      else
        && r.value in qs && InodeNode(b, e, r.value, ino) && 0 < Get32(b, r.value + 16, e) < UINT32_MAX
        && forall q :: q in qs && InodeNode(b, e, q, ino) && Get32(b, q + 16, e) > 0 ==>
             && Get32(b, r.value + 16, e) <= Get32(b, q + 16, e)
             && (Get32(b, r.value + 16, e) == Get32(b, q + 16, e) ==> r.value <= q)
  {
    hide Readable, Nodes, Get16, Get32;
    forall q | q in Nodes(im, 0)
      ensures InodeNode(im.bytes, im.endian, q, ino) <==> IsInode(im, q, ino)
      ensures IsInode(im, q, ino) ==> VersionAt(im, q) == Get32(im.bytes, q + 16, im.endian)
    {
    }
    hide IsInode, InodeNode, VersionAt, NodeAt;
  }

  ghost predicate InodeNode(b: seq<byte>, e: Endian, q: nat, ino: nat) {
    q + 68 <= |b| && Get16(b, q + 2, e) == 0xE002 && Get32(b, q + 12, e) == ino
  }

  lemma ListedAsEntry(im: Image, pino: nat, s: State, dir: seq<Entry>, name: seq<byte>, dd: Option<nat>)
    requires WellFormed(im, pino) && pino != 0 && Complete(LogFrom(im, pino, 0), s) && Replayed(im, s, [], dir)
    requires Resolved(im, 0, pino, name, dd)
    ensures NoDuplicates(dir) && (dd.Some? ==> NodeAt(im, dd.value) && IsDirent(im, dd.value))
    ensures Find(dir, name) ==
            if dd.Some? && EntryAt(im, dd.value).ino != 0 then Some(EntryAt(im, dd.value)) else None
  {
    ReplayFind(Entries(im, s.applied), name);
    if dd.Some? {
      var q := dd.value;
      AppliedNodes(im, pino, s);
      var i :| 0 <= i < |s.applied| && s.applied[i] == RecAt(im, pino, q);
      LatestIsNewest(im, pino, s, name, q, i);
    } else {
      LatestIsNone(im, pino, s, name);
    }
  }
}
