/**
 The choice of a compressor in `jffs2_compress` (external/mtd-utils/compr.c).
 */
module ComprChoice {
  import opened Jffs2Format
  import opened ComprList

  datatype Mode = NoCompression | Priority | Size | FavourLzo | UnknownMode

  const COMPR_LZO: byte := 0x07

  // A compressor that made the data smaller, and its result.
  datatype Cand = Cand(id: byte, code: seq<byte>, taken: nat)

  // `size * FAVOUR_LZO_PERCENT / 100` in 32 bits.
  function Share(size: nat): nat {
    size * 80 % 0x1_0000_0000 / 100
  }

  // `jffs2_is_best_compression`
  predicate Better(mode: Mode, this_: Cand, best: Cand) {
    var size, bestsize := |this_.code|, |best.code|;
    match mode
    case Size => bestsize > size
    case FavourLzo =>
      || (this_.id == COMPR_LZO && bestsize > size)
      || (best.id != COMPR_LZO && bestsize > size)
      || (this_.id == COMPR_LZO && bestsize > Share(size))
      || Share(bestsize) > size
    case _ => false
  }

  // The choice among the candidates, taken in their order.
  function Choose(mode: Mode, cands: seq<Cand>): Option<Cand> {
    if cands == [] then None
    else
      var best, c := Choose(mode, cands[..|cands| - 1]), cands[|cands| - 1];
      if best.None? || Better(mode, c, best.value) then Some(c) else best
  }

  ghost predicate Enabled(e: Entry)
    reads e`disabled
  {
    e.compress.Some? && !e.disabled
  }

  // The compressors that make the data smaller, in the order of the list.
  ghost function Cands(entries: seq<Entry>, data: seq<byte>, room: nat): seq<Cand>
    reads entries`disabled
  {
    if entries == [] then []
    else
      var e := entries[|entries| - 1];
      Cands(entries[..|entries| - 1], data, room)
      + if Enabled(e) && Shrinks(e.compress.value(data, room))
        then var a := e.compress.value(data, room); [Cand(e.id, a.code, a.taken)] else []
  }

  predicate Shrinks(a: Attempt) {
    a.Made? && |a.code| < a.taken
  }

  // The first compressor that succeeds at all.
  ghost function FirstMade(entries: seq<Entry>, data: seq<byte>, room: nat): Option<Cand>
    reads entries`disabled
  {
    if entries == [] then None
    else if Enabled(entries[0]) && entries[0].compress.value(data, room).Made?
    then var a := entries[0].compress.value(data, room); Some(Cand(entries[0].id, a.code, a.taken))
    else FirstMade(entries[1..], data, room)
  }

  // By its place: the first compressor that there is a function for, that is not disabled and that succeeds; none if
  // there is no such one.
  lemma {:induction false} FirstMadeAt(entries: seq<Entry>, data: seq<byte>, room: nat) returns (k: nat)
    ensures k <= |entries|
    ensures forall i :: 0 <= i < k ==>
              entries[i].compress.None? || entries[i].disabled || entries[i].compress.value(data, room).Failed?
    ensures k < |entries| ==> entries[k].compress.Some? && !entries[k].disabled
    ensures if k == |entries| then FirstMade(entries, data, room) == None
            else
              var a := entries[k].compress.value(data, room);
              a.Made? && FirstMade(entries, data, room) == Some(Cand(entries[k].id, a.code, a.taken))
    decreases |entries|
  {
    if entries == [] || (Enabled(entries[0]) && entries[0].compress.value(data, room).Made?) {
      k := 0;
    } else {
      k := FirstMadeAt(entries[1..], data, room);
      assert forall i :: 0 < i <= k ==> entries[i] in entries[1..] && entries[1..][i - 1] == entries[i];
      k := k + 1;
    }
  }

  // Which compressors the candidates come from: `places` are those that there is a function for, that are not disabled,
  // that succeed and leave less than they took, all of them and in order.
  lemma CandsAt(entries: seq<Entry>, data: seq<byte>, room: nat) returns (places: seq<nat>)
    ensures |places| == |Cands(entries, data, room)|
    ensures forall i, j :: 0 <= i < j < |places| ==> places[i] < places[j]
    ensures forall k: nat :: k in places <==>
              && k < |entries| && entries[k].compress.Some? && !entries[k].disabled
              && var a := entries[k].compress.value(data, room); a.Made? && |a.code| < a.taken
    ensures forall i :: 0 <= i < |places| ==>
              && places[i] < |entries| && entries[places[i]].compress.Some?
              && var a := entries[places[i]].compress.value(data, room);
                a.Made? && Cands(entries, data, room)[i] == Cand(entries[places[i]].id, a.code, a.taken)
  {
    places := PlacesOf(entries, data, room);
    PlacesAll(entries, data, room);
    CandsFrom(entries, data, room);
  }

  ghost function PlacesOf(entries: seq<Entry>, data: seq<byte>, room: nat): (places: seq<nat>)
    reads entries`disabled
    ensures forall i :: 0 <= i < |places| ==> places[i] < |entries|
    ensures forall i, j :: 0 <= i < j < |places| ==> places[i] < places[j]
  {
    if entries == [] then []
    else
      var n := |entries| - 1;
      PlacesOf(entries[..n], data, room)
      + if Enabled(entries[n]) && Shrinks(entries[n].compress.value(data, room)) then [n] else []
  }

  lemma {:induction false} PlacesAll(entries: seq<Entry>, data: seq<byte>, room: nat)
    ensures forall k: nat :: k in PlacesOf(entries, data, room) <==>
              && k < |entries| && entries[k].compress.Some? && !entries[k].disabled
              && var a := entries[k].compress.value(data, room); a.Made? && |a.code| < a.taken
    decreases |entries|
  {
    if entries != [] {
      var n := |entries| - 1;
      PlacesAll(entries[..n], data, room);
      assert forall k: nat :: k < n ==> entries[..n][k] == entries[k];
    }
  }

  lemma {:induction false} CandsFrom(entries: seq<Entry>, data: seq<byte>, room: nat)
    ensures var ps, cs := PlacesOf(entries, data, room), Cands(entries, data, room);
      && |ps| == |cs|
      && forall i :: 0 <= i < |ps| ==>
           && ps[i] < |entries| && entries[ps[i]].compress.Some?
           && var a := entries[ps[i]].compress.value(data, room);
             a.Made? && cs[i] == Cand(entries[ps[i]].id, a.code, a.taken)
    decreases |entries|
  {
    if entries != [] {
      var n := |entries| - 1;
      CandsFrom(entries[..n], data, room);
      assert forall k: nat :: k < n ==> entries[..n][k] == entries[k];
    }
  }

  // What is asked of a compressor: its code fits the room and inflates to what it took of the data.
  ghost predicate Sound(e: Entry, inflate: (byte, seq<byte>, nat) -> seq<byte>) {
    e.compress.Some? ==>
      forall data: seq<byte>, room: nat :: data != [] && room > 0 ==>
        Inverted(e.id, e.compress.value(data, room), data, room, inflate)
  }

  ghost predicate Inverted(id: byte, a: Attempt, data: seq<byte>, room: nat,
                           inflate: (byte, seq<byte>, nat) -> seq<byte>) {
    a.Made? ==>
      && id != 0 && 0 < |a.code| <= room && 0 < a.taken <= |data|
      && inflate(id, a.code, a.taken) == data[..a.taken]
  }

  function SizeAt(cands: seq<Cand>, i: nat): nat
    requires i < |cands|
  {
    |cands[i].code|
  }

  // `k` is the first of the smallest candidates, leaving out `skip`.
  ghost predicate FirstSmallest(cands: seq<Cand>, skip: int, k: nat) {
    && k < |cands| && k != skip
    && (forall i :: 0 <= i < |cands| && i != skip ==> SizeAt(cands, k) <= SizeAt(cands, i))
    && (forall i :: 0 <= i < k && i != skip ==> SizeAt(cands, k) < SizeAt(cands, i))
  }

  lemma FirstSmallestNext(cands: seq<Cand>, skip: int, k: nat)
    requires |cands| > 0 && FirstSmallest(cands[..|cands| - 1], skip, k) && skip != |cands| - 1
    ensures FirstSmallest(cands, skip, if SizeAt(cands, k) > SizeAt(cands, |cands| - 1) then |cands| - 1 else k)
  {
    var front := cands[..|cands| - 1];
    assert forall i :: 0 <= i < |front| ==> SizeAt(front, i) == SizeAt(cands, i);
  }

  // In size mode the result is the first of the smallest candidates.
  lemma {:induction false} SizeChoice(cands: seq<Cand>) returns (k: nat)
    requires cands != []
    ensures FirstSmallest(cands, -1, k) && Choose(Size, cands) == Some(cands[k])
    decreases |cands|
  {
    var n := |cands| - 1;
    if n == 0 {
      k := 0;
    } else {
      k := SizeChoice(cands[..n]);
      FirstSmallestNext(cands, -1, k);
      k := if SizeAt(cands, k) > SizeAt(cands, n) then n else k;
    }
  }

  // LZO is preferred: every other one is larger than 80 percent of it, or is just that and
  // comes after it.
  ghost predicate LzoWins(cands: seq<Cand>, p: nat)
    requires p < |cands|
  {
    forall i :: 0 <= i < |cands| && i != p ==>
                  var share := SizeAt(cands, p) * 80 / 100;
                  SizeAt(cands, i) > share || (SizeAt(cands, i) == share && i > p)
  }

  ghost predicate OnlyLzo(cands: seq<Cand>, p: nat) {
    && (forall i :: 0 <= i < |cands| ==> (cands[i].id == COMPR_LZO <==> i == p))
    && (forall i :: 0 <= i < |cands| ==> SizeAt(cands, i) * 80 < 0x1_0000_0000)
  }

  lemma ShareLess(size: nat)
    requires size * 80 < 0x1_0000_0000
    ensures Share(size) <= size && Share(size) == size * 80 / 100
  {
  }

  // Before LZO is met the choice is as in size mode.
  lemma {:induction false} BeforeLzo(cands: seq<Cand>, p: nat) returns (k: nat)
    requires OnlyLzo(cands, p) && |cands| <= p && cands != []
    ensures FirstSmallest(cands, -1, k) && Choose(FavourLzo, cands) == Some(cands[k])
    decreases |cands|
  {
    var n := |cands| - 1;
    if n == 0 {
      k := 0;
    } else {
      assert forall i :: 0 <= i < n ==> SizeAt(cands[..n], i) == SizeAt(cands, i);
      k := BeforeLzo(cands[..n], p);
      FirstSmallestNext(cands, -1, k);
      ShareLess(SizeAt(cands, k));
      k := if SizeAt(cands, k) > SizeAt(cands, n) then n else k;
    }
  }

  // LZO comes last.
  lemma LzoLast(cands: seq<Cand>, p: nat) returns (k: nat)
    requires p + 1 == |cands| && OnlyLzo(cands, p)
    ensures k < |cands| && Choose(FavourLzo, cands) == Some(cands[k])
    ensures if LzoWins(cands, p) then k == p else FirstSmallest(cands, p, k)
  {
    var front := cands[..p];
    assert forall i :: 0 <= i < p ==> SizeAt(front, i) == SizeAt(cands, i);
    ShareLess(SizeAt(cands, p));
    if p == 0 {
      k := 0;
    } else {
      k := BeforeLzo(front, p);
      ShareLess(SizeAt(cands, k));
      k := if SizeAt(cands, k) > Share(SizeAt(cands, p)) then p else k;
    }
  }

  // Another one comes last, after LZO won among those before it, or lost.
  lemma OtherLast(cands: seq<Cand>, p: nat, k: nat) returns (k': nat)
    requires p + 1 < |cands| && OnlyLzo(cands, p) && k + 1 < |cands|
    requires Choose(FavourLzo, cands[..|cands| - 1]) == Some(cands[k])
    requires if LzoWins(cands[..|cands| - 1], p) then k == p else FirstSmallest(cands[..|cands| - 1], p, k)
    ensures k' < |cands| && Choose(FavourLzo, cands) == Some(cands[k'])
    ensures if LzoWins(cands, p) then k' == p else FirstSmallest(cands, p, k')
  {
    var n := |cands| - 1;
    var front := cands[..n];
    assert forall i :: 0 <= i < n ==> SizeAt(front, i) == SizeAt(cands, i);
    ShareLess(SizeAt(cands, k));
    hide Share;
    if LzoWins(front, p) {
      k' := if Share(SizeAt(cands, p)) > SizeAt(cands, n) then n else p;
    } else {
      FirstSmallestNext(cands, p, k);
      k' := if SizeAt(cands, k) > SizeAt(cands, n) then n else k;
      assert !LzoWins(cands, p);
    }
  }

  // In favour-LZO mode with one LZO compressor the result is LZO if it wins, else the first of the
  // smallest others.
  lemma {:induction false} FavourLzoChoice(cands: seq<Cand>, p: nat) returns (k: nat)
    requires p < |cands| && OnlyLzo(cands, p)
    ensures k < |cands| && Choose(FavourLzo, cands) == Some(cands[k])
    ensures if LzoWins(cands, p) then k == p else FirstSmallest(cands, p, k)
    decreases |cands|
  {
    var n := |cands| - 1;
    if p == n {
      k := LzoLast(cands, p);
    } else {
      OnlyLzoFront(cands, p);
      hide *;
      k := FavourLzoChoice(cands[..n], p);
      k := OtherLast(cands, p, k);
    }
  }

  lemma OnlyLzoFront(cands: seq<Cand>, p: nat)
    requires p + 1 < |cands| && OnlyLzo(cands, p)
    ensures OnlyLzo(cands[..|cands| - 1], p)
  {
    var front := cands[..|cands| - 1];
    assert forall i :: 0 <= i < |front| ==> SizeAt(front, i) == SizeAt(cands, i) && front[i] == cands[i];
  }

  // The result of `jffs2_compress`: the number to store, the bytes to store, and the two lengths.
  datatype Result = Result(id: byte, code: seq<byte>, datalen: nat, cdatalen: nat)

  // The code stands for the first `datalen` bytes of the data; without compression it is the data.
  ghost predicate Stands(r: Result, data: seq<byte>, room: nat, inflate: (byte, seq<byte>, nat) -> seq<byte>) {
    && 0 < r.datalen <= |data| && 0 < r.cdatalen <= room
    && if r.id == 0 then r.datalen == r.cdatalen && r.code == data
       else |r.code| == r.cdatalen && inflate(r.id, r.code, r.datalen) == data[..r.datalen]
  }

  ghost predicate AllSound(entries: seq<Entry>, inflate: (byte, seq<byte>, nat) -> seq<byte>) {
    forall i :: 0 <= i < |entries| ==> Sound(entries[i], inflate)
  }

  // The label `out` of `jffs2_compress`.
  function Finish(best: Option<Cand>, data: seq<byte>, cdatalen: nat): Result {
    if best.Some? then Result(best.value.id, best.value.code, best.value.taken, |best.value.code|)
    else Result(0, data, cdatalen, cdatalen)
  }

  // The choice is what is reported; without one, that `left` bytes of the data are stored as they are.
  ghost predicate Reports(r: Result, best: Option<Cand>, data: seq<byte>, left: nat) {
    if best.None? then r.id == 0 && r.code == data && r.datalen == r.cdatalen == left
    else r.id == best.value.id && r.code == best.value.code && r.datalen == best.value.taken && r.cdatalen == |r.code|
  }

  // The length of data stored as they are: what the last compressor leaves that was tried, or all the room.
  lemma {:induction false} LastLengthAt(entries: seq<Entry>, data: seq<byte>, room: nat) returns (k: nat)
    ensures k <= |entries| && forall i :: k <= i < |entries| ==> entries[i].compress.None? || entries[i].disabled
    ensures k > 0 ==> entries[k - 1].compress.Some? && !entries[k - 1].disabled
    ensures LastLength(entries, data, room) ==
            if k == 0 then room
            else match entries[k - 1].compress.value(data, room) case Made(code, _) => |code| case Failed => room
    decreases |entries|
  {
    if entries == [] || Enabled(entries[|entries| - 1]) {
      k := |entries|;
    } else {
      k := LastLengthAt(entries[..|entries| - 1], data, room);
    }
  }

  ghost predicate SoundCand(c: Cand, data: seq<byte>, room: nat, inflate: (byte, seq<byte>, nat) -> seq<byte>) {
    c.id != 0 && 0 < |c.code| <= room && 0 < c.taken <= |data| && inflate(c.id, c.code, c.taken) == data[..c.taken]
  }

  lemma Tried(e: Entry, data: seq<byte>, room: nat, inflate: (byte, seq<byte>, nat) -> seq<byte>)
    requires e.compress.Some? && data != [] && room > 0 && Sound(e, inflate)
    ensures var a := e.compress.value(data, room);
      0 < LeftLength(a, room) <= room && (a.Made? ==> SoundCand(Cand(e.id, a.code, a.taken), data, room, inflate))
  {
    assert Inverted(e.id, e.compress.value(data, room), data, room, inflate);
  }

  // The priority mode: the first compressor that succeeds.
  method FirstThatWorks(list: Compressors, data: seq<byte>, room: nat,
                        ghost inflate: (byte, seq<byte>, nat) -> seq<byte>)
    returns (best: Option<Cand>)
    requires list.Linked() && data != [] && room > 0 && AllSound(list.entries, inflate)
    ensures list.Linked() && best == FirstMade(list.entries, data, room)
    ensures best.Some? ==> SoundCand(best.value, data, room, inflate)
  {
    best := None;
    ghost var k := 0;
    RingStep(list.head, list.entries, 0);
    HeadApart(list.head, list.entries);
    var pos := list.head.next;
    hide Ring, Distinct, Named;
    while pos != list.head
      invariant k <= |list.entries| && pos == (if k < |list.entries| then list.entries[k] else list.head)
      invariant list.Linked()
      invariant FirstMade(list.entries, data, room) == FirstMade(list.entries[k..], data, room)
      decreases |list.entries| - k
    {
      assert list.entries[k..][0] == pos && list.entries[k..][1..] == list.entries[k + 1..];
      if pos.compress.Some? && !pos.disabled {
        var a := pos.compress.value(data, room);
        if a.Made? {
          Tried(list.entries[k], data, room, inflate);
          return Some(Cand(pos.id, a.code, a.taken));
        }
      }
      RingStep(list.head, list.entries, k);
      pos, k := pos.next, k + 1;
    }
  }

  // The length a compressor leaves behind.
  function LeftLength(a: Attempt, room: nat): nat {
    if a.Made? then |a.code| else room
  }

  // ... and the last of the list that was tried.
  ghost function LastLength(entries: seq<Entry>, data: seq<byte>, room: nat): nat
    reads entries`disabled
  {
    if entries == [] then room
    else
      var e := entries[|entries| - 1];
      if Enabled(e) then LeftLength(e.compress.value(data, room), room)
        else LastLength(entries[..|entries| - 1], data, room)
  }

  lemma CandsNext(entries: seq<Entry>, k: nat, data: seq<byte>, room: nat, mode: Mode)
    requires k < |entries|
    ensures var e, before, after := entries[k], Cands(entries[..k], data, room), Cands(entries[..k + 1], data, room);
      && LastLength(entries[..k + 1], data, room) ==
         (if Enabled(e) then LeftLength(e.compress.value(data, room), room) else LastLength(entries[..k], data, room))
      && if Enabled(e) && Shrinks(e.compress.value(data, room)) then
           var a := e.compress.value(data, room); var best, c := Choose(mode, before), Cand(e.id, a.code, a.taken);
           Choose(mode, after) == if best.None? || Better(mode, c, best.value) then Some(c) else best
         else Choose(mode, after) == Choose(mode, before)
  {
    var front := entries[..k + 1];
    assert front[..|front| - 1] == entries[..k] && front[|front| - 1] == entries[k];
    var e, before, after := entries[k], Cands(entries[..k], data, room), Cands(entries[..k + 1], data, room);
    hide Better;
    if Enabled(e) && Shrinks(e.compress.value(data, room)) {
      assert after[..|after| - 1] == before;
    } else {
      assert after == before;
    }
  }

  lemma NoneTried(entries: seq<Entry>, mode: Mode, data: seq<byte>, room: nat)
    ensures Choose(mode, Cands(entries[..0], data, room)) == None && LastLength(entries[..0], data, room) == room
  {
    assert entries[..0] == [];
  }

  lemma TriedAt(entries: seq<Entry>, k: nat, data: seq<byte>, room: nat, inflate: (byte, seq<byte>, nat) -> seq<byte>)
    requires k < |entries| && entries[k].compress.Some? && data != [] && room > 0 && AllSound(entries, inflate)
    ensures var a := entries[k].compress.value(data, room);
      && 0 < LeftLength(a, room) <= room
      && (a.Made? ==> SoundCand(Cand(entries[k].id, a.code, a.taken), data, room, inflate))
      && (Shrinks(a) <==> a.Made? && |a.code| < a.taken)
  {
    Tried(entries[k], data, room, inflate);
  }

  // The size and favour-LZO modes: try all that are enabled.
  method BestOfAll(list: Compressors, mode: Mode, data: seq<byte>, room: nat,
                   ghost inflate: (byte, seq<byte>, nat) -> seq<byte>)
    returns (best: Option<Cand>, cdatalen: nat)
    requires list.Linked() && data != [] && room > 0 && AllSound(list.entries, inflate)
    ensures list.Linked() && best == Choose(mode, Cands(list.entries, data, room))
    ensures cdatalen == LastLength(list.entries, data, room)
    ensures 0 < cdatalen <= room && (best.Some? ==> SoundCand(best.value, data, room, inflate))
  {
    hide Ring, Distinct, Named, Better, Choose, Cands, Share, SoundCand, Sound, LastLength, AllSound, Shrinks;
    best, cdatalen := None, room;
    ghost var k := 0;
    ghost var entries := list.entries;
    RingStep(list.head, entries, 0);
    RingHead(list.head, entries);
    NoneTried(entries, mode, data, room);
    var pos := list.head.next;
    while pos != list.head
      invariant k <= |entries| && pos == (if k < |entries| then entries[k] else list.head) && list.Linked()
      invariant best == Choose(mode, Cands(entries[..k], data, room))
      invariant cdatalen == LastLength(entries[..k], data, room)
      invariant 0 < cdatalen <= room && (best.Some? ==> SoundCand(best.value, data, room, inflate))
      decreases |entries| - k
    {
      CandsNext(entries, k, data, room, mode);
      if pos.compress.Some? && !pos.disabled {
        var a := pos.compress.value(data, room);
        TriedAt(entries, k, data, room, inflate);
        cdatalen := LeftLength(a, room);
        if a.Made? {
          var c := Cand(pos.id, a.code, a.taken);
          if (best.None? || Better(mode, c, best.value)) && |a.code| < a.taken {
            best := Some(c);
          }
        }
      }
      RingStep(list.head, entries, k);
      pos, k := pos.next, k + 1;
    }
    assert entries[..k] == entries;
  }

  // `jffs2_compress`
  method Compress(list: Compressors, mode: Mode, data: seq<byte>, room: nat,
                  ghost inflate: (byte, seq<byte>, nat) -> seq<byte>)
    returns (r: Result)
    requires list.Linked() && data != [] && 0 < room <= |data| && AllSound(list.entries, inflate)
    ensures list.Linked() && Stands(r, data, room, inflate)
    ensures mode.Priority? ==> Reports(r, FirstMade(list.entries, data, room), data, room)
    ensures mode.Size? || mode.FavourLzo? ==>
              Reports(r, Choose(mode, Cands(list.entries, data, room)), data, LastLength(list.entries, data, room))
    ensures mode.NoCompression? || mode.UnknownMode? ==> r == Result(0, data, room, room)
  {
    var best, cdatalen := None, room;
    match mode {
      case Priority =>
        best := FirstThatWorks(list, data, room, inflate);
      case Size =>
        best, cdatalen := BestOfAll(list, mode, data, room, inflate);
      case FavourLzo =>
        best, cdatalen := BestOfAll(list, mode, data, room, inflate);
      case _ =>
    }
    r := Finish(best, data, cdatalen);
  }
}
