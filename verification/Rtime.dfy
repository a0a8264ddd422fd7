/**
 The rtime compressor of external/mtd-utils/compr_rtime.c: byte and run-length pairs, where a
 run repeats what followed the last occurrence of the byte.
 */
module Rtime {
  import opened Jffs2Format

  const MAX_RUN: nat := 255

  // The most bytes for which the positions fit `short`.
  const MAX_INPUT: nat := 32768

  // Assignment to a `short`.
  function ToShort(x: int): (s: int)
    ensures 0 <= x < 32768 ==> s == x
  {
    (x + 32768) % 65536 - 32768
  }

  // Where the text after the last occurrence of each byte starts; 0 for a byte not met yet.
  type Positions = s: seq<nat> | |s| == 256 witness seq(256, _ => 0)

  const NOWHERE: Positions := seq(256, _ => 0)

  // For how long the text at `pos` repeats the text at `back`, `max` at the most.
  function RunLength(data: seq<byte>, back: nat, pos: nat, max: nat): (n: nat)
    requires back < pos <= |data|
    ensures n <= max && pos + n <= |data|
    decreases max
  {
    if pos < |data| && data[pos] == data[back] && 0 < max then 1 + RunLength(data, back + 1, pos + 1, max - 1) else 0
  }

  ghost predicate Behind(p: Positions, pos: nat) {
    forall v :: 0 <= v < 256 ==> p[v] <= pos
  }

  function RunAt(data: seq<byte>, p: Positions, pos: nat): (n: nat)
    requires pos < |data| && Behind(p, pos)
    ensures n <= MAX_RUN && pos + 1 + n <= |data|
  {
    RunLength(data, p[data[pos]], pos + 1, MAX_RUN)
  }

  function Noted(p: Positions, v: byte, pos: nat): Positions {
    p[v := pos]
  }

  // The code for the data from `pos` on, in `room` bytes.
  function Encode(data: seq<byte>, p: Positions, pos: nat, room: nat): (code: seq<byte>)
    requires pos <= |data| && Behind(p, pos)
    ensures |code| <= room
    decreases |data| - pos
  {
    if pos == |data| || room < 2 then []
    else
      var run := RunAt(data, p, pos);
      [data[pos], run as byte] + Encode(data, Noted(p, data[pos], pos + 1), pos + 1 + run, room - 2)
  }

  // How much of the data that code is for.
  function Reach(data: seq<byte>, p: Positions, pos: nat, room: nat): (end: nat)
    requires pos <= |data| && Behind(p, pos)
    ensures pos <= end <= |data|
    decreases |data| - pos
  {
    if pos == |data| || room < 2 then pos
    else Reach(data, Noted(p, data[pos], pos + 1), pos + 1 + RunAt(data, p, pos), room - 2)
  }

  // `n` bytes copied one by one from `back` to the end: the copy may reach into itself.
  function CopyRun(out: seq<byte>, back: nat, n: nat): (r: seq<byte>)
    requires back < |out|
    ensures |r| == |out| + n
    decreases n
  {
    if n == 0 then out else CopyRun(out + [out[back]], back + 1, n - 1)
  }

  // What the code stands for, given what it has made so far; `size` bytes are asked for.
  function Decode(code: seq<byte>, p: Positions, out: seq<byte>, size: nat): seq<byte>
    requires Behind(p, |out|)
  {
    if |out| >= size || |code| < 2 then out
    else
      var out1 := out + [code[0]];
      Decode(code[2..], Noted(p, code[0], |out1|), CopyRun(out1, p[code[0]], code[1]), size)
  }

  // The code makes exactly `size` bytes and is used up.
  predicate Exact(code: seq<byte>, p: Positions, out: seq<byte>, size: nat)
    requires Behind(p, |out|)
  {
    if |out| >= size then |out| == size && code == []
    else
      && |code| >= 2
      && var out1 := out + [code[0]];
      Exact(code[2..], Noted(p, code[0], |out1|), CopyRun(out1, p[code[0]], code[1]), size)
  }

  lemma {:induction false} CopyOfRun(data: seq<byte>, back: nat, pos: nat, max: nat)
    requires back < pos <= |data|
    ensures CopyRun(data[..pos], back, RunLength(data, back, pos, max)) == data[..pos + RunLength(data, back, pos, max)]
    decreases max
  {
    if pos < |data| && data[pos] == data[back] && 0 < max {
      assert data[..pos] + [data[back]] == data[..pos + 1];
      CopyOfRun(data, back + 1, pos + 1, max - 1);
    }
  }

  // A run is as long as it can be.
  lemma OneLonger(data: seq<byte>, at: nat, n: nat)
    requires at + 1 + n <= |data|
    ensures data[at..at + 1 + n] == [data[at]] + data[at + 1..at + 1 + n]
  {
  }

  lemma {:induction false} RunIsLongest(data: seq<byte>, back: nat, pos: nat, max: nat)
    requires back < pos <= |data|
    ensures var n := RunLength(data, back, pos, max);
      && data[pos..pos + n] == data[back..back + n]
      && (n == max || pos + n == |data| || data[pos + n] != data[back + n])
    decreases max
  {
    if pos < |data| && data[pos] == data[back] && 0 < max {
      RunIsLongest(data, back + 1, pos + 1, max - 1);
      var n := RunLength(data, back + 1, pos + 1, max - 1);
      OneLonger(data, pos, n);
      OneLonger(data, back, n);
    }
  }

  // The first pair of the code and the rest of it.
  lemma EncodeStep(data: seq<byte>, p: Positions, pos: nat, room: nat)
    requires pos < |data| && Behind(p, pos) && 2 <= room
    ensures var v, run, code := data[pos], RunAt(data, p, pos), Encode(data, p, pos, room);
            var p' := Noted(p, v, pos + 1);
      && Behind(p', pos + 1 + run) && |code| >= 2 && code[0] == v && code[1] as nat == run
      && code[2..] == Encode(data, p', pos + 1 + run, room - 2)
      && Reach(data, p, pos, room) == Reach(data, p', pos + 1 + run, room - 2) > pos
      && CopyRun(data[..pos] + [v], p[v], run) == data[..pos + 1 + run]
  {
    CopyOfRun(data, p[data[pos]], pos + 1, MAX_RUN);
    assert data[..pos] + [data[pos]] == data[..pos + 1];
  }

  lemma DecodeStep(code: seq<byte>, p: Positions, out: seq<byte>, size: nat)
    requires Behind(p, |out|) && |out| < size && |code| >= 2
    ensures var out1 := out + [code[0]]; var p', out' := Noted(p, code[0], |out1|), CopyRun(out1, p[code[0]], code[1]);
      && Behind(p', |out'|) && Decode(code, p, out, size) == Decode(code[2..], p', out', size)
      && Exact(code, p, out, size) == Exact(code[2..], p', out', size)
  {
  }

  lemma EncodeEnd(data: seq<byte>, p: Positions, pos: nat, room: nat)
    requires (pos == |data| || room < 2) && pos <= |data| && Behind(p, pos)
    ensures var size := Reach(data, p, pos, room);
      && Decode(Encode(data, p, pos, room), p, data[..pos], size) == data[..size]
      && Exact(Encode(data, p, pos, room), p, data[..pos], size)
  {
  }

  // Decoding the code gives back the data it is for, and uses up the code.
  lemma {:induction false} EncodeDecode(data: seq<byte>, p: Positions, pos: nat, room: nat)
    requires pos <= |data| && Behind(p, pos)
    ensures var size := Reach(data, p, pos, room);
      && Decode(Encode(data, p, pos, room), p, data[..pos], size) == data[..size]
      && Exact(Encode(data, p, pos, room), p, data[..pos], size)
    decreases |data| - pos
  {
    hide *;
    if pos == |data| || room < 2 {
      EncodeEnd(data, p, pos, room);
    } else {
      EncodeStep(data, p, pos, room);
      DecodeStep(Encode(data, p, pos, room), p, data[..pos], Reach(data, p, pos, room));
      EncodeDecode(data, Noted(p, data[pos], pos + 1), pos + 1 + RunAt(data, p, pos), room - 2);
    }
  }

  // What a code means, with no table: pair `k` is a byte and a count.
  function ByteOf(code: seq<byte>, k: nat): byte
    requires 2 * k < |code|
  {
    code[2 * k]
  }

  function CountOf(code: seq<byte>, k: nat): byte
    requires 2 * k + 1 < |code|
  {
    code[2 * k + 1]
  }

  // Where the byte of pair `k` is in the text: each pair before stands for a byte and its run.
  function Place(code: seq<byte>, k: nat): nat
    requires 2 * k <= |code|
  {
    if k == 0 then 0 else Place(code, k - 1) + 1 + CountOf(code, k - 1) as nat
  }

  // Pair `j` is the last one with byte `v` before pair `k`.
  ghost predicate LastAt(code: seq<byte>, k: nat, v: byte, j: nat)
    requires 2 * k <= |code|
  {
    j < k && ByteOf(code, j) == v && forall i :: j < i < k ==> ByteOf(code, i) != v
  }

  ghost predicate NoneOf(code: seq<byte>, k: nat, v: byte)
    requires 2 * k <= |code|
  {
    forall j :: 0 <= j < k ==> ByteOf(code, j) != v
  }

  // The text behind the last place of byte `v` in the pairs before `k` is at `back`; if there is none, the whole text
  // is.
  ghost predicate BehindLast(code: seq<byte>, k: nat, v: byte, back: nat)
    requires 2 * k <= |code|
  {
    (exists j :: LastAt(code, k, v, j) && back == Place(code, j) + 1) || (NoneOf(code, k, v) && back == 0)
  }

  // Pair `k`: its byte, and then its run, which repeats the text at `back`.
  ghost predicate PairSpells(code: seq<byte>, k: nat, text: seq<byte>, back: nat)
    requires 2 * k + 2 <= |code|
  {
    var at, n := Place(code, k), CountOf(code, k) as nat;
    && at + 1 + n <= |text| && back <= at && text[at] == ByteOf(code, k)
    && text[at + 1..at + 1 + n] == text[back..back + n]
  }

  ghost predicate PairIn(code: seq<byte>, k: nat, text: seq<byte>)
    requires 2 * k + 2 <= |code|
  {
    exists back :: BehindLast(code, k, ByteOf(code, k), back) && PairSpells(code, k, text, back)
  }

  // The first `k` pairs stand for `text`.
  ghost predicate Spells(code: seq<byte>, k: nat, text: seq<byte>)
    requires 2 * k <= |code|
  {
    && |text| == Place(code, k)
    && forall j :: 0 <= j < k ==> PairIn(code, j, text)
  }

  // The table after `k` pairs.
  ghost predicate Table(code: seq<byte>, k: nat, p: Positions)
    requires 2 * k <= |code|
  {
    forall v: byte :: BehindLast(code, k, v, p[v])
  }

  lemma BehindLastOne(code: seq<byte>, k: nat, v: byte, a: nat, b: nat)
    requires 2 * k <= |code| && BehindLast(code, k, v, a) && BehindLast(code, k, v, b)
    ensures a == b
  {
    hide Place, ByteOf;
    if !NoneOf(code, k, v) {
      var i :| LastAt(code, k, v, i) && a == Place(code, i) + 1;
      var j :| LastAt(code, k, v, j) && b == Place(code, j) + 1;
      assert i == j;
    } else {
      assert forall j :: !LastAt(code, k, v, j);
    }
  }

  lemma TableStart(code: seq<byte>)
    ensures Table(code, 0, NOWHERE) && Spells(code, 0, [])
  {
  }

  lemma TableNext(code: seq<byte>, k: nat, p: Positions)
    requires 2 * k + 2 <= |code| && Table(code, k, p)
    ensures Table(code, k + 1, Noted(p, ByteOf(code, k), Place(code, k) + 1))
  {
    hide *;
    var p' := Noted(p, ByteOf(code, k), Place(code, k) + 1);
    forall v: byte ensures BehindLast(code, k + 1, v, p'[v]) {
      TableAt(code, k, p, v);
      BehindLastNext(code, k, v, p[v]);
      NotedAt(p, ByteOf(code, k), Place(code, k) + 1, v);
    }
    TableIs(code, k + 1, p');
  }

  lemma NotedAt(p: Positions, v: byte, pos: nat, w: byte)
    ensures Noted(p, v, pos)[w] == if w == v then pos else p[w]
  {
  }

  lemma TableIs(code: seq<byte>, k: nat, p: Positions)
    requires 2 * k <= |code| && forall v: byte :: BehindLast(code, k, v, p[v])
    ensures Table(code, k, p)
  {
    hide BehindLast;
  }

  lemma BehindLastNext(code: seq<byte>, k: nat, v: byte, back: nat)
    requires 2 * k + 2 <= |code| && BehindLast(code, k, v, back)
    ensures BehindLast(code, k + 1, v, if v == ByteOf(code, k) then Place(code, k) + 1 else back)
  {
    hide Place, ByteOf;
    if v == ByteOf(code, k) {
      assert LastAt(code, k + 1, v, k);
    } else if !NoneOf(code, k, v) {
      var j :| LastAt(code, k, v, j) && back == Place(code, j) + 1;
      assert LastAt(code, k + 1, v, j);
    }
  }

  // A run copied byte by byte repeats the text at `back`, also where it reaches into itself.
  lemma {:induction false} CopyRepeats(out: seq<byte>, back: nat, n: nat)
    requires back < |out|
    ensures var r := CopyRun(out, back, n);
      r[..|out|] == out && r[|out|..|out| + n] == r[back..back + n]
    decreases n
  {
    if n > 0 {
      var out1 := out + [out[back]];
      CopyRepeats(out1, back + 1, n - 1);
      var r := CopyRun(out, back, n);
      assert r == CopyRun(out1, back + 1, n - 1);
      hide CopyRun;
      assert r[..|out|] == r[..|out1|][..|out|] == out;
      assert r[|out|] == r[..|out1|][|out|] == out[back] == r[..|out|][back] == r[back];
      OneLonger(r, |out|, n - 1);
      OneLonger(r, back, n - 1);
    }
  }

  lemma TableAt(code: seq<byte>, k: nat, p: Positions, v: byte)
    requires 2 * k <= |code| && Table(code, k, p)
    ensures BehindLast(code, k, v, p[v])
  {
  }

  lemma NewPair(code: seq<byte>, k: nat, out: seq<byte>, back: nat)
    requires 2 * k + 2 <= |code| && |out| == Place(code, k) && back <= |out|
    ensures var out' := CopyRun(out + [ByteOf(code, k)], back, CountOf(code, k));
      out <= out' && |out'| == Place(code, k + 1) && PairSpells(code, k, out', back)
  {
    var v, n := ByteOf(code, k), CountOf(code, k);
    var out1 := out + [v];
    var out' := CopyRun(out1, back, n);
    CopyRepeats(out1, back, n);
    hide CopyRun;
    assert out'[..|out|] == out'[..|out1|][..|out|] == out;
    assert out'[|out|] == out'[..|out1|][|out|] == v;
  }

  lemma SpellsMore(code: seq<byte>, k: nat, out: seq<byte>, out': seq<byte>, back: nat)
    requires 2 * k + 2 <= |code| && Spells(code, k, out) && out <= out' && |out'| == Place(code, k + 1)
    requires BehindLast(code, k, ByteOf(code, k), back) && PairSpells(code, k, out', back)
    ensures Spells(code, k + 1, out')
  {
    hide BehindLast, PairSpells, Place, ByteOf, CountOf;
    forall j | 0 <= j < k + 1 ensures PairIn(code, j, out') {
      if j < k {
        assert PairIn(code, j, out);
        var b :| BehindLast(code, j, ByteOf(code, j), b) && PairSpells(code, j, out, b);
        PairKept(code, j, out, out', b);
      }
    }
  }

  // (Unfolds the definitions.)
  lemma SpellsSize(code: seq<byte>, k: nat, p: Positions, text: seq<byte>)
    requires 2 * k <= |code|
    ensures Spells(code, k, text) ==> |text| == Place(code, k)
    ensures Behind(p, |text|) ==> forall v :: 0 <= v < 256 ==> p[v] <= |text|
  {
    hide BehindLast, PairSpells, Place;
  }

  lemma SpellsNext(code: seq<byte>, k: nat, p: Positions, out: seq<byte>)
    requires 2 * k + 2 <= |code| && Table(code, k, p) && Spells(code, k, out) && Behind(p, |out|)
    ensures |out| == Place(code, k) && p[ByteOf(code, k)] <= |out|
    ensures Spells(code, k + 1, CopyRun(out + [ByteOf(code, k)], p[ByteOf(code, k)], CountOf(code, k)))
  {
    hide *;
    var v := ByteOf(code, k);
    SpellsSize(code, k, p, out);
    TableAt(code, k, p, v);
    NewPair(code, k, out, p[v]);
    SpellsMore(code, k, out, CopyRun(out + [v], p[v], CountOf(code, k)), p[v]);
  }

  lemma PairKept(code: seq<byte>, j: nat, text: seq<byte>, text': seq<byte>, back: nat)
    requires 2 * j + 2 <= |code| && PairSpells(code, j, text, back) && text <= text'
    ensures PairSpells(code, j, text', back)
  {
    var at, n := Place(code, j), CountOf(code, j) as nat;
    assert text'[at + 1..at + 1 + n] == text[at + 1..at + 1 + n];
    assert text'[back..back + n] == text[back..back + n];
  }

  lemma PairAt(code: seq<byte>, k: nat)
    requires 2 * k + 2 <= |code|
    ensures code[2 * k..][0] == ByteOf(code, k) && code[2 * k..][1] == CountOf(code, k)
    ensures code[2 * k..][2..] == code[2 * (k + 1)..]
  {
  }

  lemma ExactEnd(code: seq<byte>, p: Positions, out: seq<byte>, size: nat)
    requires Behind(p, |out|) && Exact(code, p, out, size)
    ensures if |out| < size then |code| >= 2 else code == [] && Decode(code, p, out, size) == out
  {
  }

  // Decoding gives the text the code stands for.
  lemma {:induction false} DecodeSpells(code: seq<byte>, k: nat, p: Positions, out: seq<byte>, size: nat)
    requires 2 * k <= |code| && Table(code, k, p) && Spells(code, k, out) && Behind(p, |out|)
    requires Exact(code[2 * k..], p, out, size)
    ensures |code| % 2 == 0 && Spells(code, |code| / 2, Decode(code[2 * k..], p, out, size))
    decreases |code| - 2 * k
  {
    hide *;
    ExactEnd(code[2 * k..], p, out, size);
    if |out| < size {
      PairAt(code, k);
      var v := ByteOf(code, k);
      DecodeStep(code[2 * k..], p, out, size);
      TableNext(code, k, p);
      SpellsNext(code, k, p, out);
      DecodeSpells(code, k + 1, Noted(p, v, |out| + 1), CopyRun(out + [v], p[v], CountOf(code, k)), size);
    }
  }

  // The runs of the first `k` pairs are as long as they can be.
  ghost predicate LongestRuns(code: seq<byte>, k: nat, data: seq<byte>)
    requires 2 * k <= |code|
  {
    forall j, back :: 0 <= j < k && BehindLast(code, j, ByteOf(code, j), back) ==> LongestRun(code, j, data, back)
  }

  ghost predicate LongestRun(code: seq<byte>, j: nat, data: seq<byte>, back: nat)
    requires 2 * j + 2 <= |code|
  {
    var end, n := Place(code, j) + 1 + CountOf(code, j) as nat, CountOf(code, j) as nat;
    n == MAX_RUN || end >= |data| || (back + n < end && data[end] != data[back + n])
  }

  lemma LongestNext(code: seq<byte>, k: nat, data: seq<byte>, p: Positions, pos: nat)
    requires 2 * k + 2 <= |code| && Table(code, k, p) && LongestRuns(code, k, data) && pos == Place(code, k) < |data|
    requires Behind(p, pos) && ByteOf(code, k) == data[pos] && CountOf(code, k) as nat == RunAt(data, p, pos)
    ensures LongestRuns(code, k + 1, data)
  {
    hide *;
    var v := ByteOf(code, k);
    BehindIs(p, pos);
    TableAt(code, k, p, v);
    RunAtLongest(code, k, data, p);
    LongestMore(code, k, data, p[v]);
  }

  lemma BehindIs(p: Positions, pos: nat)
    ensures Behind(p, pos) <==> forall v :: 0 <= v < 256 ==> p[v] <= pos
  {
  }

  lemma RunStops(data: seq<byte>, back: nat, pos: nat, max: nat)
    requires back < pos <= |data|
    ensures var n := RunLength(data, back, pos, max);
      n == max || pos + n == |data| || (back + n < |data| && data[pos + n] != data[back + n])
  {
    RunIsLongest(data, back, pos, max);
    hide RunLength;
  }

  lemma RunAtLongest(code: seq<byte>, k: nat, data: seq<byte>, p: Positions)
    requires 2 * k + 2 <= |code| && Place(code, k) < |data| && Behind(p, Place(code, k))
    requires ByteOf(code, k) == data[Place(code, k)] && CountOf(code, k) as nat == RunAt(data, p, Place(code, k))
    ensures LongestRun(code, k, data, p[ByteOf(code, k)])
  {
    hide RunLength, Place, ByteOf, CountOf;
    RunStops(data, p[ByteOf(code, k)], Place(code, k) + 1, MAX_RUN);
  }

  lemma LongestMore(code: seq<byte>, k: nat, data: seq<byte>, b: nat)
    requires 2 * k + 2 <= |code| && LongestRuns(code, k, data) && LongestRun(code, k, data, b)
    requires BehindLast(code, k, ByteOf(code, k), b)
    ensures LongestRuns(code, k + 1, data)
  {
    hide LongestRun, BehindLast, ByteOf;
    forall j, back | 0 <= j < k + 1 && BehindLast(code, j, ByteOf(code, j), back)
      ensures LongestRun(code, j, data, back)
    {
      if j == k {
        BehindLastOne(code, k, ByteOf(code, k), back, b);
      }
    }
  }

  // A code of `data` in `room` bytes that reaches up to `end`: it stands for that part, its runs are as long as they
  // can be, and it stops where the data ends or another pair has no room.
  ghost predicate CodeOf(code: seq<byte>, data: seq<byte>, room: nat, end: nat) {
    && |code| % 2 == 0 && |code| <= room && end <= |data|
    && Spells(code, |code| / 2, data[..end]) && LongestRuns(code, |code| / 2, data)
    && (end == |data| || room < |code| + 2)
  }

  lemma {:induction false} EncodeSpells(code: seq<byte>, k: nat, data: seq<byte>, p: Positions, pos: nat, room: nat)
    requires pos <= |data| && Behind(p, pos) && 2 * k <= |code| && code[2 * k..] == Encode(data, p, pos, room)
    requires Table(code, k, p) && Spells(code, k, data[..pos]) && LongestRuns(code, k, data)
    ensures CodeOf(code, data, room + 2 * k, Reach(data, p, pos, room))
    decreases |data| - pos
  {
    hide *;
    if pos < |data| && 2 <= room {
      EncodeStep(data, p, pos, room);
      PairAt(code, k);
      var v, run := data[pos], RunAt(data, p, pos);
      SpellsSize(code, k, p, data[..pos]);
      TableNext(code, k, p);
      SpellsNext(code, k, p, data[..pos]);
      LongestNext(code, k, data, p, pos);
      EncodeSpells(code, k + 1, data, Noted(p, v, pos + 1), pos + 1 + run, room - 2);
      assert room - 2 + 2 * (k + 1) == room + 2 * k;
    } else {
      CodeEnds(code, k, data, p, pos, room);
    }
  }

  lemma CodeEnds(code: seq<byte>, k: nat, data: seq<byte>, p: Positions, pos: nat, room: nat)
    requires pos <= |data| && Behind(p, pos) && 2 * k <= |code| && code[2 * k..] == Encode(data, p, pos, room)
    requires (pos == |data| || room < 2) && Spells(code, k, data[..pos]) && LongestRuns(code, k, data)
    ensures CodeOf(code, data, room + 2 * k, Reach(data, p, pos, room))
  {
    hide Spells, LongestRuns;
    assert 2 * k == |code|;
  }

  // A copy that ends before the end is a plain copy.
  lemma {:induction false} CopyApart(out: seq<byte>, back: nat, n: nat)
    requires back + n <= |out| && back < |out|
    ensures CopyRun(out, back, n) == out + out[back..back + n]
    decreases n
  {
    if n > 0 {
      CopyApart(out + [out[back]], back + 1, n - 1);
      assert (out + [out[back]])[back + 1..back + n] == out[back + 1..back + n];
      assert out[back..back + n] == [out[back]] + out[back + 1..back + n];
    }
  }

  // The table of positions holds `p`, as far as it is read again.
  ghost predicate Holds(positions: array<int>, p: Positions, read: bool)
    reads positions
  {
    positions.Length == 256 && (read ==> forall v :: 0 <= v < 256 ==> positions[v] == p[v])
  }

  // The inner loop of the compressor: how far the text repeats.
  method FindRun(dataIn: array<byte>, sourcelen: nat, back: nat, start: nat) returns (pos: nat, runlen: nat)
    requires back < start <= sourcelen <= dataIn.Length
    ensures runlen == RunLength(dataIn[..sourcelen], back, start, MAX_RUN) && pos == start + runlen
  {
    var backpos: nat := back;
    pos, runlen := start, 0;
    while backpos < pos && pos < sourcelen && dataIn[pos] == dataIn[backpos] && runlen < MAX_RUN
      invariant backpos < pos <= sourcelen && pos == start + runlen && runlen <= MAX_RUN
      invariant RunLength(dataIn[..sourcelen], back, start, MAX_RUN) ==
                runlen + RunLength(dataIn[..sourcelen], backpos, pos, MAX_RUN - runlen)
      decreases sourcelen - pos
    {
      backpos := backpos + 1;
      pos := pos + 1;
      runlen := runlen + 1;
    }
  }

  // One round of the compressor: a byte and the length of the run after it.
  method EmitPair(dataIn: array<byte>, cpageOut: array<byte>, positions: array<int>, sourcelen: nat, pos: nat,
                  outpos: nat, ghost p: Positions)
    returns (pos': nat, outpos': nat)
    requires pos < sourcelen <= dataIn.Length && sourcelen <= MAX_INPUT && outpos + 2 <= cpageOut.Length
    requires dataIn != cpageOut
    requires Behind(p, pos) && Holds(positions, p, true)
    modifies cpageOut, positions
    ensures var v, run := dataIn[pos], RunAt(dataIn[..sourcelen], p, pos);
      && pos' == pos + 1 + run && outpos' == outpos + 2
      && cpageOut[..outpos'] == old(cpageOut[..outpos]) + [v, run as byte]
      && cpageOut[outpos'..] == old(cpageOut[outpos + 2..])
      && Holds(positions, Noted(p, v, pos + 1), pos' < sourcelen)
  {
    var value := dataIn[pos];
    cpageOut[outpos] := dataIn[pos];
    outpos' := outpos + 1;
    pos' := pos + 1;
    var backpos := positions[value];
    positions[value] := ToShort(pos');
    var runlen;
    pos', runlen := FindRun(dataIn, sourcelen, backpos, pos');
    cpageOut[outpos'] := runlen;
    outpos' := outpos' + 1;
  }

  // `code` is the whole code; `out` is the part up to `pos`.
  ghost predicate Encoding(data: seq<byte>, p: Positions, pos: nat, room: nat, out: seq<byte>, code: seq<byte>,
                           end: nat) {
    && pos <= |data| && Behind(p, pos) && out + Encode(data, p, pos, room) == code && Reach(data, p, pos, room) == end
  }

  lemma EncodingStart(data: seq<byte>, room: nat)
    ensures Behind(NOWHERE, 0)
    ensures Encoding(data, NOWHERE, 0, room, [], Encode(data, NOWHERE, 0, room), Reach(data, NOWHERE, 0, room))
  {
  }

  lemma EncodingEnd(data: seq<byte>, p: Positions, pos: nat, room: nat, out: seq<byte>, code: seq<byte>, end: nat)
    requires Encoding(data, p, pos, room, out, code, end) && (pos == |data| || room < 2)
    ensures out == code && pos == end
  {
  }

  lemma EncodingStep(data: seq<byte>, p: Positions, pos: nat, room: nat, out: seq<byte>, code: seq<byte>, end: nat)
    requires Encoding(data, p, pos, room, out, code, end) && pos < |data| && 2 <= room
    ensures Behind(p, pos)
    ensures var v, run := data[pos], RunAt(data, p, pos);
      Encoding(data, Noted(p, v, pos + 1), pos + 1 + run, room - 2, out + [v, run as byte], code, end)
  {
    EncodeStep(data, p, pos, room);
    var rest := Encode(data, p, pos, room);
    assert rest == [rest[0], rest[1]] + rest[2..];
    hide Encode, Reach, RunAt, CopyRun;
    assert out + [rest[0], rest[1]] + rest[2..] == out + rest;
  }

  lemma EncodeMeans(data: seq<byte>, room: nat)
    ensures Behind(NOWHERE, 0)
    ensures CodeOf(Encode(data, NOWHERE, 0, room), data, room, Reach(data, NOWHERE, 0, room))
  {
    var code := Encode(data, NOWHERE, 0, room);
    TableStart(code);
    assert code[2 * 0..] == code && data[..0] == [];
    hide *;
    EncodeSpells(code, 0, data, NOWHERE, 0, room);
  }

  // `jffs2_rtime_compress`: 0 and the lengths used, or -1 when nothing is gained.
  method Compress(dataIn: array<byte>, cpageOut: array<byte>, sourcelen: nat, dstlen: nat)
    returns (r: int, sourcelen': nat, dstlen': nat)
    requires sourcelen <= dataIn.Length && dstlen <= cpageOut.Length && dataIn != cpageOut && sourcelen <= MAX_INPUT
    modifies cpageOut
    ensures var data := dataIn[..sourcelen]; var code, end := Encode(data, NOWHERE, 0, dstlen),
            Reach(data, NOWHERE, 0, dstlen);
      && cpageOut[..|code|] == code && cpageOut[|code|..] == old(cpageOut[|code|..])
      && CodeOf(code, data, dstlen, end)
      && if |code| < end then r == 0 && sourcelen' == end && dstlen' == |code|
         else r == -1 && sourcelen' == sourcelen && dstlen' == dstlen
  {
    hide Encode, Reach, RunAt, RunLength, Encoding, Noted, Behind;
    ghost var data, p := dataIn[..sourcelen], NOWHERE;
    EncodingStart(data, dstlen);
    ghost var code, end := Encode(data, NOWHERE, 0, dstlen), Reach(data, NOWHERE, 0, dstlen);
    var positions := new int[256](_ => 0);
    var outpos: nat, pos: nat := 0, 0;
    assert cpageOut[..0] == [];
    while pos < sourcelen && outpos + 2 <= dstlen
      invariant outpos <= dstlen && pos <= sourcelen && dataIn[..sourcelen] == data
      invariant Holds(positions, p, pos < sourcelen)
      invariant Encoding(data, p, pos, dstlen - outpos, cpageOut[..outpos], code, end)
      invariant cpageOut[outpos..] == old(cpageOut[outpos..])
    {
      EncodingStep(data, p, pos, dstlen - outpos, cpageOut[..outpos], code, end);
      ghost var p' := Noted(p, data[pos], pos + 1);
      assert old(cpageOut[outpos..])[2..] == old(cpageOut[outpos + 2..]);
      pos, outpos := EmitPair(dataIn, cpageOut, positions, sourcelen, pos, outpos, p);
      p := p';
    }
    EncodingEnd(data, p, pos, dstlen - outpos, cpageOut[..outpos], code, end);
    EncodeMeans(data, dstlen);
    if outpos >= pos {
      return -1, sourcelen, dstlen;
    }
    return 0, pos, outpos;
  }

  // What is left of the code makes what is left of the text, and is used up by it.
  ghost predicate Decoding(code: seq<byte>, p: Positions, out: seq<byte>, size: nat, text: seq<byte>) {
    Behind(p, |out|) && Exact(code, p, out, size) && Decode(code, p, out, size) == text
  }

  lemma {:induction false} ExactSize(code: seq<byte>, p: Positions, out: seq<byte>, size: nat)
    requires Behind(p, |out|) && Exact(code, p, out, size)
    ensures |Decode(code, p, out, size)| == size && |out| <= size
    decreases |code|
  {
    if |out| < size {
      DecodeStep(code, p, out, size);
      var out1 := out + [code[0]];
      ExactSize(code[2..], Noted(p, code[0], |out1|), CopyRun(out1, p[code[0]], code[1]), size);
    }
  }

  lemma DecodingStep(code: seq<byte>, p: Positions, out: seq<byte>, size: nat, text: seq<byte>)
    requires Decoding(code, p, out, size, text) && |out| < size
    ensures |code| >= 2 && Behind(p, |out|)
    ensures var out1 := out + [code[0]]; var p', out' := Noted(p, code[0], |out1|), CopyRun(out1, p[code[0]], code[1]);
      Decoding(code[2..], p', out', size, text) && |out'| <= size
  {
    DecodeStep(code, p, out, size);
    var out1 := out + [code[0]];
    ExactSize(code[2..], Noted(p, code[0], |out1|), CopyRun(out1, p[code[0]], code[1]), size);
  }

  lemma DecodingEnd(code: seq<byte>, p: Positions, out: seq<byte>, size: nat, text: seq<byte>)
    requires Decoding(code, p, out, size, text) && |out| >= size
    ensures |out| == size && code == [] && out == text
  {
  }

  // The bytewise branch of the decompressor.
  method CopyBytes(cpageOut: array<byte>, backoffs: nat, outpos: nat, repeat: nat)
    requires backoffs < outpos && outpos + repeat <= cpageOut.Length
    modifies cpageOut
    ensures cpageOut[..outpos + repeat] == CopyRun(old(cpageOut[..outpos]), backoffs, repeat)
    ensures cpageOut[outpos + repeat..] == old(cpageOut[outpos + repeat..])
  {
    var from: nat, to: nat, left: nat := backoffs, outpos, repeat;
    while left > 0
      invariant from < to && to + left == outpos + repeat && from + left == backoffs + repeat
      invariant CopyRun(cpageOut[..to], from, left) == CopyRun(old(cpageOut[..outpos]), backoffs, repeat)
      invariant cpageOut[outpos + repeat..] == old(cpageOut[outpos + repeat..])
    {
      ghost var before := cpageOut[..to];
      cpageOut[to] := cpageOut[from];
      assert cpageOut[..to + 1] == before + [before[from]];
      from, to, left := from + 1, to + 1, left - 1;
    }
  }

  // A run: `memcpy` when source and destination are apart.
  method CopyOut(cpageOut: array<byte>, backoffs: nat, outpos: nat, repeat: nat)
    requires backoffs < outpos && outpos + repeat <= cpageOut.Length
    modifies cpageOut
    ensures cpageOut[..outpos + repeat] == CopyRun(old(cpageOut[..outpos]), backoffs, repeat)
    ensures cpageOut[outpos + repeat..] == old(cpageOut[outpos + repeat..])
  {
    if repeat > 0 {
      if backoffs + repeat >= outpos {
        CopyBytes(cpageOut, backoffs, outpos, repeat);
      } else {
        ghost var out := cpageOut[..outpos];
        CopyApart(out, backoffs, repeat);
        forall i | 0 <= i < repeat {
          cpageOut[outpos + i] := cpageOut[backoffs + i];
        }
        assert cpageOut[..outpos + repeat] == out + out[backoffs..backoffs + repeat];
      }
    }
  }

  // One round of the decompressor: a byte and its run.
  method TakePair(dataIn: array<byte>, cpageOut: array<byte>, positions: array<int>, pos: nat, outpos: nat,
                  destlen: nat, ghost p: Positions)
    returns (pos': nat, outpos': nat)
    requires pos + 2 <= dataIn.Length && outpos < cpageOut.Length && dataIn != cpageOut && destlen <= MAX_INPUT
    requires outpos + 1 + dataIn[pos + 1] as nat <= destlen <= cpageOut.Length
    requires Behind(p, outpos) && Holds(positions, p, true)
    modifies cpageOut, positions
    ensures var v, run := dataIn[pos], dataIn[pos + 1];
      && pos' == pos + 2 && outpos' == outpos + 1 + run as nat
      && cpageOut[..outpos'] == CopyRun(old(cpageOut[..outpos]) + [v], p[v], run)
      && cpageOut[destlen..] == old(cpageOut[destlen..])
      && Holds(positions, Noted(p, v, outpos + 1), outpos' < destlen)
  {
    ghost var out := cpageOut[..outpos];
    var value := dataIn[pos];
    pos' := pos + 1;
    cpageOut[outpos] := value;
    outpos' := outpos + 1;
    assert cpageOut[..outpos'] == out + [value];
    var repeat := dataIn[pos'];
    pos' := pos' + 1;
    var backoffs := positions[value];
    positions[value] := ToShort(outpos');
    ghost var before := cpageOut[..];
    CopyOut(cpageOut, backoffs, outpos', repeat);
    outpos' := outpos' + repeat as nat;
    assert cpageOut[destlen..] == cpageOut[outpos'..][destlen - outpos'..] == before[destlen..];
  }

  // `jffs2_rtime_decompress`, which checks nothing: the first `used` bytes of the input are to be
  // a code for `destlen` bytes. It reads just those and writes just that many.
  method Decompress(dataIn: array<byte>, cpageOut: array<byte>, destlen: nat, ghost used: nat)
    returns (r: int, ghost read: nat)
    requires used <= dataIn.Length && destlen <= cpageOut.Length && dataIn != cpageOut && destlen <= MAX_INPUT
    requires Exact(dataIn[..used], NOWHERE, [], destlen)
    modifies cpageOut
    ensures r == 0 && read == used && cpageOut[..destlen] == Decode(dataIn[..used], NOWHERE, [], destlen)
    ensures used % 2 == 0 && Spells(dataIn[..used], used / 2, cpageOut[..destlen])
    ensures cpageOut[destlen..] == old(cpageOut[destlen..])
  {
    ghost var code, p, text := dataIn[..used], NOWHERE, Decode(dataIn[..used], NOWHERE, [], destlen);
    var positions := new int[256](_ => 0);
    var outpos: nat, pos: nat := 0, 0;
    assert cpageOut[..0] == [] && code[0..] == code && Decoding(code, p, [], destlen, text);
    ExactSize(code, p, [], destlen);
    TableStart(code);
    assert code[2 * 0..] == code;
    DecodeSpells(code, 0, p, [], destlen);
    hide Spells, Table;
    hide Decoding, Exact, Decode, CopyRun, Noted;
    while outpos < destlen
      invariant pos <= used && outpos <= destlen && dataIn[..used] == code
      invariant Decoding(code[pos..], p, cpageOut[..outpos], destlen, text) && Holds(positions, p, outpos < destlen)
      invariant cpageOut[destlen..] == old(cpageOut[destlen..])
    {
      DecodingStep(code[pos..], p, cpageOut[..outpos], destlen, text);
      ghost var p' := Noted(p, code[pos], outpos + 1);
      assert code[pos..][2..] == code[pos + 2..] && code[pos..][0] == code[pos] && code[pos..][1] == code[pos + 1];
      pos, outpos := TakePair(dataIn, cpageOut, positions, pos, outpos, destlen, p);
      p := p';
    }
    DecodingEnd(code[pos..], p, cpageOut[..outpos], destlen, text);
    r, read := 0, pos;
  }

  // Compress, and decompress what came out: it is the part of the input that was taken.
  method CompressDecompress(dataIn: array<byte>, code: array<byte>, dataOut: array<byte>, sourcelen: nat, dstlen: nat)
    returns (r: int, taken: nat, made: nat, ghost read: nat)
    requires sourcelen <= dataIn.Length && sourcelen <= MAX_INPUT && dstlen <= code.Length
    requires sourcelen <= dataOut.Length
    requires dataIn != code && dataOut != code && dataIn != dataOut
    modifies code, dataOut
    ensures r == 0 ==>
              made < taken <= sourcelen && made <= dstlen && read == made
              && dataOut[..taken] == dataIn[..taken] && dataOut[taken..] == old(dataOut[taken..])
  {
    ghost var data := dataIn[..sourcelen];
    r, taken, made := Compress(dataIn, code, sourcelen, dstlen);
    read := made;
    if r == 0 {
      EncodeDecode(data, NOWHERE, 0, dstlen);
      assert data[..0] == [];
      r, read := Decompress(code, dataOut, taken, made);
      assert data[..taken] == dataIn[..taken];
    }
  }
}
