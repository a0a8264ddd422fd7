/**
 The version-ordered scan of `collectdir` (external/mtd-utils/jffs2reader.c): one round of its
 loop as a step on its variables, which dirents it has applied, and when it returns.
 */
module Jffs2Scan {
  import opened Jffs2Format

  // A node of the image: where it starts, where the node after it may start, and its
  // version if it is a dirent of the directory (0 if not; version 0 itself is ignored).
  datatype Rec = Rec(at: nat, end: nat, version: nat)

  type Log = seq<Rec>

  // The local variables of `collectdir`, and the dirents it has given to `putdir`.
  datatype State = State(n: nat, lr: nat, mp: Option<Rec>, vmin: nat, vmint: nat, vmaxt: nat, vmax: nat, vcur: nat,
                         applied: seq<Rec>)

  function Start(): State {
    State(0, 0, None, 0, UINT32_MAX, 0, UINT32_MAX, 0, [])
  }

  // A node is met.
  function Meet(s: State, r: Rec): State {
    if r.version <= s.vcur then s.(n := r.end)
    else if r.version == s.vcur + 1 then
      s.(n := r.end, lr := r.at, applied := s.applied + [r], vcur := r.version, vmint := UINT32_MAX,
         vmaxt := Max(s.vmaxt, r.version), mp := if s.vmint > r.version then Some(r) else s.mp)
    else
      s.(n := r.end, vmaxt := Max(s.vmaxt, r.version), vmint := Min(s.vmint, r.version),
         mp := if s.vmint > r.version then Some(r) else s.mp)
  }

  function Max(a: nat, b: nat): nat {
    if a < b then b else a
  }

  function Min(a: nat, b: nat): nat {
    if a > b then b else a
  }

  // The end of a round: is it back where it last applied a dirent?
  function Lap(s: State): State {
    if s.lr != s.n then s
    else if s.vcur < s.vmaxt && s.vcur < s.vmint && s.mp.Some? then
      s.(vmax := s.vmaxt, vmin := s.vmint, vmint := UINT32_MAX, applied := s.applied + [s.mp.value],
         lr := s.mp.value.end, n := s.mp.value.end, vcur := s.vmint)
    else s.(vmax := s.vmaxt, vmin := s.vmint, vmint := UINT32_MAX)
  }

  // The boundaries between nodes: where the node pointer can be at the top of the loop.
  function Bound(log: Log, j: nat): nat
    requires j <= |log|
  {
    if j == 0 then 0 else log[j - 1].end
  }

  // The state in which the end of a lap is checked.
  function Middle(log: Log, s: State, j: nat): State
    requires j <= |log|
  {
    if j < |log| then Meet(s, log[j]) else s.(n := 0)
  }

  function Round(log: Log, s: State, j: nat): State
    requires j <= |log|
  {
    Lap(Middle(log, s, j))
  }

  ghost predicate ValidLog(log: Log) {
    && (forall j :: 0 <= j < |log| ==> log[j].at < log[j].end)
    && (forall i, j :: 0 <= i < j < |log| ==> log[i].end <= log[j].at)
    && (forall j :: 0 <= j < |log| ==> log[j].version < UINT32_MAX)
    && (forall i, j :: 0 <= i < j < |log| && log[i].version > 0 ==> log[i].version != log[j].version)
  }

  // Version `v` occurs in the directory; 0 is where the scan starts.
  ghost predicate Has(log: Log, v: nat) {
    v == 0 || exists j :: 0 <= j < |log| && log[j].version == v
  }

  // No version up to `v` is missing.
  ghost predicate Gapless(log: Log, v: nat) {
    forall u :: 1 <= u <= v ==> Has(log, u)
  }

  ghost predicate IsLast(log: Log, v: nat) {
    forall j :: 0 <= j < |log| ==> log[j].version <= v
  }

  // After dirent `x` the loop never returns: it has its version's predecessor but not its
  // successor, there is a gap before it, and it is not the last one unless none was missing.
  ghost predicate StallsAt(log: Log, x: nat)
    requires x < |log|
  {
    var v := log[x].version;
    && v > 0 && log[x].at != Bound(log, x) && Has(log, v - 1) && !Has(log, v + 1)
    && (!IsLast(log, v) || Gapless(log, v))
  }

  ghost predicate Stalls(log: Log) {
    exists x :: 0 <= x < |log| && StallsAt(log, x)
  }

  ghost predicate Ascending(s: seq<Rec>) {
    forall i, j :: 0 <= i < j < |s| ==> s[i].version < s[j].version
  }

  // `s` is the dirents with versions 1 to `v`, in ascending order of version.
  ghost predicate Applied(log: Log, v: nat, s: seq<Rec>) {
    && Ascending(s) && Has(log, v)
    && (forall r :: r in s <==> r in log && 0 < r.version <= v)
  }

  lemma ApplyNext(log: Log, v: nat, s: seq<Rec>, r: Rec)
    requires ValidLog(log) && Applied(log, v, s) && r in log && r.version > v
    requires forall q :: q in log && q.version > v ==> q.version >= r.version
    ensures Applied(log, r.version, s + [r])
  {
    forall q ensures q in s + [r] <==> q in log && 0 < q.version <= r.version {
      if q in log && v < q.version <= r.version {
        SameVersion(log, q, r);
      }
    }
  }

  lemma SameVersion(log: Log, q: Rec, r: Rec)
    requires ValidLog(log) && q in log && r in log && q.version == r.version > 0
    ensures q == r
  {
    var i :| 0 <= i < |log| && log[i] == q;
    var j :| 0 <= j < |log| && log[j] == r;
  }

  lemma BoundsAscend(log: Log, i: nat, j: nat)
    requires ValidLog(log) && i <= j <= |log|
    ensures i < j ==> Bound(log, i) < Bound(log, j)
    ensures j < |log| ==> Bound(log, i) <= log[j].at
  {
  }

  lemma BoundsDiffer(log: Log, i: nat, j: nat)
    requires ValidLog(log) && i <= |log| && j <= |log|
    ensures Bound(log, i) == Bound(log, j) <==> i == j
    ensures i < |log| && log[i].at == Bound(log, j) ==> i == j
  {
    if i < j {
      BoundsAscend(log, i + 1, j);
      BoundsAscend(log, i, i + 1);
      assert log[i].at < Bound(log, i + 1) <= Bound(log, j);
    } else if j < i {
      BoundsAscend(log, j, i);
      assert i < |log| ==> Bound(log, j) < Bound(log, i) <= log[i].at;
    }
  }

  // Where the scan is. The lap began at boundary `st`; it is over when the scan is back at
  // `st`, or, if `hit`, back at the dirent before `st`, whose version was the expected one.
  datatype Where = Where(j: nat, st: nat, hit: bool)

  ghost predicate ValidWhere(log: Log, w: Where) {
    w.j <= |log| && w.st <= |log| && (w.hit ==> 0 < w.st)
  }

  function Target(w: Where): nat
    requires w.hit ==> 0 < w.st
  {
    if w.hit then w.st - 1 else w.st
  }

  // The lap has no end: there is a gap before the dirent it began at.
  ghost predicate Endless(log: Log, w: Where)
    requires ValidWhere(log, w)
  {
    w.hit && log[w.st - 1].at != Bound(log, w.st - 1)
  }

  ghost predicate Passed(w: Where, x: nat) {
    if w.st <= w.j then w.st <= x < w.j else x >= w.st || x < w.j
  }

  // The nodes met in this lap.
  ghost function Met(log: Log, w: Where): set<nat> {
    set x: nat | x < |log| && Passed(w, x)
  }

  function Forward(log: Log, w: Where): (w': Where)
    requires ValidWhere(log, w)
    ensures ValidWhere(log, w')
  {
    w.(j := if w.j < |log| then w.j + 1 else 0)
  }

  lemma MetForward(log: Log, w: Where)
    requires ValidWhere(log, w) && (w.hit ==> w.j != Target(w))
    ensures var w' := Forward(log, w);
      if w'.j == Target(w) then
        forall x: nat :: x < |log| ==> x in Met(log, w) + {w.j} || (w.hit && x == w.st - 1)
      else
        forall x :: x in Met(log, w') ==> x in Met(log, w) + {w.j}
  {
  }

  // `vmint` and `mp` are the smallest version above `vcur` met in this lap, `vmaxt` is the
  // largest version met so far.
  ghost predicate Extremes(log: Log, met: set<nat>, s: State) {
    && (forall x :: x in met && x < |log| && log[x].version > s.vcur ==>
          log[x].version != s.vcur + 1 && s.vmint <= log[x].version <= s.vmaxt)
    && (s.vmint == UINT32_MAX || (s.vmint > s.vcur && s.mp.Some? && s.mp.value in log && s.mp.value.version == s.vmint))
  }

  ghost predicate MaxMet(log: Log, s: State) {
    s.vcur <= s.vmaxt && (s.vmaxt == 0 || exists x :: 0 <= x < |log| && log[x].version == s.vmaxt)
  }

  ghost predicate LastKnown(log: Log, s: State) {
    if Gapless(log, s.vcur) then s.vmax == UINT32_MAX else IsLast(log, s.vmax) && Has(log, s.vmax)
  }

  // Where the lap began.
  ghost predicate Anchored(log: Log, w: Where, s: State)
    requires ValidWhere(log, w)
  {
    if w.hit then s.lr == log[w.st - 1].at && log[w.st - 1].version == s.vcur > 0 && Has(log, s.vcur - 1)
    else s.lr == Bound(log, w.st)
  }

  // What holds whenever the loop goes on.
  ghost predicate Scanning(log: Log, w: Where, s: State) {
    && ValidWhere(log, w) && s.n == Bound(log, w.j) && Anchored(log, w, s)
    && Applied(log, s.vcur, s.applied) && s.vcur < s.vmax && LastKnown(log, s) && MaxMet(log, s)
    && (!Endless(log, w) ==> Extremes(log, Met(log, w), s) && (w.hit ==> w.j != Target(w)))
  }

  ghost predicate Complete(log: Log, s: State) {
    IsLast(log, s.vcur) && Applied(log, s.vcur, s.applied)
  }

  lemma AllApplied(log: Log, s: State)
    requires Complete(log, s)
    ensures forall r :: r in s.applied <==> r in log && 0 < r.version
    ensures forall i, j :: 0 <= i < j < |s.applied| ==> s.applied[i].version < s.applied[j].version
    ensures forall i, j :: 0 <= i < j < |s.applied| ==> s.applied[i] != s.applied[j]
  {
  }

  lemma StartScans(log: Log)
    requires ValidLog(log)
    ensures Scanning(log, Where(0, 0, false), Start())
  {
    hide Extremes;
    assert Extremes(log, {}, Start()) by {
      StartExtremes(log);
    }
    assert Met(log, Where(0, 0, false)) == {};
  }

  lemma StartExtremes(log: Log)
    ensures Extremes(log, {}, Start())
  {
  }

  lemma LastKnownNext(log: Log, s: State, s': State)
    requires LastKnown(log, s) && s.vcur < s.vmax && s'.vmax == s.vmax && s'.vcur == s.vcur + 1 && Has(log, s'.vcur)
    requires s'.vcur < UINT32_MAX
    ensures LastKnown(log, s') && (s'.vcur >= s'.vmax ==> IsLast(log, s'.vcur))
  {
    assert Gapless(log, s'.vcur) <==> Gapless(log, s.vcur);
  }

  // A lap begins after dirent `y` has been applied.
  lemma LapBegins(log: Log, y: nat, hit: bool, s: State)
    requires y < |log| && s.n == log[y].end && Anchored(log, Where(y + 1, y + 1, hit), s) && s.vmint == UINT32_MAX
    requires Applied(log, s.vcur, s.applied) && s.vcur < s.vmax && LastKnown(log, s) && MaxMet(log, s)
    ensures Scanning(log, Where(y + 1, y + 1, hit), s)
  {
    hide Applied, LastKnown, MaxMet;
    assert Met(log, Where(y + 1, y + 1, hit)) == {};
  }

  lemma CompleteAt(log: Log, s: State)
    requires IsLast(log, s.vcur) && Applied(log, s.vcur, s.applied)
    ensures Complete(log, s)
  {
  }

  // The expected version is met.
  lemma MeetExpected(log: Log, w: Where, s: State)
    requires ValidLog(log) && Scanning(log, w, s) && w.j < |log| && log[w.j].version == s.vcur + 1
    ensures var s' := Round(log, s, w.j);
      && s'.vcur == s.vcur + 1 && s'.lr == log[w.j].at && s'.vmax == s.vmax && s'.applied == s.applied + [log[w.j]]
      && if s'.vcur < s'.vmax then Scanning(log, Where(w.j + 1, w.j + 1, true), s') else Complete(log, s')
  {
    hide *;
    ScanningFacts(log, w, s);
    var s' := Meet(s, log[w.j]);
    MeetFacts(log, s, w.j);
    LastKnownNext(log, s, s');
    if s'.vcur < s'.vmax {
      LapBegins(log, w.j, true, s');
    } else {
      CompleteAt(log, s');
    }
  }

  lemma ScanningFacts(log: Log, w: Where, s: State)
    requires Scanning(log, w, s)
    ensures ValidWhere(log, w) && s.n == Bound(log, w.j) && Anchored(log, w, s) && Has(log, s.vcur)
    ensures Applied(log, s.vcur, s.applied) && s.vcur < s.vmax && LastKnown(log, s) && MaxMet(log, s)
  {
  }

  lemma MeetFacts(log: Log, s: State, j: nat)
    requires ValidLog(log) && j < |log| && log[j].version == s.vcur + 1 && MaxMet(log, s) && Has(log, s.vcur)
    requires Applied(log, s.vcur, s.applied)
    ensures var s' := Meet(s, log[j]);
      && Round(log, s, j) == s' && MaxMet(log, s') && Anchored(log, Where(j + 1, j + 1, true), s')
      && s'.vcur == s.vcur + 1 < UINT32_MAX && s'.vmax == s.vmax && Has(log, s'.vcur) && s'.vmint == UINT32_MAX
      && s'.n == log[j].end && s'.lr == log[j].at && Applied(log, s'.vcur, s'.applied)
      && s'.applied == s.applied + [log[j]]
  {
    ApplyNext(log, s.vcur, s.applied, log[j]);
  }

  // Any other node is met.
  lemma MeetOther(log: Log, met: set<nat>, s: State, j: nat)
    requires Extremes(log, met, s) && j < |log| && log[j].version != s.vcur + 1 && MaxMet(log, s)
    ensures Extremes(log, met + {j}, Meet(s, log[j])) && MaxMet(log, Meet(s, log[j]))
  {
  }

  ghost predicate AllMet(log: Log, met: set<nat>, vcur: nat) {
    forall x: nat :: x < |log| ==> x in met || log[x].version == vcur
  }

  lemma NoneRemains(log: Log, met: set<nat>, s: State)
    requires Extremes(log, met, s) && MaxMet(log, s) && AllMet(log, met, s.vcur) && s.vmaxt == s.vcur
    ensures IsLast(log, s.vcur)
  {
  }

  lemma SmallestRemains(log: Log, met: set<nat>, s: State) returns (y: nat)
    requires ValidLog(log) && Extremes(log, met, s) && MaxMet(log, s) && AllMet(log, met, s.vcur) && s.vmaxt != s.vcur
    ensures s.vcur < s.vmint <= s.vmaxt < UINT32_MAX && s.mp.Some? && y < |log| && log[y] == s.mp.value
    ensures log[y].version == s.vmint && s.vmint != s.vcur + 1 && !Gapless(log, s.vmint) && IsLast(log, s.vmaxt)
    ensures Has(log, s.vmaxt)
    ensures forall q :: q in log && q.version > s.vcur ==> q.version >= s.vmint
  {
    var x :| 0 <= x < |log| && log[x].version == s.vmaxt;
    assert x in met;
    y :| 0 <= y < |log| && log[y] == s.mp.value;
    assert !Has(log, s.vcur + 1);
  }

  // A lap skipped the versions up to the next one there is; there was none if none is applied.
  ghost predicate Skips(log: Log, s: State, y: nat, s': State) {
    if s'.vcur == s.vcur then IsLast(log, s.vcur) && s'.applied == s.applied
    else
      && y < |log| && s'.vcur > s.vcur + 1 && log[y].version == s'.vcur && s'.applied == s.applied + [log[y]]
      && forall q :: q in log && q.version > s.vcur ==> q.version >= s'.vcur
  }

  lemma LapNone(log: Log, met: set<nat>, s: State)
    requires s.lr == s.n && Extremes(log, met, s) && MaxMet(log, s) && Applied(log, s.vcur, s.applied)
    requires AllMet(log, met, s.vcur) && s.vmaxt == s.vcur
    ensures var s' := Lap(s); s'.vcur >= s'.vmax && Complete(log, s') && Skips(log, s, 0, s')
  {
    NoneRemains(log, met, s);
  }

  lemma LapNext(log: Log, met: set<nat>, s: State) returns (y: nat)
    requires ValidLog(log) && s.lr == s.n && Extremes(log, met, s) && MaxMet(log, s) && Applied(log, s.vcur, s.applied)
    requires AllMet(log, met, s.vcur) && s.vmaxt != s.vcur
    ensures var s' := Lap(s);
      && y < |log| && s'.n == log[y].end && Anchored(log, Where(y + 1, y + 1, false), s') && s'.vmint == UINT32_MAX
      && Applied(log, s'.vcur, s'.applied) && LastKnown(log, s') && MaxMet(log, s') && Skips(log, s, y, s')
      && log[y].version == s'.vcur > s.vcur && (s'.vcur >= s'.vmax ==> IsLast(log, s'.vcur))
  {
    y := SmallestRemains(log, met, s);
    ApplyNext(log, s.vcur, s.applied, log[y]);
    hide Applied, Extremes, AllMet, Gapless;
  }

  // A whole lap without the expected version: the smallest of the remaining ones is next.
  lemma LapEnds(log: Log, met: set<nat>, s: State) returns (y: nat)
    requires ValidLog(log) && s.lr == s.n && Extremes(log, met, s) && MaxMet(log, s) && Applied(log, s.vcur, s.applied)
    requires AllMet(log, met, s.vcur)
    ensures var s' := Lap(s);
      if s'.vcur < s'.vmax then
        s'.vcur > s.vcur && y < |log| && log[y].version == s'.vcur && Scanning(log, Where(y + 1, y + 1, false), s')
      else
        Complete(log, s')
    ensures Skips(log, s, y, Lap(s))
  {
    hide *;
    y := 0;
    if s.vmaxt == s.vcur {
      LapNone(log, met, s);
    } else {
      y := LapNext(log, met, s);
      if Lap(s).vcur < Lap(s).vmax {
        LapBegins(log, y, false, Lap(s));
      } else {
        CompleteAt(log, Lap(s));
      }
    }
  }

  lemma PassFields(log: Log, w: Where, s: State)
    requires ValidWhere(log, w) && (w.j < |log| ==> log[w.j].version != s.vcur + 1) && Anchored(log, w, s)
    requires MaxMet(log, s)
    ensures var s1, w1 := Middle(log, s, w.j), Forward(log, w);
      && Round(log, s, w.j) == Lap(s1) && s1.n == Bound(log, w1.j) && Anchored(log, w1, s1) && s1.lr == s.lr
      && s1.vcur == s.vcur && s1.applied == s.applied && s1.vmax == s.vmax && MaxMet(log, s1)
  {
  }

  lemma PassFacts(log: Log, w: Where, s: State)
    requires ValidLog(log) && Scanning(log, w, s) && (w.j < |log| ==> log[w.j].version != s.vcur + 1)
    ensures var s1, w1 := Middle(log, s, w.j), Forward(log, w);
      && Round(log, s, w.j) == Lap(s1) && s1.n == Bound(log, w1.j) && Anchored(log, w1, s1) && s1.lr == s.lr
      && s1.vcur == s.vcur && s1.applied == s.applied && s1.vmax == s.vmax && MaxMet(log, s1)
    ensures !Endless(log, w) ==> Extremes(log, Met(log, w) + {w.j}, Middle(log, s, w.j))
  {
    hide *;
    ScanningFacts(log, w, s);
    PassFields(log, w, s);
    if !Endless(log, w) {
      PassExtremes(log, w, s);
    }
  }

  lemma PassExtremes(log: Log, w: Where, s: State)
    requires Scanning(log, w, s) && (w.j < |log| ==> log[w.j].version != s.vcur + 1) && !Endless(log, w)
    ensures Extremes(log, Met(log, w) + {w.j}, Middle(log, s, w.j))
  {
    if w.j < |log| {
      MeetOther(log, Met(log, w), s, w.j);
    }
  }

  lemma PassAnchor(log: Log, w: Where, s: State)
    requires ValidLog(log) && ValidWhere(log, w) && Anchored(log, w, s)
    ensures Endless(log, w) ==> forall j: nat :: j <= |log| ==> s.lr != Bound(log, j)
    ensures !Endless(log, w) ==> forall j: nat :: j <= |log| ==> (s.lr == Bound(log, j) <==> j == Target(w))
  {
    forall j: nat | j <= |log|
      ensures (Endless(log, w) ==> s.lr != Bound(log, j))
      ensures !Endless(log, w) ==> (s.lr == Bound(log, j) <==> j == Target(w))
    {
      BoundsDiffer(log, Target(w), j);
    }
  }

  // The scan passes over a node, or rewinds, within a lap.
  lemma PassOn(log: Log, w: Where, s: State)
    requires ValidLog(log) && Scanning(log, w, s) && (w.j < |log| ==> log[w.j].version != s.vcur + 1)
    requires Endless(log, w) || Forward(log, w).j != Target(w)
    ensures var s', w' := Round(log, s, w.j), Forward(log, w);
      && Scanning(log, w', s') && s'.vcur == s.vcur && s'.lr == s.lr && s'.vmax == s.vmax && s'.applied == s.applied
  {
    var s1, w1 := Middle(log, s, w.j), Forward(log, w);
    PassFacts(log, w, s);
    PassAnchor(log, w1, s1);
    if !Endless(log, w) {
      MetShrinks(log, w, s1);
    }
    assert Lap(s1) == s1;
    assert LastKnown(log, s1);
  }

  lemma MetShrinks(log: Log, w: Where, s: State)
    requires ValidWhere(log, w) && (w.hit ==> w.j != Target(w)) && Extremes(log, Met(log, w) + {w.j}, s)
    requires Forward(log, w).j != Target(w)
    ensures Extremes(log, Met(log, Forward(log, w)), s)
  {
    MetForward(log, w);
  }

  lemma {:induction false} PassRound(log: Log, w: Where, s: State) returns (y: nat)
    requires ValidLog(log) && Scanning(log, w, s) && (w.j < |log| ==> log[w.j].version != s.vcur + 1)
    requires !Endless(log, w) && Forward(log, w).j == Target(w)
    ensures var s' := Round(log, s, w.j);
      if s'.vcur < s'.vmax then
        s'.vcur > s.vcur && y < |log| && log[y].version == s'.vcur && Scanning(log, Where(y + 1, y + 1, false), s')
      else
        Complete(log, s')
    ensures Skips(log, s, y, Round(log, s, w.j))
  {
    hide *;
    ScanningFacts(log, w, s);
    ForwardKeeps(log, w);
    var s1 := Middle(log, s, w.j);
    PassFacts(log, w, s);
    PassAnchor(log, w, s1);
    LapMet(log, w, s);
    y := LapEnds(log, Met(log, w) + {w.j}, s1);
    SkipsAlike(log, s1, s, y, Lap(s1));
  }

  lemma SkipsAlike(log: Log, s: State, t: State, y: nat, s': State)
    requires t.vcur == s.vcur && t.applied == s.applied
    ensures Skips(log, s, y, s') == Skips(log, t, y, s')
  {
  }

  // When a lap is over and versions remain, `mp` points at the dirent with the smallest.
  ghost predicate MinimumKnown(s: State) {
    s.lr == s.n && s.vcur < s.vmaxt && s.vcur < s.vmint ==> s.mp.Some? && s.mp.value.version > 0
  }

  lemma MiddleKnown(log: Log, w: Where, s: State)
    requires ValidLog(log) && Scanning(log, w, s)
    ensures w.j <= |log| && MinimumKnown(Middle(log, s, w.j))
  {
    hide *;
    ScanningFacts(log, w, s);
    if w.j < |log| && log[w.j].version == s.vcur + 1 {
      HitKnown(log, s, w.j);
    } else {
      PassFacts(log, w, s);
      PassKnown(log, w, s);
    }
  }

  lemma HitKnown(log: Log, s: State, j: nat)
    requires ValidLog(log) && j < |log| && log[j].version == s.vcur + 1
    ensures MinimumKnown(Middle(log, s, j))
  {
  }

  lemma {:induction false} PassKnown(log: Log, w: Where, s: State)
    requires ValidLog(log) && Scanning(log, w, s) && (w.j < |log| ==> log[w.j].version != s.vcur + 1)
    ensures w.j <= |log| && MinimumKnown(Middle(log, s, w.j))
  {
    hide *;
    ScanningFacts(log, w, s);
    ForwardKeeps(log, w);
    var s1 := Middle(log, s, w.j);
    PassFacts(log, w, s);
    PassAnchor(log, Forward(log, w), s1);
    MinimumIs(s1);
    if s1.lr == s1.n && s1.vcur != s1.vmaxt {
      LapMet(log, w, s);
      var y := SmallestRemains(log, Met(log, w) + {w.j}, s1);
    }
  }

  // (Unfolds the definition.)
  lemma MinimumIs(s: State)
    ensures MinimumKnown(s) <==>
      (s.lr == s.n && s.vcur < s.vmaxt && s.vcur < s.vmint ==> s.mp.Some? && s.mp.value.version > 0)
  {
  }

  lemma ForwardKeeps(log: Log, w: Where)
    requires ValidWhere(log, w)
    ensures w.j <= |log| && Forward(log, w).j <= |log| && ValidWhere(log, Forward(log, w))
    ensures Endless(log, Forward(log, w)) == Endless(log, w) && Target(Forward(log, w)) == Target(w)
  {
  }

  // At the end of a lap every dirent was met in it.
  lemma LapMet(log: Log, w: Where, s: State)
    requires Scanning(log, w, s) && ValidWhere(log, w) && !Endless(log, w) && Forward(log, w).j == Target(w)
    ensures AllMet(log, Met(log, w) + {w.j}, s.vcur)
  {
    hide Applied, LastKnown, MaxMet, Extremes, Met, Forward;
    MetForward(log, w);
  }

  // One round of the loop: it goes on in good order, or every dirent has been applied.
  lemma RoundScans(log: Log, w: Where, s: State) returns (w': Where)
    requires ValidLog(log) && Scanning(log, w, s)
    ensures var s' := Round(log, s, w.j);
      && (if s'.vcur < s'.vmax then Scanning(log, w', s') else Complete(log, s'))
      && (s'.vcur > s.vcur ==> exists r :: r in log && s'.applied == s.applied + [r])
      && (s'.vcur <= s.vcur ==> s'.vcur == s.vcur && s'.applied == s.applied)
      && (s'.vcur == s.vcur && s'.vcur < s'.vmax ==>
            && w' == Forward(log, w) && (Endless(log, w) || w'.j != Target(w))
            && (w.j < |log| ==> log[w.j].version != s.vcur + 1))
  {
    w' := Forward(log, w);
    hide Round, Scanning, Complete, IsLast;
    ScanningFacts(log, w, s);
    if w.j < |log| && log[w.j].version == s.vcur + 1 {
      MeetExpected(log, w, s);
      w' := Where(w.j + 1, w.j + 1, true);
    } else if Endless(log, w) || Forward(log, w).j != Target(w) {
      PassOn(log, w, s);
    } else {
      var y := PassRound(log, w, s);
      w' := Where(y + 1, y + 1, false);
    }
  }

  ghost function Expected(log: Log, v: nat): (y: nat)
    requires v > 0 && Has(log, v)
    ensures y < |log| && log[y].version == v
  {
    var y: nat :| y < |log| && log[y].version == v;
    y
  }

  // The rounds until the lap is over or, if it has no end, until the expected version is met.
  ghost function Distance(log: Log, w: Where, vcur: nat): nat
    requires ValidWhere(log, w)
  {
    Away(|log|, w.j, if Endless(log, w) && Has(log, vcur + 1) then Expected(log, vcur + 1) + 1 else Target(w))
  }

  function Away(m: nat, j: nat, goal: nat): nat
    requires j <= m && goal <= m
  {
    if goal > j then goal - j else goal - j + m + 1
  }

  lemma EndlessExpects(log: Log, w: Where, s: State)
    requires ValidLog(log) && Scanning(log, w, s) && !Stalls(log) && Endless(log, w)
    ensures Has(log, s.vcur + 1)
  {
    var x := w.st - 1;
    assert !StallsAt(log, x);
    if IsLast(log, s.vcur) && !Gapless(log, s.vcur) {
      var q := HasRec(log, s.vmax);
    }
  }

  lemma Progress(log: Log, w: Where, s: State)
    requires ValidLog(log) && Scanning(log, w, s) && !Stalls(log)
    requires Endless(log, w) || Forward(log, w).j != Target(w)
    requires w.j < |log| ==> log[w.j].version != s.vcur + 1
    ensures Distance(log, Forward(log, w), s.vcur) < Distance(log, w, s.vcur)
  {
    hide *;
    ScanningFacts(log, w, s);
    if Endless(log, w) {
      EndlessExpects(log, w, s);
      EndlessDistance(log, w, s.vcur);
    } else {
      LapDistance(log, w, s.vcur);
    }
  }

  lemma LapDistance(log: Log, w: Where, vcur: nat)
    requires ValidWhere(log, w) && !Endless(log, w) && Forward(log, w).j != Target(w)
    ensures Distance(log, Forward(log, w), vcur) < Distance(log, w, vcur)
  {
  }

  lemma EndlessDistance(log: Log, w: Where, vcur: nat)
    requires ValidWhere(log, w) && Endless(log, w) && Has(log, vcur + 1)
    requires w.j < |log| ==> log[w.j].version != vcur + 1
    ensures Distance(log, Forward(log, w), vcur) < Distance(log, w, vcur)
  {
    var w', y := Forward(log, w), Expected(log, vcur + 1);
    assert Endless(log, w') && w'.j != y + 1;
    hide Endless, Has;
  }

  // The scan is on its way to dirent `x`, or is stuck at it.
  ghost predicate Stuck(log: Log, x: nat, s: State)
    requires x < |log|
  {
    s.vcur < log[x].version || (s.vcur == log[x].version && s.lr == log[x].at)
  }

  lemma StuckLap(log: Log, w: Where, s: State, x: nat)
    requires ValidLog(log) && Scanning(log, w, s) && x < |log| && log[x].at != Bound(log, x)
    requires s.vcur == log[x].version && s.lr == log[x].at
    ensures Endless(log, w)
  {
    BoundsDiffer(log, x, w.st);
    if w.hit {
      BoundsDiffer(log, w.st - 1, x);
      SameVersion(log, log[x], log[w.st - 1]);
    }
  }

  lemma StuckHit(log: Log, s: State, s': State, j: nat, x: nat)
    requires ValidLog(log) && x < |log| && StallsAt(log, x) && Stuck(log, x, s) && LastKnown(log, s)
    requires j < |log| && log[j].version == s'.vcur == s.vcur + 1 && s'.lr == log[j].at && s'.vmax == s.vmax
    requires s'.vcur < s'.vmax || IsLast(log, s'.vcur)
    ensures s'.vcur < s'.vmax && Stuck(log, x, s')
  {
    assert Has(log, s.vcur + 1);
    if s'.vcur == log[x].version {
      SameVersion(log, log[x], log[j]);
    }
  }

  lemma HasRec(log: Log, v: nat) returns (q: Rec)
    requires Has(log, v) && v > 0
    ensures q in log && q.version == v
  {
    var z :| 0 <= z < |log| && log[z].version == v;
    q := log[z];
  }

  lemma StuckSkip(log: Log, s: State, s': State, y: nat, x: nat)
    requires ValidLog(log) && x < |log| && StallsAt(log, x) && s.vcur < log[x].version && Skips(log, s, y, s')
    requires s'.vcur < s'.vmax || IsLast(log, s'.vcur)
    ensures s'.vcur < s'.vmax && Stuck(log, x, s')
  {
    var v := log[x].version;
    assert log[x] in log;
    if s'.vcur == v {
      var q := HasRec(log, v - 1);
    }
  }

  // Dirent `x` stalls the scan: no round ends it, and it never gets past `x`.
  lemma RoundStuck(log: Log, w: Where, s: State, x: nat)
    requires ValidLog(log) && Scanning(log, w, s) && x < |log| && StallsAt(log, x) && Stuck(log, x, s)
    ensures var s' := Round(log, s, w.j); s'.vcur < s'.vmax && Stuck(log, x, s')
  {
    ScanningFacts(log, w, s);
    hide Round, Scanning, StallsAt, LastKnown, Skips;
    if w.j < |log| && log[w.j].version == s.vcur + 1 {
      MeetExpected(log, w, s);
      StuckHit(log, s, Round(log, s, w.j), w.j, x);
    } else if Endless(log, w) || Forward(log, w).j != Target(w) {
      PassOn(log, w, s);
      ScanningFacts(log, Forward(log, w), Round(log, s, w.j));
    } else {
      var y := PassRound(log, w, s);
      if s.vcur == log[x].version {
        GapOf(log, x);
        StuckLap(log, w, s, x);
      }
      StuckSkip(log, s, Round(log, s, w.j), y, x);
    }
  }

  lemma GapOf(log: Log, x: nat)
    requires x < |log| && StallsAt(log, x)
    ensures log[x].at != Bound(log, x)
  {
  }

  // The smallest logs that stall: one dirent after a gap, and a missing version after such a one.
  lemma GapStalls()
    ensures ValidLog([Rec(4, 44, 1)]) && Stalls([Rec(4, 44, 1)])
  {
    assert [Rec(4, 44, 1)][0].version == 1;
    assert StallsAt([Rec(4, 44, 1)], 0);
  }

  lemma MissingVersionStalls()
    ensures ValidLog([Rec(4, 44, 1), Rec(44, 84, 3)]) && Stalls([Rec(4, 44, 1), Rec(44, 84, 3)])
  {
    var log := [Rec(4, 44, 1), Rec(44, 84, 3)];
    assert log[0] == Rec(4, 44, 1) && log[1] == Rec(44, 84, 3);
    assert Has(log, 0) && !Has(log, 2) && !IsLast(log, 1);
    hide Has, IsLast, Gapless;
    assert StallsAt(log, 0);
  }
}
