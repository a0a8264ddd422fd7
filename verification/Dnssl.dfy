/**
 The DNS search list option of radvd: the suffixes as `send_ra` writes them
 (external/radvd/send.c) and as `process_ra` reads them back (external/radvd/process.c);
 section 5.2 of RFC 6106, section 3.1 of RFC 1035.
 */
module Dnssl {
  import opened Jffs2Format

  const DOT: byte := 46
  const SUFFIX_SIZE: nat := 256 // of the reader's buffer, with the NUL

  // A string as C has it.
  predicate CString(s: seq<byte>) {
    forall i :: 0 <= i < |s| ==> s[i] != 0
  }

  // Where the first label ends.
  function FirstDot(s: seq<byte>): (n: nat)
    ensures n <= |s| && (n < |s| ==> s[n] == DOT) && forall i :: 0 <= i < n ==> s[i] != DOT
  {
    if s == [] || s[0] == DOT then 0 else 1 + FirstDot(s[1..])
  }

  // Each label with its length before it, and a zero; but no zero after a trailing dot.
  function EncodeSuffix(s: seq<byte>): (b: seq<byte>)
    decreases |s|
  {
    if s == [] then []
    else
      var n := FirstDot(s);
      [n % 256] + s[..n] + if n < |s| then EncodeSuffix(s[n + 1..]) else [0]
  }

  function EncodeAll(ss: seq<seq<byte>>): (b: seq<byte>) {
    if ss == [] then [] else EncodeSuffix(ss[0]) + EncodeAll(ss[1..])
  }

  datatype Decoded = Decoded(found: seq<seq<byte>>, oversized: bool)

  function Report(suffix: seq<byte>, d: Decoded): Decoded {
    d.(found := [suffix] + d.found)
  }

  // `strncat`: a label ends at a NUL.
  function UpToNul(s: seq<byte>): (r: seq<byte>)
    ensures r <= s && (CString(s) ==> r == s)
  {
    if s == [] || s[0] == 0 then [] else [s[0]] + UpToNul(s[1..])
  }

  // A suffix with one more label.
  function Glue(suffix: seq<byte>, name: seq<byte>): seq<byte> {
    if suffix == [] then name else suffix + [DOT] + name
  }

  // What the reader finds in `r`, of which `n` bytes still belong to the option; `suffix` is what it
  // has of the next one.
  function Decode(r: seq<byte>, n: int, suffix: seq<byte>): (d: Decoded)
    requires n <= |r|
    decreases |r|
  {
    if n <= 0 then Decoded([], false)
    else if r[0] == 0 then
      var d := Decode(r[1..], n - 1, []);
      if suffix == [] then d else Report(suffix, d)
    else if SUFFIX_SIZE - |suffix| < r[0] as int + 2 || 1 + r[0] >= |r| then Decoded([], true)
    else Decode(r[1 + r[0]..], n - 1 - r[0], Glue(suffix, UpToNul(r[1..1 + r[0]])))
  }

  // Labels that are not empty, separated by dots.
  predicate Named(s: seq<byte>)
    decreases |s|
  {
    s != [] && FirstDot(s) > 0 && (FirstDot(s) < |s| ==> Named(s[FirstDot(s) + 1..]))
  }

  // The suffixes that get through.
  predicate Plain(s: seq<byte>) {
    Named(s) && |s| <= 255 && (FirstDot(s) == |s| ==> |s| <= 254)
  }

  lemma FirstDotIs(x: seq<byte>, y: seq<byte>)
    requires forall i :: 0 <= i < |x| ==> x[i] != DOT
    requires y == [] || y[0] == DOT
    ensures FirstDot(x + y) == |x|
  {
    assert forall i :: 0 <= i < |x| ==> (x + y)[i] == x[i];
    assert y != [] ==> (x + y)[|x|] == y[0];
  }

  predicate Label(l: seq<byte>) {
    DOT !in l && CString(l) && |l| <= 255
  }

  // A suffix, from its labels.
  function Dotted(labels: seq<seq<byte>>): (s: seq<byte>)
    requires labels != []
  {
    if |labels| == 1 then labels[0] else labels[0] + [DOT] + Dotted(labels[1..])
  }

  // Labels on the wire, section 3.1 of RFC 1035.
  function Wire(labels: seq<seq<byte>>): (b: seq<byte>) {
    if labels == [] then [] else [|labels[0]| % 256] + labels[0] + Wire(labels[1..])
  }

  lemma {:induction false} EncodeStep(s: seq<byte>)
    requires s != []
    ensures var n := FirstDot(s);
      EncodeSuffix(s) == [n % 256] + s[..n] + if n < |s| then EncodeSuffix(s[n + 1..]) else [0]
  {
    hide FirstDot;
  }

  // What is written for a suffix: its labels with their lengths, and a zero, which ends the name; but if it ends in a
  // dot the zero is not there.
  lemma {:induction false} EncodeWire(labels: seq<seq<byte>>)
    requires labels != [] && forall i :: 0 <= i < |labels| ==> Label(labels[i])
    ensures var k := |labels| - 1;
      EncodeSuffix(Dotted(labels)) == if labels[k] == [] then Wire(labels[..k]) else Wire(labels) + [0]
    decreases |labels|
  {
    hide *;
    var l, k := labels[0], |labels| - 1;
    WireIs(labels);
    WireIs(labels[1..]);
    if k == 0 {
      EncodeFirst(l, []);
      WireIs(labels[..0]);
      assert l + [] == l && [|l|] + l + [] == [|l|] + l;
    } else {
      var more := Dotted(labels[1..]);
      EncodeFirst(l, [DOT] + more);
      assert l + [DOT] + more == l + ([DOT] + more) && ([DOT] + more)[1..] == more;
      EncodeWire(labels[1..]);
      WireIs(labels[..k]);
      assert labels[1..][k - 1] == labels[k] && labels[1..][..k - 1] == labels[..k][1..];
      assert [|l|] + l + (Wire(labels[1..]) + [0]) == [|l|] + l + Wire(labels[1..]) + [0];
    }
  }

  lemma EncodeFirst(l: seq<byte>, y: seq<byte>)
    requires Label(l) && (y == [] || y[0] == DOT)
    ensures EncodeSuffix(l + y) ==
      if y != [] then [|l|] + l + EncodeSuffix(y[1..]) else if l == [] then [] else [|l|] + l + [0]
  {
    FirstDotIs(l, y);
    if l + y != [] {
      EncodeStep(l + y);
      hide EncodeSuffix;
      assert (l + y)[..|l|] == l;
      if y != [] { assert (l + y)[|l| + 1..] == y[1..]; }
    }
  }

  // (Unfolds the definitions.)
  lemma WireIs(labels: seq<seq<byte>>)
    ensures labels == [] ==> Wire(labels) == []
    ensures labels != [] ==>
      && Wire(labels) == [|labels[0]| % 256] + labels[0] + Wire(labels[1..])
      && (Label(labels[0]) ==> |labels[0]| % 256 == |labels[0]|)
      && Dotted(labels) == if |labels| == 1 then labels[0] else labels[0] + [DOT] + Dotted(labels[1..])
  {
  }

  // Reading one label.
  lemma DecodeLabel(name: seq<byte>, r: seq<byte>, n: int, suffix: seq<byte>)
    requires 0 < |name| && |name| + |suffix| <= 254 && CString(name) && 0 < n <= 1 + |name| + |r| && r != []
    ensures Decode([|name|] + name + r, n, suffix) == Decode(r, n - 1 - |name|, Glue(suffix, name))
  {
    hide Glue, UpToNul;
    var b := [|name|] + name + r;
    assert b[0] as int == |name|;
    assert b[1..1 + |name|] == name && b[1 + |name|..] == r;
  }

  lemma DecodeEnd(r: seq<byte>, n: int, suffix: seq<byte>)
    requires 0 < n <= 1 + |r| && suffix != []
    ensures Decode([0] + r, n, suffix) == Report(suffix, Decode(r, n - 1, []))
  {
    assert ([0] + r)[1..] == r;
  }

  lemma {:induction false} EncodeLabel(s: seq<byte>)
    requires s != [] && |s| <= 255
    ensures var n := FirstDot(s);
      EncodeSuffix(s) == [n] + s[..n] + if n < |s| then EncodeSuffix(s[n + 1..]) else [0]
  {
    hide FirstDot;
    assert FirstDot(s) % 256 == FirstDot(s);
  }

  lemma GlueTwice(suffix: seq<byte>, s: seq<byte>, n: nat)
    requires 0 < n < |s| && s[n] == DOT
    ensures Glue(Glue(suffix, s[..n]), s[n + 1..]) == Glue(suffix, s)
  {
    assert s == s[..n] + [DOT] + s[n + 1..];
  }

  // Labels that are not empty are taken together.
  lemma {:induction false} DecodeWire(labels: seq<seq<byte>>, suffix: seq<byte>, r: seq<byte>, n: int)
    requires labels != [] && forall i :: 0 <= i < |labels| ==> Label(labels[i]) && labels[i] != []
    requires |Glue(suffix, Dotted(labels))| <= 254 && |Wire(labels)| <= n <= |Wire(labels)| + |r| && r != []
    ensures Decode(Wire(labels) + r, n, suffix) == Decode(r, n - |Wire(labels)|, Glue(suffix, Dotted(labels)))
  {
    hide Decode, Glue, CString;
    var l := labels[0];
    GlueSize(suffix, Dotted(labels));
    GlueSize(suffix, l);
    var more := Wire(labels[1..]);
    assert Wire(labels) + r == [|l|] + l + (more + r);
    DecodeLabel(l, more + r, n, suffix);
    if |labels| == 1 {
      assert more + r == r;
    } else {
      var s := Dotted(labels);
      assert s[..|l|] == l && s[|l| + 1..] == Dotted(labels[1..]);
      GlueTwice(suffix, s, |l|);
      DecodeWire(labels[1..], Glue(suffix, l), r, n - 1 - |l|);
    }
  }

  // A suffix, from where the reader is in it to its end.
  lemma {:induction false} DecodeSuffix(s: seq<byte>, suffix: seq<byte>, rest: seq<byte>, n: int)
    requires CString(s) && Named(s) && |Glue(suffix, s)| <= 255 && (suffix == [] && FirstDot(s) == |s| ==> |s| <= 254)
    requires |EncodeSuffix(s)| <= n <= |EncodeSuffix(s)| + |rest|
    ensures Decode(EncodeSuffix(s) + rest, n, suffix)
            == Report(Glue(suffix, s), Decode(rest, n - |EncodeSuffix(s)|, []))
    decreases |s|
  {
    hide Decode, EncodeSuffix, FirstDot, Glue;
    GlueSize(suffix, s);
    var k := FirstDot(s);
    EncodeLabel(s);
    var name := s[..k];
    var more := if k < |s| then EncodeSuffix(s[k + 1..]) else [0];
    MoreLeft(s);
    assert EncodeSuffix(s) + rest == [|name|] + name + (more + rest);
    DecodeLabel(name, more + rest, n, suffix);
    if k < |s| {
      GlueTwice(suffix, s, k);
      GlueSize(suffix, name);
      DecodeSuffix(s[k + 1..], Glue(suffix, name), rest, n - 1 - k);
    } else {
      assert name == s;
      DecodeEnd(rest, n - 1 - k, Glue(suffix, s));
    }
  }

  lemma MoreLeft(s: seq<byte>)
    requires Named(s)
    ensures FirstDot(s) < |s| ==> EncodeSuffix(s[FirstDot(s) + 1..]) != []
  {
  }

  lemma GlueSize(suffix: seq<byte>, s: seq<byte>)
    ensures |Glue(suffix, s)| == |s| + if suffix == [] then 0 else |suffix| + 1
  {
  }

  // Zeros between suffixes say nothing.
  lemma {:induction false} DecodeZeros(z: seq<byte>, rest: seq<byte>)
    requires forall i :: 0 <= i < |z| ==> z[i] == 0
    ensures Decode(z + rest, |z|, []) == Decoded([], false)
  {
    if z != [] {
      assert (z + rest)[1..] == z[1..] + rest;
      DecodeZeros(z[1..], rest);
    }
  }

  lemma {:induction false} DecodeAll(ss: seq<seq<byte>>, z: seq<byte>, rest: seq<byte>)
    requires forall i :: 0 <= i < |z| ==> z[i] == 0
    requires forall i :: 0 <= i < |ss| ==> CString(ss[i]) && Plain(ss[i])
    ensures Decode(EncodeAll(ss) + z + rest, |EncodeAll(ss)| + |z|, []) == Decoded(ss, false)
  {
    hide Decode, EncodeSuffix, FirstDot, Named;
    DecodeZeros(z, rest);
    if ss == [] {
      assert EncodeAll(ss) + z + rest == z + rest;
    } else {
      var more := EncodeAll(ss[1..]);
      DecodeAll(ss[1..], z, rest);
      assert EncodeAll(ss) + z + rest == EncodeSuffix(ss[0]) + (more + z + rest);
      DecodeSuffix(ss[0], [], more + z + rest, |EncodeAll(ss)| + |z|);
      assert ss == [ss[0]] + ss[1..];
    }
  }

  // A suffix that gets too long for the buffer, or a label that goes on to the end of the message or beyond: the
  // plain suffixes before it are found, and nothing after it, whatever that is.
  lemma {:induction false} Oversized(ss: seq<seq<byte>>, labels: seq<seq<byte>>, k: byte, rest: seq<byte>, n: int)
    requires forall i :: 0 <= i < |ss| ==> CString(ss[i]) && Plain(ss[i])
    requires forall i :: 0 <= i < |labels| ==> Label(labels[i]) && labels[i] != []
    requires var used := if labels == [] then 0 else |Dotted(labels)|;
      used <= 254 && k > 0 && (used + k as int > 254 || k as int >= |rest|)
    requires var m := |EncodeAll(ss)| + |Wire(labels)|; m < n <= m + 1 + |rest|
    ensures Decode(EncodeAll(ss) + (Wire(labels) + ([k] + rest)), n, []) == Decoded(ss, true)
    decreases |ss|
  {
    hide *;
    var bad := [k] + rest;
    if ss != [] {
      PlainIs(ss[0]);
      AllIs(ss);
      var more := EncodeAll(ss[1..]) + (Wire(labels) + bad);
      Oversized(ss[1..], labels, k, rest, n - |EncodeSuffix(ss[0])|);
      assert EncodeAll(ss) + (Wire(labels) + bad) == EncodeSuffix(ss[0]) + more;
      assert |bad| == 1 + |rest|;
      DecodeSuffix(ss[0], [], more, n);
      ReportOne(ss);
    } else {
      NoSuffixes(Wire(labels) + bad);
      OversizedName(labels, k, rest, n);
    }
  }

  // (Unfolds the definitions.)
  lemma PlainIs(s: seq<byte>)
    requires Plain(s)
    ensures Named(s) && |Glue([], s)| == |s| <= 255 && Glue([], s) == s && (FirstDot(s) == |s| ==> |s| <= 254)
  {
  }

  lemma AllIs(ss: seq<seq<byte>>)
    requires ss != []
    ensures EncodeAll(ss) == EncodeSuffix(ss[0]) + EncodeAll(ss[1..])
  {
  }

  lemma ReportOne(ss: seq<seq<byte>>)
    requires ss != []
    ensures Report(ss[0], Decoded(ss[1..], true)) == Decoded(ss, true)
  {
    assert ss == [ss[0]] + ss[1..];
  }

  lemma NoSuffixes(b: seq<byte>)
    ensures EncodeAll([]) + b == b
  {
  }

  lemma OversizedName(labels: seq<seq<byte>>, k: byte, rest: seq<byte>, n: int)
    requires forall i :: 0 <= i < |labels| ==> Label(labels[i]) && labels[i] != []
    requires var used := if labels == [] then 0 else |Dotted(labels)|;
      used <= 254 && k > 0 && (used + k as int > 254 || k as int >= |rest|)
    requires |Wire(labels)| < n <= |Wire(labels)| + 1 + |rest|
    ensures Decode(Wire(labels) + ([k] + rest), n, []) == Decoded([], true)
  {
    var bad := [k] + rest;
    if labels == [] {
      assert Wire(labels) + bad == bad;
    } else {
      hide Wire, Dotted;
      DecodeWire(labels, [], bad, n);
    }
  }

  // Bytes that are zeros and labels with their lengths.
  predicate Aligned(b: seq<byte>)
    decreases |b|
  {
    || b == []
    || (b[0] == 0 && Aligned(b[1..]))
    || (0 < b[0] < |b| && CString(b[1..1 + b[0]]) && DOT !in b[1..1 + b[0]] && Aligned(b[1 + b[0]..]))
  }

  lemma {:induction false} AlignedCat(a: seq<byte>, b: seq<byte>)
    requires Aligned(a) && Aligned(b)
    ensures Aligned(a + b)
    decreases |a|
  {
    if a == [] {
      assert a + b == b;
    } else if a[0] == 0 {
      assert (a + b)[1..] == a[1..] + b;
      AlignedCat(a[1..], b);
    } else {
      var n := a[0] as int + 1;
      assert (a + b)[n..] == a[n..] + b && (a + b)[1..n] == a[1..n];
      AlignedCat(a[n..], b);
    }
  }

  lemma {:induction false} AlignedSuffix(s: seq<byte>)
    requires CString(s) && |s| <= 255
    ensures Aligned(EncodeSuffix(s))
    decreases |s|
  {
    hide *;
    if s == [] {
      EncodeNothing();
    } else {
      var n := FirstDot(s);
      EncodeLabel(s);
      CStringParts(s, n);
      EncodeEnd();
      var more := if n < |s| then EncodeSuffix(s[n + 1..]) else [0];
      if n < |s| {
        CStringParts(s, n + 1);
        AlignedSuffix(s[n + 1..]);
      }
      AlignedMore(s[..n], more);
    }
  }

  lemma EncodeNothing()
    ensures EncodeSuffix([]) == [] && Aligned([])
  {
  }

  lemma EncodeEnd()
    ensures Aligned([0])
  {
  }

  lemma CStringParts(s: seq<byte>, n: nat)
    requires CString(s) && n <= |s|
    ensures CString(s[..n]) && CString(s[n..])
  {
  }

  lemma {:induction false} AlignedMore(name: seq<byte>, more: seq<byte>)
    requires |name| < 256 && CString(name) && DOT !in name && Aligned(more)
    ensures Aligned([|name|] + name + more)
  {
    var b: seq<byte> := [|name|] + name + more;
    assert b[1..1 + |name|] == name && b[1 + |name|..] == more;
    hide CString;
  }

  lemma {:induction false} AlignedAll(ss: seq<seq<byte>>, z: seq<byte>)
    requires forall i :: 0 <= i < |z| ==> z[i] == 0
    requires forall i :: 0 <= i < |ss| ==> CString(ss[i]) && |ss[i]| <= 255
    ensures Aligned(EncodeAll(ss) + z)
    decreases |ss|, |z|
  {
    if ss != [] {
      AlignedSuffix(ss[0]);
      AlignedAll(ss[1..], z);
      AlignedCat(EncodeSuffix(ss[0]), EncodeAll(ss[1..]) + z);
      assert EncodeAll(ss) + z == EncodeSuffix(ss[0]) + (EncodeAll(ss[1..]) + z);
    } else if z != [] {
      assert EncodeAll(ss) + z == z && EncodeAll(ss) + z[1..] == z[1..];
      AlignedAll(ss, z[1..]);
    }
  }

  // A plain suffix, or none yet, with one more label.
  lemma GluePlain(suffix: seq<byte>, name: seq<byte>)
    requires suffix == [] || Plain(suffix)
    requires name != [] && DOT !in name && |suffix| + |name| <= 254
    ensures Plain(Glue(suffix, name))
  {
    FirstDotIs(name, []);
    assert name + [] == name;
    if suffix != [] {
      NamedMore(suffix, name);
    }
  }

  lemma {:induction false} NamedIs(s: seq<byte>)
    ensures Named(s) <==> s != [] && FirstDot(s) > 0 && (FirstDot(s) < |s| ==> Named(s[FirstDot(s) + 1..]))
  {
    hide FirstDot;
  }

  lemma {:induction false} NamedMore(s: seq<byte>, name: seq<byte>)
    requires Named(s) && name != [] && FirstDot(name) == |name|
    ensures Named(s + [DOT] + name) && FirstDot(s + [DOT] + name) <= |s|
    decreases |s|
  {
    hide *;
    var n := FirstDot(s);
    var more := s + [DOT] + name;
    NamedIs(s);
    NamedIs(name);
    NamedIs(more);
    assert more == s[..n] + (s[n..] + [DOT] + name);
    FirstDotIs(s[..n], s[n..] + [DOT] + name);
    if n < |s| {
      NamedMore(s[n + 1..], name);
      assert more[n + 1..] == s[n + 1..] + [DOT] + name;
    } else {
      assert more[n + 1..] == name;
    }
  }

  // One step of the reader.
  lemma DecodeOne(r: seq<byte>, n: int, suffix: seq<byte>)
    requires n <= |r|
    ensures n <= 0 ==> Decode(r, n, suffix).found == []
    ensures n > 0 && r[0] == 0 ==>
      Decode(r, n, suffix).found == (if suffix == [] then [] else [suffix]) + Decode(r[1..], n - 1, []).found
    ensures n > 0 && r[0] != 0 ==> var l := r[0] as int + 1;
      Decode(r, n, suffix).found ==
        if SUFFIX_SIZE - |suffix| < l + 1 || l >= |r| then []
        else Decode(r[l..], n - l, Glue(suffix, UpToNul(r[1..l]))).found
  {
    hide Glue, UpToNul;
  }

  lemma AlignedOne(b: seq<byte>)
    requires Aligned(b) && b != []
    ensures b[0] == 0 ==> Aligned(b[1..])
    ensures b[0] != 0 ==> var n := b[0] as int + 1;
      && n <= |b| && b[1..n] != [] && CString(b[1..n]) && DOT !in b[1..n] && UpToNul(b[1..n]) == b[1..n]
      && Aligned(b[n..])
  {
  }

  // All that is found in labels without dots is plain.
  lemma {:induction false} FoundPlain(b: seq<byte>, rest: seq<byte>, suffix: seq<byte>)
    requires Aligned(b) && (suffix == [] || Plain(suffix))
    ensures forall f :: f in Decode(b + rest, |b|, suffix).found ==> Plain(f)
    decreases |b|
  {
    hide Plain, Glue, Decode, Aligned, UpToNul;
    DecodeOne(b + rest, |b|, suffix);
    if b != [] {
      AlignedOne(b);
      if b[0] == 0 {
        assert (b + rest)[1..] == b[1..] + rest;
        FoundPlain(b[1..], rest, []);
      } else if SUFFIX_SIZE - |suffix| >= b[0] as int + 2 && b[0] as int + 1 < |b + rest| {
        var n := b[0] as int + 1;
        assert (b + rest)[n..] == b[n..] + rest && (b + rest)[1..n] == b[1..n];
        GluePlain(suffix, b[1..n]);
        FoundPlain(b[n..], rest, Glue(suffix, b[1..n]));
      }
    }
  }

  // Nothing longer than its buffer is found.
  lemma {:induction false} FoundShort(r: seq<byte>, n: int, suffix: seq<byte>)
    requires n <= |r| && |suffix| <= 255
    ensures forall f :: f in Decode(r, n, suffix).found ==> |f| <= 255
    decreases |r|
  {
    hide Decode, UpToNul, Glue;
    DecodeOne(r, n, suffix);
    if n > 0 {
      if r[0] == 0 {
        FoundShort(r[1..], n - 1, []);
      } else if SUFFIX_SIZE - |suffix| >= r[0] as int + 2 && r[0] as int + 1 < |r| {
        var l := r[0] as int + 1;
        GlueSize(suffix, UpToNul(r[1..l]));
        FoundShort(r[l..], n - l, Glue(suffix, UpToNul(r[1..l])));
      }
    }
  }

  // What is found is short, and plain unless a suffix was too long.
  lemma Found(ss: seq<seq<byte>>, z: seq<byte>, rest: seq<byte>)
    requires forall i :: 0 <= i < |z| ==> z[i] == 0
    requires forall i :: 0 <= i < |ss| ==> CString(ss[i])
    ensures var d := Decode(EncodeAll(ss) + z + rest, |EncodeAll(ss)| + |z|, []);
      && (forall f :: f in d.found ==> |f| <= 255)
      && ((forall i :: 0 <= i < |ss| ==> |ss[i]| <= 255) ==> forall f :: f in d.found ==> Plain(f))
  {
    hide Decode, EncodeAll, Plain, Aligned;
    var b := EncodeAll(ss) + z;
    FoundShort(b + rest, |b|, []);
    if forall i :: 0 <= i < |ss| ==> |ss[i]| <= 255 {
      AlignedAll(ss, z);
      FoundPlain(b, rest, []);
    }
  }

  // The suffixes are read back as they were written, whatever padding and options come behind them,
  // exactly when they have only non-empty labels, no dot at the end, and fit the reader's buffer.
  lemma RoundTrip(ss: seq<seq<byte>>, z: seq<byte>, rest: seq<byte>)
    requires forall i :: 0 <= i < |z| ==> z[i] == 0
    requires forall i :: 0 <= i < |ss| ==> CString(ss[i])
    ensures var d := Decode(EncodeAll(ss) + z + rest, |EncodeAll(ss)| + |z|, []);
      && (d.found == ss <==> forall i :: 0 <= i < |ss| ==> Plain(ss[i]))
      && (d.found == ss ==> !d.oversized)
  {
    hide Decode, EncodeAll, Plain;
    var d := Decode(EncodeAll(ss) + z + rest, |EncodeAll(ss)| + |z|, []);
    Found(ss, z, rest);
    if forall i :: 0 <= i < |ss| ==> Plain(ss[i]) {
      DecodeAll(ss, z, rest);
    } else if d.found == ss {
      assert forall i :: 0 <= i < |ss| ==> ss[i] in d.found;
    }
  }
}
