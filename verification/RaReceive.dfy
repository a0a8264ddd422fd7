/**
 The options of a received router advertisement, one by one, and the suffixes that are read from its
 DNS search lists (`process_ra` in external/radvd/process.c).
 */
module RaReceive {
  import opened Dnssl
  import opened Jffs2Format
  import opened RaOptions

  // The first option is all there, with room for the structure it is read as.
  predicate Whole(m: seq<byte>) {
    |m| >= 2 && 0 < 8 * m[1] as int <= |m| && Need(m[0]) <= |m|
  }

  function Own(m: seq<byte>): (found: seq<seq<byte>>)
    requires Whole(m)
  {
    if m[0] == DNSSL_INFORMATION then Decode(m[8..], 8 * m[1] as int - 8, []).found else []
  }

  // The suffixes that are taken up from the options of `m`.
  function Received(m: seq<byte>): (found: seq<seq<byte>>)
    decreases |m|
  {
    if Whole(m) then Own(m) + Received(m[8 * m[1] as int..]) else []
  }

  lemma WalkSteps(m: seq<byte>)
    ensures m != [] && |m| >= 2 && Whole(m) ==>
      && WalkOptions(m) == Meet(m[..8 * m[1] as int], WalkOptions(m[8 * m[1] as int..]))
      && Received(m) == Own(m) + Received(m[8 * m[1] as int..])
    ensures !Whole(m) ==> Received(m) == []
    ensures !Whole(m) ==> WalkOptions(m) == Walk([],
      if m == [] then Done else if |m| < 2 then Garbage else if m[1] == 0 then ZeroLength
      else if 8 * m[1] as int > |m| then TooLong else Returned)
  {
  }

  lemma DecodeStep(area: seq<byte>, offset: nat, limit: int, suffix: seq<byte>)
    requires offset <= |area| && limit <= |area|
    ensures var d := Decode(area[offset..], limit - offset, suffix);
      if offset >= limit then d == Decoded([], false)
      else
        var size := area[offset];
        if size == 0 then
          var more := Decode(area[offset + 1..], limit - offset - 1, []);
          d == if suffix == [] then more else Report(suffix, more)
        else if SUFFIX_SIZE - |suffix| < size as int + 2
          || offset + 1 + size as int >= |area| then d == Decoded([], true)
        else
          var next := offset + 1 + size as int;
          d == Decode(area[next..], limit - next, Glue(suffix, UpToNul(area[offset + 1..next])))
  {
    hide UpToNul, Glue, Report;
    if offset < limit {
      Tail(area, offset, 1, 1);
      var size := area[offset] as int;
      if offset + 1 + size < |area| { Tail(area, offset, 1, 1 + size); }
    }
  }

  lemma Tail(area: seq<byte>, p: nat, i: nat, j: nat)
    requires i <= j && p + j <= |area|
    ensures area[p..][i..] == area[p + i..] && area[p..][i..j] == area[p + i..p + j] && area[p..][j..] == area[p + j..]
  {
  }

  // One search list: every suffix is looked up among our own.
  method ReadSuffixes(area: seq<byte>, limit: int) returns (found: seq<seq<byte>>, oversized: bool)
    requires limit <= |area|
    ensures Decoded(found, oversized) == Decode(area, limit, [])
  {
    hide Decode, UpToNul, Glue, Before, Report;
    var suffix: seq<byte> := [];
    var offset := 0;
    found, oversized := [], false;
    ghost var all := Decode(area, limit, []);
    assert area[0..] == area;
    BeforeNone([], all);
    while offset < limit
      invariant 0 <= offset <= |area| && limit <= |area|
      invariant Before(found, Decode(area[offset..], limit - offset, suffix)) == all
      decreases limit - offset
    {
      DecodeStep(area, offset, limit, suffix);
      var size := area[offset] as int;
      offset := offset + 1;
      if size == 0 {
        BeforeReport(found, suffix, Decode(area[offset..], limit - offset, []));
        if suffix != [] {
          found, suffix := found + [suffix], [];
        }
      } else if SUFFIX_SIZE - |suffix| < size + 2 || offset + size >= |area| {
        oversized := true;
        BeforeNone(found, Decoded([], true));
        return;
      } else {
        suffix := Glue(suffix, UpToNul(area[offset..offset + size]));
        offset := offset + size;
      }
    }
    DecodeStep(area, offset, limit, suffix);
    BeforeNone(found, Decoded([], false));
  }

  lemma BeforeNone(found: seq<seq<byte>>, d: Decoded)
    ensures Before([], d) == d && (d.found == [] ==> Before(found, d) == Decoded(found, d.oversized))
  {
    assert [] + d.found == d.found && found + [] == found;
  }

  function Before(found: seq<seq<byte>>, d: Decoded): Decoded {
    d.(found := found + d.found)
  }

  lemma BeforeReport(found: seq<seq<byte>>, suffix: seq<byte>, d: Decoded)
    ensures Before(found, Report(suffix, d)) == Before(found + [suffix], d)
  {
    assert found + ([suffix] + d.found) == found + [suffix] + d.found;
  }

  // The walk: what it meets, how it ends and the suffixes it takes up.
  method ProcessRa(m: seq<byte>) returns (met: seq<seq<byte>>, end: End, found: seq<seq<byte>>)
    ensures Walk(met, end) == WalkOptions(m) && found == Received(m)
  {
    hide *;
    var p := 0;
    met, found := [], [];
    assert m[0..] == m && [] + WalkOptions(m).met == WalkOptions(m).met && [] + Received(m) == Received(m);
    while p < |m|
      invariant 0 <= p <= |m|
      invariant WalkOptions(m) == Walk(met + WalkOptions(m[p..]).met, WalkOptions(m[p..]).end)
      invariant Received(m) == found + Received(m[p..])
      decreases |m| - p
    {
      var rest := m[p..];
      WalkSteps(rest);
      WholeIs(rest);
      assert met + [] == met && found + [] == found;
      if |rest| < 2 {
        return met, Garbage, found;
      }
      var l := 8 * rest[1] as int;
      if l == 0 {
        return met, ZeroLength, found;
      } else if l > |rest| {
        return met, TooLong, found;
      }
      if |rest| < Need(rest[0]) {
        return met, Returned, found;
      }
      assert rest[l..] == m[p + l..];
      MetStep(met, rest[..l], WalkOptions(rest[l..]));
      OwnIs(rest);
      if rest[0] == DNSSL_INFORMATION {
        var suffixes, _ := ReadSuffixes(rest[8..], l - 8);
        AppendAll(found, suffixes, Received(rest[l..]));
        found := found + suffixes;
      } else {
        AppendAll(found, [], Received(rest[l..]));
      }
      met, p := met + [rest[..l]], p + l;
    }
    WalkSteps(m[p..]);
    WholeIs(m[p..]);
    assert met + [] == met && found + [] == found;
    end := Done;
  }

  lemma WholeIs(m: seq<byte>)
    ensures Whole(m) <==> |m| >= 2 && 0 < 8 * m[1] as int <= |m| && Need(m[0]) <= |m|
  {
  }

  lemma OwnIs(m: seq<byte>)
    requires Whole(m)
    ensures Own(m) == if m[0] == DNSSL_INFORMATION then Decode(m[8..], 8 * m[1] as int - 8, []).found else []
  {
  }

  lemma MetStep(met: seq<seq<byte>>, o: seq<byte>, w: Walk)
    ensures met + Meet(o, w).met == met + [o] + w.met && Meet(o, w).end == w.end
  {
  }

  lemma AppendAll(a: seq<seq<byte>>, b: seq<seq<byte>>, c: seq<seq<byte>>)
    ensures a + (b + c) == a + b + c && (b == [] ==> a + b == a)
  {
  }

  lemma ReceivedFirst(o: seq<byte>, rest: seq<byte>)
    requires Framed(o) && Need(o[0]) <= |o + rest|
    ensures Whole(o + rest) && Received(o + rest) == Own(o + rest) + Received(rest)
    ensures o[0] != DNSSL_INFORMATION ==> Own(o + rest) == []
  {
    hide Own;
    assert (o + rest)[|o|..] == rest;
    OwnIs(o + rest);
  }

  lemma ListParts(d: SearchList, cease: bool)
    ensures var names := EncodeAll(d.suffixes); DnsslOption(d, cease)[8..] == names + Zeros(ToEight(|names|))
  {
    hide EncodeAll, Zeros, Put32, ToEight;
    var names := EncodeAll(d.suffixes);
    var o := DnsslOption(d, cease);
    assert o == o[..8] + (names + Zeros(ToEight(|names|)));
  }

  lemma ListWhole(d: SearchList, cease: bool, rest: seq<byte>)
    requires |DnsslOption(d, cease)| < 2048
    ensures var o := DnsslOption(d, cease); var m := o + rest;
      Whole(m) && m[0] == DNSSL_INFORMATION && 8 * m[1] as int == |o| >= 8 && m[8..] == o[8..] + rest
  {
    hide DnsslOption;
    var o := DnsslOption(d, cease);
    assert (o + rest)[0] == o[0] && (o + rest)[1] == o[1];
  }

  lemma OwnList(d: SearchList, cease: bool, rest: seq<byte>)
    requires |DnsslOption(d, cease)| < 2048
    ensures var names := EncodeAll(d.suffixes); var z := Zeros(ToEight(|names|)); var m := DnsslOption(d, cease) + rest;
      Whole(m) && Own(m) == Decode(names + z + rest, |names| + |z|, []).found
  {
    hide *;
    ListWhole(d, cease, rest);
    OwnIs(DnsslOption(d, cease) + rest);
    ListParts(d, cease);
  }

  // The suffixes of all search lists.
  function Names(os: seq<RaOption>): (ss: seq<seq<byte>>) {
    if os == [] then [] else (if os[0].SearchNames? then os[0].list.suffixes else []) + Names(os[1..])
  }

  ghost predicate AllPlain(ss: seq<seq<byte>>) {
    forall s :: s in ss ==> Plain(s)
  }

  ghost predicate AllShort(ss: seq<seq<byte>>) {
    forall s :: s in ss ==> |s| <= 255
  }

  ghost predicate AllStrings(ss: seq<seq<byte>>) {
    forall s :: s in ss ==> CString(s)
  }

  lemma Both(a: seq<seq<byte>>, b: seq<seq<byte>>)
    ensures AllPlain(a + b) <==> AllPlain(a) && AllPlain(b)
    ensures AllShort(a + b) <==> AllShort(a) && AllShort(b)
    ensures AllStrings(a + b) <==> AllStrings(a) && AllStrings(b)
    ensures AllPlain([]) && AllShort([]) && AllStrings([])
  {
    assert forall s :: s in a + b <==> s in a || s in b;
  }

  // One list read back.
  lemma ListFound(d: SearchList, cease: bool, rest: seq<byte>)
    requires |DnsslOption(d, cease)| < 2048 && AllStrings(d.suffixes)
    ensures Whole(DnsslOption(d, cease) + rest)
    ensures var own := Own(DnsslOption(d, cease) + rest);
      && AllShort(own) && (AllShort(d.suffixes) ==> AllPlain(own)) && (AllPlain(d.suffixes) ==> own == d.suffixes)
  {
    hide Own, Decode, EncodeAll, Plain, CString, DnsslOption, ToEight;
    OwnList(d, cease, rest);
    var z := Zeros(ToEight(|EncodeAll(d.suffixes)|));
    Found(d.suffixes, z, rest);
    RoundTrip(d.suffixes, z, rest);
  }

  lemma EncodedFirst(os: seq<RaOption>, cease: bool)
    requires os != []
    ensures var bs := Encoded(os, cease);
      && bs[0] == Bytes(os[0], cease) && bs[1..] == Encoded(os[1..], cease) && Join(bs) == bs[0] + Join(bs[1..])
      && (Room(bs) ==> Need(bs[0][0]) <= |Join(bs)| && Room(bs[1..]))
  {
    hide Bytes;
  }

  lemma {:induction false} NamesFound(os: seq<RaOption>, cease: bool)
    requires |Join(Encoded(os, cease))| < 2048 && Room(Encoded(os, cease)) && AllStrings(Names(os))
    requires forall i :: 0 <= i < |os| ==> Framed(Bytes(os[i], cease))
    ensures var found := Received(Join(Encoded(os, cease)));
      && AllShort(found) && (AllShort(Names(os)) ==> AllPlain(found)) && (AllPlain(Names(os)) ==> found == Names(os))
  {
    hide Room, Encoded, Bytes, Framed, AllPlain, AllShort, AllStrings, Own, Join, Need, Received;
    if os == [] {
      NothingReceived(cease);
    } else {
      EncodedFirst(os, cease);
      var o, rest := Bytes(os[0], cease), Join(Encoded(os[1..], cease));
      var own := if os[0].SearchNames? then os[0].list.suffixes else [];
      Both(own, Names(os[1..]));
      NamesFound(os[1..], cease);
      ReceivedFirst(o, rest);
      Both(Own(o + rest), Received(rest));
      if os[0].SearchNames? {
        BytesList(os[0], cease);
        ListFound(os[0].list, cease, rest);
      }
    }
  }


  lemma NothingReceived(cease: bool)
    ensures Received(Join(Encoded([], cease))) == [] && AllShort([]) && AllPlain([])
  {
  }

  // A neighbour takes up the suffixes of our search lists, all of them in order and no other, exactly when each
  // has only non-empty labels, no dot at its end and fits the buffer; this needs the walk to reach the end.
  lemma NamesArrive(os: seq<RaOption>, cease: bool)
    requires |Join(Encoded(os, cease))| < 2048 && AllStrings(Names(os))
    requires WalkOptions(Join(Encoded(os, cease))) == Walk(Encoded(os, cease), Done)
    ensures Received(Join(Encoded(os, cease))) == Names(os) <==> AllPlain(Names(os))
  {
    hide WalkOptions, Received, Join, Room, Plain, Framed, Bytes, Names, AllStrings;
    WalkMeets(Encoded(os, cease));
    NamesFound(os, cease);
  }
}
