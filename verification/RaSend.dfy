/**
 Building a router advertisement (`send_ra` in external/radvd/send.c): the options are appended one after the other
 in a buffer of fixed size that was cleared before, and the lifetimes of prefixes are decremented on the way.
 */
module RaSend {
  import opened Dnssl
  import opened Jffs2Format
  import opened RaOptions
  import opened RaReceive

  const MSG_SIZE_SEND: nat := 1452

  // A prefix of the interface, with the lifetimes it has at the moment.
  class AdvPrefix {
    const info: Prefix
    var valid: Word
    var preferred: Word

    constructor (info: Prefix)
      ensures this.info == info && Now() == info
    {
      this.info, valid, preferred := info, info.valid, info.preferred;
    }

    function Now(): Prefix
      reads this
    {
      info.(valid := valid, preferred := preferred)
    }
  }

  function Current(prefixes: seq<AdvPrefix>): (ps: seq<Prefix>)
    reads prefixes
    ensures |ps| == |prefixes| && forall i :: 0 <= i < |ps| ==> ps[i] == prefixes[i].Now()
  {
    seq(|prefixes|, i requires 0 <= i < |prefixes| reads prefixes => prefixes[i].Now())
  }

  // The message: `len` bytes of the buffer, with zeros behind them.
  class Message {
    const buff: array<byte>
    var len: nat

    ghost predicate Valid()
      reads this, buff
    {
      && buff.Length == MSG_SIZE_SEND && len < MSG_SIZE_SEND
      && forall i :: len <= i < MSG_SIZE_SEND ==> buff[i] == 0
    }

    ghost function Contents(): (s: seq<byte>)
      requires Valid()
      reads this, buff
      ensures |s| == len < MSG_SIZE_SEND
    {
      buff[..len]
    }

    constructor ()
      ensures Valid() && fresh(buff) && Contents() == []
    {
      buff := new byte[MSG_SIZE_SEND](_ => 0);
      len := 0;
    }

    // What is handed to the socket.
    method Packet() returns (bytes: seq<byte>)
      requires Valid()
      ensures Valid() && bytes == Contents()
    {
      bytes := buff[..len];
    }

    // `send_ra_inc_len`, and what is copied there. There must be room for one byte more.
    method Append(bytes: seq<byte>) returns (ok: bool)
      requires Valid()
      modifies this`len, buff
      ensures ok <==> old(len) + |bytes| < MSG_SIZE_SEND
      ensures Valid() && Contents() == if ok then old(Contents()) + bytes else old(Contents())
    {
      if len + |bytes| >= MSG_SIZE_SEND { return false; }
      forall i | 0 <= i < |bytes| {
        buff[len + i] := bytes[i];
      }
      len := len + |bytes|;
      ok := true;
    }

    // One label of a suffix; behind the last a zero, unless a dot is there.
    method AppendLabel(s: seq<byte>) returns (ok: bool, rest: seq<byte>)
      requires Valid() && s != []
      modifies this`len, buff
      ensures Valid() && old(len) <= len && |rest| < |s|
      ensures ok ==> Contents() + EncodeSuffix(rest) == old(Contents()) + EncodeSuffix(s)
      ensures !ok ==> old(len) + |EncodeSuffix(s)| >= MSG_SIZE_SEND
    {
      hide *;
      EncodeStep(s);
      rest := s[1..];
      var n := FirstDot(s);
      ok := Append([n % 256]);
      if !ok { return; }
      ok := Append(s[..n]);
      if !ok { return; }
      if n < |s| {
        rest := s[n + 1..];
      } else {
        ok := Append([0]);
        if !ok { return; }
        rest := [];
        EncodeNothing();
      }
    }

    method AppendSuffix(suffix: seq<byte>) returns (ok: bool)
      requires Valid()
      modifies this`len, buff
      ensures ok <==> old(len) + |EncodeSuffix(suffix)| < MSG_SIZE_SEND
      ensures Valid() && old(len) <= len && (ok ==> Contents() == old(Contents()) + EncodeSuffix(suffix))
    {
      hide *;
      var s := suffix;
      EncodeNothing();
      ok := true;
      while s != []
        invariant Valid() && ok && old(len) <= len
        invariant Contents() + EncodeSuffix(s) == old(Contents()) + EncodeSuffix(suffix)
        decreases |s|
      {
        ok, s := AppendLabel(s);
        if !ok { return; }
      }
      assert Contents() + [] == Contents();
    }

    method AppendSuffixes(suffixes: seq<seq<byte>>) returns (ok: bool)
      requires Valid()
      modifies this`len, buff
      ensures ok <==> old(len) + |EncodeAll(suffixes)| < MSG_SIZE_SEND
      ensures Valid() && old(len) <= len && (ok ==> Contents() == old(Contents()) + EncodeAll(suffixes))
    {
      hide *;
      var i := 0;
      assert suffixes[0..] == suffixes;
      ok := true;
      while i < |suffixes|
        invariant 0 <= i <= |suffixes| && Valid() && ok && old(len) <= len
        invariant Contents() + EncodeAll(suffixes[i..]) == old(Contents()) + EncodeAll(suffixes)
      {
        AllStep(suffixes, i);
        ghost var now := Contents();
        ok := AppendSuffix(suffixes[i]);
        if !ok { return; }
        Regroup(now, EncodeSuffix(suffixes[i]), EncodeAll(suffixes[i + 1..]));
        i := i + 1;
      }
      AllNone(suffixes[i..]);
      assert Contents() + [] == Contents();
    }

    // One search list. Its length byte is set when its end is known, and counts the zeros behind the
    // last suffix, which are those the buffer has there.
    method AppendList(d: SearchList, cease: bool) returns (ok: bool)
      requires Valid()
      modifies this`len, buff
      ensures ok <==> old(len) + |DnsslOption(d, cease)| < MSG_SIZE_SEND
      ensures Valid() && old(len) <= len && (ok ==> Contents() == old(Contents()) + DnsslOption(d, cease))
    {
      hide *;
      ListIs(d, cease);
      var start := len;
      ghost var old0, names := Contents(), EncodeAll(d.suffixes);
      var lifetime := if cease && d.flush then 0 else d.lifetime;
      ok := Append([DNSSL_INFORMATION, 0, 0, 0] + Put32(lifetime, Big));
      if !ok { return; }
      ok := AppendSuffixes(d.suffixes);
      if !ok { return; }
      var units := (len - start) / 8;
      var over := (len - start) % 8;
      if over != 0 {
        ok := Append(Zeros(8 - over));
        if !ok { return; }
        units := units + 1;
      } else {
        ZerosNone();
        assert Contents() == Contents() + Zeros(0);
      }
      ListLength(Contents(), old0, [DNSSL_INFORMATION, 0, 0, 0] + Put32(lifetime, Big), names, d, cease, units % 256);
      SetLength(start + 1, units % 256);
      ok := true;
    }

    // Options in turn.
    method AppendOptions(os: seq<RaOption>, cease: bool) returns (ok: bool)
      requires Valid()
      modifies this`len, buff
      ensures ok <==> old(len) + |AllBytes(os, cease)| < MSG_SIZE_SEND
      ensures Valid() && old(len) <= len && (ok ==> Contents() == old(Contents()) + AllBytes(os, cease))
    {
      hide *;
      var i := 0;
      assert os[0..] == os;
      ok := true;
      while i < |os|
        invariant 0 <= i <= |os| && Valid() && ok && old(len) <= len
        invariant Contents() + AllBytes(os[i..], cease) == old(Contents()) + AllBytes(os, cease)
      {
        BytesFirst(os[i..], cease);
        assert os[i..][1..] == os[i + 1..];
        ghost var now := Contents();
        match os[i] {
          case SearchNames(list) => BytesList(os[i], cease); ok := AppendList(list, cease);
          case _ => ok := Append(Bytes(os[i], cease));
        }
        if !ok { return; }
        Regroup(now, Bytes(os[i], cease), AllBytes(os[i + 1..], cease));
        i := i + 1;
      }
      BytesNone(os[i..], cease);
      assert Contents() + [] == Contents();
    }

    method SetLength(p: nat, units: byte)
      requires Valid() && p < len
      modifies buff
      ensures Valid() && Contents() == old(Contents())[p := units]
    {
      buff[p] := units;
    }
  }

  // The options of an advertisement as they are sent.
  function AllBytes(os: seq<RaOption>, cease: bool): seq<byte> {
    Join(Encoded(os, cease))
  }

  lemma BytesFirst(os: seq<RaOption>, cease: bool)
    requires os != []
    ensures AllBytes(os, cease) == Bytes(os[0], cease) + AllBytes(os[1..], cease)
  {
    hide Bytes;
    assert Encoded(os, cease)[1..] == Encoded(os[1..], cease);
  }

  lemma BytesNone(os: seq<RaOption>, cease: bool)
    ensures os == [] ==> AllBytes(os, cease) == []
  {
  }

  lemma BytesCat(os: seq<RaOption>, ps: seq<RaOption>, cease: bool)
    ensures AllBytes(os + ps, cease) == AllBytes(os, cease) + AllBytes(ps, cease)
  {
    hide Bytes, Join;
    assert Encoded(os + ps, cease) == Encoded(os, cease) + Encoded(ps, cease);
    JoinCat(Encoded(os, cease), Encoded(ps, cease));
  }

  lemma Regroup(a: seq<byte>, b: seq<byte>, c: seq<byte>)
    ensures a + (b + c) == a + b + c
  {
  }

  lemma ZerosNone()
    ensures Zeros(0) == []
  {
  }

  // The option with its length byte set.
  lemma ListLength(m: seq<byte>, before: seq<byte>, head: seq<byte>, names: seq<byte>, d: SearchList, cease: bool,
                   units: byte)
    requires names == EncodeAll(d.suffixes)
    requires var n := 8 + |names|; var z := if n % 8 == 0 then 0 else 8 - n % 8;
      && head == [DNSSL_INFORMATION, 0, 0, 0] + Put32(if cease && d.flush then 0 else d.lifetime, Big)
      && m == before + head + names + Zeros(z) && units == (n / 8 + (if n % 8 == 0 then 0 else 1)) % 256
    ensures |before| + 1 < |m| && m[|before| + 1 := units] == before + DnsslOption(d, cease)
  {
    ListIs(d, cease);
    hide EncodeAll, Put32, DnsslOption, Zeros;
  }

  lemma AllStep(ss: seq<seq<byte>>, i: nat)
    requires i < |ss|
    ensures EncodeAll(ss[i..]) == EncodeSuffix(ss[i]) + EncodeAll(ss[i + 1..])
  {
    hide EncodeSuffix;
    assert ss[i..][1..] == ss[i + 1..];
  }

  lemma AllNone(ss: seq<seq<byte>>)
    ensures ss == [] ==> EncodeAll(ss) == []
  {
  }

  // The parts of a search list option.
  lemma ListIs(d: SearchList, cease: bool)
    ensures var names := EncodeAll(d.suffixes); var n := 8 + |names|; var z := if n % 8 == 0 then 0 else 8 - n % 8;
      && z < 8 && (n + z) / 8 == n / 8 + (if n % 8 == 0 then 0 else 1)
      && DnsslOption(d, cease) ==
           [DNSSL_INFORMATION, (n + z) / 8 % 256, 0, 0] + Put32(if cease && d.flush then 0 else d.lifetime, Big)
             + names + Zeros(z)
  {
    hide EncodeAll, Put32, Zeros;
    Rounding(|EncodeAll(d.suffixes)|);
  }

  lemma Rounding(n: nat)
    ensures ToEight(n) == if (8 + n) % 8 == 0 then 0 else 8 - (8 + n) % 8
    ensures (8 + n + ToEight(n)) / 8 == (8 + n) / 8 + (if (8 + n) % 8 == 0 then 0 else 1)
  {
  }

  // Negative if it is not known.
  type HwLen = x: int | x <= 128

  // What the interface advertises, besides its prefixes. The interval is given in milliseconds.
  datatype Interface = Interface(
    hopLimit: byte, managed: bool, other: bool, homeAgent: bool, lifetime: int, preference: int,
    reachable: Word, retrans: Word, routes: seq<Route>, servers: seq<Rdnss>, lists: seq<SearchList>, mtu: Word,
    sourceLink: bool, hwaddr: Addr, hwaddrLen: HwLen, interval: Option<Word>,
    homeAgentInfo: bool, mobile: bool, agentPreference: Half, agentLifetime: int, cease: bool)

  const ROUTER_ADVERT: byte := 134

  function Head(iface: Interface, forwarding: bool): (b: seq<byte>)
    ensures |b| == 16
  {
    var lifetime := if iface.cease || !forwarding then 0 else iface.lifetime % 0x1_0000;
    [ROUTER_ADVERT, 0, 0, 0, iface.hopLimit,
     Flags(iface.managed, iface.other, iface.homeAgent) + PreferenceBits(iface.preference)]
    + Put16(lifetime, Big) + Put32(iface.reachable, Big) + Put32(iface.retrans, Big)
  }

  // What a neighbour reads in the header is what is configured.
  lemma HeadRead(iface: Interface, forwarding: bool)
    ensures var b := Head(iface, forwarding);
      && b[0] == ROUTER_ADVERT && b[1] == 0 && b[4] == iface.hopLimit && b[5] as int / 8 % 4 == iface.preference % 4
      && (Bit(b[5], 0x80) <==> iface.managed) && (Bit(b[5], 0x40) <==> iface.other)
      && (Bit(b[5], 0x20) <==> iface.homeAgent)
      && Get16(b, 6, Big) == (if iface.cease || !forwarding then 0 else iface.lifetime % 0x1_0000)
      && Get32(b, 8, Big) == iface.reachable && Get32(b, 12, Big) == iface.retrans
  {
    hide *;
    var lifetime := if iface.cease || !forwarding then 0 else iface.lifetime % 0x1_0000;
    FlagsRead(iface.managed, iface.other, iface.homeAgent, iface.preference);
    var flags := Flags(iface.managed, iface.other, iface.homeAgent) + PreferenceBits(iface.preference);
    HeadIs(iface, forwarding);
    WordsRead([ROUTER_ADVERT, 0, 0, 0, iface.hopLimit, flags], lifetime, iface.reachable, iface.retrans);
  }

  // (Unfolds the definition.)
  lemma HeadIs(iface: Interface, forwarding: bool)
    ensures Head(iface, forwarding) ==
            [ROUTER_ADVERT, 0, 0, 0, iface.hopLimit,
             Flags(iface.managed, iface.other, iface.homeAgent) + PreferenceBits(iface.preference)]
            + Put16(if iface.cease || !forwarding then 0 else iface.lifetime % 0x1_0000, Big)
            + Put32(iface.reachable, Big) + Put32(iface.retrans, Big)
  {
  }

  lemma WordsRead(a: seq<byte>, lifetime: Half, reachable: Word, retrans: Word)
    requires |a| == 6
    ensures var b := a + Put16(lifetime, Big) + Put32(reachable, Big) + Put32(retrans, Big);
      && |b| == 16 && b[..6] == a && (forall i :: 0 <= i < 6 ==> b[i] == a[i]) && Get16(b, 6, Big) == lifetime
      && Get32(b, 8, Big) == reachable && Get32(b, 12, Big) == retrans
  {
    hide Put16, Get16, Put32, Get32;
    var b := a + Put16(lifetime, Big) + Put32(reachable, Big) + Put32(retrans, Big);
    assert b == a + Put16(lifetime, Big) + (Put32(reachable, Big) + Put32(retrans, Big));
    HalfAt(a, lifetime, Put32(reachable, Big) + Put32(retrans, Big));
    WordAt(a + Put16(lifetime, Big), reachable, Put32(retrans, Big));
    assert b == a + Put16(lifetime, Big) + Put32(reachable, Big) + Put32(retrans, Big) + [];
    WordAt(a + Put16(lifetime, Big) + Put32(reachable, Big), retrans, []);
  }

  // The enabled prefixes.
  function PrefixInfos(ps: seq<Prefix>): (os: seq<RaOption>) {
    if ps == [] then [] else (if ps[0].enabled then [PrefixInfo(ps[0])] else []) + PrefixInfos(ps[1..])
  }

  function RouteInfos(rs: seq<Route>): seq<RaOption> {
    seq(|rs|, i requires 0 <= i < |rs| => RouteInfo(rs[i]))
  }

  function ServerInfos(rs: seq<Rdnss>): seq<RaOption> {
    seq(|rs|, i requires 0 <= i < |rs| => NameServers(rs[i]))
  }

  function ListInfos(ds: seq<SearchList>): seq<RaOption> {
    seq(|ds|, i requires 0 <= i < |ds| => SearchNames(ds[i]))
  }

  function Tail(iface: Interface): seq<RaOption> {
    (if iface.mtu != 0 then [LinkMtu(iface.mtu)] else [])
    + (if iface.sourceLink && iface.hwaddrLen > 0 then [SourceLink(iface.hwaddr, iface.hwaddrLen)] else [])
    + (if iface.interval.Some? then [Interval(iface.interval.value)] else [])
    + (if iface.homeAgentInfo && (iface.mobile || iface.agentPreference != 0 || iface.agentLifetime != iface.lifetime)
       then [HomeAgent(iface.mobile, iface.agentPreference, iface.agentLifetime)] else [])
  }

  function Rest(iface: Interface): seq<RaOption> {
    RouteInfos(iface.routes) + ServerInfos(iface.servers) + ListInfos(iface.lists) + Tail(iface)
  }

  // All options, in the order they are sent.
  function Options(iface: Interface, ps: seq<Prefix>): seq<RaOption> {
    PrefixInfos(ps) + Rest(iface)
  }

  // How many of the first `k` prefixes are enabled.
  function EnabledBelow(ps: seq<Prefix>, k: nat): nat
    requires k <= |ps|
  {
    if k == 0 then 0 else EnabledBelow(ps, k - 1) + if ps[k - 1].enabled then 1 else 0
  }

  lemma {:induction false} PrefixesSplit(ps: seq<Prefix>, k: nat)
    requires k <= |ps|
    ensures PrefixInfos(ps) == PrefixInfos(ps[..k]) + PrefixInfos(ps[k..])
    decreases |ps|
  {
    if k == 0 {
      assert ps[..0] == [] && ps[0..] == ps;
    } else {
      PrefixesSplit(ps[1..], k - 1);
      assert ps[1..][..k - 1] == ps[..k][1..] && ps[1..][k - 1..] == ps[k..];
    }
  }

  lemma PrefixesCat(a: seq<Prefix>, b: seq<Prefix>)
    ensures PrefixInfos(a + b) == PrefixInfos(a) + PrefixInfos(b)
  {
    PrefixesSplit(a + b, |a|);
    assert (a + b)[..|a|] == a && (a + b)[|a|..] == b;
  }

  lemma PrefixesOfNone()
    ensures PrefixInfos([]) == []
  {
  }

  lemma {:induction false} PrefixesBelow(ps: seq<Prefix>, k: nat)
    requires k <= |ps|
    ensures |PrefixInfos(ps[..k])| == EnabledBelow(ps, k)
    decreases k
  {
    if k == 0 {
      assert ps[..0] == [];
    } else {
      PrefixesBelow(ps, k - 1);
      var front, last := ps[..k - 1], [ps[k - 1]];
      assert ps[..k] == front + last;
      PrefixesCat(front, last);
      PrefixStep(last);
      hide PrefixInfos;
      assert last[1..] == [];
      PrefixesOfNone();
    }
  }

  // An enabled prefix is sent behind those before it.
  lemma PrefixesAt(ps: seq<Prefix>, i: nat)
    requires i < |ps| && ps[i].enabled
    ensures var at := EnabledBelow(ps, i); at < |PrefixInfos(ps)| && PrefixInfos(ps)[at] == PrefixInfo(ps[i])
  {
    PrefixesBelow(ps, i);
    PrefixesSplit(ps, i);
    PrefixStep(ps[i..]);
    hide PrefixInfos, EnabledBelow;
  }

  // MTU, link-layer address, interval and home agent, as far as they are wanted, in this order.
  lemma TailSent(iface: Interface)
    ensures var os := Tail(iface);
      var m := if iface.mtu > 0 then 1 else 0;
      var l := if iface.sourceLink && iface.hwaddrLen > 0 then 1 else 0;
      var v := if iface.interval.Some? then 1 else 0;
      var same := !iface.mobile && iface.agentPreference == 0 && iface.agentLifetime == iface.lifetime;
      var h := if iface.homeAgentInfo && !same then 1 else 0;
      && |os| == m + l + v + h
      && (m == 1 ==> os[0] == LinkMtu(iface.mtu))
      && (l == 1 ==> os[m] == SourceLink(iface.hwaddr, iface.hwaddrLen))
      && (v == 1 ==> os[m + l] == Interval(iface.interval.value))
      && (h == 1 ==> os[m + l + v] == HomeAgent(iface.mobile, iface.agentPreference, iface.agentLifetime))
  {
  }

  // Before those come the enabled prefixes, all routes, servers and search lists, each kind in the order it is
  // configured in; and nothing else is sent.
  lemma OptionsSent(iface: Interface, ps: seq<Prefix>)
    ensures var os := Options(iface, ps);
      var a, b, c, d := EnabledBelow(ps, |ps|), |iface.routes|, |iface.servers|, |iface.lists|;
      && (forall i: nat :: i < |ps| && ps[i].enabled ==>
            var at := EnabledBelow(ps, i); at < a <= |os| && os[at] == PrefixInfo(ps[i]))
      && a + b + c + d <= |os|
      && (forall i: nat :: i < b ==> os[a + i] == RouteInfo(iface.routes[i]))
      && (forall i: nat :: i < c ==> os[a + b + i] == NameServers(iface.servers[i]))
      && (forall i: nat :: i < d ==> os[a + b + c + i] == SearchNames(iface.lists[i]))
      && os[a + b + c + d..] == Tail(iface)
  {
    PrefixesBelow(ps, |ps|);
    assert ps[..|ps|] == ps;
    hide PrefixInfos, EnabledBelow, Tail;
    forall i: nat | i < |ps| && ps[i].enabled
      ensures EnabledBelow(ps, i) < |PrefixInfos(ps)| && PrefixInfos(ps)[EnabledBelow(ps, i)] == PrefixInfo(ps[i])
    {
      PrefixesAt(ps, i);
    }
  }

  function AgedAll(ps: seq<Prefix>, secs: nat, cease: bool): (r: seq<Prefix>)
    ensures |r| == |ps| && forall i :: 0 <= i < |ps| ==> r[i] == Aged(ps[i], secs, cease)
  {
    seq(|ps|, i requires 0 <= i < |ps| => Aged(ps[i], secs, cease))
  }

  // (Unfolds the definition.)
  lemma LifetimesAged(prefixes: seq<AdvPrefix>, secs: nat, cease: bool)
    ensures var aged := AgedAll(Current(prefixes), secs, cease);
      forall i :: 0 <= i < |prefixes| ==>
        var p := prefixes[i];
        var ages := p.info.enabled && p.info.decrement && !(cease && p.info.deprecate);
        && (ages ==> aged[i].valid == (if p.valid > secs then p.valid - secs else 0))
        && (ages ==> aged[i].preferred == (if p.preferred > secs then p.preferred - secs else 0))
        && (!ages ==> aged[i].valid == p.valid && aged[i].preferred == p.preferred)
  {
  }

  // (Unfolds the definition.)
  lemma LifetimesNow(prefixes: seq<AdvPrefix>)
    ensures var ps := Current(prefixes);
      forall i :: 0 <= i < |prefixes| ==> ps[i].valid == prefixes[i].valid && ps[i].preferred == prefixes[i].preferred
  {
  }

  lemma PrefixFirst(ps: seq<Prefix>, i: nat, cease: bool)
    requires i < |ps|
    ensures AllBytes(PrefixInfos(ps[i..]), cease) ==
            (if ps[i].enabled then PrefixOption(ps[i], cease) else []) + AllBytes(PrefixInfos(ps[i + 1..]), cease)
  {
    hide PrefixOption, AllBytes;
    assert ps[i..][1..] == ps[i + 1..];
    BytesCat(if ps[i].enabled then [PrefixInfo(ps[i])] else [], PrefixInfos(ps[i + 1..]), cease);
    BytesNone([], cease);
    BytesFirst([PrefixInfo(ps[i])], cease);
    assert [PrefixInfo(ps[i])][1..] == [] && PrefixOption(ps[i], cease) + [] == PrefixOption(ps[i], cease);
  }

  method AgePrefix(prefix: AdvPrefix, secs: nat, cease: bool)
    modifies prefix
    ensures prefix.Now() == Aged(old(prefix.Now()), secs, cease)
  {
    if prefix.info.enabled && !(cease && prefix.info.deprecate) && prefix.info.decrement {
      prefix.valid := Decrement(prefix.valid, secs);
      prefix.preferred := Decrement(prefix.preferred, secs);
    }
  }

  // One prefix, of which `aged` says what becomes of it, with those that follow.
  method AppendPrefix(m: Message, prefix: AdvPrefix, secs: nat, cease: bool, ghost aged: seq<Prefix>, ghost i: nat)
    returns (ok: bool)
    requires m.Valid() && i < |aged| && aged[i] == Aged(prefix.Now(), secs, cease)
    modifies m`len, m.buff, prefix
    ensures m.Valid() && old(m.len) <= m.len && prefix.Now() == aged[i]
    ensures ok ==> m.Contents() + AllBytes(PrefixInfos(aged[i + 1..]), cease) ==
                   old(m.Contents()) + AllBytes(PrefixInfos(aged[i..]), cease)
    ensures !ok ==> old(m.len) + |AllBytes(PrefixInfos(aged[i..]), cease)| >= MSG_SIZE_SEND
  {
    hide *;
    PrefixFirst(aged, i, cease);
    ghost var now := m.Contents();
    AgePrefix(prefix, secs, cease);
    var p := prefix.Now();
    ok := m.Append(if p.enabled then PrefixOption(p, cease) else []);
    if ok {
      Regroup(now, if p.enabled then PrefixOption(p, cease) else [], AllBytes(PrefixInfos(aged[i + 1..]), cease));
    }
  }

  // The prefixes; the lifetimes of those that are to be decremented are, by the seconds since the last
  // advertisement.
  method AppendPrefixes(m: Message, prefixes: seq<AdvPrefix>, secs: nat, cease: bool) returns (ok: bool)
    requires m.Valid() && forall i, j :: 0 <= i < j < |prefixes| ==> prefixes[i] != prefixes[j]
    modifies m`len, m.buff, prefixes
    ensures m.Valid() && old(m.len) <= m.len
    ensures var aged := AgedAll(old(Current(prefixes)), secs, cease); var bytes := AllBytes(PrefixInfos(aged), cease);
      && (ok <==> old(m.len) + |bytes| < MSG_SIZE_SEND)
      && (ok ==> m.Contents() == old(m.Contents()) + bytes && Current(prefixes) == aged)
    ensures ok ==> forall i :: 0 <= i < |prefixes| ==>
      var p := prefixes[i];
      var ages := p.info.enabled && p.info.decrement && !(cease && p.info.deprecate);
      && (ages ==> p.valid == (if old(p.valid) > secs then old(p.valid) - secs else 0))
      && (ages ==> p.preferred == (if old(p.preferred) > secs then old(p.preferred) - secs else 0))
      && (!ages ==> p.valid == old(p.valid) && p.preferred == old(p.preferred))
  {
    hide *;
    LifetimesAged(prefixes, secs, cease);
    ghost var aged := AgedAll(Current(prefixes), secs, cease);
    var i := 0;
    ok := true;
    assert aged[0..] == aged;
    while i < |prefixes|
      invariant 0 <= i <= |prefixes| && m.Valid() && ok && old(m.len) <= m.len
      invariant forall j :: 0 <= j < i ==> prefixes[j].Now() == aged[j]
      invariant forall j :: i <= j < |prefixes| ==> prefixes[j].Now() == old(prefixes[j].Now())
      invariant m.Contents() + AllBytes(PrefixInfos(aged[i..]), cease) == old(m.Contents())
                + AllBytes(PrefixInfos(aged), cease)
    {
      ok := AppendPrefix(m, prefixes[i], secs, cease, aged, i);
      if !ok { return; }
      i := i + 1;
    }
    PrefixesNone(aged[i..], cease);
    LifetimesNow(prefixes);
    assert m.Contents() + [] == m.Contents();
  }

  lemma PrefixesNone(ps: seq<Prefix>, cease: bool)
    ensures ps == [] ==> AllBytes(PrefixInfos(ps), cease) == []
  {
  }

  lemma RestBytes(iface: Interface)
    ensures AllBytes(Rest(iface), iface.cease) ==
            AllBytes(RouteInfos(iface.routes), iface.cease) + AllBytes(ServerInfos(iface.servers), iface.cease)
            + AllBytes(ListInfos(iface.lists), iface.cease) + AllBytes(Tail(iface), iface.cease)
  {
    hide AllBytes, RouteInfos, ServerInfos, ListInfos, Tail;
    var b, c, d := RouteInfos(iface.routes), ServerInfos(iface.servers), ListInfos(iface.lists);
    BytesCat(b, c, iface.cease);
    BytesCat(b + c, d, iface.cease);
    BytesCat(b + c + d, Tail(iface), iface.cease);
  }

  // Routes, servers, search lists and the single options.
  method AppendRest(m: Message, iface: Interface) returns (ok: bool)
    requires m.Valid()
    modifies m`len, m.buff
    ensures m.Valid() && old(m.len) <= m.len
    ensures ok <==> old(m.len) + |AllBytes(Rest(iface), iface.cease)| < MSG_SIZE_SEND
    ensures ok ==> m.Contents() == old(m.Contents()) + AllBytes(Rest(iface), iface.cease)
  {
    hide *;
    RestBytes(iface);
    ok := m.AppendOptions(RouteInfos(iface.routes), iface.cease);
    if !ok { return; }
    ok := m.AppendOptions(ServerInfos(iface.servers), iface.cease);
    if !ok { return; }
    ok := m.AppendOptions(ListInfos(iface.lists), iface.cease);
    if !ok { return; }
    ok := m.AppendOptions(Tail(iface), iface.cease);
  }

  lemma OptionsAre(iface: Interface, ps: seq<Prefix>)
    ensures AllBytes(Options(iface, ps), iface.cease) == AllBytes(PrefixInfos(ps), iface.cease)
            + AllBytes(Rest(iface), iface.cease)
  {
    hide AllBytes, PrefixInfos, Rest;
    BytesCat(PrefixInfos(ps), Rest(iface), iface.cease);
  }

  // The advertisement: it is built exactly when it fits the buffer, and then it is the header and all
  // options; the prefixes keep the lifetimes that were sent.
  method SendRa(iface: Interface, prefixes: seq<AdvPrefix>, secs: nat, forwarding: bool) returns (ok: bool, m: Message)
    requires forall i, j :: 0 <= i < j < |prefixes| ==> prefixes[i] != prefixes[j]
    modifies prefixes
    ensures fresh(m) && m.Valid()
    ensures var aged := AgedAll(old(Current(prefixes)), secs, iface.cease);
            var bytes := Head(iface, forwarding) + AllBytes(Options(iface, aged), iface.cease);
      && (ok <==> |bytes| < MSG_SIZE_SEND)
      && (ok ==> m.Contents() == bytes && Current(prefixes) == aged)
    ensures ok ==> forall i :: 0 <= i < |prefixes| ==>
      var p := prefixes[i];
      var ages := p.info.enabled && p.info.decrement && !(iface.cease && p.info.deprecate);
      && (ages ==> p.valid == (if old(p.valid) > secs then old(p.valid) - secs else 0))
      && (ages ==> p.preferred == (if old(p.preferred) > secs then old(p.preferred) - secs else 0))
      && (!ages ==> p.valid == old(p.valid) && p.preferred == old(p.preferred))
  {
    hide *;
    ghost var aged := AgedAll(Current(prefixes), secs, iface.cease);
    OptionsAre(iface, aged);
    m := new Message();
    ok := m.Append(Head(iface, forwarding));
    if !ok { return; }
    ok := AppendPrefixes(m, prefixes, secs, iface.cease);
    if !ok { return; }
    ok := AppendRest(m, iface);
  }

  // A neighbour that reads the options of an advertisement meets them all, in order and to the end, exactly when
  // a link-layer address that is sent has 6 or 14 bytes and 56 bytes are left from the start of each RDNSS option.
  lemma SentIsMet(iface: Interface, ps: seq<Prefix>)
    requires 16 + |AllBytes(Options(iface, ps), iface.cease)| < MSG_SIZE_SEND
    ensures var os := Options(iface, ps); var bs := Encoded(os, iface.cease);
      WalkOptions(AllBytes(os, iface.cease)) == Walk(bs, Done) <==>
      && (iface.sourceLink && iface.hwaddrLen > 0 ==> (iface.hwaddrLen + 7) / 8 in [6, 14])
      && (forall i :: 0 <= i < |os| && os[i].NameServers? ==> |Join(bs[i..])| >= 56)
  {
    AdvertWalk(Options(iface, ps), iface.cease);
    hide WalkOptions, Encoded, Join, PrefixInfos, LinksFit, Tail;
    var a, b, c, d := PrefixInfos(ps), RouteInfos(iface.routes), ServerInfos(iface.servers), ListInfos(iface.lists);
    NoLink(ps, iface);
    LinksCat(b, c);
    LinksCat(b + c, d);
    LinksCat(b + c + d, Tail(iface));
    LinksCat(a, Rest(iface));
    LinkInTail(iface);
  }

  lemma LinksCat(os: seq<RaOption>, ps: seq<RaOption>)
    ensures LinksFit(os + ps) <==> LinksFit(os) && LinksFit(ps)
  {
    assert forall i :: 0 <= i < |os| ==> (os + ps)[i] == os[i];
    assert forall i :: 0 <= i < |ps| ==> (os + ps)[|os| + i] == ps[i];
  }

  lemma {:induction false} NoLink(ps: seq<Prefix>, iface: Interface)
    ensures LinksFit(PrefixInfos(ps)) && LinksFit(RouteInfos(iface.routes))
    ensures LinksFit(ServerInfos(iface.servers)) && LinksFit(ListInfos(iface.lists))
    decreases |ps|
  {
    if ps != [] {
      NoLink(ps[1..], iface);
      hide PrefixInfos, LinksFit, RouteInfos, ServerInfos, ListInfos;
      LinksCat(if ps[0].enabled then [PrefixInfo(ps[0])] else [], PrefixInfos(ps[1..]));
      OneLink(PrefixInfo(ps[0]));
      PrefixStep(ps);
    }
  }

  lemma PrefixStep(ps: seq<Prefix>)
    requires ps != []
    ensures PrefixInfos(ps) == (if ps[0].enabled then [PrefixInfo(ps[0])] else []) + PrefixInfos(ps[1..])
  {
  }

  lemma OneLink(o: RaOption)
    ensures LinksFit([]) && (LinksFit([o]) <==> (o.SourceLink? ==> (o.bits + 7) / 8 in [6, 14]))
  {
    assert [o][0] == o;
  }

  lemma LinkInTail(iface: Interface)
    ensures LinksFit(Tail(iface)) <==> (iface.sourceLink && iface.hwaddrLen > 0 ==>
                                        (iface.hwaddrLen + 7) / 8 in [6, 14])
  {
    hide LinksFit;
    var a := if iface.mtu != 0 then [LinkMtu(iface.mtu)] else [];
    var b := if iface.sourceLink && iface.hwaddrLen > 0 then [SourceLink(iface.hwaddr, iface.hwaddrLen)] else [];
    var c := if iface.interval.Some? then [Interval(iface.interval.value)] else [];
    var agent := HomeAgent(iface.mobile, iface.agentPreference, iface.agentLifetime);
    var d := if iface.homeAgentInfo && (iface.mobile || iface.agentPreference != 0
                                        || iface.agentLifetime != iface.lifetime)
             then [agent] else [];
    LinksCat(a, b);
    LinksCat(a + b, c);
    LinksCat(a + b + c, d);
    OneLink(LinkMtu(iface.mtu));
    if iface.hwaddrLen > 0 { OneLink(SourceLink(iface.hwaddr, iface.hwaddrLen)); }
    if iface.interval.Some? { OneLink(Interval(iface.interval.value)); }
    OneLink(agent);
  }

  // All suffixes of the search lists.
  function Suffixes(ds: seq<SearchList>): seq<seq<byte>> {
    if ds == [] then [] else ds[0].suffixes + Suffixes(ds[1..])
  }

  lemma {:induction false} NamesCat(os: seq<RaOption>, ps: seq<RaOption>)
    ensures Names(os + ps) == Names(os) + Names(ps)
    decreases |os|
  {
    if os == [] {
      assert os + ps == ps;
    } else {
      assert (os + ps)[1..] == os[1..] + ps;
      NamesCat(os[1..], ps);
    }
  }

  lemma {:induction false} NoNames(os: seq<RaOption>)
    requires forall i :: 0 <= i < |os| ==> !os[i].SearchNames?
    ensures Names(os) == []
    decreases |os|
  {
    if os != [] { NoNames(os[1..]); }
  }

  lemma {:induction false} NamesOfLists(ds: seq<SearchList>)
    ensures Names(ListInfos(ds)) == Suffixes(ds)
    decreases |ds|
  {
    if ds != [] {
      assert ListInfos(ds)[1..] == ListInfos(ds[1..]);
      NamesOfLists(ds[1..]);
    }
  }

  // The suffixes among all options are those of the search lists.
  lemma NamesOfOptions(iface: Interface, ps: seq<Prefix>)
    ensures Names(Options(iface, ps)) == Suffixes(iface.lists)
  {
    var a, b, c, d, t := PrefixInfos(ps), RouteInfos(iface.routes), ServerInfos(iface.servers),
        ListInfos(iface.lists), Tail(iface);
    OnlyPrefixes(ps);
    NoNames(a);
    NoNames(b);
    NoNames(c);
    NoNames(t);
    hide Names, PrefixInfos, RouteInfos, ServerInfos, ListInfos, Tail;
    NamesOfLists(iface.lists);
    NamesCat(b, c);
    NamesCat(b + c, d);
    NamesCat(b + c + d, t);
    NamesCat(a, b + c + d + t);
  }

  lemma {:induction false} OnlyPrefixes(ps: seq<Prefix>)
    ensures forall i :: 0 <= i < |PrefixInfos(ps)| ==> PrefixInfos(ps)[i].PrefixInfo?
  {
    if ps != [] { OnlyPrefixes(ps[1..]); }
  }

  // From each RDNSS option the message goes on for 56 bytes.
  ghost predicate ServersFit(os: seq<RaOption>, cease: bool) {
    forall i :: 0 <= i < |os| && os[i].NameServers? ==> |Join(Encoded(os, cease)[i..])| >= 56
  }

  // An advertisement is sent, and a neighbour reads it: all options are met exactly if the link-layer address and
  // the room behind the servers allow it, and then the suffixes are taken up exactly if they are plain.
  method SendThenRead(iface: Interface, prefixes: seq<AdvPrefix>, secs: nat, forwarding: bool)
    returns (ok: bool, met: seq<seq<byte>>, end: End, found: seq<seq<byte>>)
    requires forall i, j :: 0 <= i < j < |prefixes| ==> prefixes[i] != prefixes[j]
    requires AllStrings(Suffixes(iface.lists))
    modifies prefixes
    ensures ok ==> var os := Options(iface, Current(prefixes));
      && (met == Encoded(os, iface.cease) && end == Done <==>
          (iface.sourceLink && iface.hwaddrLen > 0 ==> (iface.hwaddrLen + 7) / 8 in [6, 14])
            && ServersFit(os, iface.cease))
      && (met == Encoded(os, iface.cease) && end == Done ==>
          (found == Suffixes(iface.lists) <==> AllPlain(Suffixes(iface.lists))))
  {
    hide *;
    var m;
    ok, m := SendRa(iface, prefixes, secs, forwarding);
    met, end, found := [], Done, [];
    if ok {
      ghost var ps := Current(prefixes);
      ghost var bytes := AllBytes(Options(iface, ps), iface.cease);
      var message := m.Packet();
      assert message[16..] == bytes;
      met, end, found := ProcessRa(message[16..]);
      SizeIs();
      SentIsMet(iface, ps);
      BytesAre(Options(iface, ps), iface.cease);
      FitIs(Options(iface, ps), iface.cease);
      NamesOfOptions(iface, ps);
      if met == Encoded(Options(iface, ps), iface.cease) && end == Done {
        NamesArrive(Options(iface, ps), iface.cease);
      }
    }
  }

  lemma SizeIs()
    ensures MSG_SIZE_SEND == 1452
  {
  }

  lemma BytesAre(os: seq<RaOption>, cease: bool)
    ensures AllBytes(os, cease) == Join(Encoded(os, cease))
  {
  }

  lemma FitIs(os: seq<RaOption>, cease: bool)
    ensures ServersFit(os, cease) <==> forall i :: 0 <= i < |os| && os[i].NameServers? ==>
            |Join(Encoded(os, cease)[i..])| >= 56
  {
  }
}
