/**
 The options of a router advertisement (external/radvd/send.c, external/radvd/defaults.h) and the walk over
 the options of one that is received (`process_ra` in external/radvd/process.c); section 4.6 of RFC 4861.
 */
module RaOptions {
  import opened Dnssl
  import opened Jffs2Format

  const SOURCE_LINKADDR: byte := 1
  const PREFIX_INFORMATION: byte := 3
  const MTU: byte := 5
  const RTR_ADV_INTERVAL: byte := 7
  const HOME_AGENT_INFO: byte := 8
  const ROUTE_INFORMATION: byte := 24
  const RDNSS_INFORMATION: byte := 25
  const DNSSL_INFORMATION: byte := 31

  const MIN_ADV_VALID_LIFETIME: nat := 7203

  type Addr = s: seq<byte> | |s| == 16 witness Zeros(16)

  // The configuration holds at most three servers.
  type Servers = s: seq<Addr> | |s| <= 3

  // Bits of a link-layer address; the buffer for it has 16 bytes, like an address.
  type Bits = x: nat | x <= 128

  type Half = x: nat | x < 0x1_0000

  function Zeros(n: nat): (z: seq<byte>)
    ensures |z| == n && forall i :: 0 <= i < n ==> z[i] == 0
  {
    seq(n, _ => 0)
  }

  // An option is as long as its length byte says, in units of eight bytes.
  predicate Framed(o: seq<byte>) {
    |o| >= 2 && 0 < |o| == 8 * o[1] as int
  }

  datatype Prefix = Prefix(
    addr: Addr, len: byte, onLink: bool, autonomous: bool, routerAddr: bool, enabled: bool,
    deprecate: bool, decrement: bool, valid: Word, preferred: Word)

  datatype Route = Route(addr: Addr, len: byte, preference: int, lifetime: Word, remove: bool)

  datatype Rdnss = Rdnss(addrs: Servers, lifetime: Word, flush: bool)

  datatype SearchList = SearchList(suffixes: seq<seq<byte>>, lifetime: Word, flush: bool)

  function Flag(on: bool, value: byte): byte {
    if on then value else 0
  }

  // The three highest bits of a byte of flags.
  function Flags(x: bool, y: bool, z: bool): (b: byte)
    ensures b <= 0xE0
  {
    Flag(x, 0x80) + Flag(y, 0x40) + Flag(z, 0x20)
  }

  // The two bits of a preference, in the middle of a byte.
  function PreferenceBits(preference: int): (b: byte)
    ensures b in [0, 8, 16, 24]
  {
    preference % 4 * 8
  }

  // `decrement_lifetime`
  function Decrement(lifetime: Word, secs: nat): (l: Word) {
    if lifetime > secs then lifetime - secs else 0
  }

  // A prefix, after its lifetimes are decremented.
  function Aged(p: Prefix, secs: nat, cease: bool): Prefix {
    if p.enabled && !(cease && p.deprecate) && p.decrement then
      p.(valid := Decrement(p.valid, secs), preferred := Decrement(p.preferred, secs))
    else p
  }

  function PrefixOption(p: Prefix, cease: bool): (o: seq<byte>)
    ensures Framed(o) && o[0] == PREFIX_INFORMATION && |o| == 32
  {
    var valid, preferred := if cease && p.deprecate then MIN_ADV_VALID_LIFETIME else p.valid, if cease
        && p.deprecate then 0 else p.preferred;
    [PREFIX_INFORMATION, 4, p.len, Flags(p.onLink, p.autonomous, p.routerAddr)]
    + Put32(valid, Big) + Put32(preferred, Big) + Zeros(4) + p.addr
  }

  function RouteOption(r: Route, cease: bool): (o: seq<byte>)
    ensures Framed(o) && o[0] == ROUTE_INFORMATION && |o| == 24
  {
    [ROUTE_INFORMATION, 3, r.len, PreferenceBits(r.preference)]
      + Put32(if cease && r.remove then 0 else r.lifetime, Big) + r.addr
  }

  function Addrs(addrs: seq<Addr>): (b: seq<byte>)
    ensures |b| == 16 * |addrs|
  {
    if addrs == [] then [] else addrs[0] + Addrs(addrs[1..])
  }

  function RdnssOption(r: Rdnss, cease: bool): (o: seq<byte>)
    ensures Framed(o) && o[0] == RDNSS_INFORMATION && |o| == 8 + 16 * |r.addrs|
  {
    [RDNSS_INFORMATION, 1 + 2 * |r.addrs|, 0, 0] + Put32(if cease && r.flush then 0 else r.lifetime, Big)
      + Addrs(r.addrs)
  }

  // Up to the next multiple of eight.
  function ToEight(n: nat): (z: nat)
    ensures z < 8 && (n + z) % 8 == 0
  {
    (8 - n % 8) % 8
  }

  // A length in units of eight bytes, as a byte.
  function Units(n: nat): (u: byte)
    ensures u == n / 8 % 256 && (n % 8 == 0 && n < 2048 ==> 8 * u as int == n)
  {
    n / 8 % 256
  }

  // The length byte counts the padding.
  function DnsslOption(d: SearchList, cease: bool): (o: seq<byte>)
    ensures |o| >= 8 && |o| % 8 == 0 && o[0] == DNSSL_INFORMATION && o[1] == Units(|o|)
    ensures |o| < 2048 ==> Framed(o)
  {
    var names := EncodeAll(d.suffixes);
    var z := ToEight(|names|);
    [DNSSL_INFORMATION, Units(8 + |names| + z), 0, 0] + Put32(if cease && d.flush then 0 else d.lifetime, Big) + names
      + Zeros(z)
  }

  function MtuOption(mtu: Word): (o: seq<byte>)
    ensures Framed(o) && o[0] == MTU && |o| == 8
  {
    [MTU, 1, 0, 0] + Put32(mtu, Big)
  }

  // The source link-layer address, of `bits` bits; it is not padded.
  function LinkOption(hwaddr: Addr, bits: Bits): (o: seq<byte>)
    ensures |o| == 2 + (bits + 7) / 8 && o[0] == SOURCE_LINKADDR
  {
    [SOURCE_LINKADDR, (bits + 16 + 63) / 64 % 256] + hwaddr[..(bits + 7) / 8]
  }

  // It is framed exactly when type, length and address fill whole units of eight bytes.
  lemma LinkFramed(hwaddr: Addr, bits: Bits)
    ensures Framed(LinkOption(hwaddr, bits)) <==> (bits + 7) / 8 in [6, 14]
  {
    var k := (bits + 7) / 8;
    assert 8 * k - 7 <= bits <= 8 * k;
    assert (bits + 79) / 64 < 256;
  }

  function IntervalOption(ival: Word): (o: seq<byte>)
    ensures Framed(o) && o[0] == RTR_ADV_INTERVAL && |o| == 8
  {
    [RTR_ADV_INTERVAL, 1, 0, 0] + Put32(ival, Big)
  }

  function HomeAgentOption(mobile: bool, preference: Half, lifetime: int): (o: seq<byte>)
    ensures Framed(o) && o[0] == HOME_AGENT_INFO && |o| == 8
  {
    [HOME_AGENT_INFO, 1, Flag(mobile, 0x80), 0] + Put16(preference, Big) + Put16(lifetime % 0x1_0000, Big)
  }

  datatype RaOption =
    | PrefixInfo(prefix: Prefix)
    | RouteInfo(route: Route)
    | NameServers(rdnss: Rdnss)
    | SearchNames(list: SearchList)
    | LinkMtu(mtu: Word)
    | SourceLink(hwaddr: Addr, bits: Bits)
    | Interval(ival: Word)
    | HomeAgent(mobile: bool, preference: Half, lifetime: int)

  // An option as it is sent; `cease` if the router stops advertising.
  function Bytes(o: RaOption, cease: bool): (b: seq<byte>)
    ensures |b| >= 2
    ensures b[0] == DNSSL_INFORMATION <==> o.SearchNames?
    ensures b[0] == RDNSS_INFORMATION <==> o.NameServers?
    ensures Need(b[0]) <= |b| || o.NameServers?
  {
    match o
    case PrefixInfo(p) => PrefixOption(p, cease)
    case RouteInfo(r) => RouteOption(r, cease)
    case NameServers(r) => RdnssOption(r, cease)
    case SearchNames(d) => DnsslOption(d, cease)
    case LinkMtu(mtu) => MtuOption(mtu)
    case SourceLink(hwaddr, bits) => LinkOption(hwaddr, bits)
    case Interval(ival) => IntervalOption(ival)
    case HomeAgent(mobile, preference, lifetime) => HomeAgentOption(mobile, preference, lifetime)
  }

  lemma BytesList(o: RaOption, cease: bool)
    requires o.SearchNames?
    ensures Bytes(o, cease) == DnsslOption(o.list, cease)
  {
  }

  function Encoded(os: seq<RaOption>, cease: bool): (bs: seq<seq<byte>>)
    ensures |bs| == |os| && forall i :: 0 <= i < |os| ==> bs[i] == Bytes(os[i], cease) && bs[i] != []
  {
    seq(|os|, i requires 0 <= i < |os| => Bytes(os[i], cease))
  }

  // A bit of the flags.
  predicate Bit(b: byte, value: nat)
    requires value > 0
  {
    b as int / value % 2 == 1
  }

  lemma FlagsRead(managed: bool, other: bool, homeAgent: bool, preference: int)
    ensures var b := Flags(managed, other, homeAgent) + PreferenceBits(preference);
      && (Bit(b, 0x80) <==> managed) && (Bit(b, 0x40) <==> other) && (Bit(b, 0x20) <==> homeAgent)
      && b as int / 8 % 4 == preference % 4
  {
    hide PreferenceBits;
    PreferenceIs(preference);
  }

  lemma PreferenceIs(preference: int)
    ensures PreferenceBits(preference) as int == 8 * (preference % 4)
  {
  }

  lemma WordAt(a: seq<byte>, v: Word, b: seq<byte>)
    ensures Get32(a + Put32(v, Big) + b, |a|, Big) == v
  {
    var m := a + Put32(v, Big) + b;
    assert m[|a|..|a| + 4] == Put32(v, Big);
    At32(m, |a|, v, Big);
  }

  lemma HalfAt(a: seq<byte>, v: nat, b: seq<byte>)
    requires v < 0x1_0000
    ensures Get16(a + Put16(v, Big) + b, |a|, Big) == v
  {
    var m := a + Put16(v, Big) + b;
    assert m[|a|..|a| + 2] == Put16(v, Big);
    At16(m, |a|, v, Big);
  }

  // What a neighbour reads in a prefix option is the prefix, its flags, and its lifetimes; those of a prefix
  // that is given up are two hours and a bit, and zero.
  lemma PrefixRead(p: Prefix, cease: bool)
    ensures var o := PrefixOption(p, cease); var gone := cease && p.deprecate;
      && o[2] == p.len && o[16..32] == p.addr
      && (Bit(o[3], 0x80) <==> p.onLink) && (Bit(o[3], 0x40) <==> p.autonomous) && (Bit(o[3], 0x20) <==> p.routerAddr)
      && Get32(o, 4, Big) == (if gone then MIN_ADV_VALID_LIFETIME else p.valid)
      && Get32(o, 8, Big) == (if gone then 0 else p.preferred)
  {
    hide *;
    PrefixIs(p, cease);
    FlagsRead(p.onLink, p.autonomous, p.routerAddr, 0);
    PreferenceIs(0);
    PrefixParts(p.len, Flags(p.onLink, p.autonomous, p.routerAddr),
                if cease && p.deprecate then MIN_ADV_VALID_LIFETIME else p.valid, if cease
                  && p.deprecate then 0 else p.preferred, p.addr);
  }

  // (Unfolds the definition.)
  lemma PrefixIs(p: Prefix, cease: bool)
    ensures MIN_ADV_VALID_LIFETIME <= UINT32_MAX
    ensures PrefixOption(p, cease) ==
            [PREFIX_INFORMATION, 4, p.len, Flags(p.onLink, p.autonomous, p.routerAddr)]
            + Put32(if cease && p.deprecate then MIN_ADV_VALID_LIFETIME else p.valid, Big)
            + Put32(if cease && p.deprecate then 0 else p.preferred, Big) + Zeros(4) + p.addr
  {
  }

  lemma PrefixParts(len: byte, flags: byte, valid: Word, preferred: Word, addr: Addr)
    ensures var o := [PREFIX_INFORMATION, 4, len, flags] + Put32(valid, Big) + Put32(preferred, Big) + Zeros(4) + addr;
      o[2] == len && o[3] == flags && o[16..32] == addr && Get32(o, 4, Big) == valid && Get32(o, 8, Big) == preferred
  {
    hide Put32, Get32, Zeros;
    var head := [PREFIX_INFORMATION, 4, len, flags];
    var o := head + Put32(valid, Big) + Put32(preferred, Big) + Zeros(4) + addr;
    assert o == head + Put32(valid, Big) + (Put32(preferred, Big) + Zeros(4) + addr);
    assert o == head + Put32(valid, Big) + Put32(preferred, Big) + (Zeros(4) + addr);
    WordAt(head, valid, Put32(preferred, Big) + Zeros(4) + addr);
    WordAt(head + Put32(valid, Big), preferred, Zeros(4) + addr);
  }

  lemma RouteRead(r: Route, cease: bool)
    ensures var o := RouteOption(r, cease);
      && o[2] == r.len && o[3] as int / 8 == r.preference % 4 && o[8..24] == r.addr
      && Get32(o, 4, Big) == (if cease && r.remove then 0 else r.lifetime)
  {
    var o := RouteOption(r, cease);
    hide Put32, Get32;
    var lifetime := if cease && r.remove then 0 else r.lifetime;
    assert o == o[..4] + Put32(lifetime, Big) + r.addr;
    WordAt(o[..4], lifetime, r.addr);
  }

  lemma {:induction false} AddrsAt(addrs: seq<Addr>, i: nat)
    requires i < |addrs|
    ensures 16 * i + 16 <= |Addrs(addrs)| && Addrs(addrs)[16 * i..16 * i + 16] == addrs[i]
    decreases i
  {
    if i > 0 {
      AddrsAt(addrs[1..], i - 1);
      var rest := Addrs(addrs[1..]);
      assert Addrs(addrs)[16 * i..16 * i + 16] == rest[16 * (i - 1)..16 * (i - 1) + 16];
    }
  }

  // The servers are where `process_ra` looks for them, and their number is what it takes from the length.
  lemma ServersRead(r: Rdnss, cease: bool, i: nat)
    requires i < |r.addrs|
    ensures var o := RdnssOption(r, cease);
      && o[1] == 1 + 2 * |r.addrs| && o[8 + 16 * i..24 + 16 * i] == r.addrs[i]
      && Get32(o, 4, Big) == (if cease && r.flush then 0 else r.lifetime)
  {
    var o := RdnssOption(r, cease);
    ServersLifetime(r, cease);
    hide Put32, Get32, Addrs;
    AddrsAt(r.addrs, i);
    assert o[8 + 16 * i..24 + 16 * i] == Addrs(r.addrs)[16 * i..16 * i + 16];
  }

  lemma ServersLifetime(r: Rdnss, cease: bool)
    ensures Get32(RdnssOption(r, cease), 4, Big) == (if cease && r.flush then 0 else r.lifetime)
  {
    var o := RdnssOption(r, cease);
    hide Put32, Get32, Addrs;
    assert o == o[..4] + Put32(if cease && r.flush then 0 else r.lifetime, Big) + Addrs(r.addrs);
    WordAt(o[..4], if cease && r.flush then 0 else r.lifetime, Addrs(r.addrs));
  }

  // The single options.
  lemma SinglesRead(mtu: Word, ival: Word, mobile: bool, preference: Half, lifetime: int, hwaddr: Addr, bits: Bits)
    ensures Get32(MtuOption(mtu), 4, Big) == mtu && Get32(IntervalOption(ival), 4, Big) == ival
    ensures LinkOption(hwaddr, bits)[2..] == hwaddr[..(bits + 7) / 8]
    ensures var o := HomeAgentOption(mobile, preference, lifetime);
      (Bit(o[2], 0x80) <==> mobile) && Get16(o, 4, Big) == preference && Get16(o, 6, Big) == lifetime % 0x1_0000
  {
    var o := HomeAgentOption(mobile, preference, lifetime);
    hide Put32, Get32, Put16, Get16;
    assert MtuOption(mtu) == [MTU, 1, 0, 0] + Put32(mtu, Big) + [];
    WordAt([MTU, 1, 0, 0], mtu, []);
    assert IntervalOption(ival) == [RTR_ADV_INTERVAL, 1, 0, 0] + Put32(ival, Big) + [];
    WordAt([RTR_ADV_INTERVAL, 1, 0, 0], ival, []);
    assert o == o[..4] + Put16(preference, Big) + Put16(lifetime % 0x1_0000, Big);
    HalfAt(o[..4], preference, Put16(lifetime % 0x1_0000, Big));
    assert o == o[..4] + Put16(preference, Big) + Put16(lifetime % 0x1_0000, Big) + [];
    HalfAt(o[..4] + Put16(preference, Big), lifetime % 0x1_0000, []);
  }

  // A search list: the names behind its lifetime, and zeros up to the next multiple of eight.
  lemma ListRead(d: SearchList, cease: bool)
    ensures var o := DnsslOption(d, cease); var n := |EncodeAll(d.suffixes)|;
      && o[1] as int == |o| / 8 % 256 && 8 + n <= |o| < 16 + n && |o| % 8 == 0
      && Get32(o, 4, Big) == (if cease && d.flush then 0 else d.lifetime)
      && o[8..8 + n] == EncodeAll(d.suffixes) && forall i :: 8 + n <= i < |o| ==> o[i] == 0
  {
    var o := DnsslOption(d, cease);
    hide Put32, Get32, EncodeAll;
    var lifetime := if cease && d.flush then 0 else d.lifetime;
    var names := EncodeAll(d.suffixes);
    var head: seq<byte> := o[..4];
    assert o == head + Put32(lifetime, Big) + (names + Zeros(ToEight(|names|)));
    WordAt(head, lifetime, names + Zeros(ToEight(|names|)));
  }

  // Every option is read as it was meant, its kind by the number that section 4.6 of RFC 4861 and its successors
  // give it.
  lemma OptionRead(o: RaOption, cease: bool)
    ensures var b := Bytes(o, cease);
      match o
      case PrefixInfo(p) =>
        b[0] == 3 && b[1] == 4 && |b| == 32 && b[2] == p.len && b[16..] == p.addr
        && (Bit(b[3], 0x80) <==> p.onLink) && (Bit(b[3], 0x40) <==> p.autonomous)
        && (Bit(b[3], 0x20) <==> p.routerAddr)
        && Get32(b, 4, Big) == (if cease && p.deprecate then 7203 else p.valid)
        && Get32(b, 8, Big) == (if cease && p.deprecate then 0 else p.preferred)
      case RouteInfo(r) =>
        b[0] == 24 && b[1] == 3 && |b| == 24 && b[2] == r.len && b[3] as int / 8 == r.preference % 4
        && b[8..] == r.addr && Get32(b, 4, Big) == (if cease && r.remove then 0 else r.lifetime)
      case NameServers(r) =>
        b[0] == 25 && b[1] == 1 + 2 * |r.addrs| && |b| == 8 + 16 * |r.addrs|
        && Get32(b, 4, Big) == (if cease && r.flush then 0 else r.lifetime)
        && forall i :: 0 <= i < |r.addrs| ==> b[8 + 16 * i..24 + 16 * i] == r.addrs[i]
      case SearchNames(d) => b[0] == 31 && b == DnsslOption(d, cease)
      case LinkMtu(mtu) => b[0] == 5 && b[1] == 1 && |b| == 8 && Get32(b, 4, Big) == mtu
      case SourceLink(hwaddr, bits) =>
        b[0] == 1 && b[1] as int == (bits + 79) / 64 && b[2..] == hwaddr[..(bits + 7) / 8]
      case Interval(ival) => b[0] == 7 && b[1] == 1 && |b| == 8 && Get32(b, 4, Big) == ival
      case HomeAgent(mobile, preference, lifetime) =>
        b[0] == 8 && b[1] == 1 && |b| == 8 && (Bit(b[2], 0x80) <==> mobile)
        && Get16(b, 4, Big) == preference && Get16(b, 6, Big) == lifetime % 0x1_0000
  {
    hide Put32, Get32, Put16, Get16, Addrs, Bit, Flags;
    match o {
      case PrefixInfo(p) => PrefixRead(p, cease);
      case RouteInfo(r) => RouteRead(r, cease);
      case NameServers(r) =>
        assert RdnssOption(r, cease)[1] == 1 + 2 * |r.addrs|;
        forall i: nat | i < |r.addrs|
          ensures RdnssOption(r, cease)[8 + 16 * i..24 + 16 * i] == r.addrs[i]
        {
          ServersRead(r, cease, i);
        }
        ServersLifetime(r, cease);
      case SearchNames(d) =>
      case LinkMtu(mtu) => SinglesRead(mtu, 0, false, 0, 0, Zeros(16), 0);
      case SourceLink(hwaddr, bits) => SinglesRead(0, 0, false, 0, 0, hwaddr, bits);
      case Interval(ival) => SinglesRead(0, ival, false, 0, 0, Zeros(16), 0);
      case HomeAgent(mobile, preference, lifetime) => SinglesRead(0, 0, mobile, preference, lifetime, Zeros(16), 0);
    }
  }

  // The options one after the other.
  function Join(os: seq<seq<byte>>): seq<byte> {
    if os == [] then [] else os[0] + Join(os[1..])
  }

  lemma {:induction false} JoinCat(os: seq<seq<byte>>, ps: seq<seq<byte>>)
    ensures Join(os + ps) == Join(os) + Join(ps)
  {
    if os == [] {
      assert os + ps == ps;
    } else {
      assert (os + ps)[1..] == os[1..] + ps;
      JoinCat(os[1..], ps);
    }
  }

  datatype End = Done | Garbage | ZeroLength | TooLong | Returned

  // The options that are met, and how it ends.
  datatype Walk = Walk(met: seq<seq<byte>>, end: End)

  // The size of the structure an option of type `t` is read as; the message must go on for that long.
  // For RDNSS it is the structure with three addresses.
  function Need(t: byte): nat {
    if t == MTU then 8 else if t == PREFIX_INFORMATION then 32 else if t == RDNSS_INFORMATION then 56
    else if t == DNSSL_INFORMATION then 8 else 0
  }

  function Meet(o: seq<byte>, w: Walk): Walk {
    w.(met := [o] + w.met)
  }

  function WalkOptions(m: seq<byte>): (w: Walk) {
    if m == [] then Walk([], Done)
    else if |m| < 2 then Walk([], Garbage)
    else
      var l := 8 * m[1] as int;
      if l == 0 then Walk([], ZeroLength)
      else if l > |m| then Walk([], TooLong)
      else if |m| < Need(m[0]) then Walk([], Returned)
      else Meet(m[..l], WalkOptions(m[l..]))
  }

  // An option that stands at the start of `m` and of which the walk reads no more than is there.
  predicate Readable(m: seq<byte>) {
    && |m| >= 2 && 0 < 8 * m[1] as int <= |m| && (m[0] == 3 ==> |m| >= 32) && (m[0] in [5, 31] ==> |m| >= 8)
    && (m[0] == 25 ==> |m| >= 56)
  }

  // How a walk ends that stops in front of `rest`.
  predicate EndsAt(rest: seq<byte>, end: End) {
    && (end == Done <==> rest == []) && (end == Garbage <==> |rest| == 1)
    && (end == ZeroLength <==> |rest| >= 2 && rest[1] == 0)
    && (end == TooLong <==> |rest| >= 2 && 8 * rest[1] as int > |rest|)
  }

  // The walk over any bytes: what it meets are the options from the start on, each as long as it says and with what
  // is behind it long enough to be read, up to the first of which this is not so; and that decides how the walk ends.
  lemma {:induction false} WalkMeans(m: seq<byte>)
    ensures var w := WalkOptions(m); var n := |Join(w.met)|;
      && n <= |m| && m[..n] == Join(w.met) && EndsAt(m[n..], w.end) && !Readable(m[n..])
      && forall i :: 0 <= i < |w.met| ==> Framed(w.met[i]) && Readable(Join(w.met[i..]) + m[n..])
  {
    hide *;
    WalkOne(m);
    if Readable(m) {
      var l := 8 * m[1] as int;
      WalkMeans(m[l..]);
      FramedPart(m, l);
      var met := WalkOptions(m[l..]).met;
      JoinMore(m[..l], met);
      var n := |Join(met)|;
      assert m[l..][n..] == m[l + n..] && m == m[..l] + m[l..];
      ReadableMore(m, l, met, m[l + n..]);
    } else {
      JoinMore([], []);
      assert m[0..] == m && m[..0] == [];
    }
  }

  // (Unfolds the definition.)
  lemma WalkOne(m: seq<byte>)
    ensures Readable(m) ==>
      8 <= 8 * m[1] as int <= |m|
      && WalkOptions(m).met == [m[..8 * m[1] as int]] + WalkOptions(m[8 * m[1] as int..]).met
      && WalkOptions(m).end == WalkOptions(m[8 * m[1] as int..]).end
    ensures !Readable(m) ==> WalkOptions(m).met == [] && EndsAt(m, WalkOptions(m).end)
  {
  }

  lemma JoinMore(o: seq<byte>, os: seq<seq<byte>>)
    ensures Join([o] + os) == o + Join(os) && Join([]) == []
  {
    assert ([o] + os)[1..] == os;
  }

  lemma ReadableMore(m: seq<byte>, l: nat, met: seq<seq<byte>>, rest: seq<byte>)
    requires l <= |m| && Framed(m[..l]) && m == m[..l] + (Join(met) + rest) && Readable(m)
    requires forall i :: 0 <= i < |met| ==> Framed(met[i]) && Readable(Join(met[i..]) + rest)
    ensures var os := [m[..l]] + met;
      forall i :: 0 <= i < |os| ==> Framed(os[i]) && Readable(Join(os[i..]) + rest)
  {
    hide *;
    var os := [m[..l]] + met;
    JoinMore(m[..l], met);
    assert m[..l] + Join(met) + rest == m;
    forall i | 0 <= i < |os| ensures Framed(os[i]) && Readable(Join(os[i..]) + rest) {
      if i == 0 {
        assert os[0..] == os;
      } else {
        assert os[i..] == met[i - 1..] && os[i] == met[i - 1];
      }
    }
  }

  lemma FramedPart(m: seq<byte>, l: nat)
    requires |m| >= 2 && 0 < l == 8 * m[1] as int <= |m|
    ensures Framed(m[..l])
  {
  }

  // Behind the start of each option there is room for the structure it is read as.
  predicate Room(os: seq<seq<byte>>)
    requires forall i :: 0 <= i < |os| ==> os[i] != []
  {
    os != [] ==> Need(os[0][0]) <= |Join(os)| && Room(os[1..])
  }

  lemma WalkFirst(o: seq<byte>, rest: seq<byte>)
    requires Framed(o)
    ensures WalkOptions(o + rest) == if |o + rest| < Need(o[0]) then Walk([], Returned) else Meet(o, WalkOptions(rest))
  {
    assert (o + rest)[..|o|] == o && (o + rest)[|o|..] == rest;
  }

  lemma {:induction false} WalkFramed(m: seq<byte>)
    ensures forall o :: o in WalkOptions(m).met ==> Framed(o)
    decreases |m|
  {
    if |m| >= 2 {
      var l := 8 * m[1] as int;
      if 0 < l <= |m| {
        WalkFramed(m[l..]);
      }
    }
  }

  lemma {:induction false} WalkFound(os: seq<seq<byte>>)
    requires forall i :: 0 <= i < |os| ==> os[i] != [] && Framed(os[i])
    ensures WalkOptions(Join(os)) == Walk(os, Done) <==> Room(os)
    ensures WalkOptions(Join(os)).met <= os && WalkOptions(Join(os)).end in [Done, Returned]
  {
    if os != [] {
      hide WalkOptions;
      WalkFirst(os[0], Join(os[1..]));
      WalkFound(os[1..]);
      assert os == [os[0]] + os[1..];
    }
  }

  // The walk meets all options, each as it was made and in order, and ends with nothing left, exactly
  // when every option has the length it says and there is room for the structures they are read as.
  lemma WalkMeets(os: seq<seq<byte>>)
    requires forall i :: 0 <= i < |os| ==> os[i] != []
    ensures WalkOptions(Join(os)) == Walk(os, Done) <==> (forall i :: 0 <= i < |os| ==> Framed(os[i])) && Room(os)
  {
    hide WalkOptions, Framed;
    WalkFramed(Join(os));
    if forall i :: 0 <= i < |os| ==> Framed(os[i]) {
      WalkFound(os);
    } else {
      var i :| 0 <= i < |os| && !Framed(os[i]);
      assert os[i] in os;
    }
  }

  lemma {:induction false} JoinPart(os: seq<seq<byte>>, i: nat)
    requires i < |os|
    ensures |os[i]| <= |Join(os[i..])| <= |Join(os)|
    decreases i
  {
    if i > 0 {
      assert os[i..] == os[1..][i - 1..];
      JoinPart(os[1..], i - 1);
    }
  }

  lemma BytesFramed(o: RaOption, cease: bool)
    requires |Bytes(o, cease)| < 2048
    ensures Framed(Bytes(o, cease)) <==> (o.SourceLink? ==> (o.bits + 7) / 8 in [6, 14])
  {
    hide Framed;
    if o.SourceLink? { LinkFramed(o.hwaddr, o.bits); }
  }

  lemma {:induction false} RoomParts(os: seq<seq<byte>>)
    requires forall i :: 0 <= i < |os| ==> os[i] != []
    ensures Room(os) <==> forall i :: 0 <= i < |os| ==> Need(os[i][0]) <= |Join(os[i..])|
  {
    if os != [] {
      hide Need, Join;
      RoomParts(os[1..]);
      forall i | 0 < i < |os|
        ensures os[i..] == os[1..][i - 1..] && os[i] == os[1..][i - 1]
      {
      }
      assert os[0..] == os;
      if Room(os) {
        forall i | 0 <= i < |os|
          ensures Need(os[i][0]) <= |Join(os[i..])|
        {
          if i > 0 { assert Need(os[1..][i - 1][0]) <= |Join(os[1..][i - 1..])|; }
        }
      } else if Need(os[0][0]) <= |Join(os)| {
        var i :| 0 <= i < |os[1..]| && !(Need(os[1..][i][0]) <= |Join(os[1..][i..])|);
        assert os[i + 1..] == os[1..][i..];
      }
    }
  }

  // Only the servers need room behind them.
  lemma RoomIs(os: seq<RaOption>, cease: bool)
    ensures Room(Encoded(os, cease)) <==> forall i :: 0 <= i < |os| && os[i].NameServers? ==>
            |Join(Encoded(os, cease)[i..])| >= 56
  {
    hide Room, Join, Bytes, Encoded;
    var bs := Encoded(os, cease);
    RoomParts(bs);
    forall i | 0 <= i < |os|
      ensures Need(bs[i][0]) <= |Join(bs[i..])| <==> (os[i].NameServers? ==> |Join(bs[i..])| >= 56)
    {
      JoinPart(bs, i);
    }
  }

  // A link-layer address has 6 or 14 bytes.
  predicate LinksFit(os: seq<RaOption>) {
    forall i :: 0 <= i < |os| && os[i].SourceLink? ==> (os[i].bits + 7) / 8 in [6, 14]
  }

  // The options of an advertisement that fits the buffer are all met, in order and up to the end, exactly
  // when the link-layer address has 6 or 14 bytes and the message goes on for 56 bytes from the start of each
  // RDNSS option.
  lemma AdvertWalk(os: seq<RaOption>, cease: bool)
    requires |Join(Encoded(os, cease))| < 2048
    ensures WalkOptions(Join(Encoded(os, cease))) == Walk(Encoded(os, cease), Done) <==>
            && LinksFit(os)
            && (forall i :: 0 <= i < |os| && os[i].NameServers? ==> |Join(Encoded(os, cease)[i..])| >= 56)
  {
    hide WalkOptions, Framed, Room, Join, Bytes, Encoded;
    var bs := Encoded(os, cease);
    WalkMeets(bs);
    RoomIs(os, cease);
    forall i | 0 <= i < |os|
      ensures Framed(bs[i]) <==> (os[i].SourceLink? ==> (os[i].bits + 7) / 8 in [6, 14])
    {
      JoinPart(bs, i);
      BytesFramed(os[i], cease);
    }
  }

  // A lone RDNSS option with fewer than three servers is not looked at.
  lemma FewServers(r: Rdnss, cease: bool)
    requires |r.addrs| < 3
    ensures WalkOptions(RdnssOption(r, cease)) == Walk([], Returned)
  {
    hide RdnssOption;
  }

  // A link-layer address of eight bytes is taken for garbage.
  lemma LongLink(hwaddr: Addr)
    ensures WalkOptions(LinkOption(hwaddr, 64)) == Walk([], TooLong)
  {
  }
}
