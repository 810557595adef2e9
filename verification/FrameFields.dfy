/** Where the classifier finds its fields in the bytes of a frame. */
module FrameFields {
  import opened Bytes
  import opened Classifier
  import TcpChecksum

  const ETH: nat := 14
  const ARP_TYPE: u16 := 0x0806
  const VLAN_TYPE: u16 := 0x8100
  const IPV4_TYPE: u16 := 0x0800

  /** Two and four bytes as the little-endian host loads them. */
  function Load16(s: seq<byte>): u16
    requires |s| == 2
  {
    Be16(s[1], s[0])
  }

  function Load32(s: seq<byte>): bv32
    requires |s| == 4
  {
    FromLe32(s) as bv32
  }

  /** The fields read from the IP header at byte `at`; it is taken to have 20 bytes. */
  function IpAt(b: seq<byte>, at: nat): Ip
    requires at + 20 <= |b|
  {
    Ip(b[at + 9], Load32(b[at + 12..at + 16]), Load32(b[at + 16..at + 20]), b[at + 1])
  }

  function PortAt(b: seq<byte>, at: nat): u16
    requires at + 2 <= |b|
  {
    Load16(b[at..at + 2])
  }

  /** The buffer holds every byte the classifier looks at. */
  predicate Holds(b: seq<byte>) {
    && |b| >= ETH
    && (Field16(b, 12) == VLAN_TYPE ==> |b| >= ETH + 28)
    && (Field16(b, 12) == IPV4_TYPE ==> |b| >= ETH + 24)
    && (Field16(b, 12) == IPV4_TYPE && b[ETH + 9] == GRE ==> |b| >= ETH + TcpChecksum.GreLen(b) + 24)
  }

  /** Behind a VLAN tag everything stands four bytes further; behind GRE and its optional fields there is an
      inner header. */
  function Parsed(b: seq<byte>): Frame
    requires Holds(b)
  {
    if Field16(b, 12) == ARP_TYPE then Arp
    else if Field16(b, 12) == VLAN_TYPE then
      Tagged(Field16(b, ETH), IpAt(b, ETH + 4), PortAt(b, ETH + 24), PortAt(b, ETH + 26))
    else if Field16(b, 12) == IPV4_TYPE then
      var ip, sport, dport := IpAt(b, ETH), PortAt(b, ETH + 20), PortAt(b, ETH + 22);
      if ip.proto == GRE then
        var at := ETH + TcpChecksum.GreLen(b);
        Untagged(ip, sport, dport, IpAt(b, at), PortAt(b, at + 20), PortAt(b, at + 22))
      else Untagged(ip, sport, dport, ip, sport, dport)
    else Other
  }

  // ---------------------------------------------------------------- what a sender puts where

  type Four = s: seq<byte> | |s| == 4 witness [0, 0, 0, 0]

  /** An IP header without options, field by field; `mid` and `check` are the fields the classifier does not read. */
  datatype Header = Header(first: byte, tos: byte, mid: seq<byte>, proto: byte, check: seq<byte>, src: Four, dst: Four)

  predicate Regular(h: Header) {
    |h.mid| == 7 && |h.check| == 2
  }

  function HeaderBytes(h: Header): (s: seq<byte>)
    requires Regular(h)
    ensures |s| == 20
  {
    [h.first, h.tos] + h.mid + [h.proto] + h.check + h.src + h.dst
  }

  function IpOf(h: Header): Ip {
    Ip(h.proto, Load32(h.src), Load32(h.dst), h.tos)
  }

  lemma {:induction false} HeaderRead(a: seq<byte>, h: Header, r: seq<byte>)
    requires Regular(h)
    ensures IpAt(a + HeaderBytes(h) + r, |a|) == IpOf(h)
  {
    hide Load32;
    var s, b := HeaderBytes(h), a + HeaderBytes(h) + r;
    assert s[1] == h.tos && s[9] == h.proto && s[12..16] == h.src && s[16..20] == h.dst;
    assert b[|a| + 1] == s[1] && b[|a| + 9] == s[9];
    assert b[|a| + 12..|a| + 16] == s[12..16] && b[|a| + 16..|a| + 20] == s[16..20];
  }

  lemma {:induction false} PortsRead(a: seq<byte>, ports: Four, r: seq<byte>)
    ensures var b := a + ports + r;
            PortAt(b, |a|) == Load16(ports[..2]) && PortAt(b, |a| + 2) == Load16(ports[2..])
  {
    hide Load16;
    var b := a + ports + r;
    assert b[|a|..|a| + 2] == ports[..2] && b[|a| + 2..|a| + 4] == ports[2..];
  }

  /** An untagged frame whose protocol is not GRE. */
  lemma {:induction false} PlainParsed(macs: seq<byte>, h: Header, ports: Four, rest: seq<byte>)
    requires |macs| == 12 && Regular(h) && h.proto != GRE
    ensures var b := macs + [8, 0] + HeaderBytes(h) + (ports + rest);
            var sport, dport := Load16(ports[..2]), Load16(ports[2..]);
            Holds(b) && Parsed(b) == Untagged(IpOf(h), sport, dport, IpOf(h), sport, dport)
  {
    hide HeaderBytes, IpAt, PortAt, Load16, IpOf;
    var a := macs + [8, 0];
    var b := a + HeaderBytes(h) + (ports + rest);
    assert b[12] == 8 && b[13] == 0;
    HeaderRead(a, h, ports + rest);
    ProtoRead(a, h, ports + rest);
    PortsRead(a + HeaderBytes(h), ports, rest);
    assert b == (a + HeaderBytes(h)) + ports + rest;
  }

  lemma {:induction false} ProtoRead(a: seq<byte>, h: Header, r: seq<byte>)
    requires Regular(h)
    ensures (a + HeaderBytes(h) + r)[|a| + 9] == h.proto && IpOf(h).proto == h.proto
  {
    assert HeaderBytes(h)[9] == h.proto;
  }

  /** A tagged frame. */
  lemma {:induction false} TaggedParsed(
    macs: seq<byte>, hi: byte, lo: byte, next: seq<byte>, h: Header, ports: Four, rest: seq<byte>)
    requires |macs| == 12 && |next| == 2 && Regular(h)
    ensures var b := macs + [0x81, 0, hi, lo] + next + HeaderBytes(h) + (ports + rest);
            Holds(b) && Parsed(b) == Tagged(Be16(hi, lo), IpOf(h), Load16(ports[..2]), Load16(ports[2..]))
  {
    hide HeaderBytes, IpAt, PortAt, Load16, IpOf;
    var a := macs + [0x81, 0, hi, lo] + next;
    var b := a + HeaderBytes(h) + (ports + rest);
    assert b[12] == 0x81 && b[13] == 0 && b[14] == hi && b[15] == lo;
    HeaderRead(a, h, ports + rest);
    PortsRead(a + HeaderBytes(h), ports, rest);
    assert b == (a + HeaderBytes(h)) + ports + rest;
  }

  /** The first GRE byte: whether checksum, routing, key and sequence number are present, and four other bits. */
  datatype GreFlags = GreFlags(checksum: bool, routing: bool, key: bool, sequence: bool, others: byte)

  function Have(present: bool): nat {
    if present then 1 else 0
  }

  function FlagByte(g: GreFlags): byte
    requires g.others < 16
  {
    128 * Have(g.checksum) + 64 * Have(g.routing) + 32 * Have(g.key) + 16 * Have(g.sequence) + g.others
  }

  /** A GRE header with its four bytes of flags and protocol and four for each optional field present but routing. */
  predicate IsGre(gre: seq<byte>, g: GreFlags) {
    && g.others < 16
    && |gre| == 4 + 4 * Have(g.checksum) + 4 * Have(g.key) + 4 * Have(g.sequence)
    && gre[0] == FlagByte(g)
  }

  function GreFrame(
    macs: seq<byte>, outer: Header, gre: seq<byte>, inner: Header, ports: Four, rest: seq<byte>): seq<byte>
    requires Regular(outer) && Regular(inner)
  {
    macs + [8, 0] + HeaderBytes(outer) + gre + HeaderBytes(inner) + (ports + rest)
  }

  /** A frame with an inner packet behind GRE, with any of the optional fields. */
  lemma {:induction false} GreParsed(
    macs: seq<byte>, outer: Header, g: GreFlags, gre: seq<byte>, inner: Header, ports: Four, rest: seq<byte>)
    requires |macs| == 12 && Regular(outer) && outer.proto == GRE && Regular(inner) && IsGre(gre, g)
    ensures var b := GreFrame(macs, outer, gre, inner, ports, rest);
            && Holds(b) && Parsed(b).Untagged? && Parsed(b).outer == IpOf(outer) && Parsed(b).inner == IpOf(inner)
            && Parsed(b).innerSport == Load16(ports[..2]) && Parsed(b).innerDport == Load16(ports[2..])
  {
    hide HeaderBytes, IpAt, PortAt, Load16, IpOf, TcpChecksum.GreLen, FlagByte;
    var e := macs + [8, 0];
    var a := e + HeaderBytes(outer) + gre;
    var tail := HeaderBytes(inner) + (ports + rest);
    var b := a + HeaderBytes(inner) + (ports + rest);
    assert b == e + HeaderBytes(outer) + (gre + tail);
    assert b[12] == 8 && b[13] == 0 && b[34] == FlagByte(g);
    HeaderRead(e, outer, gre + tail);
    ProtoRead(e, outer, gre + tail);
    HeaderRead(a, inner, ports + rest);
    PortsRead(a + HeaderBytes(inner), ports, rest);
    assert b == (a + HeaderBytes(inner)) + ports + rest;
    GreLenOf(b, g);
    assert |a| == ETH + TcpChecksum.GreLen(b);
  }

  lemma {:induction false} GreLenOf(b: seq<byte>, g: GreFlags)
    requires g.others < 16 && |b| > 34 && b[23] == GRE && b[34] == FlagByte(g)
    ensures TcpChecksum.GreLen(b) == 24 + 4 * Have(g.checksum) + 4 * Have(g.key) + 4 * Have(g.sequence)
  {
    TcpChecksum.GreLenIs(b, Have(g.checksum), Have(g.routing), Have(g.key), Have(g.sequence), g.others);
  }

  // ---------------------------------------------------------------- the lookup on a frame's bytes

  method ReadIp(b: array<byte>, at: nat) returns (ip: Ip)
    requires at + 20 <= b.Length
    ensures ip == IpAt(b[..], at)
  {
    hide Load32;
    assert b[..][at + 12..at + 16] == b[at + 12..at + 16] && b[..][at + 16..at + 20] == b[at + 16..at + 20];
    ip := Ip(b[at + 9], Load32(b[at + 12..at + 16]), Load32(b[at + 16..at + 20]), b[at + 1]);
  }

  method ReadPorts(b: array<byte>, at: nat) returns (sport: u16, dport: u16)
    requires at + 4 <= b.Length
    ensures sport == PortAt(b[..], at) && dport == PortAt(b[..], at + 2)
  {
    hide Load16;
    assert b[..][at..at + 2] == b[at..at + 2] && b[..][at + 2..at + 4] == b[at + 2..at + 4];
    sport, dport := Load16(b[at..at + 2]), Load16(b[at + 2..at + 4]);
  }

  /** What the lookup of a frame's bytes finds. */
  ghost predicate LooksUp(rules: seq<Rule>, cnt: nat, b: seq<byte>, mode: nat, stale: byte, index: int, site: int) {
    Holds(b) && Finds(rules, cnt, KeysOf(Parsed(b), mode, stale), index, site)
  }

  /** Look a frame up by the fields in its bytes. */
  method LookupFrame(lut: array<Rule>, cnt: u16, b: array<byte>, mode: nat, stale: byte) returns (index: int, site: int)
    requires lut.Length < U16 && Holds(b[..])
    ensures LooksUp(lut[..], cnt, b[..], mode, stale, index, site)
  {
    hide IpAt, PortAt, Finds, KeysOf, TcpChecksum.Bit;
    var etherType := Be16(b[12], b[13]);
    var fr := Other;
    if etherType == ARP_TYPE {
      fr := Arp;
    } else if etherType == VLAN_TYPE {
      var ip := ReadIp(b, ETH + 4);
      var sport, dport := ReadPorts(b, ETH + 24);
      fr := Tagged(Be16(b[14], b[15]), ip, sport, dport);
    } else if etherType == IPV4_TYPE {
      var ip := ReadIp(b, ETH);
      var sport, dport := ReadPorts(b, ETH + 20);
      fr := Untagged(ip, sport, dport, ip, sport, dport);
      if b[ETH + 9] == GRE {
        var greLen := 24;
        if TcpChecksum.Bit(b[34], 0x80) { greLen := greLen + 4; }
        if TcpChecksum.Bit(b[34], 0x20) { greLen := greLen + 4; }
        if TcpChecksum.Bit(b[34], 0x10) { greLen := greLen + 4; }
        var inner := ReadIp(b, ETH + greLen);
        var innerSport, innerDport := ReadPorts(b, ETH + greLen + 20);
        fr := Untagged(ip, sport, dport, inner, innerSport, innerDport);
      }
      ProtoIs(b[..], ETH);
    }
    assert fr == Parsed(b[..]);
    index, site := FwLookup(lut, cnt, fr, mode, stale);
  }

  lemma {:induction false} ProtoIs(b: seq<byte>, at: nat)
    requires at + 20 <= |b|
    ensures IpAt(b, at).proto == b[at + 9]
  {
  }

  // ---------------------------------------------------------------- from the bytes of a frame to its rule

  /** The type of service without its two lowest bits. */
  function DscpBits(h: Header): byte {
    h.tos / 4 * 4
  }

  /** A tagged frame is looked up by the twelve bits of its VLAN, its own header and ports and the DSCP left over. */
  lemma {:induction false} TaggedLookup(
    rules: seq<Rule>, cnt: nat, mode: nat, stale: byte, index: int, site: int,
    macs: seq<byte>, hi: byte, lo: byte, next: seq<byte>, h: Header, ports: Four, rest: seq<byte>)
    requires |macs| == 12 && |next| == 2 && Regular(h)
    requires var b := macs + [0x81, 0, hi, lo] + next + HeaderBytes(h) + (ports + rest);
             LooksUp(rules, cnt, b, mode, stale, index, site)
    ensures var flow := Flow(Be16(hi, lo) % 4096, h.proto, Load32(h.src), Load32(h.dst),
                             Load16(ports[..2]), Load16(ports[2..]), stale);
            Yields(rules, cnt, flow, false, index, site)
  {
    hide HeaderBytes, Parsed, Holds, Load16, Load32, Yields, Be16;
    TaggedParsed(macs, hi, lo, next, h, ports, rest);
  }

  /** A plain frame, by its own fields in every mode; untagged counts as VLAN 1. */
  lemma {:induction false} PlainLookup(
    rules: seq<Rule>, cnt: nat, mode: nat, stale: byte, index: int, site: int,
    macs: seq<byte>, h: Header, ports: Four, rest: seq<byte>)
    requires |macs| == 12 && Regular(h) && h.proto != 47
    requires LooksUp(rules, cnt, macs + [8, 0] + HeaderBytes(h) + (ports + rest), mode, stale, index, site)
    ensures var flow := Flow(1, h.proto, Load32(h.src), Load32(h.dst),
                             Load16(ports[..2]), Load16(ports[2..]), DscpBits(h));
            Yields(rules, cnt, flow, false, index, site)
  {
    hide HeaderBytes, Parsed, Holds, Load16, Load32, Yields;
    PlainParsed(macs, h, ports, rest);
  }

  /** A frame behind GRE, by the inner ports in every mode: mode 0 takes everything from the inner header, mode 1 the
      inner protocol with the outer addresses and DSCP, any other everything but the ports from the outer header. */
  lemma {:induction false} GreLookup(
    rules: seq<Rule>, cnt: nat, mode: nat, stale: byte, index: int, site: int,
    macs: seq<byte>, outer: Header, g: GreFlags, gre: seq<byte>, inner: Header, ports: Four, rest: seq<byte>)
    requires |macs| == 12 && Regular(outer) && outer.proto == 47 && Regular(inner) && IsGre(gre, g)
    requires LooksUp(rules, cnt, GreFrame(macs, outer, gre, inner, ports, rest), mode, stale, index, site)
    ensures var sport, dport := Load16(ports[..2]), Load16(ports[2..]);
            var flow := match mode
              case 0 => Flow(1, inner.proto, Load32(inner.src), Load32(inner.dst), sport, dport, DscpBits(inner))
              case 1 => Flow(1, inner.proto, Load32(outer.src), Load32(outer.dst), sport, dport, DscpBits(outer))
              case _ => Flow(1, 47, Load32(outer.src), Load32(outer.dst), sport, dport, DscpBits(outer));
            Yields(rules, cnt, flow, false, index, site)
  {
    hide HeaderBytes, Parsed, Holds, Load16, Load32, Yields, IsGre, GreFrame;
    GreParsed(macs, outer, g, gre, inner, ports, rest);
  }

  /** A frame of any other type finds nothing. */
  lemma {:induction false} OtherLookup(
    rules: seq<Rule>, cnt: nat, mode: nat, stale: byte, index: int, site: int, b: seq<byte>)
    requires |b| >= 14 && LooksUp(rules, cnt, b, mode, stale, index, site)
    requires [b[12], b[13]] != [8, 0] && [b[12], b[13]] != [0x81, 0]
    ensures index == -1 && site == -1
  {
    HiLoBack(b[12], b[13]);
    hide Load16, Load32, IpAt, PortAt;
  }

  // ---------------------------------------------------------------- frames and connections

  /** A number as it is sent. */
  function Sent16(x: u16): seq<byte> {
    [x / 0x100, x % 0x100]
  }

  function Sent32(x: u32): Four {
    [x / 0x100_0000, x / 0x1_0000 % 0x100, x / 0x100 % 0x100, x % 0x100]
  }

  /** Both byte orders meet: what a frame's bytes are loaded as is the flip of the number they were sent for. */
  lemma {:induction false} FlipIsLoad(x: u16, y: u32)
    ensures Flip16(x) == Load16(Sent16(x)) && Flip32(y) == Load32(Sent32(y))
  {
    hide Swapped, FromLe32, Sent32;
    SwappedIsLoad(y);
  }

  lemma {:induction false} SwappedIsLoad(y: u32)
    ensures Swapped(y) == FromLe32(Sent32(y))
  {
  }

  /** A connection's own numbers, as the proxy keeps them. */
  datatype Ends = Ends(dscp: byte, proto: byte, sip: u32, dip: u32, sport: u16, dport: u16)

  function KeysOfEnds(c: Ends): Flow {
    ConnectionKeys(c.dscp, c.sip, c.dip, c.sport, c.dport, c.proto)
  }

  /** A segment sent with these numbers; the two lowest bits of the type of service may differ. */
  predicate SentBy(c: Ends, h: Header, ports: Four) {
    && h.proto == c.proto && h.tos / 4 == c.dscp / 4
    && h.src == Sent32(c.sip) && h.dst == Sent32(c.dip) && ports == Sent16(c.sport) + Sent16(c.dport)
  }

  lemma {:induction false} SameFlow(c: Ends, h: Header, ports: Four)
    requires SentBy(c, h, ports)
    ensures Flow(1, h.proto, Load32(h.src), Load32(h.dst), Load16(ports[..2]), Load16(ports[2..]), DscpBits(h))
            == KeysOfEnds(c)
  {
    hide Load16, Load32, Flip16, Flip32, Sent32;
    assert ports[..2] == Sent16(c.sport) && ports[2..] == Sent16(c.dport);
    hide Sent16;
    FlipIsLoad(c.sport, c.sip);
    FlipIsLoad(c.dport, c.dip);
  }

  /** A segment of a connection is given the rule, fallback site, pipe and class that the connection itself got, if no
      rule uses VLAN 0 and every class fits a pipe. */
  lemma {:induction false} SegmentsKeepTheirQueue(
    rules: seq<Rule>, cnt: nat, mode: nat, stale: byte, a: int, s: int, b: int, t: int,
    macs: seq<byte>, h: Header, ports: Four, rest: seq<byte>, c: Ends)
    requires forall i :: 0 <= i < |rules| ==> rules[i].vlan != 0 && rules[i].tc < QUEUES_PER_PIPE
    requires |macs| == 12 && Regular(h) && h.proto != 47 && SentBy(c, h, ports)
    requires LooksUp(rules, cnt, macs + [8, 0] + HeaderBytes(h) + (ports + rest), mode, stale, a, s)
    requires Yields(rules, cnt, KeysOfEnds(c), true, b, t)
    ensures a == b && s == t && Decode(QueueId(Class(rules, b, t))) == Class(rules, a, s)
  {
    hide HeaderBytes, Load16, Load32, Yields, SentBy, LooksUp, Class, QueueId, Decode, KeysOfEnds;
    PlainLookup(rules, cnt, mode, stale, a, s, macs, h, ports, rest);
    SameFlow(c, h, ports);
    SameQueue(rules, cnt, KeysOfEnds(c), a, s, b, t);
  }

  /** So is one behind GRE, when frames are looked up by their inner header. */
  lemma {:induction false} InnerSegmentsKeepTheirQueue(
    rules: seq<Rule>, cnt: nat, stale: byte, a: int, s: int, b: int, t: int,
    macs: seq<byte>, outer: Header, g: GreFlags, gre: seq<byte>, h: Header, ports: Four, rest: seq<byte>, c: Ends)
    requires forall i :: 0 <= i < |rules| ==> rules[i].vlan != 0 && rules[i].tc < QUEUES_PER_PIPE
    requires |macs| == 12 && Regular(outer) && outer.proto == 47 && Regular(h) && IsGre(gre, g) && SentBy(c, h, ports)
    requires LooksUp(rules, cnt, GreFrame(macs, outer, gre, h, ports, rest), 0, stale, a, s)
    requires Yields(rules, cnt, KeysOfEnds(c), true, b, t)
    ensures a == b && s == t && Decode(QueueId(Class(rules, b, t))) == Class(rules, a, s)
  {
    hide HeaderBytes, Load16, Load32, Yields, SentBy, LooksUp, Class, QueueId, Decode, KeysOfEnds, IsGre, GreFrame;
    GreLookup(rules, cnt, 0, stale, a, s, macs, outer, g, gre, h, ports, rest);
    SameFlow(c, h, ports);
    SameQueue(rules, cnt, KeysOfEnds(c), a, s, b, t);
  }
}
