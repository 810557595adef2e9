/** Two scans of the rule table: for packets that pass through, and for connections the proxy opens itself. */
module Classifier {
  import opened Bytes

  const GRE: byte := 0x2F
  const UNTAGGED: u16 := 1
  const DEFAULT_TC: nat := 12
  const QUEUES_PER_PIPE: nat := 16

  datatype Rule = Rule(enabled: bool, vlan: u16, proto: byte,
                       srcIp: bv32, srcMask: bv32, dstIp: bv32, dstMask: bv32,
                       srcPort: u16, dstPort: u16, dscp: byte, site: nat, tc: nat)

  /** What the rules look at. Addresses and ports are in the byte order of the table. */
  datatype Flow = Flow(vlan: u16, proto: byte, src: bv32, dst: bv32, sport: u16, dport: u16, dscp: byte)

  // ---------------------------------------------------------------- matching

  /** Two addresses have the same bits under the mask. */
  predicate Alike(mask: bv32, a: bv32, b: bv32) {
    a & mask == b & mask
  }

  /** The address lies in the rule's network, zero being every network. */
  predicate InNet(net: bv32, mask: bv32, address: bv32) {
    Alike(mask, net, address) || net == 0
  }

  predicate Addresses(r: Rule, f: Flow) {
    InNet(r.srcIp, r.srcMask, f.src) && InNet(r.dstIp, r.dstMask, f.dst)
  }

  predicate Rest(r: Rule, f: Flow) {
    && (r.srcPort == f.sport || r.srcPort == 0)
    && (r.dstPort == f.dport || r.dstPort == 0)
    && (r.dscp == f.dscp || r.dscp == 0)
    && (r.proto == f.proto || r.proto == 0)
  }

  /** `wild` says whether VLAN 0 in a rule stands for any VLAN. */
  predicate Vlan(r: Rule, f: Flow, wild: bool) {
    r.vlan == f.vlan || (wild && r.vlan == 0)
  }

  predicate Full(r: Rule, f: Flow, wild: bool) {
    Vlan(r, f, wild) && Addresses(r, f) && Rest(r, f)
  }

  function EnabledBefore(rules: seq<Rule>, i: nat): nat
    requires i <= |rules|
  {
    if i == 0 then 0 else EnabledBefore(rules, i - 1) + if rules[i - 1].enabled then 1 else 0
  }

  /** A scan looks at the first max(1, cnt) enabled rules. */
  predicate Examined(rules: seq<Rule>, cnt: nat, i: nat)
    requires i < |rules|
  {
    rules[i].enabled && (EnabledBefore(rules, i) < cnt || EnabledBefore(rules, i) == 0)
  }

  /** The first full match among the examined rules, -1 if there is none. */
  ghost predicate FirstMatch(rules: seq<Rule>, cnt: nat, f: Flow, wild: bool, index: int) {
    && (index == -1 || (0 <= index < |rules| && Examined(rules, cnt, index) && Full(rules[index], f, wild)))
    && (forall i :: 0 <= i < |rules| && (index == -1 || i < index) && Examined(rules, cnt, i)
         ==> !Full(rules[i], f, wild))
  }

  /** The last examined rule up to the match whose addresses fit, -1 if there is none. */
  ghost predicate FallbackSite(rules: seq<Rule>, cnt: nat, f: Flow, index: int, site: int) {
    && (site == -1 || (0 <= site < |rules| && (index == -1 || site <= index) && Examined(rules, cnt, site)
           && Addresses(rules[site], f)))
    && (forall i :: 0 <= i < |rules| && site < i && (index == -1 || i <= index) && Examined(rules, cnt, i)
         ==> !Addresses(rules[i], f))
  }

  /** What a scan of these rules yields for a flow. */
  ghost predicate Yields(rules: seq<Rule>, cnt: nat, f: Flow, wild: bool, index: int, site: int) {
    && -1 <= index < |rules| && -1 <= site < |rules|
    && FirstMatch(rules, cnt, f, wild, index) && FallbackSite(rules, cnt, f, index, site)
  }

  lemma {:induction false} EnabledGrows(rules: seq<Rule>, i: nat, j: nat)
    requires i <= j <= |rules|
    ensures EnabledBefore(rules, i) <= EnabledBefore(rules, j)
  {
    if i < j {
      EnabledGrows(rules, i, j - 1);
    }
  }

  // ---------------------------------------------------------------- what a rule says

  /** A rule with every field set and whole addresses fits its own flow and no other. */
  lemma {:induction false} ExactRule(r: Rule, f: Flow, wild: bool)
    requires r.srcMask == 0xFFFF_FFFF && r.dstMask == 0xFFFF_FFFF && r.srcIp != 0 && r.dstIp != 0
    requires r.vlan != 0 && r.proto != 0 && r.srcPort != 0 && r.dstPort != 0 && r.dscp != 0
    ensures Full(r, f, wild) <==> f == Flow(r.vlan, r.proto, r.srcIp, r.dstIp, r.srcPort, r.dstPort, r.dscp)
  {
    hide InNet;
    OneAddress(r.srcIp, f.src);
    OneAddress(r.dstIp, f.dst);
  }

  lemma {:induction false} OneAddress(net: bv32, address: bv32)
    ensures InNet(net, 0xFFFF_FFFF, address) <==> address == net || net == 0
  {
  }

  lemma {:induction false} EveryAddress(mask: bv32, address: bv32)
    ensures InNet(0, mask, address)
  {
  }

  lemma {:induction false} SameBits(net: bv32, mask: bv32, a: bv32, b: bv32)
    requires net != 0 && InNet(net, mask, a)
    ensures InNet(net, mask, b) <==> Alike(mask, a, b)
  {
  }

  /** A field that is zero in the rule may be anything in the flow, the VLAN only for a scan that says so. */
  lemma {:induction false} ZeroIsAny(r: Rule, f: Flow, g: Flow, wild: bool)
    requires (r.vlan == 0 && wild) || f.vlan == g.vlan
    requires (r.proto == 0 || f.proto == g.proto) && (r.dscp == 0 || f.dscp == g.dscp)
    requires (r.srcIp == 0 || f.src == g.src) && (r.dstIp == 0 || f.dst == g.dst)
    requires (r.srcPort == 0 || f.sport == g.sport) && (r.dstPort == 0 || f.dport == g.dport)
    ensures Full(r, f, wild) <==> Full(r, g, wild)
  {
    hide InNet;
    EveryAddress(r.srcMask, f.src);
    EveryAddress(r.srcMask, g.src);
    EveryAddress(r.dstMask, f.dst);
    EveryAddress(r.dstMask, g.dst);
  }

  /** Of an address only the bits under the mask are compared, each address under its own mask. */
  lemma {:induction false} OnlyUnderMask(r: Rule, f: Flow, src: bv32, dst: bv32, wild: bool)
    requires r.srcIp != 0 && r.dstIp != 0 && Full(r, f, wild)
    ensures Full(r, f.(src := src, dst := dst), wild)
            <==> Alike(r.srcMask, f.src, src) && Alike(r.dstMask, f.dst, dst)
  {
    hide InNet, Alike;
    SameBits(r.srcIp, r.srcMask, f.src, src);
    SameBits(r.dstIp, r.dstMask, f.dst, dst);
  }

  function ExaminedBefore(rules: seq<Rule>, cnt: nat, i: nat): nat
    requires i <= |rules|
  {
    if i == 0 then 0 else ExaminedBefore(rules, cnt, i - 1) + if Examined(rules, cnt, i - 1) then 1 else 0
  }

  /** A scan looks at cnt enabled rules, at one when cnt is 0, or at all when there are fewer. */
  lemma {:induction false} ExaminedCount(rules: seq<Rule>, cnt: nat, i: nat)
    requires i <= |rules|
    ensures ExaminedBefore(rules, cnt, i) == Min(EnabledBefore(rules, i), if cnt == 0 then 1 else cnt)
  {
    if i > 0 {
      ExaminedCount(rules, cnt, i - 1);
    }
  }

  // ---------------------------------------------------------------- the scans

  /** No rule before i matches, and `site` is the last whose addresses fit. */
  ghost predicate SoFar(rules: seq<Rule>, cnt: nat, f: Flow, wild: bool, i: nat, site: int) {
    && i <= |rules|
    && (forall j :: 0 <= j < i && Examined(rules, cnt, j) ==> !Full(rules[j], f, wild))
    && (site == -1 || (0 <= site < i && Examined(rules, cnt, site) && Addresses(rules[site], f)))
    && (forall j :: site < j < i && Examined(rules, cnt, j) ==> !Addresses(rules[j], f))
  }

  lemma {:induction false} NothingYet(rules: seq<Rule>, cnt: nat, f: Flow, wild: bool)
    ensures SoFar(rules, cnt, f, wild, 0, -1)
  {
  }

  lemma {:induction false} NoMatch(rules: seq<Rule>, cnt: nat, f: Flow, wild: bool, i: nat, site: int)
    requires SoFar(rules, cnt, f, wild, i, site) && i < |rules|
    requires Examined(rules, cnt, i) ==> !Full(rules[i], f, wild)
    ensures var next := if Examined(rules, cnt, i) && Addresses(rules[i], f) then i else site;
            SoFar(rules, cnt, f, wild, i + 1, next)
  {
    hide Examined, Full, Addresses;
  }

  lemma {:induction false} Matches(rules: seq<Rule>, cnt: nat, f: Flow, wild: bool, i: nat, site: int)
    requires SoFar(rules, cnt, f, wild, i, site) && i < |rules| && Examined(rules, cnt, i) && Full(rules[i], f, wild)
    ensures Yields(rules, cnt, f, wild, i, i)
  {
    assert Addresses(rules[i], f);
    hide Examined, Full, Addresses;
  }

  lemma {:induction false} AllLookedAt(rules: seq<Rule>, cnt: nat, f: Flow, wild: bool, i: nat, site: int)
    requires SoFar(rules, cnt, f, wild, i, site)
    requires forall j :: i <= j < |rules| ==> !Examined(rules, cnt, j)
    ensures Yields(rules, cnt, f, wild, -1, site)
  {
    hide Examined, Full, Addresses;
  }

  /** The loop over the rules, as both lookups have it. */
  method Scan(lut: array<Rule>, cnt: u16, f: Flow, wild: bool) returns (index: int, site: int)
    requires lut.Length < U16
    ensures Yields(lut[..], cnt, f, wild, index, site)
  {
    hide Addresses, Vlan, Full, Rest, SoFar, Yields;
    ghost var rules := lut[..];
    index, site := -1, -1;
    NothingYet(rules, cnt, f, wild);
    var totalNum: nat := 0;
    var i := 0;
    while i < lut.Length
      invariant 0 <= i <= |rules| && index == -1 && -1 <= site
      invariant totalNum == EnabledBefore(rules, i) && (totalNum < cnt || totalNum == 0)
      invariant SoFar(rules, cnt, f, wild, i, site)
    {
      var r := lut[i];
      i := i + 1;
      ghost var before := site;
      if !r.enabled {
        NoMatch(rules, cnt, f, wild, i - 1, site);
        continue;
      }
      var protoMatch, l4Match := false, false;
      if Vlan(r, f, wild) && (r.proto == f.proto || r.proto == 0) {
        protoMatch := true;
      }
      if Addresses(r, f) {
        site := i - 1;
        if (r.srcPort == f.sport || r.srcPort == 0) && (r.dstPort == f.dport || r.dstPort == 0)
          && (r.dscp == f.dscp || r.dscp == 0) {
          l4Match := true;
        }
      }
      FullParts(r, f, wild);
      if protoMatch && l4Match {
        index := i - 1;
        Matches(rules, cnt, f, wild, i - 1, before);
        break;
      }
      NoMatch(rules, cnt, f, wild, i - 1, before);
      totalNum := totalNum + 1;
      if totalNum >= cnt {
        RestNotExamined(rules, cnt, i);
        break;
      }
    }
    if index == -1 {
      AllLookedAt(rules, cnt, f, wild, i, site);
    }
  }

  lemma {:induction false} FullParts(r: Rule, f: Flow, wild: bool)
    ensures Full(r, f, wild) <==>
      && Vlan(r, f, wild) && (r.proto == f.proto || r.proto == 0)
      && Addresses(r, f) && (r.srcPort == f.sport || r.srcPort == 0) && (r.dstPort == f.dport || r.dstPort == 0)
      && (r.dscp == f.dscp || r.dscp == 0)
  {
    hide Addresses, Vlan;
  }

  /** Once max(1, cnt) enabled rules were looked at, no later rule counts. */
  lemma {:induction false} RestNotExamined(rules: seq<Rule>, cnt: nat, i: nat)
    requires i <= |rules| && EnabledBefore(rules, i) >= cnt && EnabledBefore(rules, i) > 0
    ensures forall j :: i <= j < |rules| ==> !Examined(rules, cnt, j)
  {
    forall j | i <= j < |rules| ensures !Examined(rules, cnt, j) {
      EnabledGrows(rules, i, j);
    }
  }

  // ---------------------------------------------------------------- packets that pass through

  datatype Ip = Ip(proto: byte, src: bv32, dst: bv32, tos: byte)

  /** What the lookup reads of a frame; `inner` is the header behind GRE. */
  datatype Frame =
    | Arp
    | Tagged(tci: u16, ip: Ip, sport: u16, dport: u16)
    | Untagged(outer: Ip, sport: u16, dport: u16, inner: Ip, innerSport: u16, innerDport: u16)
    | Other

  datatype Keys = DefaultQueue | Keys(flow: Flow)

  function Dscp(tos: byte): byte {
    tos - tos % 4
  }

  /** Which headers the rules see: mode 0 the inner ones, 1 the outer addresses, anything else the outer header.
      A tagged frame leaves the DSCP variable unset, so its stale value is used. */
  function KeysOf(fr: Frame, mode: nat, stale: byte): Keys {
    match fr
    case Arp => DefaultQueue
    case Other => DefaultQueue
    case Tagged(tci, ip, sport, dport) => Keys(Flow(tci % 0x1000, ip.proto, ip.src, ip.dst, sport, dport, stale))
    case Untagged(o, sport, dport, i, isport, idport) =>
      var gre := o.proto == GRE;
      var inner := if gre then i else o;
      var (sp, dp) := if gre then (isport, idport) else (sport, dport);
      if mode == 0 then Keys(Flow(UNTAGGED, inner.proto, inner.src, inner.dst, sp, dp, Dscp(inner.tos)))
      else if mode == 1 then Keys(Flow(UNTAGGED, inner.proto, o.src, o.dst, sp, dp, Dscp(o.tos)))
      else Keys(Flow(UNTAGGED, o.proto, o.src, o.dst, sp, dp, Dscp(o.tos)))
  }

  /** What a lookup by these keys finds. */
  ghost predicate Finds(rules: seq<Rule>, cnt: nat, keys: Keys, index: int, site: int) {
    match keys
    case DefaultQueue => index == -1 && site == -1
    case Keys(f) => Yields(rules, cnt, f, false, index, site)
  }

  method FwLookup(lut: array<Rule>, cnt: u16, fr: Frame, mode: nat, stale: byte) returns (index: int, site: int)
    requires lut.Length < U16
    ensures Finds(lut[..], cnt, KeysOf(fr, mode, stale), index, site)
  {
    var vlan, proto, src, dst, sport, dport, dscp;
    match fr {
      case Arp =>
        return -1, -1;
      case Other =>
        return -1, -1;
      case Tagged(tci, ip, sp, dp) =>
        vlan, proto, src, dst, sport, dport, dscp := tci % 0x1000, ip.proto, ip.src, ip.dst, sp, dp, stale;
      case Untagged(outer, sp, dp, behindGre, innerSp, innerDp) =>
        var inner := outer;
        vlan, sport, dport := UNTAGGED, sp, dp;
        if outer.proto == GRE {
          inner, sport, dport := behindGre, innerSp, innerDp;
        }
        if mode == 0 {
          proto, src, dst, dscp := inner.proto, inner.src, inner.dst, Dscp(inner.tos);
        } else if mode == 1 {
          proto, src, dst, dscp := inner.proto, outer.src, outer.dst, Dscp(outer.tos);
        } else {
          proto, src, dst, dscp := outer.proto, outer.src, outer.dst, Dscp(outer.tos);
        }
    }
    index, site := Scan(lut, cnt, Flow(vlan, proto, src, dst, sport, dport, dscp), false);
  }

  /** Pipe and traffic class of a scan's result. */
  function Class(rules: seq<Rule>, index: int, site: int): (nat, nat)
    requires -1 <= index < |rules| && -1 <= site < |rules|
  {
    if index == -1 then (if site == -1 then 0 else rules[site].site, DEFAULT_TC)
      else (rules[index].site, rules[index].tc)
  }

  method GetPktSched(lut: array<Rule>, cnt: u16, fr: Frame, mode: nat, stale: byte)
    returns (pipe: nat, tc: nat, index: int, ghost site: int)
    requires lut.Length < U16
    ensures Finds(lut[..], cnt, KeysOf(fr, mode, stale), index, site)
    ensures -1 <= index < lut.Length && -1 <= site < lut.Length && (pipe, tc) == Class(lut[..], index, site)
  {
    hide Examined, Full, Addresses;
    var siteIndex;
    index, siteIndex := FwLookup(lut, cnt, fr, mode, stale);
    site := siteIndex;
    if index == -1 {
      pipe := if siteIndex == -1 then 0 else lut[siteIndex].site;
      tc := DEFAULT_TC;
    } else {
      pipe, tc := lut[index].site, lut[index].tc;
    }
  }

  // ---------------------------------------------------------------- connections the proxy opens

  function QueueId(c: (nat, nat)): nat {
    c.0 * QUEUES_PER_PIPE + c.1
  }

  /** A port and an address that the program holds as numbers, in the byte order of the table. */
  function Flip16(x: u16): u16 {
    x % 0x100 * 0x100 + x / 0x100
  }

  function Flip32(x: u32): bv32 {
    Swapped(x) as bv32
  }

  /** The four bytes of a number in the opposite order. */
  function Swapped(x: u32): u32 {
    x % 0x100 * 0x100_0000 + x / 0x100 % 0x100 * 0x1_0000 + x / 0x1_0000 % 0x100 * 0x100 + x / 0x100_0000
  }

  /** What the rules see of a connection: its fields in the other byte order, the DSCP without its two lowest bits. */
  function ConnectionKeys(dscp: byte, sip: u32, dip: u32, sport: u16, dport: u16, proto: byte): Flow {
    Flow(UNTAGGED, proto, Flip32(sip), Flip32(dip), Flip16(sport), Flip16(dport), Dscp(dscp))
  }

  method TcpQosQueue(lut: array<Rule>, cnt: u16, dscp: byte, sip: u32, dip: u32, sport: u16, dport: u16, proto: byte)
    returns (queueId: nat)
    requires lut.Length < U16
    ensures exists index, site ::
              && Yields(lut[..], cnt, ConnectionKeys(dscp, sip, dip, sport, dport, proto), true, index, site)
              && queueId == QueueId(Class(lut[..], index, site))
  {
    hide Examined, Full, Addresses;
    var flippedSip, flippedDip, flippedSport, flippedDport := Flip32(sip), Flip32(dip), Flip16(sport), Flip16(dport);
    var dscp1: byte := dscp / 4 * 4;
    assert dscp1 == Dscp(dscp);
    hide Flip32, Flip16, Dscp;
    var flow := Flow(UNTAGGED, proto, flippedSip, flippedDip, flippedSport, flippedDport, dscp1);
    var index, site := Scan(lut, cnt, flow, true);
    var pipe, tc;
    if index == -1 {
      pipe := if site == -1 then 0 else lut[site].site;
      tc := DEFAULT_TC;
    } else {
      pipe, tc := lut[index].site, lut[index].tc;
    }
    queueId := pipe * QUEUES_PER_PIPE + tc;
    assert Yields(lut[..], cnt, ConnectionKeys(dscp, sip, dip, sport, dport, proto), true, index, site);
    assert (pipe, tc) == Class(lut[..], index, site);
  }

  /** The queue a packet with this id is written to. */
  function Decode(queueId: nat): (nat, nat) {
    (queueId / QUEUES_PER_PIPE, queueId % QUEUES_PER_PIPE)
  }

  /** Division and remainder give back pipe and traffic class exactly when the class fits a pipe's queues. */
  lemma {:induction false} DecodeUndoesQueueId(c: (nat, nat))
    ensures Decode(QueueId(c)) == c <==> c.1 < QUEUES_PER_PIPE
  {
  }

  // ---------------------------------------------------------------- agreement

  /** Rule i fits the flow by its VLAN wildcard alone. */
  predicate OnlyByWildcard(rules: seq<Rule>, f: Flow, i: nat)
    requires i < |rules|
  {
    rules[i].vlan == 0 != f.vlan && Full(rules[i], f, true)
  }

  /** Before rule i an examined rule fits the flow without any wildcard. */
  ghost predicate Shadowed(rules: seq<Rule>, cnt: nat, f: Flow, i: nat)
    requires i < |rules|
  {
    exists j :: 0 <= j < i && Examined(rules, cnt, j) && Full(rules[j], f, false)
  }

  /** The two scans find the same rule if and only if every examined rule that fits by its VLAN wildcard alone comes
      after an examined rule that fits without. */
  lemma {:induction false} ScansAgreeIff(rules: seq<Rule>, cnt: nat, f: Flow, a: int, b: int)
    requires FirstMatch(rules, cnt, f, false, a) && FirstMatch(rules, cnt, f, true, b)
    ensures a == b <==>
              forall i :: 0 <= i < |rules| && Examined(rules, cnt, i) && OnlyByWildcard(rules, f, i)
                ==> Shadowed(rules, cnt, f, i)
  {
    forall i | 0 <= i < |rules|
      ensures Full(rules[i], f, false) ==> Full(rules[i], f, true)
      ensures Full(rules[i], f, true) ==> Full(rules[i], f, false) || OnlyByWildcard(rules, f, i)
      ensures OnlyByWildcard(rules, f, i) ==> !Full(rules[i], f, false)
    {
      WildcardCases(rules[i], f);
    }
    hide Examined, Full, OnlyByWildcard;
    if b != -1 && a != b {
      assert OnlyByWildcard(rules, f, b) && !Shadowed(rules, cnt, f, b);
    }
    if a == b {
      forall i | 0 <= i < |rules| && Examined(rules, cnt, i) && OnlyByWildcard(rules, f, i)
        ensures Shadowed(rules, cnt, f, i)
      {
        assert a != -1 && a < i;
      }
    }
  }

  lemma {:induction false} WildcardCases(r: Rule, f: Flow)
    ensures Full(r, f, false) ==> Full(r, f, true) && r.vlan == f.vlan
    ensures Full(r, f, true) ==> Full(r, f, false) || r.vlan == 0 != f.vlan
  {
    hide Addresses, Rest;
  }

  /** Where the two scans differ: a single enabled rule for any VLAN, without any other restriction. */
  lemma {:induction false} WildcardTable(f: Flow)
    requires f.vlan == UNTAGGED
    ensures var rules := [Rule(true, 0, 0, 0, 0, 0, 0, 0, 0, 0, 7, 3)];
            && FirstMatch(rules, 1, f, false, -1) && FirstMatch(rules, 1, f, true, 0)
            && FallbackSite(rules, 1, f, -1, 0)
            && Class(rules, -1, 0) == (7, 12) && Class(rules, -1, -1) == (0, 12) && Class(rules, 0, 0) == (7, 3)
  {
    var rules := [Rule(true, 0, 0, 0, 0, 0, 0, 0, 0, 0, 7, 3)];
    assert EnabledBefore(rules, 0) == 0;
    assert Full(rules[0], f, true) && !Full(rules[0], f, false);
  }

  /** The result of a scan is determined. */
  lemma {:induction false} SiteIsUnique(rules: seq<Rule>, cnt: nat, f: Flow, index: int, s: int, t: int)
    requires FallbackSite(rules, cnt, f, index, s) && FallbackSite(rules, cnt, f, index, t)
    ensures s == t
  {
    hide Examined, Addresses;
  }

  /** A packet and the connection it belongs to, seen as the same flow, get the same rule, fallback site, pipe
      and traffic class, if no rule uses VLAN 0 and every class fits a pipe. */
  lemma {:induction false} SameQueue(rules: seq<Rule>, cnt: nat, f: Flow, a: int, s: int, b: int, t: int)
    requires forall i :: 0 <= i < |rules| ==> rules[i].vlan != 0 && rules[i].tc < QUEUES_PER_PIPE
    requires Yields(rules, cnt, f, false, a, s) && Yields(rules, cnt, f, true, b, t)
    ensures a == b && s == t && Decode(QueueId(Class(rules, b, t))) == Class(rules, a, s)
  {
    hide Examined, Addresses, Rest;
    forall i | 0 <= i < |rules| ensures !OnlyByWildcard(rules, f, i) {}
    ScansAgreeIff(rules, cnt, f, a, b);
    SiteIsUnique(rules, cnt, f, a, s, t);
    DecodeUndoesQueueId(Class(rules, b, t));
  }
}
