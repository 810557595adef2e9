/** Filling in and verifying the IP and TCP checksums of a packet, plain or inside GRE. */
module TcpChecksum {
  import opened Bytes
  import opened Checksum

  /** Sums are kept in 64-bit unsigned integers. */
  const U64: int := 0x1_0000_0000_0000_0000

  /** The TCP length is kept in 16 bits. */
  function TcpLen(ipLen: int): u16 {
    (ipLen - 20) % U16
  }

  /** An IP address in host order as the two halves that enter the sum. */
  datatype Addr = Addr(hi: u16, lo: u16)

  function AddrOf(ip: u32): Addr {
    Addr(ip / U16, ip % U16)
  }

  /** What the pseudo header adds; negative when the total length is below 20. */
  function Pseudo(src: Addr, dst: Addr, proto: byte, totLen: u16): int {
    src.hi + src.lo + (dst.hi + dst.lo) + proto + (totLen - 20)
  }

  function Total(seg: seq<byte>, src: Addr, dst: Addr, proto: byte, totLen: u16): nat {
    (WordSum(seg) + Pseudo(src, dst, proto, totLen)) % U64
  }

  predicate Accepts(seg: seq<byte>, src: Addr, dst: Addr, proto: byte, totLen: u16) {
    Fold(Total(seg, src, dst, proto, totLen)) == 0xFFFF
  }

  // ---------------------------------------------------------------- verifying

  /** Sum of the words of a stretch of the buffer, with the odd last byte padded. */
  method SumBytes(buf: array<byte>, at: nat, len: nat) returns (sum: nat)
    requires at + len <= buf.Length
    ensures sum == WordSum(buf[at..at + len])
  {
    ghost var seg := buf[at..at + len];
    sum := 0;
    for i := 0 to len / 2
      invariant sum == Words(seg, i)
    {
      assert buf[at + 2 * i] == seg[2 * i] && buf[at + 2 * i + 1] == seg[2 * i + 1];
      sum := sum + Be16(buf[at + 2 * i], buf[at + 2 * i + 1]);
    }
    if len % 2 == 1 {
      sum := sum + buf[at + len - 1] as int * 0x100;
    }
  }

  method Verify(rxbuf: array<byte>, at: nat, src: u32, dst: u32, proto: byte, totLen: u16, ipLen: int)
    returns (match': bool)
    requires at + TcpLen(ipLen) <= rxbuf.Length
    ensures match' == Accepts(rxbuf[at..at + TcpLen(ipLen)], AddrOf(src), AddrOf(dst), proto, totLen)
  {
    var sum := SumBytes(rxbuf, at, TcpLen(ipLen));
    sum := sum + src / U16;
    sum := sum + src % U16;
    sum := sum + dst / U16;
    sum := sum + dst % U16;
    sum := sum + proto;
    sum := (sum + (totLen as int - 20)) % U64;
    var folded := FoldLoop(sum);
    match' := Not16(folded) == 0;
  }

  lemma {:induction false} WordsBound(s: seq<byte>, n: nat)
    requires 2 * n <= |s|
    ensures Words(s, n) <= n * 0xFFFF
  {
    if n > 0 {
      WordsBound(s, n - 1);
    }
  }

  /** The sum as a plain integer: at least -20. */
  function PlainSum(seg: seq<byte>, src: Addr, dst: Addr, proto: byte, totLen: u16): int {
    WordSum(seg) + Pseudo(src, dst, proto, totLen)
  }

  /** Only a sum below zero wraps around. */
  lemma {:induction false} TotalIs(seg: seq<byte>, src: Addr, dst: Addr, proto: byte, totLen: u16)
    requires |seg| < U16
    ensures var sum := PlainSum(seg, src, dst, proto, totLen);
            -20 <= sum && Total(seg, src, dst, proto, totLen) == if sum < 0 then sum + U64 else sum
  {
    WordsBound(seg, |seg| / 2);
  }

  lemma {:induction false} WrappedResidue(sum: int)
    requires -20 <= sum < 0
    ensures (sum + U64) % 0xFFFF == 0 <==> sum == -1
  {
    assert U64 == 0xFFFF * 0x1_0001_0001_0001 + 1;
    MultipleOff(sum + 1, 0x1_0001_0001_0001);
  }

  /** A segment is accepted exactly when its sum is a positive multiple of 65535, or -1, which the 64-bit sum wraps to
      such a multiple; -1 takes a total length below 20. */
  lemma {:induction false} AcceptsIff(seg: seq<byte>, src: Addr, dst: Addr, proto: byte, totLen: u16)
    requires |seg| < U16
    ensures var sum := PlainSum(seg, src, dst, proto, totLen);
            && (Accepts(seg, src, dst, proto, totLen) <==> (sum > 0 && sum % 0xFFFF == 0) || sum == -1)
            && (totLen >= 20 ==> sum >= 0)
  {
    var sum := PlainSum(seg, src, dst, proto, totLen);
    TotalIs(seg, src, dst, proto, totLen);
    FoldIs(Total(seg, src, dst, proto, totLen));
    OnlyTwoMultiples(Fold(Total(seg, src, dst, proto, totLen)));
    if sum < 0 {
      WrappedResidue(sum);
    }
    hide WordSum, Fold;
  }

  lemma {:induction false} SameResidue(a: int, x: int, y: int)
    requires a % 0xFFFF == 0 && 0 <= x <= 0xFFFF && 0 <= y <= 0xFFFF
    ensures (a - x + y) % 0xFFFF == 0 <==> x == y || (x == 0 && y == 0xFFFF) || (x == 0xFFFF && y == 0)
  {
    MultipleOff(y - x, a / 0xFFFF);
  }

  /** What a sum that was acceptable becomes when x in it is replaced by y. */
  lemma {:induction false} ReplacedSummand(sum: int, x: int, y: int)
    requires (sum > 0 && sum % 0xFFFF == 0) || sum == -1
    requires 0 <= x <= 0xFFFF && 0 <= y <= 0xFFFF
    ensures var sum' := sum - x + y;
            (sum' > 0 && sum' % 0xFFFF == 0) || sum' == -1 <==>
              x == y || (sum > 0 && ((x == 0 && y == 0xFFFF) || (x == 0xFFFF && y == 0 && sum' > 0)))
  {
    if sum == -1 {
      if x == 0 && y == 0xFFFF {
      } else {
        SameResidue(0, x, y - 1 + if y == 0 then 1 else 0);
      }
    } else {
      SameResidue(sum, x, y);
    }
  }

  /** Changing one aligned word of an accepted segment is noticed unless it swaps 0x0000 and 0xFFFF. */
  lemma {:induction false} OneWordChange(
    s: seq<byte>, t: seq<byte>, k: nat, src: Addr, dst: Addr, proto: byte, totLen: u16)
    requires |s| < U16 && DifferAt(s, t, k) && Accepts(s, src, dst, proto, totLen)
    ensures Accepts(t, src, dst, proto, totLen) <==>
              || Word(s, k) == Word(t, k)
              || (PlainSum(s, src, dst, proto, totLen) > 0 && Word(s, k) == 0 && Word(t, k) == 0xFFFF)
              || (PlainSum(s, src, dst, proto, totLen) > 0 && Word(s, k) == 0xFFFF && Word(t, k) == 0
                  && PlainSum(t, src, dst, proto, totLen) > 0)
  {
    AcceptsIff(s, src, dst, proto, totLen);
    AcceptsIff(t, src, dst, proto, totLen);
    SumDiffers(s, t, k);
    ReplacedSummand(PlainSum(s, src, dst, proto, totLen), Word(s, k), Word(t, k));
    hide WordSum, Accepts, Pseudo;
  }

  /** Changing the odd last byte of an accepted segment is always noticed. */
  lemma {:induction false} LastByteChange(s: seq<byte>, x: byte, src: Addr, dst: Addr, proto: byte, totLen: u16)
    requires |s| % 2 == 1 && |s| < U16 && Accepts(s, src, dst, proto, totLen)
    ensures Accepts(s[|s| - 1 := x], src, dst, proto, totLen) <==> s[|s| - 1] == x
  {
    var t := s[|s| - 1 := x];
    AcceptsIff(s, src, dst, proto, totLen);
    AcceptsIff(t, src, dst, proto, totLen);
    SameWords(s, t, |s| / 2);
    ReplacedSummand(PlainSum(s, src, dst, proto, totLen), Tail(s), Tail(t));
    hide Accepts, Pseudo;
  }

  /** The pseudo header of section 3.1 of RFC 793, byte by byte, for a segment of len bytes. */
  function PseudoHeader(src: seq<byte>, dst: seq<byte>, proto: byte, len: u16): (h: seq<byte>)
    requires |src| == |dst| == 4
    ensures |h| == 12
  {
    src + dst + [0, proto, Hi(len), Lo(len)]
  }

  lemma {:induction false} FourBytes(s: seq<byte>)
    requires |s| == 4
    ensures WordSum(s) == Be16(s[0], s[1]) as int + Be16(s[2], s[3])
  {
    assert Words(s, 2) == Words(s, 1) + Be16(s[2], s[3]);
    assert Words(s, 1) == Words(s, 0) + Be16(s[0], s[1]);
  }

  /** The summands are those of the pseudo header followed by the segment. */
  lemma {:induction false} SumIsOfPseudoHeader(seg: seq<byte>, src: seq<byte>, dst: seq<byte>, proto: byte, totLen: u16)
    requires |src| == |dst| == 4 && totLen >= 20
    ensures PlainSum(seg, FieldAddr(src, 0), FieldAddr(dst, 0), proto, totLen)
            == WordSum(PseudoHeader(src, dst, proto, totLen - 20) + seg)
  {
    hide WordSum;
    var len: u16 := totLen - 20;
    var rest := [0, proto, Hi(len), Lo(len)];
    SumSplits(PseudoHeader(src, dst, proto, len), seg);
    SumSplits(src + dst, rest);
    SumSplits(src, dst);
    FourBytes(src);
    FourBytes(dst);
    FourBytes(rest);
    HiLo(len);
  }

  /** A segment is accepted exactly when pseudo header and segment together fold to 0xFFFF. */
  lemma {:induction false} AcceptsByPseudoHeader(
    seg: seq<byte>, src: seq<byte>, dst: seq<byte>, proto: byte, totLen: u16)
    requires |src| == |dst| == 4 && totLen >= 20 && |seg| < U16
    ensures Accepts(seg, FieldAddr(src, 0), FieldAddr(dst, 0), proto, totLen)
            <==> Fold(WordSum(PseudoHeader(src, dst, proto, totLen - 20) + seg)) == 0xFFFF
  {
    hide WordSum, Fold, PseudoHeader;
    SumIsOfPseudoHeader(seg, src, dst, proto, totLen);
    TotalIs(seg, FieldAddr(src, 0), FieldAddr(dst, 0), proto, totLen);
    AcceptsIff(seg, FieldAddr(src, 0), FieldAddr(dst, 0), proto, totLen);
  }

  /** A segment of odd length is accepted exactly when it is with a zero byte behind it, under the same pseudo
      header. */
  lemma {:induction false} OddSegmentIsPadded(seg: seq<byte>, src: Addr, dst: Addr, proto: byte, totLen: u16)
    requires |seg| % 2 == 1
    ensures Accepts(seg, src, dst, proto, totLen) <==> Accepts(seg + [0], src, dst, proto, totLen)
  {
    hide WordSum, Fold;
    OddIsPadded(seg);
  }

  const PROTO_TCP: byte := 6

  /** The routine as it is called: a TCP segment of as many bytes as its own header's total length gives, which wraps
      around below 20. It is accepted when the sum wraps around to -1, too: everything but the protocol adds up
      to 13. */
  lemma {:induction false} CalledAcceptsIff(seg: seq<byte>, src: Addr, dst: Addr, totLen: u16)
    requires |seg| == TcpLen(totLen)
    ensures var sum := PlainSum(seg, src, dst, PROTO_TCP, totLen);
            && (totLen < 20 ==> |seg| >= 65516)
            && (Accepts(seg, src, dst, PROTO_TCP, totLen)
                <==> (sum > 0 && sum % 0xFFFF == 0)
                     || WordSum(seg) + src.hi + src.lo + dst.hi + dst.lo + totLen == 13)
  {
    hide Accepts, WordSum;
    AcceptsIff(seg, src, dst, PROTO_TCP, totLen);
  }

  lemma {:induction false} ZeroWords(m: nat, n: nat)
    requires 2 * n <= m
    ensures Words(Zeros(m), n) == 0
  {
    if n > 0 {
      ZeroWords(m, n - 1);
    }
  }

  lemma {:induction false} ZeroSum(m: nat)
    ensures WordSum(Zeros(m)) == 0
  {
    ZeroWords(m, m / 2);
  }

  /** Such a call: total length 13, addresses and all 65529 bytes zero. */
  lemma {:induction false} ShortTotalAccepted()
    ensures TcpLen(13) == 65529 && Accepts(Zeros(65529), Addr(0, 0), Addr(0, 0), PROTO_TCP, 13)
  {
    hide Accepts, WordSum, Words, Zeros;
    ZeroSum(65529);
    CalledAcceptsIff(Zeros(65529), Addr(0, 0), Addr(0, 0), 13);
  }

  lemma {:induction false} SameWords(s: seq<byte>, t: seq<byte>, n: nat)
    requires 2 * n <= |s| && 2 * n <= |t| && forall i :: 0 <= i < 2 * n ==> s[i] == t[i]
    ensures Words(s, n) == Words(t, n)
  {
    if n > 0 {
      SameWords(s, t, n - 1);
    }
  }

  // ---------------------------------------------------------------- filling in

  predicate Bit(b: byte, mask: int)
    requires mask > 0
  {
    b / mask % 2 == 1
  }

  /** Bytes in front of the inner IP header: the outer header and GRE with its optional fields. */
  function GreLen(b: seq<byte>): (g: nat)
    requires |b| > 34
    ensures g in {0, 24, 28, 32, 36}
  {
    if b[23] == 0x2F then
      24 + (if Bit(b[34], 0x80) then 4 else 0) + (if Bit(b[34], 0x20) then 4 else 0)
        + (if Bit(b[34], 0x10) then 4 else 0)
    else 0
  }

  /** GRE flags bit by bit: checksum, routing, key, sequence number; three of them announce four bytes each. */
  lemma {:induction false} GreLenIs(b: seq<byte>, c: nat, r: nat, k: nat, s: nat, rest: nat)
    requires |b| > 34 && c <= 1 && r <= 1 && k <= 1 && s <= 1 && rest < 16
    requires b[34] == 128 * c + 64 * r + 32 * k + 16 * s + rest
    ensures GreLen(b) == if b[23] == 0x2F then 24 + 4 * c + 4 * k + 4 * s else 0
  {
  }

  function FieldAddr(b: seq<byte>, i: nat): Addr
    requires i + 3 < |b|
  {
    Addr(Be16(b[i], b[i + 1]), Be16(b[i + 2], b[i + 3]))
  }

  /** A packet whose inner IP header has no options and leaves room for a TCP header. */
  predicate Packet(b: seq<byte>) {
    && |b| >= 54
    && |b| >= 54 + GreLen(b)
    && Field16(b, 16 + GreLen(b)) >= 40
    && |b| >= 14 + GreLen(b) + Field16(b, 16 + GreLen(b))
  }

  /** The IP header at `at` with its checksum filled in. */
  function WithIpChecksum(b: seq<byte>, at: nat): (c: seq<byte>)
    requires at + 20 <= |b|
    ensures |c| == |b|
  {
    b[..at] + Sealed(b[at..at + 20], 5, 0) + b[at + 20..]
  }

  function PseudoAt(b: seq<byte>, g: nat): int
    requires 34 + g <= |b|
  {
    Pseudo(FieldAddr(b, 26 + g), FieldAddr(b, 30 + g), b[23 + g], Field16(b, 16 + g))
  }

  /** The segment behind the inner header with its checksum filled in. */
  function WithTcpChecksum(b: seq<byte>, g: nat, len: nat): (c: seq<byte>)
    requires 34 + g + len <= |b| && len >= 20 && PseudoAt(b, g) >= 0
    ensures |c| == |b|
  {
    b[..34 + g] + Sealed(b[34 + g..34 + g + len], 8, PseudoAt(b, g)) + b[34 + g + len..]
  }

  function WithIpChecksums(b: seq<byte>, g: nat): (c: seq<byte>)
    requires 34 + g <= |b|
    ensures |c| == |b|
  {
    var c := WithIpChecksum(b, 14);
    if g > 0 then WithIpChecksum(c, 14 + g) else c
  }

  /** A sealed header differs only in its checksum. */
  lemma {:induction false} IpChecksumTouches(b: seq<byte>, at: nat)
    requires at + 20 <= |b|
    ensures forall i :: 0 <= i < |b| && i != at + 10 && i != at + 11 ==> WithIpChecksum(b, at)[i] == b[i]
    ensures WithIpChecksum(b, at)[at..at + 20] == Sealed(b[at..at + 20], 5, 0)
  {
    hide Hi, Lo, Fold, WordSum;
  }

  lemma {:induction false} TcpChecksumTouches(b: seq<byte>, g: nat, len: nat)
    requires 34 + g + len <= |b| && len >= 20 && PseudoAt(b, g) >= 0
    ensures forall i :: 0 <= i < |b| && i != 50 + g && i != 51 + g ==> WithTcpChecksum(b, g, len)[i] == b[i]
    ensures WithTcpChecksum(b, g, len)[34 + g..34 + g + len] == Sealed(b[34 + g..34 + g + len], 8, PseudoAt(b, g))
  {
    hide Hi, Lo, Fold, WordSum, PseudoAt;
  }

  /** The header fields that decide what is summed do not lie in any checksum. */
  lemma {:induction false} FieldsStay(b: seq<byte>)
    requires Packet(b)
    ensures var g := GreLen(b);
            var c := WithIpChecksums(b, g);
            c[23] == b[23] && c[34] == b[34] && Field16(c, 16 + g) == Field16(b, 16 + g)
              && PseudoAt(c, g) == PseudoAt(b, g)
  {
    hide Be16, Pseudo;
    var g := GreLen(b);
    IpChecksumTouches(b, 14);
    if g > 0 {
      IpChecksumTouches(WithIpChecksum(b, 14), 14 + g);
    }
    hide WithIpChecksum;
  }

  /** Length of the segment, and what makes the sums of a packet well defined. */
  function SegmentLen(b: seq<byte>, g: nat): (len: nat)
    requires Packet(b) && g == GreLen(b)
    ensures len >= 20 && 34 + g + len <= |b| && len == TcpLen(Field16(b, 16 + g)) && PseudoAt(b, g) >= 0
  {
    Field16(b, 16 + g) - 20
  }

  function Calculated(b: seq<byte>): (c: seq<byte>)
    requires Packet(b)
    ensures |c| == |b|
  {
    FieldsStay(b);
    var g := GreLen(b);
    var len := SegmentLen(b, g);
    WithTcpChecksum(WithIpChecksums(b, g), g, len)
  }

  /** Does the IP header at `at` sum to 0xFFFF? */
  predicate IpSumsUp(b: seq<byte>, at: nat)
    requires at + 20 <= |b|
  {
    Fold(WordSum(b[at..at + 20])) == 0xFFFF
  }

  /** The ten words of an IP header, the checksum word taken as zero. */
  lemma {:induction false} NineWords(h: seq<byte>)
    requires |h| == 20
    ensures WordSum(Put16(h, 10, 0)) ==
      Word(h, 0) + Word(h, 1) + Word(h, 2) + Word(h, 3) + Word(h, 4) + Word(h, 6) + Word(h, 7) + Word(h, 8) + Word(h, 9)
  {
    var z := Put16(h, 10, 0);
    assert forall k :: 0 <= k < 10 && k != 5 ==> Word(z, k) == Word(h, k);
    assert Word(z, 5) == 0;
    hide Word, Put16;
    assert Words(z, 1) == Words(z, 0) + Word(z, 0);
    assert Words(z, 2) == Word(z, 0) + Word(z, 1);
    assert Words(z, 4) == Words(z, 2) + Word(z, 2) + Word(z, 3);
    assert Words(z, 6) == Words(z, 4) + Word(z, 4) + Word(z, 5);
    assert Words(z, 8) == Words(z, 6) + Word(z, 6) + Word(z, 7);
    assert Words(z, 10) == Words(z, 8) + Word(z, 8) + Word(z, 9);
  }

  /** Store a 16-bit value byte by byte. */
  method Store16(buf: array<byte>, i: nat, x: u16)
    requires i + 1 < buf.Length
    modifies buf
    ensures buf[..] == Put16(old(buf[..]), i, x)
  {
    buf[i] := Hi(x);
    buf[i + 1] := Lo(x);
  }

  lemma {:induction false} SealedInPlace(b: seq<byte>, at: nat, len: nat, k: nat, rest: nat, x: u16)
    requires at + len <= |b| && 2 * k + 1 < len
    requires x == Not16(Fold(WordSum(Put16(b[at..at + len], 2 * k, 0)) + rest))
    ensures Put16(b, at + 2 * k, x) == b[..at] + Sealed(b[at..at + len], k, rest) + b[at + len..]
  {
    hide Hi, Lo, Fold, WordSum;
  }

  /** The sum of a header, word by word, without its checksum. */
  method HeaderSum(rxbuf: array<byte>, at: nat) returns (sum: nat)
    requires at + 20 <= rxbuf.Length
    ensures sum == WordSum(Put16(rxbuf[at..at + 20], 10, 0))
  {
    hide WordSum, Put16, Be16;
    NineWords(rxbuf[at..at + 20]);
    sum := 0;
    sum := sum + Be16(rxbuf[at], rxbuf[at + 1]);
    sum := sum + Be16(rxbuf[at + 2], rxbuf[at + 3]);
    sum := sum + Be16(rxbuf[at + 4], rxbuf[at + 5]);
    sum := sum + Be16(rxbuf[at + 6], rxbuf[at + 7]);
    sum := sum + Be16(rxbuf[at + 8], rxbuf[at + 9]);
    sum := sum + Be16(rxbuf[at + 12], rxbuf[at + 13]);
    sum := sum + Be16(rxbuf[at + 14], rxbuf[at + 15]);
    sum := sum + Be16(rxbuf[at + 16], rxbuf[at + 17]);
    sum := sum + Be16(rxbuf[at + 18], rxbuf[at + 19]);
  }

  method FillIpChecksum(rxbuf: array<byte>, at: nat)
    requires at + 20 <= rxbuf.Length
    modifies rxbuf
    ensures rxbuf[..] == WithIpChecksum(old(rxbuf[..]), at)
  {
    hide WordSum, Put16, Fold, Sealed, Not16;
    ghost var b := rxbuf[..];
    var sum := HeaderSum(rxbuf, at);
    var folded := FoldLoop(sum);
    assert rxbuf[at..at + 20] == b[at..at + 20];
    SealedInPlace(b, at, 20, 5, 0, Not16(folded));
    Store16(rxbuf, at + 10, Not16(folded));
  }

  /** What stands in front of the inner header. */
  method ReadGreLen(rxbuf: array<byte>) returns (g: nat)
    requires rxbuf.Length > 34
    ensures g == GreLen(rxbuf[..])
  {
    g := 0;
    if rxbuf[23] == 0x2F {
      g := 24;
      if Bit(rxbuf[34], 0x80) { g := g + 4; }
      if Bit(rxbuf[34], 0x20) { g := g + 4; }
      if Bit(rxbuf[34], 0x10) { g := g + 4; }
    }
  }

  /** All checksums of a packet. */
  method Calculate(rxbuf: array<byte>)
    requires Packet(rxbuf[..])
    modifies rxbuf
    ensures rxbuf[..] == Calculated(old(rxbuf[..]))
  {
    ghost var b := rxbuf[..];
    var g := ReadGreLen(rxbuf);
    var innerLen := Be16(rxbuf[16 + g], rxbuf[17 + g]);
    var len := TcpLen(innerLen);
    assert g == GreLen(b) && innerLen == Field16(b, 16 + g) && len == SegmentLen(b, g);
    FieldsStay(b);
    hide Packet, GreLen, TcpLen, WithIpChecksum, Words;
    FillIpChecksum(rxbuf, 14);
    if g != 0 {
      FillIpChecksum(rxbuf, 14 + g);
    }
    assert rxbuf[..] == WithIpChecksums(b, g);
    FillTcpChecksum(rxbuf, g, innerLen, len);
  }

  method FillTcpChecksum(rxbuf: array<byte>, g: nat, innerLen: u16, len: nat)
    requires 34 + g + len <= rxbuf.Length && len >= 20
    requires innerLen >= 20 && innerLen == Field16(rxbuf[..], 16 + g)
    modifies rxbuf
    ensures PseudoAt(old(rxbuf[..]), g) >= 0
    ensures rxbuf[..] == WithTcpChecksum(old(rxbuf[..]), g, len)
  {
    hide WordSum, Fold, Sealed, Pseudo, Not16, Hi, Lo, Be16;
    ghost var b := rxbuf[..];
    Store16(rxbuf, 50 + g, 0);
    ZeroedChecksum(b, g, len);
    SamePseudo(b, rxbuf[..], g);
    var sum := SumBytes(rxbuf, 34 + g, len);
    var pseudo := PseudoSum(rxbuf, g, innerLen);
    var folded := FoldLoop(sum + pseudo);
    Overwritten(b, 50 + g, 0, Not16(folded));
    Store16(rxbuf, 50 + g, Not16(folded));
    SealedInPlace(b, 34 + g, len, 8, PseudoAt(b, g), Not16(folded));
  }

  /** Zeroing the checksum field zeroes it in the segment and leaves every other byte alone. */
  lemma {:induction false} ZeroedChecksum(b: seq<byte>, g: nat, len: nat)
    requires 34 + g + len <= |b| && len >= 20
    ensures var z := Put16(b, 50 + g, 0);
            && z[34 + g..34 + g + len] == Put16(b[34 + g..34 + g + len], 16, 0)
            && forall i :: 0 <= i < 34 + g ==> z[i] == b[i]
  {
    hide Hi, Lo;
  }

  /** The pseudo header lies in front of the segment. */
  lemma {:induction false} SamePseudo(b: seq<byte>, z: seq<byte>, g: nat)
    requires 34 + g <= |b| && |z| == |b| && forall i :: 0 <= i < 34 + g ==> z[i] == b[i]
    ensures PseudoAt(z, g) == PseudoAt(b, g) && Field16(z, 16 + g) == Field16(b, 16 + g)
  {
    hide Pseudo, Be16;
  }

  lemma {:induction false} Overwritten(b: seq<byte>, i: nat, x: u16, y: u16)
    requires i + 1 < |b|
    ensures Put16(Put16(b, i, x), i, y) == Put16(b, i, y)
  {
    hide Hi, Lo;
  }

  method PseudoSum(rxbuf: array<byte>, g: nat, innerLen: u16) returns (sum: nat)
    requires 34 + g <= rxbuf.Length && innerLen >= 20 && innerLen == Field16(rxbuf[..], 16 + g)
    ensures sum == PseudoAt(rxbuf[..], g)
  {
    ghost var b := rxbuf[..];
    hide Be16, Field16;
    sum := Be16(rxbuf[26 + g], rxbuf[27 + g]);
    sum := sum + Be16(rxbuf[28 + g], rxbuf[29 + g]);
    sum := sum + Be16(rxbuf[30 + g], rxbuf[31 + g]);
    sum := sum + Be16(rxbuf[32 + g], rxbuf[33 + g]);
    sum := sum + rxbuf[23 + g];
    sum := sum + (innerLen - 20);
  }

  // ---------------------------------------------------------------- both together

  lemma {:induction false} SealedHeaderSums(b: seq<byte>, at: nat)
    requires at + 20 <= |b|
    ensures IpSumsUp(WithIpChecksum(b, at), at)
  {
    SealedSums(b[at..at + 20], 5, 0);
    IpChecksumTouches(b, at);
  }

  /** Stretches without a checksum in them stay as they were. */
  lemma {:induction false} SameStretch(b: seq<byte>, c: seq<byte>, lo: nat, hi: nat)
    requires lo <= hi <= |b| && |b| == |c| && forall i :: lo <= i < hi ==> b[i] == c[i]
    ensures b[lo..hi] == c[lo..hi]
  {
  }

  /** After calculating, every IP header sums to 0xFFFF. */
  lemma {:induction false} HeadersSumUp(b: seq<byte>)
    requires Packet(b)
    ensures IpSumsUp(Calculated(b), 14)
    ensures GreLen(b) > 0 ==> IpSumsUp(Calculated(b), 14 + GreLen(b))
  {
    var g := GreLen(b);
    var len := SegmentLen(b, g);
    FieldsStay(b);
    hide Packet, GreLen, SegmentLen, WithIpChecksum, WithTcpChecksum, WordSum, Fold, PseudoAt, Field16, Sealed;
    var c1, c2 := WithIpChecksum(b, 14), WithIpChecksums(b, g);
    SealedHeaderSums(b, 14);
    SealedHeaderSums(c1, 14 + g);
    IpChecksumTouches(c1, 14 + g);
    TcpChecksumTouches(c2, g, len);
    if g > 0 {
      SameStretch(c1, c2, 14, 34);
    }
    SameStretch(c2, Calculated(b), 14, 34);
    SameStretch(c2, Calculated(b), 14 + g, 34 + g);
  }

  /** Nothing but the checksums changes. */
  lemma {:induction false} OnlyChecksumsChange(b: seq<byte>)
    requires Packet(b)
    ensures var c, g := Calculated(b), GreLen(b);
            forall i :: 0 <= i < |b| && i !in {24, 25, 24 + g, 25 + g, 50 + g, 51 + g} ==> c[i] == b[i]
  {
    hide GreLen, SegmentLen, WithIpChecksum, WithTcpChecksum, PseudoAt, Field16;
    var g := GreLen(b);
    FieldsStay(b);
    IpChecksumTouches(b, 14);
    IpChecksumTouches(WithIpChecksum(b, 14), 14 + g);
    TcpChecksumTouches(WithIpChecksums(b, g), g, SegmentLen(b, g));
  }

  /** What was calculated verifies. */
  lemma {:induction false} CalculatedVerifies(b: seq<byte>)
    requires Packet(b)
    ensures var c, g := Calculated(b), GreLen(b);
            Accepts(
              c[34 + g..34 + g + SegmentLen(b, g)], FieldAddr(c, 26 + g), FieldAddr(c, 30 + g), c[23 + g],
              Field16(c, 16 + g))
  {
    var c, g := Calculated(b), GreLen(b);
    var len := SegmentLen(b, g);
    var c2 := WithIpChecksums(b, g);
    FieldsStay(b);
    hide Packet, GreLen, SegmentLen, WithIpChecksums, WithTcpChecksum, WordSum, Fold, Sealed, Pseudo, Be16, Accepts;
    TcpChecksumTouches(c2, g, len);
    SealedAccepts(c, c2, g, len);
  }

  /** After calculating, the addresses and the protocol of the inner header, the length and the segment, laid out as RFC
      793 says, fold to 0xFFFF. */
  lemma {:induction false} SegmentSumsUp(b: seq<byte>)
    requires Packet(b)
    ensures var c, g := Calculated(b), GreLen(b);
            var len := SegmentLen(b, g);
            Fold(WordSum(PseudoHeader(c[26 + g..30 + g], c[30 + g..34 + g], c[23 + g], len)
                         + c[34 + g..34 + g + len])) == 0xFFFF
  {
    var c, g := Calculated(b), GreLen(b);
    var len := SegmentLen(b, g);
    CalculatedVerifies(b);
    CalculatedKeepsFields(b);
    assert Field16(c, 16 + g) == len + 20;
    hide Packet, Calculated, SegmentLen, GreLen, WordSum, Fold, Accepts, PseudoHeader, FieldAddr, Field16, TcpLen;
    AcceptedOnWire(c, g, len);
  }

  lemma {:induction false} AcceptedOnWire(c: seq<byte>, g: nat, len: u16)
    requires 34 + g + len <= |c| && Field16(c, 16 + g) == len + 20
    requires Accepts(
               c[34 + g..34 + g + len], FieldAddr(c, 26 + g), FieldAddr(c, 30 + g), c[23 + g], Field16(c, 16 + g))
    ensures Fold(WordSum(PseudoHeader(c[26 + g..30 + g], c[30 + g..34 + g], c[23 + g], len)
                         + c[34 + g..34 + g + len])) == 0xFFFF
  {
    hide WordSum, Fold, Accepts, PseudoHeader, Be16;
    var src, dst := c[26 + g..30 + g], c[30 + g..34 + g];
    assert FieldAddr(src, 0) == FieldAddr(c, 26 + g) && FieldAddr(dst, 0) == FieldAddr(c, 30 + g);
    AcceptsByPseudoHeader(c[34 + g..34 + g + len], src, dst, c[23 + g], Field16(c, 16 + g));
  }

  lemma {:induction false} SealedAccepts(c: seq<byte>, c2: seq<byte>, g: nat, len: nat)
    requires |c| == |c2| && 34 + g + len <= |c| && 20 <= len < U16 && Field16(c2, 16 + g) >= 20 && PseudoAt(c2, g) >= 0
    requires forall i :: 0 <= i < |c| && i != 50 + g && i != 51 + g ==> c[i] == c2[i]
    requires c[34 + g..34 + g + len] == Sealed(c2[34 + g..34 + g + len], 8, PseudoAt(c2, g))
    ensures Accepts(c[34 + g..34 + g + len], FieldAddr(c, 26 + g), FieldAddr(c, 30 + g), c[23 + g], Field16(c, 16 + g))
  {
    hide WordSum, Fold, Sealed, Be16;
    SealedSums(c2[34 + g..34 + g + len], 8, PseudoAt(c2, g));
    assert PseudoAt(c, g) == PseudoAt(c2, g);
    TotalIs(c[34 + g..34 + g + len], FieldAddr(c, 26 + g), FieldAddr(c, 30 + g), c[23 + g], Field16(c, 16 + g));
  }

  // ---------------------------------------------------------------- both routines in a row

  function Field32(b: seq<byte>, i: nat): u32
    requires i + 3 < |b|
  {
    Be16(b[i], b[i + 1]) as int * U16 + Be16(b[i + 2], b[i + 3])
  }

  /** The halves of an address read as one 32-bit number are those read one by one. */
  lemma {:induction false} SameAddress(b: seq<byte>, i: nat)
    requires i + 3 < |b|
    ensures AddrOf(Field32(b, i)) == FieldAddr(b, i)
  {
    hide Be16;
  }

  /** Fill in the checksums of a packet, then verify its segment with the fields of its inner header. */
  method CalculateThenVerify(rxbuf: array<byte>) returns (match': bool)
    requires Packet(rxbuf[..])
    modifies rxbuf
    ensures match'
    ensures rxbuf[..] == Calculated(old(rxbuf[..]))
  {
    hide Packet, Calculated, Accepts, GreLen, SegmentLen, TcpLen, Field32, FieldAddr, AddrOf, Be16;
    ghost var b := rxbuf[..];
    CalculatedVerifies(b);
    CalculatedKeepsFields(b);
    Calculate(rxbuf);
    ghost var c := rxbuf[..];
    var g := ReadGreLen(rxbuf);
    var ipLen := Be16(rxbuf[16 + g], rxbuf[17 + g]);
    var src := Read32(rxbuf, 26 + g);
    var dst := Read32(rxbuf, 30 + g);
    SameAddress(c, 26 + g);
    SameAddress(c, 30 + g);
    match' := Verify(rxbuf, 34 + g, src, dst, rxbuf[23 + g], ipLen, ipLen);
  }

  method Read32(rxbuf: array<byte>, i: nat) returns (x: u32)
    requires i + 3 < rxbuf.Length
    ensures x == Field32(rxbuf[..], i)
  {
    x := Be16(rxbuf[i], rxbuf[i + 1]) as int * U16 + Be16(rxbuf[i + 2], rxbuf[i + 3]);
  }

  /** The filled-in packet is laid out like the packet. */
  lemma {:induction false} CalculatedKeepsFields(b: seq<byte>)
    requires Packet(b)
    ensures var c, g := Calculated(b), GreLen(b);
            && |c| == |b| && GreLen(c) == g && Field16(c, 16 + g) == Field16(b, 16 + g)
            && |c| >= 54 + g && 34 + g + SegmentLen(b, g) <= |c| && TcpLen(Field16(c, 16 + g)) == SegmentLen(b, g)
  {
    OnlyChecksumsChange(b);
    hide Calculated, Be16;
  }
}
