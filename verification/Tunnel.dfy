/** Tunnel mode: the whole inner packet is padded, encrypted and wrapped in outer IP, UDP and IV. */
module Tunnel {
  import opened Bytes
  import opened Checksum
  import opened Cbc
  import opened PacketBuffer

  const ETH: nat := 14
  const IP: nat := 20
  const UDP: nat := 8
  const IV: nat := 16
  /** Outer IP, UDP and IV. */
  const OUTER: nat := 44

  const TTL: byte := 64
  const PROTO_UDP: byte := 17
  const PORT: u16 := 1701

  // ---------------------------------------------------------------- sessions

  /** The session table of a port: a session per known epoch, the current epoch, and the static session. */
  datatype CsPort = CsPort(sessions: map<byte, Cipher>, epochCur: byte, fallback: Cipher)

  function SessionFor(cs: CsPort, epoch: byte): Cipher {
    if epoch in cs.sessions then cs.sessions[epoch] else cs.fallback
  }

  predicate Accepts(cs: CsPort, epoch: byte) {
    epoch in cs.sessions || cs.epochCur == epoch
  }

  // ---------------------------------------------------------------- padding and encryption

  function Padded(f: seq<byte>): (p: seq<byte>)
    requires |f| >= ETH
    ensures |p| == |f| + PadLen(|f| - ETH) && Whole(p[ETH..])
  {
    PadFrom(f, ETH)
  }

  /** Padding is cut off by the total length of the inner header; 32-bit subtraction wraps around.
      Behind a bare Ethernet header the length read is stale, but no value of it cuts anything off. */
  function Trimmed(f: seq<byte>): (t: seq<byte>)
    requires |f| == ETH || |f| >= ETH + 4
    ensures t <= f
  {
    if |f| == ETH then f else
    var pad := (|f| - ETH - Field16(f, ETH + 2)) % U32;
    if 0 < pad < 16 then f[..|f| - pad] else f
  }

  // ---------------------------------------------------------------- encapsulation

  /** The two outer length fields around n bytes, cut to 16 bits. */
  function TotalLen(n: nat): u16 {
    (OUTER + n % U16) % U16
  }

  function UdpLen(n: nat): u16 {
    (UDP + IV + n % U16) % U16
  }

  lemma {:induction false} LengthsFit(n: nat)
    ensures TotalLen(n) == (OUTER + n) % U16 && UdpLen(n) == (UDP + IV + n) % U16
    ensures TotalLen(n) == OUTER + n && UdpLen(n) == UDP + IV + n <==> n <= 65491
  {
    var r, q := n % U16, n / U16;
    assert n == r + U16 * q;
    WrapsOff(OUTER + r, q);
    WrapsOff(UDP + IV + r, q);
  }

  lemma {:induction false} WrapsOff(x: nat, q: nat)
    ensures (x + U16 * q) % U16 == x % U16
  {
  }

  /** The outer IP header around n bytes, its checksum still zero. */
  function OuterFields(epoch: byte, n: nat): (h: seq<byte>)
    ensures |h| == IP
  {
    [0x45, epoch, Hi(TotalLen(n)), Lo(TotalLen(n)), 0, 0, 0x40, 0, TTL, PROTO_UDP, 0, 0, 10, 0, 0, 1, 10, 0, 0, 2]
  }

  function OuterIp(epoch: byte, n: nat): (h: seq<byte>)
    ensures |h| == IP
  {
    Sealed(OuterFields(epoch, n), 5, 0)
  }

  lemma {:induction false} OuterIpBytes(epoch: byte, n: nat)
    ensures var h := OuterIp(epoch, n);
            h[1] == epoch && h[2] == Hi(TotalLen(n)) && h[3] == Lo(TotalLen(n)) && h[9] == PROTO_UDP
  {
    hide Hi, Lo, TotalLen, Sealed;
    SealedKeeps(OuterFields(epoch, n), 5, 0);
    assert OuterFields(epoch, n)[9] == PROTO_UDP;
  }

  function OuterUdp(n: nat): (h: seq<byte>)
    ensures |h| == UDP
  {
    [Hi(PORT), Lo(PORT), Hi(PORT), Lo(PORT), Hi(UdpLen(n)), Lo(UdpLen(n)), 0, 0]
  }

  /** The Ethernet header keeps its addresses and becomes IPv4. */
  function OuterEth(f: seq<byte>): (h: seq<byte>)
    requires |f| >= ETH
    ensures |h| == ETH
  {
    f[..12] + [0x08, 0x00]
  }

  function Encapped(f: seq<byte>, iv: Block, epoch: byte): (w: seq<byte>)
    requires |f| >= ETH
    ensures |w| == |f| + OUTER
  {
    OuterEth(f) + OuterIp(epoch, |f| - ETH) + OuterUdp(|f| - ETH) + iv + f[ETH..]
  }

  function Decapped(w: seq<byte>): (d: seq<byte>)
    requires |w| >= ETH + IP + UDP
    ensures |d| == |w| - IP - UDP
  {
    w[..ETH] + w[ETH + IP + UDP..]
  }

  function IvOf(d: seq<byte>): Block
    requires |d| >= ETH + IV
  {
    d[ETH..ETH + IV]
  }

  function WithoutIv(d: seq<byte>): (e: seq<byte>)
    requires |d| >= ETH + IV
    ensures |e| == |d| - IV
  {
    d[..ETH] + d[ETH + IV..]
  }

  // ---------------------------------------------------------------- the two directions

  /** What leaves the encrypting box. The epoch in the header is read when the packet comes back from the device. */
  function Sent(c: Cipher, iv: Block, epoch: byte, f: seq<byte>): seq<byte>
    requires |f| >= ETH
  {
    Encapped(EncryptFrom(c, iv, Padded(f), ETH), iv, epoch)
  }

  datatype Received = Dropped | Frame(bytes: seq<byte>)

  /** What the decrypting box makes of a packet from the WAN. */
  function Receive(cs: CsPort, w: seq<byte>): Received
  {
    if |w| < ETH + OUTER || w[ETH + 9] != PROTO_UDP || !Accepts(cs, w[ETH + 1]) then Dropped
    else
      var d := Decapped(w);
      var e := Padded(WithoutIv(d));
      Frame(Trimmed(DecryptFrom(SessionFor(cs, w[ETH + 1]), IvOf(d), e, ETH)))
  }

  // ---------------------------------------------------------------- round trip

  lemma {:induction false} PaddedIsWhole(f: seq<byte>)
    requires |f| >= ETH
    ensures Padded(Padded(f)) == Padded(f)
    ensures Whole(f[ETH..]) ==> Padded(f) == f
  {
  }

  /** Decapsulating gives back the frame, now of type IPv4, the epoch and the IV. */
  lemma {:induction false} DecapUndoesEncap(f: seq<byte>, iv: Block, epoch: byte)
    requires |f| >= ETH
    ensures var w := Encapped(f, iv, epoch);
            && w[ETH + 9] == PROTO_UDP && w[ETH + 1] == epoch
            && IvOf(Decapped(w)) == iv
            && WithoutIv(Decapped(w)) == OuterEth(f) + f[ETH..]
  {
    var w := Encapped(f, iv, epoch);
    hide OuterIp, Hi, Lo, UdpLen;
    OuterIpBytes(epoch, |f| - ETH);
    assert w[ETH..ETH + IP] == OuterIp(epoch, |f| - ETH);
    assert w[ETH + 9] == w[ETH..ETH + IP][9] && w[ETH + 1] == w[ETH..ETH + IP][1];
    var d := Decapped(w);
    assert d == OuterEth(f) + (iv + f[ETH..]);
  }

  /** What the trim does to a padded frame whose inner header claims len bytes. */
  lemma {:induction false} TrimOfPadded(f: seq<byte>)
    requires ETH + 4 <= |f| < U32 - 16 && Field16(f, ETH + 2) <= |f| - ETH
    ensures var len := Field16(f, ETH + 2) as nat;
            var extra := |f| - ETH - len + PadLen(|f| - ETH);
            Trimmed(Padded(f)) == if 0 < extra < 16 then f[..ETH + len] else Padded(f)
  {
    var p := Padded(f);
    assert p[ETH + 2] == f[ETH + 2] && p[ETH + 3] == f[ETH + 3];
    assert Field16(p, ETH + 2) == Field16(f, ETH + 2);
    hide Be16;
    var extra := |p| - ETH - Field16(p, ETH + 2);
    assert extra % U32 == extra;
    if 0 < extra < 16 {
      assert p[..|p| - extra] == f[..ETH + Field16(f, ETH + 2)];
    }
  }

  /** A packet is dropped exactly when it is shorter than the outer headers, is not UDP, or carries an epoch
      that neither a session nor the current epoch of the port stands for. */
  lemma {:induction false} DroppedIff(cs: CsPort, w: seq<byte>)
    ensures Receive(cs, w) == Dropped
            <==> |w| < 58 || w[23] != 17 || (w[15] !in cs.sessions && w[15] != cs.epochCur)
  {
    hide Trimmed, DecryptFrom, Padded, WithoutIv;
  }

  /** An IPv4 frame that carries the whole datagram its inner header announces. */
  predicate Carries(f: seq<byte>) {
    && ETH + 4 <= |f| < U32 - 16
    && f[12..14] == [0x08, 0x00]
    && Field16(f, ETH + 2) <= |f| - ETH
  }

  /** Whatever key encrypted a packet, the receiver decrypts it under the session its table has for the epoch in the
      header, with the very IV, or drops it when it does not accept that epoch. */
  lemma {:induction false} ReceivesByEpoch(c: Cipher, rx: CsPort, iv: Block, epoch: byte, f: seq<byte>)
    requires Carries(f)
    ensures Receive(rx, Sent(c, iv, epoch, f)) ==
              if Accepts(rx, epoch)
              then Frame(Trimmed(DecryptFrom(SessionFor(rx, epoch), iv, EncryptFrom(c, iv, Padded(f), ETH), ETH)))
              else Dropped
  {
    var e := EncryptFrom(c, iv, Padded(f), ETH);
    DecapUndoesEncap(e, iv, epoch);
    assert OuterEth(e) == e[..ETH] by { assert e[12..14] == f[12..14]; }
    assert OuterEth(e) + e[ETH..] == e;
    PaddedIsWhole(e);
    assert Whole(e[ETH..]) by { assert |e[ETH..]| == |Padded(f)[ETH..]|; }
  }

  /** Every packet sent under a key the receiver selects by the epoch in the header comes out of the receiver. */
  lemma {:induction false} ReceiveUndoesSent(c: Cipher, rx: CsPort, iv: Block, epoch: byte, f: seq<byte>)
    requires Carries(f) && Inverts(c)
    requires Accepts(rx, epoch) && SessionFor(rx, epoch) == c
    ensures Receive(rx, Sent(c, iv, epoch, f)) == Frame(Trimmed(Padded(f)))
  {
    ReceivesByEpoch(c, rx, iv, epoch, f);
    DecryptFromUndoes(c, iv, Padded(f), ETH);
  }

  /** The Ethernet header and the whole inner datagram always come through; the frame itself exactly when
      nothing trails the datagram, or so much that the trim does not see the padding and none was needed. */
  lemma {:induction false} EndToEnd(c: Cipher, rx: CsPort, iv: Block, epoch: byte, f: seq<byte>)
    requires Carries(f) && Inverts(c)
    requires Accepts(rx, epoch) && SessionFor(rx, epoch) == c
    ensures var out, len := Receive(rx, Sent(c, iv, epoch, f)), Field16(f, ETH + 2) as nat;
            var trailing := |f| - ETH - len;
            && out.Frame? && |out.bytes| >= ETH + len && out.bytes[..ETH + len] == f[..ETH + len]
            && (out.bytes == f <==> trailing == 0 || (trailing >= 16 && PadLen(|f| - ETH) == 0))
  {
    hide Receive, Sent, Trimmed, Be16, Inverts, Accepts, SessionFor;
    ReceiveUndoesSent(c, rx, iv, epoch, f);
    TrimOfPadded(f);
    var len := Field16(f, ETH + 2) as nat;
    assert Padded(f)[..ETH + len] == f[..ETH + len];
  }

  /** The length fields of the outer headers, and when they tell the truth. */
  lemma {:induction false} OuterLengths(f: seq<byte>, iv: Block, epoch: byte)
    requires ETH <= |f|
    ensures var w, n := Encapped(f, iv, epoch), |f| - ETH;
            && Field16(w, ETH + 2) == (OUTER + n) % U16 && Field16(w, ETH + IP + 4) == (UDP + IV + n) % U16
            && (Field16(w, ETH + 2) == |w| - ETH && Field16(w, ETH + IP + 4) == |w| - ETH - IP <==> n <= 65491)
  {
    hide Encapped, TotalLen, UdpLen, Hi, Lo, Be16;
    var n := |f| - ETH;
    OuterBytes(f, iv, epoch);
    HiLo(TotalLen(n));
    HiLo(UdpLen(n));
    LengthsFit(n);
  }

  lemma {:induction false} OuterBytes(f: seq<byte>, iv: Block, epoch: byte)
    requires ETH <= |f|
    ensures var w, n := Encapped(f, iv, epoch), |f| - ETH;
            && w[ETH..ETH + IP] == OuterIp(epoch, n)
            && w[ETH + 2] == Hi(TotalLen(n)) && w[ETH + 3] == Lo(TotalLen(n))
            && w[ETH + IP + 4] == Hi(UdpLen(n)) && w[ETH + IP + 5] == Lo(UdpLen(n))
  {
    var w, n := Encapped(f, iv, epoch), |f| - ETH;
    hide OuterIp, Hi, Lo, UdpLen, TotalLen;
    OuterIpBytes(epoch, n);
    var h, u := OuterIp(epoch, n), OuterUdp(n);
    assert w[ETH..ETH + IP] == h && w[ETH + IP..ETH + IP + UDP] == u;
    assert w[ETH + 2] == w[ETH..ETH + IP][2] && w[ETH + 3] == w[ETH..ETH + IP][3];
    assert w[ETH + IP + 4] == w[ETH + IP..ETH + IP + UDP][4] && w[ETH + IP + 5] == w[ETH + IP..ETH + IP + UDP][5];
  }

  /** The outer IP header sums to 0xFFFF. */
  lemma {:induction false} OuterHeaderSums(f: seq<byte>, iv: Block, epoch: byte)
    requires ETH <= |f|
    ensures Fold(WordSum(Encapped(f, iv, epoch)[ETH..ETH + IP])) == 0xFFFF
  {
    OuterBytes(f, iv, epoch);
    SealedSums(OuterFields(epoch, |f| - ETH), 5, 0);
  }

  /** Where each header field stands on the wire. */
  lemma {:induction false} OuterHeaderOnWire(f: seq<byte>, iv: Block, epoch: byte)
    requires ETH <= |f|
    ensures var w := Encapped(f, iv, epoch);
            && w[..12] == f[..12] && w[12..14] == [0x08, 0x00]
            && w[14] == 0x45 && w[15] == epoch && w[18..24] == [0, 0, 0x40, 0, 64, 17]
            && w[26..30] == [10, 0, 0, 1] && w[30..34] == [10, 0, 0, 2]
            && Field16(w, 34) == 1701 && Field16(w, 36) == 1701 && Field16(w, 40) == 0
            && w[42..58] == iv && w[58..] == f[ETH..]
  {
    hide Be16, Hi, Lo, TotalLen, UdpLen, OuterIp;
    var w, n := Encapped(f, iv, epoch), |f| - ETH;
    var h, u := OuterIp(epoch, n), OuterUdp(n);
    OuterIpFixed(epoch, n);
    assert w[ETH..34] == h && w[34..42] == u;
    assert w[14] == h[0] && w[15] == h[1];
    assert w[18] == h[4] && w[19] == h[5] && w[20] == h[6] && w[21] == h[7] && w[22] == h[8] && w[23] == h[9];
    assert w[26] == h[12] && w[27] == h[13] && w[28] == h[14] && w[29] == h[15];
    assert w[30] == h[16] && w[31] == h[17] && w[32] == h[18] && w[33] == h[19];
    assert w[34] == u[0] && w[35] == u[1] && w[36] == u[2] && w[37] == u[3] && w[40] == u[6] && w[41] == u[7];
    HiLo(PORT);
    HiLo(0);
    ZeroBytes();
  }

  lemma {:induction false} OuterIpFixed(epoch: byte, n: nat)
    ensures var h := OuterIp(epoch, n);
            && h[0] == 0x45 && h[1] == epoch && h[4] == h[5] == 0 && h[6] == 0x40 && h[7] == 0 && h[8] == TTL
               && h[9] == PROTO_UDP
            && h[12] == 10 && h[13] == 0 && h[14] == 0 && h[15] == 1 && h[16] == 10 && h[17] == 0 && h[18] == 0
               && h[19] == 2
  {
    hide Hi, Lo, TotalLen, Sealed;
    SealedKeeps(OuterFields(epoch, n), 5, 0);
  }

  lemma {:induction false} ZeroBytes()
    ensures Hi(0) == 0 && Lo(0) == 0
  {
  }
}
