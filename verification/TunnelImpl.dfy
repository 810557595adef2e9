/** Tunnel mode on packet buffers. */
module TunnelImpl {
  import opened Bytes
  import opened Cbc
  import opened PacketBuffer
  import opened Tunnel

  /** A crypto operation: what the device is told, and the copy of the IV kept beside it. */
  class CryptoOp {
    var session: Cipher
    var iv: Block
    var savedIv: Block
    var offset: nat
    var length: nat

    constructor (session: Cipher)
      ensures this.session == session
    {
      this.session, iv, savedIv, offset, length := session, Zeros(16), Zeros(16), 0, 0;
    }
  }

  /** Pad the packet and tell the device what to do with it. */
  method Enqueue(m: Mbuf, op: CryptoOp, cs: CsPort, isEncrypt: bool, freshIv: Block, pktIv: Block, epoch: byte)
    returns (ok: bool)
    requires m.Valid()
    modifies m, m.buf, op
    ensures m.Valid() && m.off == old(m.off)
    ensures ok == (old(m.len) >= ETH && old(m.off + m.len) + PadLen(old(m.len) - ETH) <= m.buf.Length)
    ensures ok ==> m.Contents() == Padded(old(m.Contents()))
    ensures ok ==> op.session == SessionFor(cs, epoch) && op.iv == (if isEncrypt then freshIv else pktIv)
    ensures ok ==> op.offset == ETH && op.length == m.len - ETH && (isEncrypt ==> op.savedIv == freshIv)
    ensures !ok ==> unchanged(m) && unchanged(m.buf) && unchanged(op)
  {
    if m.len < ETH {
      return false;
    }
    ok := Pad(m, ETH);
    if !ok {
      return;
    }
    op.session := SessionFor(cs, epoch);
    if isEncrypt {
      op.iv := freshIv;
      op.savedIv := op.iv;
    } else {
      op.iv := pktIv;
    }
    op.offset, op.length := ETH, m.len - ETH;
  }

  /** Fill up the last block of what starts at byte `at`. */
  method Pad(m: Mbuf, at: nat) returns (ok: bool)
    requires m.Valid() && m.len >= at
    modifies m, m.buf
    ensures m.Valid() && m.off == old(m.off)
    ensures ok == (old(m.off + m.len) + PadLen(old(m.len) - at) <= m.buf.Length)
    ensures ok ==> m.Contents() == PadFrom(old(m.Contents()), at)
    ensures ok ==> m.Headroom() == old(m.Headroom()) && m.Tailroom() == old(m.Tailroom())[PadLen(old(m.len) - at)..]
    ensures !ok ==> unchanged(m) && unchanged(m.buf)
  {
    ghost var f := m.Contents();
    var padLen := 0;
    if (m.len - at) % BLOCK != 0 {
      padLen := BLOCK - (m.len - at) % BLOCK;
    }
    ok := true;
    if padLen != 0 {
      ok := m.Append(padLen);
      if ok {
        OverlayTail(f, m.Contents()[|f|..], Zeros(padLen));
        m.Write(m.len - padLen, Zeros(padLen));
      }
    }
  }

  /** The device works on the announced range only. */
  method Device(m: Mbuf, op: CryptoOp, isEncrypt: bool)
    requires m.Valid() && op.offset + op.length == m.len && op.length % BLOCK == 0
    modifies m.buf
    ensures m.Contents() == if isEncrypt then EncryptFrom(op.session, op.iv, old(m.Contents()), op.offset)
                            else DecryptFrom(op.session, op.iv, old(m.Contents()), op.offset)
  {
    ghost var f := m.Contents();
    var data := m.buf[m.off + op.offset..m.off + m.len];
    m.Seen(op.offset, m.len);
    assert data == f[op.offset..];
    m.Write(op.offset, if isEncrypt then Encrypt(op.session, op.iv, data) else Decrypt(op.session, op.iv, data));
  }

  /** Exchange the Ethernet header for Ethernet, outer IP, UDP and IV. */
  method Encap(m: Mbuf, iv: Block, epoch: byte) returns (ok: bool)
    requires m.Valid() && m.off + ETH <= m.buf.Length
    modifies m, m.buf
    ensures m.Valid()
    ensures ok == (old(m.len) >= ETH && old(m.off) >= OUTER)
    ensures ok ==> m.off == old(m.off) - OUTER && m.Contents() == Encapped(old(m.Contents()), iv, epoch)
    ensures !ok ==> m.Contents() == if old(m.len) < ETH then old(m.Contents()) else old(m.Contents())[ETH..]
  {
    hide OuterIp, OuterUdp, Encapped, Mbuf.Contents;
    ghost var f := m.Contents();
    if m.len >= ETH {
      m.Seen(0, ETH);
      EncappedIs(f, iv, epoch);
    }
    var eth := m.buf[m.off..m.off + ETH];
    ok := m.Adj(ETH);
    if !ok {
      return;
    }
    ghost var rest := m.Contents();
    var n := m.len;
    ok := m.Prepend(ETH + OUTER);
    if !ok {
      return;
    }
    WriteHeaders(m, eth, iv, epoch, n, rest);
  }

  /** Fill the room in front of the encrypted packet. */
  method WriteHeaders(m: Mbuf, eth: seq<byte>, iv: Block, epoch: byte, n: nat, ghost rest: seq<byte>)
    requires m.Valid() && |eth| == ETH && m.len >= ETH + OUTER && m.Contents()[ETH + OUTER..] == rest
    modifies m.buf
    ensures m.Contents() == eth[..12] + [0x08, 0x00] + OuterIp(epoch, n) + OuterUdp(n) + iv + rest
  {
    hide OuterIp, OuterUdp, Overlay, Mbuf.Contents;
    HeadersWritten(m.Contents(), eth, OuterIp(epoch, n), OuterUdp(n), iv, rest);
    m.Write(0, eth);
    m.Write(12, [0x08, 0x00]);
    m.Write(ETH, OuterIp(epoch, n));
    m.Write(ETH + IP, OuterUdp(n));
    m.Write(ETH + IP + UDP, iv);
  }

  lemma {:induction false} EncappedIs(f: seq<byte>, iv: Block, epoch: byte)
    requires |f| >= ETH
    ensures Encapped(f, iv, epoch)
            == f[0..ETH][..12] + [0x08, 0x00] + OuterIp(epoch, |f| - ETH) + OuterUdp(|f| - ETH) + iv + f[ETH..]
  {
    hide OuterIp, OuterUdp;
    assert f[0..ETH][..12] == f[..12];
  }

  lemma {:induction false} HeadersWritten(
    s: seq<byte>, eth: seq<byte>, ip: seq<byte>, udp: seq<byte>, iv: seq<byte>, rest: seq<byte>)
    requires |eth| == 14 && |ip| == 20 && |udp| == 8 && |iv| == 16 && |s| >= 58 && s[58..] == rest
    ensures Overlay(Overlay(Overlay(Overlay(Overlay(s, 0, eth), 12, [0x08, 0x00]), 14, ip), 34, udp), 42, iv)
         == eth[..12] + [0x08, 0x00] + ip + udp + iv + rest
  {
    var d := eth[..12] + [0x08, 0x00];
    assert Overlay(Overlay(s, 0, eth), 12, [0x08, 0x00]) == d + s[14..];
    assert Overlay(d + s[14..], 14, ip) == (d + ip) + s[34..];
    assert Overlay(d + ip + s[34..], 34, udp) == (d + ip + udp) + s[42..];
    assert Overlay(d + ip + udp + s[42..], 42, iv) == (d + ip + udp + iv) + s[58..];
  }

  /** Strip outer IP and UDP, keeping the Ethernet header, and read the epoch. */
  method Decap(m: Mbuf) returns (ok: bool, epoch: byte)
    requires m.Valid() && m.off + ETH + IP <= m.buf.Length
    modifies m, m.buf
    ensures m.Valid()
    ensures ok == (old(m.len) >= ETH + IP + UDP && old(m.buf[m.off + ETH + 9]) == PROTO_UDP)
    ensures ok ==> m.Contents() == Decapped(old(m.Contents())) && epoch == old(m.Contents())[ETH + 1]
    ensures ok ==> m.off == old(m.off) + IP + UDP
    ensures !ok ==> unchanged(m) && unchanged(m.buf)
  {
    epoch := 0;
    if m.buf[m.off + ETH + 9] != PROTO_UDP {
      return false, epoch;
    }
    ghost var w := m.Contents();
    epoch := m.buf[m.off + ETH + 1];
    if m.len >= ETH {
      m.Seen(0, ETH);
    }
    var eth := m.buf[m.off..m.off + ETH];
    ok := m.Adj(ETH + IP + UDP);
    if !ok {
      return;
    }
    assert eth == w[..ETH];
    ghost var rest := m.Contents();
    ok := m.Prepend(ETH);
    OverlayHead(m.Contents()[..ETH], rest, eth);
    m.Write(0, eth);
  }

  /** Take the IV out from behind the Ethernet header. */
  method StripIv(m: Mbuf) returns (ok: bool, iv: Block)
    requires m.Valid() && m.off + ETH + IV <= m.buf.Length
    modifies m, m.buf
    ensures m.Valid() && ok == (old(m.len) >= ETH + IV)
    ensures ok ==> m.Contents() == WithoutIv(old(m.Contents())) && iv == IvOf(old(m.Contents()))
    ensures ok ==> m.off == old(m.off) + IV
    ensures !ok ==> unchanged(m) && unchanged(m.buf)
  {
    hide Mbuf.Contents;
    ghost var d := m.Contents();
    if m.len >= ETH + IV {
      m.Seen(0, ETH);
      m.Seen(ETH, ETH + IV);
    }
    iv := m.buf[m.off + ETH..m.off + ETH + IV];
    var eth := m.buf[m.off..m.off + ETH];
    ok := m.Adj(ETH + IV);
    if !ok {
      return;
    }
    assert eth == d[..ETH] && iv == d[ETH..ETH + IV];
    ghost var rest := m.Contents();
    ok := m.Prepend(ETH);
    OverlayHead(m.Contents()[..ETH], rest, eth);
    m.Write(0, eth);
  }

  /** Cut the padding off a decrypted packet. */
  method TrimPadding(m: Mbuf)
    requires m.Valid() && (m.len == ETH || ETH + 4 <= m.len < U32) && m.off + ETH + 4 <= m.buf.Length
    modifies m
    ensures m.Valid() && m.Contents() == Trimmed(old(m.Contents()))
  {
    hide Mbuf.Contents, Be16;
    ghost var f := m.Contents();
    var totalLen := Be16(m.buf[m.off + ETH + 2], m.buf[m.off + ETH + 3]);
    if m.len > ETH {
      m.SeenAt(ETH + 2);
      m.SeenAt(ETH + 3);
      assert totalLen == Field16(f, ETH + 2);
    } else {
      BareHeader(totalLen);
    }
    var padLen := (m.len - ETH - totalLen) % U32;
    if padLen > 0 && padLen < 16 {
      TrimsSome(f, padLen);
      var _ := m.Trim(padLen);
    } else {
      TrimsNone(f, padLen);
    }
  }

  /** Whatever length is read behind a bare Ethernet header, it trims nothing. */
  lemma {:induction false} BareHeader(totalLen: u16)
    ensures !(0 < (0 - totalLen) % U32 < 16)
  {
  }

  lemma {:induction false} TrimsSome(f: seq<byte>, padLen: nat)
    requires |f| >= ETH + 4 && padLen == (|f| - ETH - Field16(f, ETH + 2)) % U32 && 0 < padLen < 16
    ensures padLen <= |f| && Trimmed(f) == f[..|f| - padLen]
  {
    hide Be16;
  }

  lemma {:induction false} TrimsNone(f: seq<byte>, padLen: nat)
    requires |f| == ETH || (|f| >= ETH + 4 && padLen == (|f| - ETH - Field16(f, ETH + 2)) % U32)
    requires !(0 < padLen < 16)
    ensures Trimmed(f) == f
  {
    hide Be16;
  }

  /** A packet's way through the encrypting box. */
  method SendSide(m: Mbuf, op: CryptoOp, cs: CsPort, freshIv: Block, tosEpoch: byte) returns (ok: bool)
    requires m.Valid()
    modifies m, m.buf, op
    ensures m.Valid()
    ensures ok == (old(m.len) >= ETH && old(m.off + m.len) + PadLen(old(m.len) - ETH) <= m.buf.Length
              && old(m.off) >= OUTER)
    ensures ok ==> m.Contents() == Sent(SessionFor(cs, cs.epochCur), freshIv, tosEpoch, old(m.Contents()))
  {
    hide Padded, EncryptFrom, Encapped, Mbuf.Contents;
    ok := Enqueue(m, op, cs, true, freshIv, freshIv, cs.epochCur);
    if !ok {
      return;
    }
    Device(m, op, true);
    ok := Encap(m, op.savedIv, tosEpoch);
  }

  /** A packet's way through the decrypting box. */
  method ReceiveSide(m: Mbuf, op: CryptoOp, cs: CsPort) returns (ok: bool)
    requires m.Valid() && m.off + ETH + OUTER + 4 <= m.buf.Length && m.len < U32 - 16
    modifies m, m.buf, op
    ensures m.Valid()
    ensures ok == (Receive(cs, old(m.Contents())).Frame?
              && old(m.off + m.len) + PadLen(old(m.len) - ETH - OUTER) <= m.buf.Length)
    ensures ok ==> Receive(cs, old(m.Contents())) == Frame(m.Contents())
  {
    hide Padded, DecryptFrom, Decapped, WithoutIv, IvOf, Trimmed, Mbuf.Contents, SessionFor, Accepts;
    ghost var w := m.Contents();
    if m.len > ETH + 9 {
      m.SeenAt(ETH + 9);
    }
    var epoch, iv;
    ok, epoch := Decap(m);
    if !ok || !Accepts(cs, epoch) {
      return false;
    }
    ok, iv := StripIv(m);
    if !ok {
      return;
    }
    ok := Enqueue(m, op, cs, false, iv, iv, epoch);
    if !ok {
      return;
    }
    Device(m, op, false);
    TrimPadding(m);
  }
}
