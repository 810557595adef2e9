/** Transport mode on packet buffers. */
module TransportImpl {
  import opened Bytes
  import opened Checksum
  import opened Cbc
  import opened PacketBuffer
  import opened Transport
  import Tunnel
  import TunnelImpl
  import TcpChecksum

  /** Rewrite protocol, length and checksum of the IP header. */
  method PatchHeader(m: Mbuf, proto: byte, total: u16)
    requires m.Valid() && m.len >= HEAD && 20 <= IpLen(m.Contents()) <= m.len - ETH
    modifies m.buf
    ensures m.Contents() == PatchIp(old(m.Contents()), proto, total)
  {
    hide Mbuf.Contents, Hi, Lo, WordSum, Fold, Not16, Overlay, Put16, WithFields, OptionSum;
    ghost var f := m.Contents();
    ghost var a, h, r := f[..ETH], f[ETH..HEAD], f[HEAD..];
    assert f == a + h + r;
    m.Write(ETH + 9, [proto]);
    OverlayInside(a, h, r, 9, [proto]);
    ghost var h1 := Overlay(h, 9, [proto]);
    m.Write(ETH + 2, [Hi(total), Lo(total)]);
    OverlayInside(a, h1, r, 2, [Hi(total), Lo(total)]);
    ghost var h2 := Overlay(h1, 2, [Hi(total), Lo(total)]);
    m.Write(ETH + 10, [0, 0]);
    OverlayInside(a, h2, r, 10, [0, 0]);
    ghost var h3 := Overlay(h2, 10, [0, 0]);
    FieldsWritten(h, proto, total, 0);
    HeaderKept(f, h3, proto, total);
    var sum := SumHeader(m, a, h3, r);
    var folded := FoldLoop(sum);
    var c := Not16(folded);
    m.Write(ETH + 10, [Hi(c), Lo(c)]);
    OverlayInside(a, h3, r, 10, [Hi(c), Lo(c)]);
    FieldsWritten(h, proto, total, c);
  }

  /** The library routine: the sum of the IP header, with or without its options. */
  method SumHeader(m: Mbuf, ghost a: seq<byte>, ghost h: seq<byte>, ghost r: seq<byte>) returns (sum: nat)
    requires m.Valid() && m.Contents() == a + h + r && |a| == ETH && |h| == 20
    requires 20 <= IpLen(m.Contents()) <= m.len - ETH
    ensures sum == WordSum(h) + OptionSum(m.Contents())
  {
    hide Mbuf.Contents, WordSum;
    m.SeenAt(ETH);
    var ipLen := m.buf[m.off + ETH] % 16 * 4;
    var n := if SUMS_OPTIONS then ipLen else 20;
    m.Seen(ETH, ETH + n);
    sum := TcpChecksum.SumBytes(m.buf, m.off + ETH, n);
    ghost var f := m.Contents();
    HeaderSplits(f, a, h, r, n);
    SumSplits(h, f[HEAD..ETH + n]);
    EmptySum();
  }

  lemma {:induction false} HeaderSplits(f: seq<byte>, a: seq<byte>, h: seq<byte>, r: seq<byte>, n: nat)
    requires f == a + h + r && |a| == ETH && |h| == 20 <= n <= |f| - ETH
    ensures f[ETH..ETH + n] == h + f[HEAD..ETH + n] && (n == 20 ==> f[HEAD..ETH + n] == [])
  {
    assert f[ETH..HEAD] == h;
  }

  lemma {:induction false} EmptySum()
    ensures WordSum([]) == 0
  {
  }

  lemma {:induction false} HeaderKept(f: seq<byte>, h: seq<byte>, proto: byte, total: u16)
    requires |f| >= HEAD && h == Put16(WithFields(f[ETH..HEAD], proto, total), 10, 0)
    ensures var t := f[..ETH] + h + f[HEAD..];
            |t| == |f| && IpLen(t) == IpLen(f) && OptionSum(t) == OptionSum(f)
  {
    var t := f[..ETH] + h + f[HEAD..];
    assert t[ETH] == h[0] == f[ETH] && t[HEAD..] == f[HEAD..];
    OptionsAlike(f, t);
  }

  lemma {:induction false} FieldsWritten(h: seq<byte>, proto: byte, total: u16, c: u16)
    requires |h| == 20
    ensures var z := Overlay(Overlay(Overlay(h, 9, [proto]), 2, [Hi(total), Lo(total)]), 10, [0, 0]);
            && z == Put16(WithFields(h, proto, total), 10, 0)
            && Overlay(z, 10, [Hi(c), Lo(c)]) == Put16(WithFields(h, proto, total), 10, c)
  {
    assert Hi(0) == 0 && Lo(0) == 0;
    hide Hi, Lo;
    var w := WithFields(h, proto, total);
    assert Overlay(Overlay(h, 9, [proto]), 2, [Hi(total), Lo(total)]) == w;
    assert Overlay(w, 10, [0, 0]) == Put16(w, 10, 0);
    assert Overlay(Put16(w, 10, 0), 10, [Hi(c), Lo(c)]) == Put16(w, 10, c);
  }

  /** The fields of the IP header that both directions need. */
  method ReadHeader(m: Mbuf) returns (proto: byte, total: u16, ipLen: nat)
    requires m.Valid() && m.len >= HEAD
    ensures proto == m.Contents()[ETH + 9] && total == TotalLen(m.Contents()) && ipLen == m.Contents()[ETH] % 16 * 4
  {
    m.SeenAt(ETH);
    m.SeenAt(ETH + 2);
    m.SeenAt(ETH + 3);
    m.SeenAt(ETH + 9);
    hide Mbuf.Contents;
    proto := m.buf[m.off + ETH + 9];
    total := Be16(m.buf[m.off + ETH + 2], m.buf[m.off + ETH + 3]);
    ipLen := m.buf[m.off + ETH] % 16 * 4;
  }

  /** Insert UDP, protocol and room for the IV behind the IP header. */
  method Encap(m: Mbuf) returns (ok: bool)
    requires m.Valid() && Carries(m.Contents())
    modifies m, m.buf
    ensures m.Valid() && m.off == old(m.off)
    ensures ok == (old(m.off + m.len) + OVERHEAD <= m.buf.Length)
    ensures ok ==> m.Contents() == Encapped(old(m.Contents()), old(m.buf[m.off + m.len..m.off + m.len + OVERHEAD]))
    ensures !ok ==> unchanged(m) && unchanged(m.buf)
  {
    hide Mbuf.Contents, PatchIp, Inserted, Overlay, TotalLen;
    ghost var f := m.Contents();
    var origProto, origTotal, ipLen := ReadHeader(m);
    var n := (origTotal - ipLen) % U16;
    ok := m.Append(OVERHEAD);
    if !ok {
      return;
    }
    ghost var g := m.Contents();
    assert g[HEAD..HEAD + n] == f[HEAD..HEAD + n];
    m.Move(HEAD + OVERHEAD, HEAD, n);
    OverlayAt(g, HEAD + OVERHEAD, g[HEAD..HEAD + n], ETH);
    ghost var g1 := m.Contents();
    m.Write(HEAD, Inserted(origProto, n));
    OverlayAt(g1, HEAD, Inserted(origProto, n), ETH);
    PatchHeader(m, PROTO_UDP, (origTotal + OVERHEAD) % U16);
  }

  /** Take them out again. */
  method Decapsulate(m: Mbuf) returns (ok: bool)
    requires m.Valid() && Readable(m.Contents())
    modifies m, m.buf
    ensures m.Valid() && m.off == old(m.off)
    ensures ok == Decapped(old(m.Contents())).Stripped?
    ensures ok ==> Decapped(old(m.Contents())) == Stripped(m.Contents())
    ensures !ok ==> unchanged(m) && unchanged(m.buf)
  {
    hide Mbuf.Contents, PatchIp, Overlay, TotalLen;
    var proto, origTotal, ipLen := ReadHeader(m);
    if proto != PROTO_UDP {
      return false;
    }
    m.SeenAt(HEAD + 8);
    var origProto := m.buf[m.off + HEAD + 8];
    if origTotal < ipLen + OVERHEAD {
      return false;
    }
    var n := origTotal - ipLen - OVERHEAD;
    ghost var w := m.Contents();
    m.Move(HEAD, HEAD + OVERHEAD, n);
    OverlayAt(w, HEAD, w[HEAD + OVERHEAD..HEAD + OVERHEAD + n], ETH);
    var _ := m.Trim(OVERHEAD);
    PatchHeader(m, origProto, origTotal - OVERHEAD);
    ok := true;
  }

  /** Pad the packet, tell the device what to do, and on the way out write the IV into packet and headroom.
      Nothing else in front of the packet or behind the padding changes. */
  method Enqueue(m: Mbuf, op: TunnelImpl.CryptoOp, session: Cipher, isEncrypt: bool, freshIv: Block, pktIv: Block)
    returns (ok: bool)
    requires m.Valid() && m.len >= (if isEncrypt then HEAD + OVERHEAD else HEAD) && (isEncrypt ==> m.off >= 16)
    modifies m, m.buf, op
    ensures m.Valid() && m.off == old(m.off)
    ensures var at := if isEncrypt then HEAD + OVERHEAD else HEAD;
            var pad := PadLen(old(m.len) - at);
            && ok == (old(m.off + m.len) + pad <= m.buf.Length)
            && (ok ==> op.session == session && op.iv == (if isEncrypt then freshIv else pktIv))
            && (ok ==> op.offset == at && op.length == m.len - at && m.Tailroom() == old(m.Tailroom())[pad..])
    ensures ok && isEncrypt ==> m.Contents() == ToDevice(old(m.Contents()), freshIv)
                                && m.Headroom() == Overlay(old(m.Headroom()), m.off - 16, freshIv)
    ensures ok && !isEncrypt ==> m.Contents() == PadFrom(old(m.Contents()), HEAD) && m.Headroom() == old(m.Headroom())
    ensures !ok ==> unchanged(m) && unchanged(m.buf) && unchanged(op)
  {
    hide Mbuf.Contents, Mbuf.Headroom, Mbuf.Tailroom, Overlay, PadFrom, PadLen;
    var at := if isEncrypt then HEAD + OVERHEAD else HEAD;
    ok := TunnelImpl.Pad(m, at);
    if !ok {
      return;
    }
    op.session := session;
    if isEncrypt {
      op.iv := freshIv;
      PutIv(m, op.iv);
    } else {
      op.iv := pktIv;
    }
    op.offset, op.length := at, m.len - at;
  }

  /** The IV goes into the packet and, as a copy, in front of it. */
  method PutIv(m: Mbuf, iv: Block)
    requires m.Valid() && m.len >= HEAD + OVERHEAD && m.off >= 16
    modifies m.buf
    ensures m.Contents() == Overlay(old(m.Contents()), IV_AT, iv) && m.Tailroom() == old(m.Tailroom())
    ensures m.Headroom() == Overlay(old(m.Headroom()), m.off - 16, iv)
  {
    hide Mbuf.Contents, Mbuf.Headroom, Mbuf.Tailroom, Overlay;
    m.Write(IV_AT, iv);
    Stash(m, iv);
  }

  /** The copy in the headroom is outside the packet. */
  method Stash(m: Mbuf, iv: Block)
    requires m.Valid() && m.off >= 16
    modifies m.buf
    ensures m.Contents() == old(m.Contents()) && m.Tailroom() == old(m.Tailroom())
    ensures m.Headroom() == Overlay(old(m.Headroom()), m.off - 16, iv)
  {
    forall k | 0 <= k < 16 {
      m.buf[m.off - 16 + k] := iv[k];
    }
  }

  /** A packet's way through the encrypting box; `room` are the bytes that stood behind the packet. */
  method SendSide(m: Mbuf, op: TunnelImpl.CryptoOp, session: Cipher, freshIv: Block)
    returns (ok: bool, ghost room: seq<byte>)
    requires m.Valid() && Carries(m.Contents()) && m.off >= 16
    modifies m, m.buf, op
    ensures m.Valid()
    ensures ok == (old(m.off + m.len) + OVERHEAD + PadLen(old(m.len) - HEAD) <= m.buf.Length)
    ensures ok ==> |room| == OVERHEAD && m.Contents() == Sent(session, freshIv, old(m.Contents()), room)
  {
    hide Mbuf.Contents, Encapped, EncryptFrom, ToDevice;
    room := [];
    if m.off + m.len + OVERHEAD <= m.buf.Length {
      room := m.buf[m.off + m.len..m.off + m.len + OVERHEAD];
    }
    ok := Encap(m);
    if !ok {
      return;
    }
    ok := Enqueue(m, op, session, true, freshIv, freshIv);
    if !ok {
      return;
    }
    TunnelImpl.Device(m, op, true);
  }

  /** What the program takes for the IV of a received packet: the bytes behind IP options, UDP and protocol. */
  method ReadIv(m: Mbuf) returns (iv: Block)
    requires m.Valid() && m.len >= HEAD && m.off + IvPosition(m.Contents()) + 16 <= m.buf.Length
    ensures var at := IvPosition(m.Contents()); at + 16 <= m.len ==> iv == m.Contents()[at..at + 16]
  {
    m.SeenAt(ETH);
    ghost var at := IvPosition(m.Contents());
    if at + 16 <= m.len {
      m.Seen(at, at + 16);
    }
    hide Mbuf.Contents;
    var ipLen := m.buf[m.off + ETH] % 16 * 4;
    var ivPos := m.off + ETH + ipLen + 8 + 2;
    iv := m.buf[ivPos..ivPos + 16];
  }

  /** A packet's way through the decrypting box. The IV is read, wherever the options put it, before anything is
      checked; the buffer holds these bytes even if the packet does not. */
  method ReceiveSide(m: Mbuf, op: TunnelImpl.CryptoOp, session: Cipher) returns (ok: bool)
    requires m.Valid() && Readable(m.Contents()) && m.len < U32 - 16
    requires m.off + IvPosition(m.Contents()) + 16 <= m.buf.Length
    modifies m, m.buf, op
    ensures m.Valid()
    ensures ok == (Decapped(old(m.Contents())).Stripped?
              && old(m.off + m.len) - OVERHEAD + PadLen(old(m.len) - HEAD - OVERHEAD) <= m.buf.Length)
    ensures ok ==> Receive(session, old(m.Contents())) == Stripped(m.Contents())
  {
    hide Mbuf.Contents, Decapped, DecryptFrom, PadFrom, Tunnel.Trimmed, TotalLen;
    var iv := ReadIv(m);
    ok := Decapsulate(m);
    if !ok {
      return;
    }
    ok := Enqueue(m, op, session, false, iv, iv);
    if !ok {
      return;
    }
    TunnelImpl.Device(m, op, false);
    TunnelImpl.TrimPadding(m);
  }
}
