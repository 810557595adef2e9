/** Control frames: tagged on the way to the WAN, restored on the way to the kernel. */
module CtrlBridge {
  import opened Bytes
  import opened PacketBuffer
  import Cbc
  import Tunnel

  const ETH: nat := 14
  const CTRL: seq<byte> := [0x88, 0xB5]

  predicate IsCtrl(f: seq<byte>) {
    |f| >= ETH && f[12..14] == CTRL
  }

  /** The original type moves behind the header and the control type takes its place. */
  function Tagged(f: seq<byte>): (w: seq<byte>)
    requires |f| >= ETH
    ensures |w| == |f| + 2
  {
    f[..12] + CTRL + f[12..]
  }

  function Punted(w: seq<byte>): (f: seq<byte>)
    requires |w| >= ETH + 2
    ensures |f| == |w| - 2
  {
    w[..12] + w[ETH..]
  }

  /** A frame is control traffic exactly when its type is 0x88B5. */
  lemma {:induction false} EtherTypeDecides(f: seq<byte>)
    ensures IsCtrl(f) <==> |f| >= 14 && Field16(f, 12) == 0x88B5
  {
    if |f| >= ETH {
      HiLoBack(f[12], f[13]);
    }
  }

  /** On the wire: the addresses, the control type, then the frame's own type and all that follows it. */
  lemma {:induction false} TaggedOnWire(f: seq<byte>)
    requires |f| >= ETH
    ensures var w := Tagged(f);
            && w[..12] == f[..12] && Field16(w, 12) == 0x88B5
            && Field16(w, 14) == Field16(f, 12) && w[16..] == f[14..]
  {
    hide Be16;
    var w := Tagged(f);
    assert w[12] == 0x88 && w[13] == 0xB5 && w[14] == f[12] && w[15] == f[13];
    assert Be16(0x88, 0xB5) == 0x88B5 by { TypeValue(); }
  }

  lemma {:induction false} TypeValue()
    ensures Be16(0x88, 0xB5) == 0x88B5
  {
  }

  /** A tagged frame is control traffic, and punting it gives back the very frame. */
  lemma {:induction false} PuntUndoesTag(f: seq<byte>)
    requires |f| >= ETH
    ensures IsCtrl(Tagged(f)) && Punted(Tagged(f)) == f
  {
    assert Tagged(f)[12..14] == CTRL;
    assert Tagged(f)[ETH..] == f[12..];
    assert f[..12] + f[12..] == f;
  }

  /** Whatever it carries, a tunnel packet is not control traffic. */
  lemma {:induction false} TunnelIsNotCtrl(f: seq<byte>, iv: Cbc.Block, epoch: byte)
    requires |f| >= ETH
    ensures !IsCtrl(Tunnel.Encapped(f, iv, epoch))
  {
    hide Tunnel.OuterIp, Tunnel.OuterUdp;
    assert Tunnel.Encapped(f, iv, epoch)[12] == 0x08;
    assert Tunnel.Encapped(f, iv, epoch)[12..14][0] == 0x08;
  }

  // ---------------------------------------------------------------- on packet buffers

  method IsCtrlFrame(m: Mbuf) returns (r: bool)
    requires m.Valid()
    ensures r == IsCtrl(m.Contents())
  {
    if m.len < ETH {
      return false;
    }
    m.SeenAt(12);
    m.SeenAt(13);
    hide Mbuf.Contents;
    assert m.Contents()[12..14] == [m.Contents()[12], m.Contents()[13]];
    r := m.buf[m.off + 12] == 0x88 && m.buf[m.off + 13] == 0xB5;
  }

  /** One round of the egress loop. */
  method Tag(m: Mbuf) returns (ok: bool)
    requires m.Valid()
    modifies m, m.buf
    ensures m.Valid() && ok == (old(m.len) >= ETH && old(m.off) >= 2)
    ensures ok ==> m.Contents() == Tagged(old(m.Contents()))
  {
    hide Mbuf.Contents, Overlay;
    if m.len < ETH {
      return false;
    }
    m.Seen(0, ETH);
    m.Seen(12, ETH);
    var eth := m.buf[m.off..m.off + ETH];
    var origType := m.buf[m.off + 12..m.off + ETH];
    ghost var f := m.Contents();
    ok := m.Prepend(2);
    if !ok {
      return;
    }
    ghost var g := m.Contents();
    m.Write(0, eth);
    m.Write(ETH, origType);
    m.Write(12, CTRL);
    TagWritten(f, g);
  }

  lemma {:induction false} TagWritten(f: seq<byte>, g: seq<byte>)
    requires |f| >= ETH && |g| == |f| + 2 && g[2..] == f
    ensures Overlay(Overlay(Overlay(g, 0, f[0..ETH]), ETH, f[12..ETH]), 12, CTRL) == Tagged(f)
  {
    var a := Overlay(g, 0, f[0..ETH]);
    assert a == f[..ETH] + f[12..];
    var b := Overlay(a, ETH, f[12..ETH]);
    assert b == f[..ETH] + f[12..];
    assert Overlay(b, 12, CTRL) == f[..12] + CTRL + f[12..];
  }

  /** Undo the tag in place. */
  method Untag(m: Mbuf) returns (ok: bool)
    requires m.Valid()
    modifies m, m.buf
    ensures m.Valid() && ok == (old(m.len) >= ETH + 2)
    ensures ok ==> m.Contents() == Punted(old(m.Contents()))
  {
    hide Mbuf.Contents, Overlay;
    if m.len < ETH + 2 {
      return false;
    }
    m.Seen(0, 12);
    m.Seen(ETH, ETH + 2);
    var eth := m.buf[m.off..m.off + 12] + m.buf[m.off + ETH..m.off + ETH + 2];
    ghost var w := m.Contents();
    ok := m.Adj(2);
    m.Write(0, eth);
    PuntWritten(w);
  }

  /** A frame for the kernel: restored and given to the device, or freed, and exactly one of the two. */
  method Punt(m: Mbuf, ready: bool, willing: nat) returns (sent: seq<Mbuf>, freed: seq<Mbuf>)
    requires m.Valid()
    modifies m, m.buf
    ensures m.Valid() && sent + freed == [m]
    ensures sent == [m] <==> ready && old(m.len) >= ETH + 2 && willing > 0
    ensures ready && old(m.len) >= ETH + 2 ==> m.Contents() == Punted(old(m.Contents()))
  {
    hide Mbuf.Contents, Punted, Bag;
    sent, freed := [], [m];
    if !ready {
      return;
    }
    var ok := Untag(m);
    if !ok {
      return;
    }
    sent, freed := Transmit([m], [], willing);
  }

  lemma {:induction false} PuntWritten(w: seq<byte>)
    requires |w| >= ETH + 2
    ensures Overlay(w[2..], 0, w[0..12] + w[ETH..ETH + 2]) == Punted(w)
  {
    assert w[2..][ETH..] == w[ETH + 2..];
    assert w[ETH..] == w[ETH..ETH + 2] + w[ETH + 2..];
  }

  // ---------------------------------------------------------------- the batch

  /** Of the first n buffers those for which `keep` is `which`, in order. */
  function Kept<T>(bufs: seq<T>, keep: seq<bool>, which: bool, n: nat): seq<T>
    requires n <= |bufs| == |keep|
  {
    if n == 0 then []
    else if keep[n - 1] == which then Kept(bufs, keep, which, n - 1) + [bufs[n - 1]]
    else Kept(bufs, keep, which, n - 1)
  }

  lemma {:induction false} KeptNone<T>(bufs: seq<T>, keep: seq<bool>)
    requires |bufs| == |keep|
    ensures Kept(bufs, keep, true, 0) == Kept(bufs, keep, false, 0) == []
  {
  }

  lemma {:induction false} KeptStep<T>(bufs: seq<T>, keep: seq<bool>, n: nat)
    requires n < |bufs| == |keep|
    ensures Kept(bufs, keep, keep[n], n + 1) == Kept(bufs, keep, keep[n], n) + [bufs[n]]
    ensures Kept(bufs, keep, !keep[n], n + 1) == Kept(bufs, keep, !keep[n], n)
  {
  }

  /** How often each element occurs. */
  function Bag<T>(s: seq<T>): multiset<T> {
    multiset(s)
  }

  lemma {:induction false} BagNone<T>()
    ensures Bag<T>([]) + Bag<T>([]) == Bag<T>([])
  {
  }

  lemma {:induction false} BagNext<T>(s: seq<T>, x: T)
    ensures Bag(s + [x]) == Bag(s) + multiset{x}
  {
  }

  lemma {:induction false} OneMore<T>(a: multiset<T>, b: multiset<T>, c: multiset<T>, x: multiset<T>)
    requires a + b == c
    ensures (a + x) + b == c + x && a + (b + x) == c + x
  {
  }

  /** Kept and not kept together are all buffers, each as often as before. */
  lemma {:induction false} KeptAndNot<T>(bufs: seq<T>, keep: seq<bool>, n: nat)
    requires n <= |bufs| == |keep|
    ensures Bag(Kept(bufs, keep, true, n)) + Bag(Kept(bufs, keep, false, n)) == Bag(bufs[..n])
  {
    hide Bag, Kept;
    if n == 0 {
      KeptNone(bufs, keep);
      BagNone<T>();
      assert bufs[..0] == [];
    } else {
      KeptAndNot(bufs, keep, n - 1);
      var x := bufs[n - 1];
      assert bufs[..n] == bufs[..n - 1] + [x];
      BagNext(bufs[..n - 1], x);
      KeptStep(bufs, keep, n - 1);
      BagNext(Kept(bufs, keep, keep[n - 1], n - 1), x);
      var a, b := Bag(Kept(bufs, keep, true, n - 1)), Bag(Kept(bufs, keep, false, n - 1));
      OneMore(a, b, Bag(bufs[..n - 1]), multiset{x});
    }
  }

  /** How many of the first n flags are `which`. */
  function Earlier(keep: seq<bool>, which: bool, n: nat): nat
    requires n <= |keep|
  {
    if n == 0 then 0 else Earlier(keep, which, n - 1) + if keep[n - 1] == which then 1 else 0
  }

  /** Nobody overtakes: each kept buffer stands behind exactly those kept before it. */
  lemma {:induction false} KeptInOrder<T>(bufs: seq<T>, keep: seq<bool>, which: bool, n: nat, i: nat)
    requires i < n <= |bufs| == |keep| && keep[i] == which
    ensures |Kept(bufs, keep, which, n)| == Earlier(keep, which, n)
    ensures Earlier(keep, which, i) < Earlier(keep, which, n)
    ensures Kept(bufs, keep, which, n)[Earlier(keep, which, i)] == bufs[i]
  {
    if i == n - 1 {
      KeptCount(bufs, keep, which, i);
    } else {
      KeptInOrder(bufs, keep, which, n - 1, i);
    }
  }

  lemma {:induction false} KeptCount<T>(bufs: seq<T>, keep: seq<bool>, which: bool, n: nat)
    requires n <= |bufs| == |keep|
    ensures |Kept(bufs, keep, which, n)| == Earlier(keep, which, n)
  {
    if n > 0 {
      KeptCount(bufs, keep, which, n - 1);
    }
  }

  /** Distinct packets in distinct arrays. */
  ghost predicate Separate(bufs: seq<Mbuf>) {
    forall i, j :: 0 <= i < j < |bufs| ==> bufs[i] != bufs[j] && bufs[i].buf != bufs[j].buf
  }

  ghost function Arrays(bufs: seq<Mbuf>): set<object> {
    set i | 0 <= i < |bufs| :: bufs[i].buf as object
  }

  /** Which frames of a batch can be tagged. */
  ghost function Taggable(bufs: seq<Mbuf>): (r: seq<bool>)
    reads bufs
    ensures |r| == |bufs|
  {
    seq(|bufs|, i requires 0 <= i < |bufs| reads bufs => bufs[i].len >= ETH && bufs[i].off >= 2)
  }

  lemma {:induction false} Apart(bufs: seq<Mbuf>, i: nat)
    requires Separate(bufs) && i < |bufs|
    ensures forall j :: 0 <= j < |bufs| && j != i ==> bufs[j] != bufs[i] && bufs[j].buf != bufs[i].buf
    ensures bufs[i].buf in Arrays(bufs)
  {
  }

  lemma {:induction false} TaggableIs(bufs: seq<Mbuf>)
    ensures forall i :: 0 <= i < |bufs| ==> Taggable(bufs)[i] == (bufs[i].len >= ETH && bufs[i].off >= 2)
  {
  }

  /** The first loop of an egress round: tag what can be tagged and queue it, free the rest. */
  method TagAll(bufs: seq<Mbuf>) returns (txq: seq<Mbuf>, freed: seq<Mbuf>)
    requires Separate(bufs) && forall i :: 0 <= i < |bufs| ==> bufs[i].Valid()
    modifies bufs, Arrays(bufs)
    ensures txq == Kept(bufs, old(Taggable(bufs)), true, |bufs|)
            && freed == Kept(bufs, old(Taggable(bufs)), false, |bufs|)
    ensures forall i :: 0 <= i < |bufs| && old(Taggable(bufs))[i]
              ==> bufs[i].Valid() && bufs[i].Contents() == Tagged(old(bufs[i].Contents()))
  {
    hide Tagged, Kept, Mbuf.Contents, Separate, Bag, Arrays, Taggable;
    ghost var keep := Taggable(bufs);
    TaggableIs(bufs);
    txq, freed := [], [];
    KeptNone(bufs, keep);
    for i := 0 to |bufs|
      invariant txq == Kept(bufs, keep, true, i) && freed == Kept(bufs, keep, false, i)
      invariant forall j :: i <= j < |bufs| ==> bufs[j].Valid() && unchanged(bufs[j]) && unchanged(bufs[j].buf)
      invariant forall j :: 0 <= j < i && keep[j]
                  ==> bufs[j].Valid() && bufs[j].Contents() == Tagged(old(bufs[j].Contents()))
    {
      KeptStep(bufs, keep, i);
      Apart(bufs, i);
      var ok := Tag(bufs[i]);
      if ok {
        txq := txq + [bufs[i]];
      } else {
        freed := freed + [bufs[i]];
      }
    }
  }

  /** One egress round. What the device does not take is freed; every buffer is sent or freed exactly once. */
  method PumpEgress(bufs: seq<Mbuf>, willing: nat) returns (out: nat, sent: seq<Mbuf>, freed: seq<Mbuf>)
    requires Separate(bufs) && forall i :: 0 <= i < |bufs| ==> bufs[i].Valid()
    modifies bufs, Arrays(bufs)
    ensures var txq := Kept(bufs, old(Taggable(bufs)), true, |bufs|);
            && out == |txq|
            && sent == txq[..Min(willing, out)]
            && freed == Kept(bufs, old(Taggable(bufs)), false, |bufs|) + txq[Min(willing, out)..]
    ensures Bag(sent) + Bag(freed) == Bag(bufs)
    ensures forall i :: 0 <= i < |bufs| && old(Taggable(bufs))[i]
              ==> bufs[i].Valid() && bufs[i].Contents() == Tagged(old(bufs[i].Contents()))
  {
    hide Tagged, Bag;
    ghost var keep := Taggable(bufs);
    KeptAndNot(bufs, keep, |bufs|);
    assert bufs[..|bufs|] == bufs;
    var txq;
    txq, freed := TagAll(bufs);
    out := |txq|;
    sent, freed := Transmit(txq, freed, willing);
  }

  /** Offer the queue to the device and free what it leaves. */
  method Transmit<T>(txq: seq<T>, rejected: seq<T>, willing: nat) returns (sent: seq<T>, freed: seq<T>)
    ensures sent == txq[..Min(willing, |txq|)] && freed == rejected + txq[Min(willing, |txq|)..]
    ensures Bag(sent) + Bag(freed) == Bag(txq) + Bag(rejected)
  {
    var n := Min(willing, |txq|);
    sent, freed := txq[..n], rejected;
    for k := n to |txq|
      invariant freed == rejected + txq[n..k]
    {
      freed := freed + [txq[k]];
    }
    assert txq == txq[..n] + txq[n..];
  }
}
