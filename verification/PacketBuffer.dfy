/** The packet buffer: a window that slides inside one fixed array. */
module PacketBuffer {
  import opened Bytes

  class Mbuf {
    const buf: array<byte>
    var off: nat
    var len: nat

    ghost predicate Valid()
      reads this
    {
      off + len <= buf.Length
    }

    /** The bytes of the packet. */
    ghost function Contents(): (s: seq<byte>)
      requires Valid()
      reads this, buf
      ensures |s| == len
    {
      buf[off..off + len]
    }

    /** The bytes in front of the packet and those behind it. */
    ghost function Headroom(): (s: seq<byte>)
      requires Valid()
      reads this, buf
      ensures |s| == off
    {
      buf[..off]
    }

    ghost function Tailroom(): seq<byte>
      requires Valid()
      reads this, buf
    {
      buf[off + len..]
    }

    constructor (buf: array<byte>, off: nat, len: nat)
      requires off + len <= buf.Length
      ensures Valid() && this.buf == buf && this.off == off && this.len == len
    {
      this.buf, this.off, this.len := buf, off, len;
    }

    /** A stretch of the array inside the window is a stretch of the packet. */
    lemma {:induction false} Seen(lo: nat, hi: nat)
      requires Valid() && lo <= hi <= len
      ensures buf[off + lo..off + hi] == Contents()[lo..hi]
    {
      SliceOfSlice(buf[..], off, off + len, lo, hi);
      assert buf[..][off..off + len] == buf[off..off + len];
    }

    lemma {:induction false} SeenAt(i: nat)
      requires Valid() && i < len
      ensures buf[off + i] == Contents()[i]
    {
    }

    /** Drop n bytes at the front. */
    method Adj(n: nat) returns (ok: bool)
      requires Valid()
      modifies this
      ensures Valid() && ok == (n <= old(len))
      ensures ok ==> off == old(off) + n && Contents() == old(Contents())[n..]
      ensures !ok ==> unchanged(this)
    {
      ok := n <= len;
      if ok {
        off, len := off + n, len - n;
      }
    }

    /** Take n bytes of headroom into the packet. */
    method Prepend(n: nat) returns (ok: bool)
      requires Valid()
      modifies this
      ensures Valid() && ok == (n <= old(off))
      ensures ok ==> off == old(off) - n && Contents() == buf[off..off + n] + old(Contents())
      ensures !ok ==> unchanged(this)
    {
      ok := n <= off;
      if ok {
        off, len := off - n, len + n;
      }
    }

    /** Take n bytes of tailroom into the packet. */
    method Append(n: nat) returns (ok: bool)
      requires Valid()
      modifies this
      ensures Valid() && ok == (old(off + len) + n <= buf.Length)
      ensures ok ==> off == old(off) && len == old(len) + n
      ensures ok ==> Contents() == old(Contents()) + buf[off + old(len)..off + len]
      ensures ok ==> Headroom() == old(Headroom()) && Tailroom() == old(Tailroom())[n..]
      ensures !ok ==> unchanged(this)
    {
      ok := off + len + n <= buf.Length;
      if ok {
        len := len + n;
      }
    }

    /** Drop n bytes at the end. */
    method Trim(n: nat) returns (ok: bool)
      requires Valid()
      modifies this
      ensures Valid() && ok == (n <= old(len))
      ensures ok ==> off == old(off) && Contents() == old(Contents())[..old(len) - n]
      ensures !ok ==> unchanged(this)
    {
      ok := n <= len;
      if ok {
        ghost var s := Contents();
        len := len - n;
        assert forall k :: 0 <= k < len ==> Contents()[k] == s[k];
      }
    }

    /** Copy bytes into the buffer at position i of the packet. */
    method Write(i: nat, bytes: seq<byte>)
      requires Valid() && i + |bytes| <= len
      modifies buf
      ensures Contents() == Overlay(old(Contents()), i, bytes)
      ensures Headroom() == old(Headroom()) && Tailroom() == old(Tailroom())
    {
      hide Overlay;
      ghost var s := Contents();
      forall k | 0 <= k < |bytes| {
        buf[off + i + k] := bytes[k];
      }
      forall j | 0 <= j < len ensures Contents()[j] == Overlay(s, i, bytes)[j] {
        OverlayAt(s, i, bytes, j);
        if i <= j < i + |bytes| {
          assert buf[off + i + (j - i)] == bytes[j - i];
        }
      }
    }

    /** Copy len bytes from one place of the packet to another; the two may overlap. */
    method Move(to: nat, from: nat, n: nat)
      requires Valid() && to + n <= len && from + n <= len
      modifies buf
      ensures Contents() == Overlay(old(Contents()), to, old(Contents())[from..from + n])
    {
      hide Overlay;
      ghost var s := Contents();
      forall k | 0 <= k < n {
        buf[off + to + k] := buf[off + from + k];
      }
      forall i | 0 <= i < len ensures Contents()[i] == Overlay(s, to, s[from..from + n])[i] {
        OverlayAt(s, to, s[from..from + n], i);
        if to <= i < to + n {
          assert buf[off + to + (i - to)] == s[from + (i - to)];
        } else {
          assert buf[off + i] == s[i];
        }
      }
    }
  }

  /** The bytes s with those from i on replaced. */
  function Overlay(s: seq<byte>, i: nat, bytes: seq<byte>): (t: seq<byte>)
    requires i + |bytes| <= |s|
    ensures |t| == |s|
  {
    s[..i] + bytes + s[i + |bytes|..]
  }

  lemma {:induction false} OverlayAt(s: seq<byte>, i: nat, bytes: seq<byte>, k: nat)
    requires i + |bytes| <= |s| && k < |s|
    ensures Overlay(s, i, bytes)[k] == if i <= k < i + |bytes| then bytes[k - i] else s[k]
  {
  }

  lemma {:induction false} OverlayHead(stale: seq<byte>, s: seq<byte>, bytes: seq<byte>)
    requires |bytes| == |stale|
    ensures Overlay(stale + s, 0, bytes) == bytes + s
  {
  }

  lemma {:induction false} OverlayTail(s: seq<byte>, stale: seq<byte>, bytes: seq<byte>)
    requires |bytes| == |stale|
    ensures Overlay(s + stale, |s|, bytes) == s + bytes
  {
  }

  lemma {:induction false} OverlayInside(a: seq<byte>, h: seq<byte>, r: seq<byte>, i: nat, bytes: seq<byte>)
    requires i + |bytes| <= |h|
    ensures Overlay(a + h + r, |a| + i, bytes) == a + Overlay(h, i, bytes) + r
  {
  }
}
