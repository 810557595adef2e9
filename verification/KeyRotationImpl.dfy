/** The drain tick of an lcore on the shared globals and its own ports. */
module KeyRotationImpl {
  import opened Bytes
  import opened KeyRotation

  /** The globals every lcore reads. */
  class SharedKey {
    var slot: Slot
    var seqNo: u32

    constructor ()
      ensures Value() == Shared(Slot(NONE, []), 0)
    {
      slot, seqNo := Slot(NONE, []), 0;
    }

    ghost function Value(): Shared
      reads this
    {
      Shared(slot, seqNo)
    }
  }

  class LcoreState {
    const ports: array<Port>
    var applied: u32

    constructor (ports: array<Port>)
      ensures this.ports == ports && applied == 0
    {
      this.ports, applied := ports, 0;
    }

    ghost function Value(): Lcore
      reads this, ports
    {
      Lcore(applied, ports[..])
    }

    /** Rotate every crypto device of this lcore. */
    method RotateAll(s: Slot)
      modifies ports
      ensures ports[..] == RotatePorts(old(ports[..]), s)
    {
      for i := 0 to ports.Length
        invariant forall k :: 0 <= k < i ==> ports[k] == RotatePorts(old(ports[..]), s)[k]
        invariant forall k :: i <= k < ports.Length ==> ports[k] == old(ports[k])
      {
        if ports[i].cipher {
          ports[i] := ports[i].(cs := Rotate(ports[i].cs, s));
        }
      }
    }

    method RetireAll()
      modifies ports
      ensures ports[..] == RetirePorts(old(ports[..]))
    {
      for i := 0 to ports.Length
        invariant forall k :: 0 <= k < i ==> ports[k] == RetirePorts(old(ports[..]))[k]
        invariant forall k :: i <= k < ports.Length ==> ports[k] == old(ports[k])
      {
        if ports[i].cipher {
          ports[i] := ports[i].(cs := RetirePrev(ports[i].cs));
        }
      }
    }

    /** The install callback: share the key, bump the sequence number, rotate the own ports. */
    method InstallCallback(g: SharedKey, s: Slot)
      modifies g, ports
      ensures (g.Value(), ports[..]) == Deliver(old(g.Value()), old(ports[..]), Install(s))
    {
      g.slot := s;
      g.seqNo := Inc32(g.seqNo);
      RotateAll(s);
    }

    /** Everything one poll delivers, in order. */
    method Poll(g: SharedKey, msgs: seq<Msg>) returns (received: nat)
      modifies g, ports
      ensures received == |msgs| && (g.Value(), ports[..]) == DeliverAll(old(g.Value()), old(ports[..]), msgs)
    {
      for i := 0 to |msgs|
        invariant (g.Value(), ports[..]) == DeliverAll(old(g.Value()), old(ports[..]), msgs[..i])
      {
        assert msgs[..i + 1][..i] == msgs[..i] && msgs[..i + 1][i] == msgs[i];
        match msgs[i]
        case Install(s) => InstallCallback(g, s);
        case Retire => RetireAll();
      }
      assert msgs[..|msgs|] == msgs;
      received := |msgs|;
    }

    /** One whole drain tick. */
    method DrainTick(g: SharedKey, msgs: seq<Msg>)
      modifies this, ports, g
      ensures (g.Value(), Value()) == Tick(old(g.Value()), old(Value()), msgs)
    {
      var received := Poll(g, msgs);
      if received > 0 {
        applied := g.seqNo;
      }
      if g.slot.epoch != NONE && g.seqNo != applied {
        var s := g.slot;
        applied := g.seqNo;
        RotateAll(s);
      }
    }
  }
}
