/** Epochs on the wire: how keys are numbered, which epoch a packet carries, and what the receiver makes of it. */
module KeyEpochs {
  import opened Bytes
  import opened KeyRotation
  import Cbc
  import Tunnel

  // ---------------------------------------------------------------- the numbering

  /** The key sender's counter. */
  function NextEpoch(e: byte): byte {
    var n: byte := if e == 0xFF then 0 else e + 1;
    if n == 0xFF then 0 else n
  }

  function EpochOf(n: nat): byte {
    if n == 0 then 0 else NextEpoch(EpochOf(n - 1))
  }

  /** The n-th delivered key carries epoch n mod 255, which is never the mark of no key. */
  lemma {:induction false} EpochIs(n: nat)
    ensures EpochOf(n) == n % 255 && EpochOf(n) != NONE
  {
    if n > 0 {
      EpochIs(n - 1);
      NextResidue(n - 1);
    }
  }

  lemma {:induction false} NextResidue(n: nat)
    ensures (n + 1) % 255 == if n % 255 == 254 then 0 else n % 255 + 1
  {
  }

  /** The n-th key in its slot. */
  function SlotOf(keys: nat -> Key, n: nat): Slot {
    Slot(EpochOf(n), keys(n))
  }

  // ---------------------------------------------------------------- the encrypting port

  /** A packet with the slot whose session encrypts it; `id` is the number of the operation that put it in. */
  datatype Packet = Packet(id: nat, slot: Slot)

  /** A packet that came back from the device at operation `at` and was stamped with the epoch then current. */
  datatype Stamped = Stamped(packet: Packet, stamp: byte, at: nat)

  /** The port: its session table, the packets waiting for the next burst, those inside the device, those sent, and
      those the device refused. */
  datatype Tx = Tx(cs: Cs, buffer: seq<Packet>, inDevice: seq<Packet>, sent: seq<Stamped>, freed: seq<Packet>)

  /** An install brings a key by its number; an lcore that catches up may skip numbers. */
  datatype TxOp = EnqueuePacket | SendBurst(taken: nat) | DequeuePacket | InstallKey(number: nat) | RetireKey

  /** The slot whose session the enqueue attaches: the one for the current epoch. */
  function Attached(cs: Cs): Slot {
    var found := Lookup(cs, cs.cur.epoch);
    if found.Just? then found.slot else cs.cur
  }

  lemma {:induction false} AttachedIsCurrent(cs: Cs)
    ensures Attached(cs) == cs.cur
  {
  }

  /** The session is chosen at enqueue; the device takes a prefix of a burst and the rest is freed; the stamp is the
      epoch that is current at dequeue. */
  function TxStep(keys: nat -> Key, t: Tx, op: TxOp, now: nat): Tx {
    match op
    case EnqueuePacket => t.(buffer := t.buffer + [Packet(now, Attached(t.cs))])
    case SendBurst(taken) =>
      var k := Min(taken, |t.buffer|);
      t.(buffer := [], inDevice := t.inDevice + t.buffer[..k], freed := t.freed + t.buffer[k..])
    case DequeuePacket =>
      if t.inDevice == [] then t
      else t.(inDevice := t.inDevice[1..], sent := t.sent + [Stamped(t.inDevice[0], t.cs.cur.epoch, now)])
    case InstallKey(number) => t.(cs := Rotate(t.cs, SlotOf(keys, number)))
    case RetireKey => t.(cs := RetirePrev(t.cs))
  }

  /** The port after the first n operations. */
  function TxRun(keys: nat -> Key, t: Tx, ops: seq<TxOp>, n: nat): Tx
    requires n <= |ops|
  {
    if n == 0 then t else TxStep(keys, TxRun(keys, t, ops, n - 1), ops[n - 1], n - 1)
  }

  /** The number of the key that is current after the first n operations. */
  function KeyAt(first: nat, ops: seq<TxOp>, n: nat): nat
    requires n <= |ops|
  {
    if n == 0 then first else if ops[n - 1].InstallKey? then ops[n - 1].number else KeyAt(first, ops, n - 1)
  }

  /** A port that holds key number `first` and through which nothing has gone yet. */
  ghost predicate Fresh(t: Tx, keys: nat -> Key, first: nat) {
    t.cs.cur == SlotOf(keys, first) && t.buffer == [] && t.inDevice == [] && t.sent == [] && t.freed == []
  }

  lemma {:induction false} CurrentKey(t: Tx, keys: nat -> Key, first: nat, ops: seq<TxOp>, n: nat)
    requires Fresh(t, keys, first) && n <= |ops|
    ensures TxRun(keys, t, ops, n).cs.cur == SlotOf(keys, KeyAt(first, ops, n))
  {
    if n > 0 {
      CurrentKey(t, keys, first, ops, n - 1);
    }
  }

  lemma {:induction false} NearResidue(a: nat, b: nat)
    requires -255 < a - b < 255
    ensures a % 255 == b % 255 <==> a == b
  {
    if a % 255 == b % 255 {
      assert a - b == 255 * (a / 255 - b / 255);
    }
  }

  lemma {:induction false} LookupIs(keys: nat -> Key, r: nat, q: nat, havePrev: bool, s: nat)
    ensures Lookup(Cs(SlotOf(keys, r), if havePrev then Just(SlotOf(keys, q)) else Nothing), EpochOf(s))
            == if s % 255 == r % 255 then Just(SlotOf(keys, r))
               else if s % 255 == q % 255 && havePrev then Just(SlotOf(keys, q)) else Nothing
  {
    EpochIs(r);
    EpochIs(q);
    EpochIs(s);
    hide EpochOf;
  }

  /** Operation i is the last install before the n-th operation. */
  predicate LastKey(ops: seq<TxOp>, i: nat, n: nat) {
    i < n <= |ops| && ops[i].InstallKey? && forall k :: i < k < n ==> !ops[k].InstallKey?
  }

  /** No retire between operation i and the n-th. */
  predicate Overlapping(ops: seq<TxOp>, i: nat, n: nat)
    requires n <= |ops|
  {
    forall k :: i < k < n ==> ops[k] != RetireKey
  }

  lemma {:induction false} AfterLastKey(t: Tx, keys: nat -> Key, first: nat, ops: seq<TxOp>, i: nat, n: nat)
    requires Fresh(t, keys, first) && LastKey(ops, i, n)
    ensures TxRun(keys, t, ops, n).cs
            == Cs(SlotOf(keys, ops[i].number),
                  if Overlapping(ops, i, n) then Just(SlotOf(keys, KeyAt(first, ops, i))) else Nothing)
    decreases n
  {
    hide SlotOf, Fresh;
    var before := TxRun(keys, t, ops, n - 1);
    if n == i + 1 {
      CurrentKey(t, keys, first, ops, i);
    } else {
      AfterLastKey(t, keys, first, ops, i, n - 1);
      assert Overlapping(ops, i, n) <==> Overlapping(ops, i, n - 1) && ops[n - 1] != RetireKey;
    }
  }

  /** After any operations of which the last install, of key r, came while key q was current, a port accepts an epoch
      exactly when it is that of r, or, with no retire since, that of q, and then under that key. */
  lemma {:induction false} AcceptsAfterInstall(
    t: Tx, keys: nat -> Key, first: nat, ops: seq<TxOp>, i: nat, n: nat, s: nat)
    requires Fresh(t, keys, first) && LastKey(ops, i, n)
    ensures var r, q := ops[i].number, KeyAt(first, ops, i);
            Lookup(TxRun(keys, t, ops, n).cs, EpochOf(s))
              == if s % 255 == r % 255 then Just(SlotOf(keys, r))
                 else if s % 255 == q % 255 && Overlapping(ops, i, n) then Just(SlotOf(keys, q)) else Nothing
  {
    AfterLastKey(t, keys, first, ops, i, n);
    LookupIs(keys, ops[i].number, KeyAt(first, ops, i), Overlapping(ops, i, n), s);
    hide TxRun, EpochOf, KeyAt, Overlapping, LastKey;
  }

  /** As long as a packet is fewer than 255 keys away from both of the port's, the port selects the key that encrypted
      it, exactly when it holds that key. */
  lemma {:induction false} LookupFindsKey(
    t: Tx, keys: nat -> Key, first: nat, ops: seq<TxOp>, i: nat, n: nat, s: nat)
    requires Fresh(t, keys, first) && LastKey(ops, i, n)
    requires -255 < s - ops[i].number < 255 && -255 < s - KeyAt(first, ops, i) < 255
    ensures var found := Lookup(TxRun(keys, t, ops, n).cs, EpochOf(s));
            && (found != Nothing <==> s == ops[i].number || (s == KeyAt(first, ops, i) && Overlapping(ops, i, n)))
            && (found != Nothing ==> found == Just(SlotOf(keys, s)))
  {
    hide TxRun, Lookup, EpochOf, KeyAt, Fresh, Overlapping, SlotOf;
    AcceptsAfterInstall(t, keys, first, ops, i, n, s);
    NearResidue(s, ops[i].number);
    NearResidue(s, KeyAt(first, ops, i));
  }

  /** When a port selects a wrong key, for every distance. */
  lemma {:induction false} WrongKeyIff(
    t: Tx, keys: nat -> Key, first: nat, ops: seq<TxOp>, i: nat, n: nat, s: nat)
    requires Fresh(t, keys, first) && LastKey(ops, i, n)
    requires forall a: nat, b: nat :: keys(a) == keys(b) ==> a == b
    ensures var found := Lookup(TxRun(keys, t, ops, n).cs, EpochOf(s));
            var r, q := ops[i].number, KeyAt(first, ops, i);
            (found.Just? && found.slot.key != keys(s))
              <==> (r != s && r % 255 == s % 255)
                   || (Overlapping(ops, i, n) && r % 255 != s % 255 && q != s && q % 255 == s % 255)
  {
    hide TxRun, Lookup, EpochOf, KeyAt, Fresh, Overlapping;
    AcceptsAfterInstall(t, keys, first, ops, i, n, s);
  }

  /** During the overlap a port whose keys follow each other accepts a packet 254 keys ahead of it under the key before
      its current one. */
  lemma {:induction false} WrongKeyAt254(t: Tx, keys: nat -> Key, first: nat, ops: seq<TxOp>, i: nat, n: nat)
    requires Fresh(t, keys, first) && LastKey(ops, i, n) && Overlapping(ops, i, n)
    requires ops[i].number == KeyAt(first, ops, i) + 1
    ensures var r := ops[i].number;
            Lookup(TxRun(keys, t, ops, n).cs, EpochOf(r + 254)) == Just(SlotOf(keys, r - 1))
  {
    hide TxRun, Lookup, EpochOf, KeyAt, Fresh, SlotOf;
    var r := ops[i].number;
    AcceptsAfterInstall(t, keys, first, ops, i, n, r + 254);
    MultipleOff(r - 1, 1);
    NearResidue(r - 1, r);
  }

  // ---------------------------------------------------------------- every packet once, in order

  function Packets(sent: seq<Stamped>): (ps: seq<Packet>)
    ensures |ps| == |sent|
  {
    seq(|sent|, i requires 0 <= i < |sent| => sent[i].packet)
  }

  /** All packets that were not refused, in the order in which they leave. */
  function InOrder(t: Tx): seq<Packet> {
    Packets(t.sent) + t.inDevice + t.buffer
  }

  /** The packets the first n operations put in, each under the key current then. */
  function Enqueued(keys: nat -> Key, first: nat, ops: seq<TxOp>, n: nat): seq<Packet>
    requires n <= |ops|
  {
    if n == 0 then []
    else if ops[n - 1].EnqueuePacket?
    then Enqueued(keys, first, ops, n - 1) + [Packet(n - 1, SlotOf(keys, KeyAt(first, ops, n - 1)))]
    else Enqueued(keys, first, ops, n - 1)
  }

  /** How often each packet occurs. */
  function Bag(ps: seq<Packet>): multiset<Packet> {
    multiset(ps)
  }

  lemma {:induction false} BagSum(a: seq<Packet>, b: seq<Packet>)
    ensures Bag(a + b) == Bag(a) + Bag(b)
  {
  }

  lemma {:induction false} PacketsMore(sent: seq<Stamped>, s: Stamped)
    ensures Packets(sent + [s]) == Packets(sent) + [s.packet]
  {
  }

  /** What a burst of which the device takes so many leaves to be freed. */
  function Refused(t: Tx, taken: nat): seq<Packet> {
    t.buffer[Min(taken, |t.buffer|)..]
  }

  /** What one operation does to the packets: it adds one at the end, takes refused ones off the end, or nothing. */
  lemma {:induction false} StepMoves(keys: nat -> Key, t: Tx, op: TxOp, now: nat)
    ensures var t' := TxStep(keys, t, op, now);
            match op
            case EnqueuePacket => InOrder(t') == InOrder(t) + [Packet(now, t.cs.cur)] && t'.freed == t.freed
            case SendBurst(taken) =>
              InOrder(t) == InOrder(t') + Refused(t, taken) && t'.freed == t.freed + Refused(t, taken)
            case _ => InOrder(t') == InOrder(t) && t'.freed == t.freed
  {
    hide Attached, SlotOf, Packets;
    match op
    case EnqueuePacket => AttachedIsCurrent(t.cs);
    case SendBurst(taken) => Parts(Packets(t.sent) + t.inDevice, t.buffer, Min(taken, |t.buffer|));
    case DequeuePacket =>
      if t.inDevice != [] {
        PacketsMore(t.sent, Stamped(t.inDevice[0], t.cs.cur.epoch, now));
        FirstMoves(Packets(t.sent), t.inDevice);
      }
    case _ =>
  }

  lemma {:induction false} Parts(a: seq<Packet>, b: seq<Packet>, k: nat)
    requires k <= |b|
    ensures a + b == a + b[..k] + b[k..]
  {
    assert b == b[..k] + b[k..];
  }

  lemma {:induction false} FirstMoves(a: seq<Packet>, b: seq<Packet>)
    requires b != []
    ensures a + [b[0]] + b[1..] == a + b
  {
    assert b == [b[0]] + b[1..];
  }

  ghost predicate Increasing(ps: seq<Packet>, n: nat) {
    && (forall i :: 0 <= i < |ps| ==> ps[i].id < n)
    && (forall i, j :: 0 <= i < j < |ps| ==> ps[i].id < ps[j].id)
  }

  /** The packets `left` and `freed` are all of `put`, each once and in order. */
  ghost predicate Conserved(left: seq<Packet>, freed: seq<Packet>, put: seq<Packet>, n: nat) {
    Bag(left) + Bag(freed) == Bag(put) && Increasing(left, n) && Increasing(put, n)
  }

  lemma {:induction false} NothingPut(t: Tx, keys: nat -> Key, first: nat)
    requires Fresh(t, keys, first)
    ensures Conserved(InOrder(t), t.freed, [], 0)
  {
    assert InOrder(t) == [];
  }

  lemma {:induction false} OnePut(left: seq<Packet>, freed: seq<Packet>, put: seq<Packet>, p: Packet)
    requires Conserved(left, freed, put, p.id)
    ensures Conserved(left + [p], freed, put + [p], p.id + 1)
  {
    BagSum(left, [p]);
    BagSum(put, [p]);
    hide Bag;
  }

  lemma {:induction false} SomeRefused(
    left: seq<Packet>, refused: seq<Packet>, freed: seq<Packet>, put: seq<Packet>, n: nat)
    requires Conserved(left + refused, freed, put, n)
    ensures Conserved(left, freed + refused, put, n)
  {
    BagSum(left, refused);
    BagSum(freed, refused);
    hide Bag;
    var all := left + refused;
    assert forall i :: 0 <= i < |left| ==> left[i] == all[i];
  }

  lemma {:induction false} OneOperation(left: seq<Packet>, freed: seq<Packet>, put: seq<Packet>, n: nat)
    requires Conserved(left, freed, put, n)
    ensures Conserved(left, freed, put, n + 1)
  {
    hide Bag;
  }

  lemma {:induction false} StepConserves(keys: nat -> Key, t: Tx, op: TxOp, put: seq<Packet>, n: nat)
    requires Conserved(InOrder(t), t.freed, put, n)
    ensures var t', p := TxStep(keys, t, op, n), Packet(n, t.cs.cur);
            Conserved(InOrder(t'), t'.freed, if op.EnqueuePacket? then put + [p] else put, n + 1)
  {
    hide TxStep, InOrder, Conserved, Refused;
    StepMoves(keys, t, op, n);
    var t' := TxStep(keys, t, op, n);
    if op.EnqueuePacket? {
      OnePut(InOrder(t), t.freed, put, Packet(n, t.cs.cur));
    } else {
      if op.SendBurst? {
        SomeRefused(InOrder(t'), Refused(t, op.taken), t.freed, put, n);
      }
      OneOperation(InOrder(t'), t'.freed, put, n);
    }
  }

  /** In every run the packets sent, in the device, waiting and refused are exactly those that were put in, each once
      and under the key current then; and none overtakes another. */
  lemma {:induction false} PacketsConserved(t: Tx, keys: nat -> Key, first: nat, ops: seq<TxOp>, n: nat)
    requires Fresh(t, keys, first) && n <= |ops|
    ensures var r := TxRun(keys, t, ops, n);
            Conserved(InOrder(r), r.freed, Enqueued(keys, first, ops, n), n)
  {
    hide TxStep, InOrder, SlotOf, Conserved, KeyAt, Fresh;
    if n == 0 {
      NothingPut(t, keys, first);
    } else {
      PacketsConserved(t, keys, first, ops, n - 1);
      CurrentKey(t, keys, first, ops, n - 1);
      StepConserves(keys, TxRun(keys, t, ops, n - 1), ops[n - 1], Enqueued(keys, first, ops, n - 1), n - 1);
    }
  }

  // ---------------------------------------------------------------- the stamp

  /** The packet was put in by an operation before the n-th, under the key current then. */
  predicate PutIn(keys: nat -> Key, first: nat, ops: seq<TxOp>, p: Packet, n: nat)
    requires n <= |ops|
  {
    p.id < n && ops[p.id].EnqueuePacket? && p.slot == SlotOf(keys, KeyAt(first, ops, p.id))
  }

  lemma {:induction false} EnqueuedPutIn(keys: nat -> Key, first: nat, ops: seq<TxOp>, n: nat, p: Packet)
    requires n <= |ops| && p in Enqueued(keys, first, ops, n)
    ensures PutIn(keys, first, ops, p, n)
  {
    if n > 0 && p in Enqueued(keys, first, ops, n - 1) {
      EnqueuedPutIn(keys, first, ops, n - 1, p);
    }
  }

  lemma {:induction false} InBag(a: seq<Packet>, b: seq<Packet>, c: seq<Packet>, p: Packet)
    requires Bag(a) + Bag(b) == Bag(c) && p in a
    ensures p in c
  {
    assert p in Bag(a);
    assert p in Bag(c);
  }

  /** Every packet in the port was put in under the key current then. */
  lemma {:induction false} AllPutIn(t: Tx, keys: nat -> Key, first: nat, ops: seq<TxOp>, n: nat, p: Packet)
    requires Fresh(t, keys, first) && n <= |ops| && p in InOrder(TxRun(keys, t, ops, n))
    ensures PutIn(keys, first, ops, p, n)
  {
    PacketsConserved(t, keys, first, ops, n);
    hide Bag, InOrder, TxRun, Enqueued, Increasing, PutIn;
    var r := TxRun(keys, t, ops, n);
    InBag(InOrder(r), r.freed, Enqueued(keys, first, ops, n), p);
    EnqueuedPutIn(keys, first, ops, n, p);
  }

  /** Every packet sent was put in by one operation and came back at a later one; it was encrypted under the key current
      at the first, and stamped with the epoch of the key current at the second. */
  lemma {:induction false} PacketHistory(t: Tx, keys: nat -> Key, first: nat, ops: seq<TxOp>, n: nat, i: nat)
    requires Fresh(t, keys, first) && n <= |ops| && i < |TxRun(keys, t, ops, n).sent|
    ensures var s := TxRun(keys, t, ops, n).sent[i];
            && s.at < n && ops[s.at].DequeuePacket? && PutIn(keys, first, ops, s.packet, s.at)
            && s.stamp == EpochOf(KeyAt(first, ops, s.at))
  {
    var r, op := TxRun(keys, t, ops, n - 1), ops[n - 1];
    hide KeyAt, EpochOf, PutIn, SlotOf, TxStep, InOrder, Fresh;
    SentStep(keys, r, op, n - 1, i);
    if i < |r.sent| {
      PacketHistory(t, keys, first, ops, n - 1, i);
    } else {
      HeadInOrder(r);
      AllPutIn(t, keys, first, ops, n - 1, r.inDevice[0]);
      CurrentKey(t, keys, first, ops, n - 1);
      EpochOfSlot(keys, KeyAt(first, ops, n - 1));
    }
  }

  lemma {:induction false} SentStep(keys: nat -> Key, t: Tx, op: TxOp, now: nat, i: nat)
    requires i < |TxStep(keys, t, op, now).sent|
    ensures var sent := TxStep(keys, t, op, now).sent;
            if i < |t.sent| then sent[i] == t.sent[i]
            else op.DequeuePacket? && t.inDevice != []
                 && sent[i] == Stamped(t.inDevice[0], t.cs.cur.epoch, now)
  {
    hide Attached, SlotOf;
  }

  lemma {:induction false} HeadInOrder(t: Tx)
    requires t.inDevice != []
    ensures t.inDevice[0] in InOrder(t)
  {
    assert InOrder(t)[|t.sent|] == t.inDevice[0];
  }

  lemma {:induction false} EpochOfSlot(keys: nat -> Key, n: nat)
    ensures SlotOf(keys, n).epoch == EpochOf(n)
  {
  }

  /** In every run: a packet's stamp names the key that encrypted it if and only if the numbers of the keys current when
      it was put in and when it came back are congruent modulo 255. */
  lemma {:induction false} StampIsRightIff(t: Tx, keys: nat -> Key, first: nat, ops: seq<TxOp>, i: nat)
    requires Fresh(t, keys, first) && i < |TxRun(keys, t, ops, |ops|).sent|
    ensures var s := TxRun(keys, t, ops, |ops|).sent[i];
            var e, d := s.packet.id, s.at;
            && e < d < |ops| && ops[e].EnqueuePacket? && ops[d].DequeuePacket?
            && s.packet.slot == SlotOf(keys, KeyAt(first, ops, e)) && s.stamp == EpochOf(KeyAt(first, ops, d))
            && (s.stamp == s.packet.slot.epoch <==> KeyAt(first, ops, e) % 255 == KeyAt(first, ops, d) % 255)
  {
    PacketHistory(t, keys, first, ops, |ops|, i);
    var s := TxRun(keys, t, ops, |ops|).sent[i];
    EpochIs(KeyAt(first, ops, s.packet.id));
    EpochIs(KeyAt(first, ops, s.at));
    hide EpochOf, TxRun, KeyAt;
  }

  function InstallsIn(ops: seq<TxOp>, lo: nat, hi: nat): nat
    requires lo <= hi <= |ops|
    decreases hi
  {
    if lo == hi then 0 else InstallsIn(ops, lo, hi - 1) + if ops[hi - 1].InstallKey? then 1 else 0
  }

  /** Every install brings a later key than the one it replaces, or, with nothing skipped, the very next one. */
  ghost predicate Later(first: nat, ops: seq<TxOp>) {
    forall i :: 0 <= i < |ops| && ops[i].InstallKey? ==> ops[i].number > KeyAt(first, ops, i)
  }

  ghost predicate NothingSkipped(first: nat, ops: seq<TxOp>) {
    forall i :: 0 <= i < |ops| && ops[i].InstallKey? ==> ops[i].number == KeyAt(first, ops, i) + 1
  }

  lemma {:induction false} KeysAdvance(first: nat, ops: seq<TxOp>, lo: nat, hi: nat)
    requires lo <= hi <= |ops| && Later(first, ops)
    ensures KeyAt(first, ops, hi) >= KeyAt(first, ops, lo) + InstallsIn(ops, lo, hi)
    ensures InstallsIn(ops, lo, hi) == 0 ==> KeyAt(first, ops, hi) == KeyAt(first, ops, lo)
    ensures NothingSkipped(first, ops) ==> KeyAt(first, ops, hi) == KeyAt(first, ops, lo) + InstallsIn(ops, lo, hi)
    decreases hi
  {
    hide Later, NothingSkipped;
    if lo < hi {
      KeysAdvance(first, ops, lo, hi - 1);
      if ops[hi - 1].InstallKey? {
        KeyAdvances(first, ops, hi - 1);
      }
    }
  }

  lemma {:induction false} KeyAdvances(first: nat, ops: seq<TxOp>, i: nat)
    requires i < |ops| && Later(first, ops) && ops[i].InstallKey?
    ensures ops[i].number > KeyAt(first, ops, i)
    ensures NothingSkipped(first, ops) ==> ops[i].number == KeyAt(first, ops, i) + 1
  {
  }

  /** In terms of installs between a packet's own enqueue and dequeue: while they advance the key by less than 255 the
      stamp is right if and only if there was none; and if none skips a key, if and only if they are a multiple
      of 255. */
  lemma {:induction false} StampAndInstalls(t: Tx, keys: nat -> Key, first: nat, ops: seq<TxOp>, i: nat)
    requires Fresh(t, keys, first) && i < |TxRun(keys, t, ops, |ops|).sent| && Later(first, ops)
    ensures var s := TxRun(keys, t, ops, |ops|).sent[i];
            var e, d := s.packet.id, s.at;
            && e < d < |ops| && KeyAt(first, ops, e) <= KeyAt(first, ops, d)
            && (KeyAt(first, ops, d) - KeyAt(first, ops, e) < 255 ==>
                  (s.stamp == s.packet.slot.epoch <==> InstallsIn(ops, e, d) == 0))
            && (NothingSkipped(first, ops) ==>
                  (s.stamp == s.packet.slot.epoch <==> InstallsIn(ops, e, d) % 255 == 0))
  {
    hide TxRun, KeyAt, InstallsIn, Later, NothingSkipped, EpochOf;
    StampIsRightIff(t, keys, first, ops, i);
    var s := TxRun(keys, t, ops, |ops|).sent[i];
    var e, d := s.packet.id, s.at;
    KeysAdvance(first, ops, e, d);
    SameResidueIff(KeyAt(first, ops, e), KeyAt(first, ops, d));
  }

  lemma {:induction false} SameResidueIff(a: nat, b: nat)
    requires a <= b
    ensures b % 255 == a % 255 <==> (b - a) % 255 == 0
    ensures b - a < 255 ==> ((b - a) % 255 == 0 <==> a == b)
  {
    var d := b - a;
    if d % 255 == 0 {
      MultipleOff(a, d / 255);
    }
    if b % 255 == a % 255 {
      MultipleOff(0, b / 255 - a / 255);
      assert d == 255 * (b / 255 - a / 255);
    }
  }

  lemma {:induction false} MultipleOff(x: int, q: int)
    ensures (x + 255 * q) % 255 == x % 255
  {
  }

  /** One install between a packet's enqueue and dequeue is enough for a wrong stamp. */
  lemma {:induction false} StraddlingRun(keys: nat -> Key, first: nat)
    ensures var ops := [EnqueuePacket, SendBurst(1), InstallKey(first + 1), DequeuePacket];
            var t := TxRun(keys, Tx(Cs(SlotOf(keys, first), Nothing), [], [], [], []), ops, 4);
            && t.sent == [Stamped(Packet(0, SlotOf(keys, first)), EpochOf(first + 1), 3)]
            && EpochOf(first + 1) != EpochOf(first)
  {
    var ops := [EnqueuePacket, SendBurst(1), InstallKey(first + 1), DequeuePacket];
    var t := Tx(Cs(SlotOf(keys, first), Nothing), [], [], [], []);
    EpochIs(first);
    EpochIs(first + 1);
    hide EpochOf;
    assert TxRun(keys, t, ops, 1).buffer == [Packet(0, SlotOf(keys, first))];
    assert TxRun(keys, t, ops, 2).inDevice == [Packet(0, SlotOf(keys, first))];
    assert TxRun(keys, t, ops, 3).cs.cur == SlotOf(keys, first + 1);
  }

  // ---------------------------------------------------------------- with the tunnel

  /** The session table the tunnel uses; the static session is never chosen for an accepted epoch. */
  function PortOf(cs: Cs, cipher: Key -> Cbc.Cipher): Tunnel.CsPort {
    var old' := if cs.prev.Just? then map[cs.prev.slot.epoch := cipher(cs.prev.slot.key)] else map[];
    Tunnel.CsPort(old'[cs.cur.epoch := cipher(cs.cur.key)], cs.cur.epoch, cipher(cs.cur.key))
  }

  lemma {:induction false} PortOfLooksUp(cs: Cs, cipher: Key -> Cbc.Cipher, epoch: byte)
    ensures Tunnel.Accepts(PortOf(cs, cipher), epoch) <==> Lookup(cs, epoch).Just?
    ensures Lookup(cs, epoch).Just?
            ==> Tunnel.SessionFor(PortOf(cs, cipher), epoch) == cipher(Lookup(cs, epoch).slot.key)
  {
  }

  /** What a receiver makes of a packet encrypted under key s and stamped with the epoch of key t, when the last install
      among its operations brought key r and key q was current then: it decrypts under the key it holds for that epoch,
      the current one first, and the one before only until it is retired, or drops the packet. */
  lemma {:induction false} ReceivesUnderStamp(
    keys: nat -> Key, cipher: Key -> Cbc.Cipher, rx: Tx, first: nat, ops: seq<TxOp>, i: nat, s: nat, t: nat,
    iv: Cbc.Block, f: seq<byte>)
    requires Fresh(rx, keys, first) && LastKey(ops, i, |ops|) && Tunnel.Carries(f)
    ensures var port := PortOf(TxRun(keys, rx, ops, |ops|).cs, cipher);
            var e := Cbc.EncryptFrom(cipher(keys(s)), iv, Tunnel.Padded(f), Tunnel.ETH);
            var r, q := ops[i].number, KeyAt(first, ops, i);
            var key := if t % 255 == r % 255 then keys(r) else keys(q);
            Tunnel.Receive(port, Tunnel.Sent(cipher(keys(s)), iv, EpochOf(t), f))
              == if t % 255 == r % 255 || (t % 255 == q % 255 && Overlapping(ops, i, |ops|))
                 then Tunnel.Frame(Tunnel.Trimmed(Cbc.DecryptFrom(cipher(key), iv, e, Tunnel.ETH)))
                 else Tunnel.Dropped
  {
    hide PortOf, Lookup, EpochOf, Tunnel.Receive, Tunnel.Sent, Tunnel.Trimmed, Tunnel.Padded;
    hide Tunnel.Accepts, Tunnel.SessionFor, TxRun, KeyAt, Fresh, LastKey, Overlapping;
    hide Cbc.EncryptFrom, Cbc.DecryptFrom, Tunnel.Carries;
    var cs := TxRun(keys, rx, ops, |ops|).cs;
    AcceptsAfterInstall(rx, keys, first, ops, i, |ops|, t);
    PortOfLooksUp(cs, cipher, EpochOf(t));
    Tunnel.ReceivesByEpoch(cipher(keys(s)), PortOf(cs, cipher), iv, EpochOf(t), f);
  }

  /** With no install while it was in the device, a packet fewer than 255 keys away from the receiver's is never
      decrypted under another key: it is delivered under the key last installed or, until a retire, the one current
      before, and dropped otherwise. */
  lemma {:induction false} AcrossRotation(
    keys: nat -> Key, cipher: Key -> Cbc.Cipher, rx: Tx, first: nat, ops: seq<TxOp>, i: nat, s: nat,
    iv: Cbc.Block, f: seq<byte>)
    requires Fresh(rx, keys, first) && LastKey(ops, i, |ops|)
    requires -255 < s - ops[i].number < 255 && -255 < s - KeyAt(first, ops, i) < 255
    requires Tunnel.Carries(f) && Cbc.Inverts(cipher(keys(s)))
    ensures var port := PortOf(TxRun(keys, rx, ops, |ops|).cs, cipher);
            Tunnel.Receive(port, Tunnel.Sent(cipher(keys(s)), iv, EpochOf(s), f))
              == if s == ops[i].number || (s == KeyAt(first, ops, i) && Overlapping(ops, i, |ops|))
                 then Tunnel.Frame(Tunnel.Trimmed(Tunnel.Padded(f))) else Tunnel.Dropped
  {
    hide Tunnel.Receive, Tunnel.Sent, Tunnel.Trimmed, Tunnel.Padded, PortOf, EpochOf;
    hide Cbc.EncryptFrom, Cbc.DecryptFrom, Cbc.Inverts, TxRun, KeyAt, Fresh, Overlapping;
    ReceivesUnderStamp(keys, cipher, rx, first, ops, i, s, s, iv, f);
    NearResidue(s, ops[i].number);
    NearResidue(s, KeyAt(first, ops, i));
    Cbc.DecryptFromUndoes(cipher(keys(s)), iv, Tunnel.Padded(f), Tunnel.ETH);
  }

  lemma {:induction false} TrimKeeps(out: seq<byte>, f: seq<byte>)
    requires Tunnel.Carries(f) && Field16(f, 16) > 0 && |out| == |Tunnel.Padded(f)|
    requires out[16] == f[16] && out[17] == f[17]
    ensures |Tunnel.Trimmed(out)| > 14 && Tunnel.Trimmed(out)[14] == out[14]
  {
    assert Field16(out, 16) == Field16(f, 16);
    hide Be16;
  }

  /** A padded frame encrypted under one permutation and decrypted under another. */
  function Garbled(p: seq<byte>): seq<byte>
    requires |p| >= 30 && Cbc.Whole(p[14..])
  {
    Cbc.DecryptFrom(Cbc.IDENTITY, Zeros(16), Cbc.EncryptFrom(Cbc.SWAP, Zeros(16), p, 14), 14)
  }

  lemma {:induction false} GarbledBytes(p: seq<byte>)
    requires |p| >= 30 && Cbc.Whole(p[14..])
    ensures var out := Garbled(p); |out| == |p| && out[14] == p[29] && out[16] == p[16] && out[17] == p[17]
  {
    Cbc.WrongKeyShows(p[14..]);
    var e := Cbc.EncryptFrom(Cbc.SWAP, Zeros(16), p, 14);
    assert e[14..] == Cbc.Encrypt(Cbc.SWAP, Zeros(16), p[14..]);
    var first := Cbc.Decrypt(Cbc.IDENTITY, Zeros(16), e[14..])[..16];
    hide Cbc.Encrypt, Cbc.Decrypt;
    assert Garbled(p)[14] == first[0] && Garbled(p)[16] == first[2] && Garbled(p)[17] == first[3];
  }

  /** A straddling packet that comes out garbled: encrypted under one permutation, decrypted under another, every frame
      whose datagram begins and whose first block ends with different bytes is delivered with a wrong first byte. */
  lemma {:induction false} StraddlingPacketGarbled(
    keys: nat -> Key, cipher: Key -> Cbc.Cipher, rx: Tx, first: nat, ops: seq<TxOp>, i: nat, s: nat, f: seq<byte>)
    requires Fresh(rx, keys, first) && LastKey(ops, i, |ops|)
    requires Tunnel.Carries(f) && |f| >= 30 && Field16(f, 16) > 0 && f[14] != f[29]
    requires cipher(keys(s)) == Cbc.SWAP && cipher(keys(ops[i].number)) == Cbc.IDENTITY
    ensures var port := PortOf(TxRun(keys, rx, ops, |ops|).cs, cipher);
            var out := Tunnel.Receive(port, Tunnel.Sent(Cbc.SWAP, Zeros(16), EpochOf(ops[i].number), f));
            out.Frame? && |out.bytes| > 14 && out.bytes[14] == f[29] != f[14]
  {
    hide PortOf, EpochOf, Tunnel.Receive, Tunnel.Sent, Tunnel.Trimmed, Cbc.Encrypt, Cbc.Decrypt, Cbc.Xor, Be16;
    hide TxRun, KeyAt, Fresh, Overlapping;
    ReceivesUnderStamp(keys, cipher, rx, first, ops, i, s, ops[i].number, Zeros(16), f);
    var out := Garbled(Tunnel.Padded(f));
    GarbledBytes(Tunnel.Padded(f));
    assert Tunnel.Padded(f)[29] == f[29];
    TrimKeeps(out, f);
  }
}
