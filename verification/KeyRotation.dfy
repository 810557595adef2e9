/** Sharing a new key between lcores: one recv()s it, all of them rotate to it by a sequence number. */
module KeyRotation {
  import opened Bytes

  type Key = seq<byte>

  /** No key has been shared yet. */
  const NONE: byte := 0xFF

  datatype Slot = Slot(epoch: byte, key: Key)
  datatype MaybeSlot = Nothing | Just(slot: Slot)

  /** The session table of a port: the current key and, during the overlap, the one before. */
  datatype Cs = Cs(cur: Slot, prev: MaybeSlot)

  function Rotate(cs: Cs, s: Slot): Cs {
    Cs(s, Just(cs.cur))
  }

  function RetirePrev(cs: Cs): Cs {
    cs.(prev := Nothing)
  }

  function Lookup(cs: Cs, epoch: byte): MaybeSlot {
    if cs.cur.epoch == epoch then Just(cs.cur)
    else if cs.prev.Just? && cs.prev.slot.epoch == epoch then cs.prev
    else Nothing
  }

  datatype Port = Port(cipher: bool, cs: Cs)

  /** What an lcore keeps: the sequence number it applied last and its ports. */
  datatype Lcore = Lcore(applied: u32, ports: seq<Port>)

  /** The globals: the shared key with its epoch, and how often it was replaced, modulo 2^32. */
  datatype Shared = Shared(slot: Slot, seqNo: u32)

  /** What one poll may deliver. */
  datatype Msg = Install(slot: Slot) | Retire

  function RotatePorts(ps: seq<Port>, s: Slot): (r: seq<Port>)
    ensures |r| == |ps|
  {
    seq(|ps|, i requires 0 <= i < |ps| => if ps[i].cipher then ps[i].(cs := Rotate(ps[i].cs, s)) else ps[i])
  }

  function RetirePorts(ps: seq<Port>): (r: seq<Port>)
    ensures |r| == |ps|
  {
    seq(|ps|, i requires 0 <= i < |ps| => if ps[i].cipher then ps[i].(cs := RetirePrev(ps[i].cs)) else ps[i])
  }

  /** The callbacks: an install is shared first, then applied to the ports of the lcore that received it. */
  function Deliver(sh: Shared, ps: seq<Port>, msg: Msg): (Shared, seq<Port>) {
    match msg
    case Install(s) => (Shared(s, Inc32(sh.seqNo)), RotatePorts(ps, s))
    case Retire => (sh, RetirePorts(ps))
  }

  function DeliverAll(sh: Shared, ps: seq<Port>, msgs: seq<Msg>): (Shared, seq<Port>) {
    if msgs == [] then (sh, ps)
    else
      var (sh', ps') := DeliverAll(sh, ps, msgs[..|msgs| - 1]);
      Deliver(sh', ps', msgs[|msgs| - 1])
  }

  /** One drain tick of one lcore: poll, then catch up with what another lcore may have received. */
  function Tick(sh: Shared, lc: Lcore, msgs: seq<Msg>): (Shared, Lcore) {
    var (sh', ps) := DeliverAll(sh, lc.ports, msgs);
    var applied := if msgs != [] then sh'.seqNo else lc.applied;
    if sh'.slot.epoch != NONE && sh'.seqNo != applied then (sh', Lcore(sh'.seqNo, RotatePorts(ps, sh'.slot)))
    else (sh', Lcore(applied, ps))
  }

  /** Every encrypting or decrypting port of the lcore holds exactly the shared key as its current one. */
  ghost predicate InSync(ps: seq<Port>, s: Slot) {
    forall i :: 0 <= i < |ps| && ps[i].cipher ==> ps[i].cs.cur == s
  }

  function Installs(msgs: seq<Msg>): nat {
    if msgs == [] then 0
    else Installs(msgs[..|msgs| - 1]) + if msgs[|msgs| - 1].Install? then 1 else 0
  }

  predicate NoneInstalled(msgs: seq<Msg>) {
    forall i :: 0 <= i < |msgs| && msgs[i].Install? ==> msgs[i].slot.epoch != NONE
  }

  /** After a poll with an install in it, the receiving lcore is in sync, whatever else was delivered. */
  lemma {:induction false} DeliverAllSyncs(sh: Shared, ps: seq<Port>, msgs: seq<Msg>)
    requires NoneInstalled(msgs)
    ensures var (sh', ps') := DeliverAll(sh, ps, msgs);
            && sh'.seqNo == (sh.seqNo + Installs(msgs)) % U32
            && (Installs(msgs) == 0 ==> sh' == sh && forall s :: InSync(ps', s) <==> InSync(ps, s))
            && (Installs(msgs) > 0 ==> sh'.slot.epoch != NONE && InSync(ps', sh'.slot))
  {
    if msgs != [] {
      var init, last := msgs[..|msgs| - 1], msgs[|msgs| - 1];
      DeliverAllSyncs(sh, ps, init);
      var (sh1, ps1) := DeliverAll(sh, ps, init);
      assert msgs[|msgs| - 1].Install? ==> msgs[|msgs| - 1].slot.epoch != NONE;
      SeqStep(sh.seqNo, Installs(init));
      DeliverOne(sh1, ps1, last);
      hide Deliver, InSync, RotatePorts, RetirePorts;
    }
  }

  lemma {:induction false} SeqStep(seqNo: u32, n: nat)
    ensures Inc32((seqNo + n) % U32) == (seqNo + n + 1) % U32
  {
    IncMod(seqNo + n);
  }

  lemma {:induction false} DeliverOne(sh: Shared, ps: seq<Port>, msg: Msg)
    ensures var (sh', ps') := Deliver(sh, ps, msg);
            && (msg.Install? ==> sh'.slot == msg.slot && sh'.seqNo == Inc32(sh.seqNo) && InSync(ps', sh'.slot))
            && (msg.Retire? ==> sh' == sh && forall s :: InSync(ps', s) <==> InSync(ps, s))
  {
    if msg.Retire? {
      var ps' := RetirePorts(ps);
      forall s ensures InSync(ps', s) <==> InSync(ps, s) {
        forall i | 0 <= i < |ps| ensures ps'[i].cipher == ps[i].cipher && ps'[i].cs.cur == ps[i].cs.cur {}
      }
    }
  }

  // ---------------------------------------------------------------- all lcores

  /** `installs` counts all installs and `seen` how many an lcore had seen when it last caught up;
      the program itself only has both modulo 2^32. */
  datatype World = World(sh: Shared, lcores: seq<Lcore>, installs: nat, seen: seq<nat>)

  predicate CatchesUp(w: World, i: nat, msgs: seq<Msg>)
    requires i < |w.lcores|
  {
    var sh := DeliverAll(w.sh, w.lcores[i].ports, msgs).0;
    msgs != [] || (sh.slot.epoch != NONE && sh.seqNo != w.lcores[i].applied)
  }

  function Step(w: World, i: nat, msgs: seq<Msg>): World
    requires i < |w.lcores| == |w.seen|
  {
    var (sh, lc) := Tick(w.sh, w.lcores[i], msgs);
    var installs := w.installs + Installs(msgs);
    World(sh, w.lcores[i := lc], installs, if CatchesUp(w, i, msgs) then w.seen[i := installs] else w.seen)
  }

  /** Fewer than 2^32 installs since each lcore last caught up. */
  ghost predicate NoWrap(w: World) {
    forall j :: 0 <= j < |w.seen| ==> w.installs - w.seen[j] < U32
  }

  ghost predicate Inv(w: World) {
    && |w.seen| == |w.lcores|
    && w.sh.seqNo == w.installs % U32
    && (w.sh.slot.epoch == NONE <==> w.installs == 0)
    && (forall j :: 0 <= j < |w.lcores| ==> w.seen[j] <= w.installs)
    && (forall j :: 0 <= j < |w.lcores| ==> w.lcores[j].applied == w.seen[j] % U32)
    && (forall j :: 0 <= j < |w.lcores| ==> w.seen[j] == w.installs > 0 ==> InSync(w.lcores[j].ports, w.sh.slot))
  }

  /** What is assumed of a poll: a positive return means an install ran, and no epoch is 0xFF. */
  predicate GoodPoll(msgs: seq<Msg>) {
    NoneInstalled(msgs) && (msgs != [] ==> Installs(msgs) > 0)
  }

  lemma {:induction false} SameResidue(a: nat, b: nat)
    requires a <= b && b - a < U32 && a % U32 == b % U32
    ensures a == b
  {
    assert b - a == U32 * (b / U32 - a / U32);
  }

  /** An lcore whose applied number equals the shared one holds exactly the shared key. */
  lemma {:induction false} AppliedMeansInSync(w: World, j: nat)
    requires Inv(w) && NoWrap(w) && j < |w.lcores| && w.installs > 0
    requires w.lcores[j].applied == w.sh.seqNo
    ensures InSync(w.lcores[j].ports, w.sh.slot)
  {
    SameResidue(w.seen[j], w.installs);
  }

  lemma {:induction false} RotatedInSync(ps: seq<Port>, s: Slot)
    ensures InSync(RotatePorts(ps, s), s)
  {
  }

  /** When an lcore is in sync after its tick: always, unless the poll delivered something but no install. */
  lemma {:induction false} TickSyncsIff(w: World, i: nat, msgs: seq<Msg>)
    requires Inv(w) && NoWrap(w) && i < |w.lcores| && NoneInstalled(msgs)
    ensures var (sh, lc) := Tick(w.sh, w.lcores[i], msgs);
            && sh.seqNo == (w.installs + Installs(msgs)) % U32
            && (sh.slot.epoch == NONE <==> w.installs + Installs(msgs) == 0)
            && (Installs(msgs) == 0 ==> sh == w.sh)
            && (sh.slot.epoch != NONE ==>
                  (InSync(lc.ports, sh.slot)
                   <==> Installs(msgs) > 0 || msgs == [] || InSync(w.lcores[i].ports, w.sh.slot)))
            && lc.applied == (if CatchesUp(w, i, msgs) then sh.seqNo else w.lcores[i].applied)
  {
    var (sh, ps) := DeliverAll(w.sh, w.lcores[i].ports, msgs);
    DeliverAllSyncs(w.sh, w.lcores[i].ports, msgs);
    ResidueAdds(w.installs, Installs(msgs));
    RotatedInSync(ps, sh.slot);
    hide InSync, RotatePorts, Deliver, NoneInstalled, Inc32;
    if msgs == [] && w.installs > 0 && w.lcores[i].applied == w.sh.seqNo {
      AppliedMeansInSync(w, i);
    }
  }

  lemma {:induction false} ResidueAdds(a: nat, n: nat)
    ensures (a % U32 + n) % U32 == (a + n) % U32
  {
  }

  /** A tick keeps the invariant exactly unless its poll brings something but no install to an lcore that lacks
      the key. */
  lemma {:induction false} StepKeepsInv(w: World, i: nat, msgs: seq<Msg>)
    requires Inv(w) && NoWrap(w) && i < |w.lcores| && NoneInstalled(msgs)
    ensures Inv(Step(w, i, msgs))
            <==> Installs(msgs) > 0 || msgs == [] || w.installs == 0 || InSync(w.lcores[i].ports, w.sh.slot)
  {
    TickSyncsIff(w, i, msgs);
    var w' := Step(w, i, msgs);
    hide Tick, InSync, NoneInstalled;
    assert Installs([]) == 0;
    if Installs(msgs) > 0 || msgs == [] || w.installs == 0 || InSync(w.lcores[i].ports, w.sh.slot) {
      forall j | 0 <= j < |w.lcores|
        ensures w'.seen[j] <= w'.installs && w'.lcores[j].applied == w'.seen[j] % U32
        ensures w'.seen[j] == w'.installs > 0 ==> InSync(w'.lcores[j].ports, w'.sh.slot)
      {
      }
    } else {
      assert w'.seen[i] == w'.installs > 0 && !InSync(w'.lcores[i].ports, w'.sh.slot);
    }
  }

  // ---------------------------------------------------------------- runs of ticks

  datatype Drain = Drain(lcore: nat, msgs: seq<Msg>)

  function Run(w: World, ds: seq<Drain>): World {
    if ds == [] then w
    else
      var before := Run(w, ds[..|ds| - 1]);
      var d := ds[|ds| - 1];
      if d.lcore < |before.lcores| == |before.seen| then Step(before, d.lcore, d.msgs) else before
  }

  /** In every interleaving: polls are good, and the 32-bit number does not wrap between two ticks of an lcore. */
  ghost predicate GoodRun(w: World, ds: seq<Drain>) {
    && (forall k :: 0 <= k < |ds| ==> GoodPoll(ds[k].msgs))
    && (forall k :: 0 <= k <= |ds| ==> NoWrap(Run(w, ds[..k])))
  }

  lemma {:induction false} GoodPrefix(w: World, ds: seq<Drain>, n: nat)
    requires GoodRun(w, ds) && n <= |ds|
    ensures GoodRun(w, ds[..n])
  {
    forall k | 0 <= k <= n ensures NoWrap(Run(w, ds[..n][..k])) {
      assert ds[..n][..k] == ds[..k];
    }
  }

  lemma {:induction false} RunKeepsInv(w: World, ds: seq<Drain>)
    requires Inv(w) && GoodRun(w, ds)
    ensures Inv(Run(w, ds)) && |Run(w, ds).lcores| == |w.lcores| && NoWrap(Run(w, ds))
    decreases |ds|
  {
    assert ds[..|ds|] == ds;
    assert NoWrap(Run(w, ds[..|ds|]));
    if ds != [] {
      var n := |ds| - 1;
      GoodPrefix(w, ds, n);
      RunKeepsInv(w, ds[..n]);
      var d := ds[n];
      if d.lcore < |w.lcores| {
        StepKeepsInv(Run(w, ds[..n]), d.lcore, d.msgs);
      }
    }
  }

  /** Safety: in every run, an lcore whose applied number equals g_shared_seq holds exactly the shared key. */
  lemma {:induction false} AppliedIsInSync(w: World, ds: seq<Drain>, j: nat)
    requires Inv(w) && GoodRun(w, ds) && j < |w.lcores|
    ensures var w' := Run(w, ds);
            && |w'.lcores| == |w.lcores|
            && (w'.installs > 0 && w'.lcores[j].applied == w'.sh.seqNo ==> InSync(w'.lcores[j].ports, w'.sh.slot))
  {
    RunKeepsInv(w, ds);
    if Run(w, ds).installs > 0 && Run(w, ds).lcores[j].applied == Run(w, ds).sh.seqNo {
      AppliedMeansInSync(Run(w, ds), j);
    }
  }

  /** Which lcores ticked in a run. */
  predicate Ticked(ds: seq<Drain>, j: nat) {
    exists k :: 0 <= k < |ds| && ds[k].lcore == j
  }

  /** After the last install, every lcore that has ticked once is in sync and stays so. */
  lemma {:induction false} TickedInSync(w: World, ds: seq<Drain>, j: nat)
    requires Inv(w) && GoodRun(w, ds) && w.installs > 0 && j < |w.lcores|
    requires forall k :: 0 <= k < |ds| ==> ds[k].msgs == []
    ensures Run(w, ds).sh == w.sh && |Run(w, ds).lcores| == |w.lcores| && Run(w, ds).installs == w.installs
    ensures Ticked(ds, j) ==> InSync(Run(w, ds).lcores[j].ports, w.sh.slot)
    decreases |ds|
  {
    if ds != [] {
      var n := |ds| - 1;
      var d := ds[n];
      GoodPrefix(w, ds, n);
      RunKeepsInv(w, ds[..n]);
      TickedInSync(w, ds[..n], j);
      var before := Run(w, ds[..n]);
      assert d.msgs == [];
      if d.lcore < |w.lcores| {
        TickSyncsIff(before, d.lcore, []);
      }
      if Ticked(ds, j) && d.lcore != j {
        assert Ticked(ds[..n], j) by {
          var k :| 0 <= k < |ds| && ds[k].lcore == j;
          assert ds[..n][k].lcore == j;
        }
      }
    }
  }

  /** One tick of each lcore after the last install makes all of them agree. */
  lemma {:induction false} OneTickEachAgrees(w: World, ds: seq<Drain>, quiet: seq<Drain>)
    requires Inv(w) && GoodRun(w, ds) && Run(w, ds).installs > 0
    requires GoodRun(Run(w, ds), quiet) && forall k :: 0 <= k < |quiet| ==> quiet[k].msgs == []
    requires forall j :: 0 <= j < |w.lcores| ==> Ticked(quiet, j)
    ensures var end := Run(Run(w, ds), quiet);
            && end.sh == Run(w, ds).sh && |end.lcores| == |w.lcores|
            && forall j :: 0 <= j < |w.lcores| ==> InSync(end.lcores[j].ports, end.sh.slot)
  {
    var m := Run(w, ds);
    RunKeepsInv(w, ds);
    RunKeepsInv(m, quiet);
    hide InSync, Inv, GoodRun, NoWrap, Run, Ticked;
    forall j | 0 <= j < |w.lcores| ensures InSync(Run(m, quiet).lcores[j].ports, m.sh.slot) {
      TickedInSync(m, quiet, j);
    }
    QuietKeepsShared(m, quiet);
  }

  lemma {:induction false} QuietKeepsShared(w: World, ds: seq<Drain>)
    requires forall k :: 0 <= k < |ds| ==> ds[k].msgs == []
    ensures Run(w, ds).sh == w.sh && |Run(w, ds).lcores| == |w.lcores| && |Run(w, ds).seen| == |w.seen|
    decreases |ds|
  {
    if ds != [] {
      assert ds[|ds| - 1].msgs == [];
      QuietKeepsShared(w, ds[..|ds| - 1]);
    }
  }

  /** An lcore that believes to have applied a key it never got. */
  ghost predicate Stuck(w: World, i: nat) {
    && i < |w.lcores| == |w.seen|
    && w.lcores[i].applied == w.sh.seqNo
    && !InSync(w.lcores[i].ports, w.sh.slot)
  }

  lemma {:induction false} InstallFree(msgs: seq<Msg>)
    requires Installs(msgs) == 0
    ensures NoneInstalled(msgs)
  {
    forall i | 0 <= i < |msgs| ensures !msgs[i].Install? {
      NoInstallAt(msgs, i);
    }
  }

  lemma {:induction false} NoInstallAt(msgs: seq<Msg>, i: nat)
    requires Installs(msgs) == 0 && i < |msgs|
    ensures !msgs[i].Install?
  {
    if i < |msgs| - 1 {
      NoInstallAt(msgs[..|msgs| - 1], i);
    }
  }

  lemma {:induction false} StuckStep(w: World, i: nat, j: nat, msgs: seq<Msg>)
    requires Stuck(w, i) && j < |w.lcores| && Installs(msgs) == 0
    ensures Stuck(Step(w, j, msgs), i)
  {
    InstallFree(msgs);
    DeliverAllSyncs(w.sh, w.lcores[j].ports, msgs);
    hide InSync, NoneInstalled, Deliver, Installs, Inc32, RotatePorts;
  }

  /** However often the lcores tick, and whatever retire messages come, it stays without the key until the next
      install. */
  lemma {:induction false} StuckStays(w: World, i: nat, ds: seq<Drain>)
    requires Stuck(w, i) && forall k :: 0 <= k < |ds| ==> Installs(ds[k].msgs) == 0
    ensures Stuck(Run(w, ds), i)
    decreases |ds|
  {
    if ds != [] {
      hide Stuck, Step, Installs;
      var n := |ds| - 1;
      StuckStays(w, i, ds[..n]);
      var before, d := Run(w, ds[..n]), ds[n];
      assert Installs(d.msgs) == 0;
      if d.lcore < |before.lcores| == |before.seen| {
        StuckStep(before, i, d.lcore, d.msgs);
      }
    }
  }

  /** A poll that returns something but no install makes an lcore stuck, whenever it has not caught up yet. */
  lemma {:induction false} PollWithoutInstallSticks(w: World, i: nat, msgs: seq<Msg>)
    requires Inv(w) && NoWrap(w) && i < |w.lcores| && w.installs > 0
    requires msgs != [] && Installs(msgs) == 0 && NoneInstalled(msgs)
    ensures Stuck(Step(w, i, msgs), i) <==> !InSync(w.lcores[i].ports, w.sh.slot)
  {
    TickSyncsIff(w, i, msgs);
    hide InSync, Tick, NoneInstalled;
  }

  /** Two lcores: the first receives a key, the second only a retire message, and misses the key. */
  lemma {:induction false} MissedKey(old': Slot, new': Slot)
    requires old' != new' && new'.epoch != NONE
    ensures var port := Port(true, Cs(old', Nothing));
            var w := World(Shared(Slot(NONE, []), 0), [Lcore(0, [port]), Lcore(0, [port])], 0, [0, 0]);
            Inv(w) && Stuck(Run(w, [Drain(0, [Install(new')]), Drain(1, [Retire])]), 1)
  {
    var port := Port(true, Cs(old', Nothing));
    var w := World(Shared(Slot(NONE, []), 0), [Lcore(0, [port]), Lcore(0, [port])], 0, [0, 0]);
    var ds := [Drain(0, [Install(new')]), Drain(1, [Retire])];
    assert ds[..1] == [ds[0]] && ds[..1][..0] == [] && ds[..1][|ds[..1]| - 1] == ds[0];
    assert Run(w, ds[..1][..0]) == w;
    var w1 := Run(w, ds[..1]);
    One(w.sh, w.lcores[0].ports, Install(new'));
    assert w1 == Step(w, 0, [Install(new')]);
    assert w1.sh == Shared(new', 1) && w1.lcores[1] == w.lcores[1];
    One(w1.sh, w1.lcores[1].ports, Retire);
    var w2 := Run(w, ds);
    assert w2 == Step(w1, 1, [Retire]);
    assert w2.sh == w1.sh && w2.lcores[1].applied == 1;
    assert w2.lcores[1].ports[0].cipher && w2.lcores[1].ports[0].cs.cur == old';
  }

  /** With 0xFF as its epoch a key is shared with nobody: ticks without messages change no lcore at all. */
  lemma {:induction false} QuietUnderNone(w: World, quiet: seq<Drain>)
    requires w.sh.slot.epoch == NONE && forall k :: 0 <= k < |quiet| ==> quiet[k].msgs == []
    ensures Run(w, quiet).sh == w.sh && Run(w, quiet).lcores == w.lcores && |Run(w, quiet).seen| == |w.seen|
    decreases |quiet|
  {
    if quiet != [] {
      var n := |quiet| - 1;
      assert quiet[n].msgs == [];
      QuietUnderNone(w, quiet[..n]);
    }
  }

  /** After an install with epoch 0xFF no other lcore gets the key, however the lcores tick until the next message. */
  lemma {:induction false} EpochFFIsNotShared(w: World, i: nat, s: Slot, quiet: seq<Drain>, j: nat)
    requires i < |w.lcores| == |w.seen| && j < |w.lcores| && j != i
    requires s.epoch == NONE && forall k :: 0 <= k < |quiet| ==> quiet[k].msgs == []
    ensures var end := Run(Step(w, i, [Install(s)]), quiet);
            |end.lcores| == |w.lcores| && end.lcores[j] == w.lcores[j] && end.sh.slot == s
  {
    One(w.sh, w.lcores[i].ports, Install(s));
    QuietUnderNone(Step(w, i, [Install(s)]), quiet);
  }

  lemma {:induction false} One(sh: Shared, ps: seq<Port>, msg: Msg)
    ensures DeliverAll(sh, ps, [msg]) == Deliver(sh, ps, msg)
    ensures Installs([msg]) == if msg.Install? then 1 else 0
  {
    assert [msg][..0] == [];
    assert DeliverAll(sh, ps, [msg][..0]) == (sh, ps);
    assert Installs([msg][..0]) == 0;
  }

  // ---------------------------------------------------------------- what a port accepts

  /** The table after the messages a port was told of. */
  function CsAfter(cs: Cs, told: seq<Msg>): Cs {
    if told == [] then cs
    else
      var before := CsAfter(cs, told[..|told| - 1]);
      match told[|told| - 1]
      case Install(s) => Rotate(before, s)
      case Retire => RetirePrev(before)
  }

  /** The slot of the last install in them, or the one before all of them. */
  function LastInstalled(first: Slot, told: seq<Msg>): Slot {
    if told == [] then first
    else if told[|told| - 1].Install? then told[|told| - 1].slot
    else LastInstalled(first, told[..|told| - 1])
  }

  /** The i-th message is the last install. */
  predicate LastInstall(told: seq<Msg>, i: nat) {
    i < |told| && told[i].Install? && forall k :: i < k < |told| ==> told[k].Retire?
  }

  /** A port told of an install, behind which only retires came, accepts the new epoch under the new key; while none
      came, also the epoch current before, under its key; and no other. */
  lemma {:induction false} AcceptsOverlap(cs: Cs, told: seq<Msg>, i: nat, epoch: byte)
    requires LastInstall(told, i)
    ensures var new', old' := told[i].slot, LastInstalled(cs.cur, told[..i]);
            Lookup(CsAfter(cs, told), epoch)
              == if epoch == new'.epoch then Just(new')
                 else if epoch == old'.epoch && |told| == i + 1 then Just(old') else Nothing
  {
    CurIsLast(cs, told[..i]);
    AfterLastInstall(cs, told, i);
  }

  lemma {:induction false} CurIsLast(cs: Cs, told: seq<Msg>)
    ensures CsAfter(cs, told).cur == LastInstalled(cs.cur, told)
  {
    if told != [] {
      CurIsLast(cs, told[..|told| - 1]);
    }
  }

  lemma {:induction false} AfterLastInstall(cs: Cs, told: seq<Msg>, i: nat)
    requires LastInstall(told, i)
    ensures var after := CsAfter(cs, told);
            after.cur == told[i].slot
            && after.prev == if |told| == i + 1 then Just(CsAfter(cs, told[..i]).cur) else Nothing
    decreases |told|
  {
    var n := |told| - 1;
    if i < n {
      assert told[..n][..i] == told[..i];
      AfterLastInstall(cs, told[..n], i);
    }
  }

  /** A key is heard of by a message, or by catching up with one another lcore received. */
  function Heard(w: World, j: nat, msgs: seq<Msg>): seq<Msg>
    requires j < |w.lcores|
  {
    var sh := DeliverAll(w.sh, w.lcores[j].ports, msgs).0;
    var applied := if msgs == [] then w.lcores[j].applied else sh.seqNo;
    if sh.slot.epoch != NONE && sh.seqNo != applied then msgs + [Install(sh.slot)] else msgs
  }

  /** What lcore j hears of in the first n ticks. */
  function HeardOf(w: World, ds: seq<Drain>, j: nat, n: nat): seq<Msg>
    requires n <= |ds|
  {
    if n == 0 then []
    else
      var before := Run(w, ds[..n - 1]);
      HeardOf(w, ds, j, n - 1)
      + if ds[n - 1].lcore == j < |before.lcores| then Heard(before, j, ds[n - 1].msgs) else []
  }

  /** Every encrypting or decrypting port went through the messages; the others keep what they had. */
  ghost predicate WentThrough(ps: seq<Port>, ps': seq<Port>, told: seq<Msg>) {
    |ps'| == |ps|
    && forall p :: 0 <= p < |ps| ==>
         ps'[p] == if ps[p].cipher then Port(true, CsAfter(ps[p].cs, told)) else ps[p]
  }

  lemma {:induction false} NothingTold(ps: seq<Port>)
    ensures WentThrough(ps, ps, [])
  {
    forall p | 0 <= p < |ps| ensures ps[p].cipher ==> ps[p] == Port(true, CsAfter(ps[p].cs, [])) {
    }
  }

  lemma {:induction false} CsAfterOne(cs: Cs, told: seq<Msg>, msg: Msg)
    ensures CsAfter(cs, told + [msg])
            == if msg.Install? then Rotate(CsAfter(cs, told), msg.slot) else RetirePrev(CsAfter(cs, told))
  {
    assert (told + [msg])[..|told|] == told;
  }

  lemma {:induction false} OneMoreTold(sh: Shared, ps: seq<Port>, ps': seq<Port>, told: seq<Msg>, msg: Msg)
    requires WentThrough(ps, ps', told)
    ensures WentThrough(ps, Deliver(sh, ps', msg).1, told + [msg])
  {
    hide CsAfter, Rotate, RetirePrev;
    forall p | 0 <= p < |ps|
      ensures var after := Deliver(sh, ps', msg).1[p];
              after == if ps[p].cipher then Port(true, CsAfter(ps[p].cs, told + [msg])) else ps[p]
    {
      CsAfterOne(ps[p].cs, told, msg);
    }
  }

  lemma {:induction false} DeliveredAll(sh: Shared, ps: seq<Port>, ps': seq<Port>, told: seq<Msg>, msgs: seq<Msg>)
    requires WentThrough(ps, ps', told)
    ensures WentThrough(ps, DeliverAll(sh, ps', msgs).1, told + msgs)
    decreases |msgs|
  {
    hide WentThrough, Deliver;
    if msgs == [] {
      assert told + msgs == told;
    } else {
      var n := |msgs| - 1;
      DeliveredAll(sh, ps, ps', told, msgs[..n]);
      var (sh1, ps1) := DeliverAll(sh, ps', msgs[..n]);
      OneMoreTold(sh1, ps, ps1, told + msgs[..n], msgs[n]);
      assert told + msgs == told + msgs[..n] + [msgs[n]];
    }
  }

  lemma {:induction false} TickedThrough(w: World, j: nat, ps: seq<Port>, told: seq<Msg>, msgs: seq<Msg>)
    requires j < |w.lcores| && WentThrough(ps, w.lcores[j].ports, told)
    ensures WentThrough(ps, Tick(w.sh, w.lcores[j], msgs).1.ports, told + Heard(w, j, msgs))
  {
    hide WentThrough, DeliverAll, RotatePorts;
    DeliveredAll(w.sh, ps, w.lcores[j].ports, told, msgs);
    var (sh, ps') := DeliverAll(w.sh, w.lcores[j].ports, msgs);
    OneMoreTold(sh, ps, ps', told + msgs, Install(sh.slot));
    assert told + (msgs + [Install(sh.slot)]) == told + msgs + [Install(sh.slot)];
  }

  /** In every run each port went through exactly what its lcore heard of. */
  lemma {:induction false} PortsFollow(w: World, ds: seq<Drain>, j: nat, n: nat)
    requires |w.lcores| == |w.seen| && j < |w.lcores| && n <= |ds|
    ensures var w' := Run(w, ds[..n]);
            && |w'.lcores| == |w'.seen| == |w.lcores|
            && WentThrough(w.lcores[j].ports, w'.lcores[j].ports, HeardOf(w, ds, j, n))
  {
    hide WentThrough, Tick, Heard, CatchesUp;
    if n == 0 {
      NothingTold(w.lcores[j].ports);
    } else {
      PortsFollow(w, ds, j, n - 1);
      assert ds[..n][..n - 1] == ds[..n - 1];
      var before, told := Run(w, ds[..n - 1]), HeardOf(w, ds, j, n - 1);
      TickedThrough(before, j, w.lcores[j].ports, told, ds[n - 1].msgs);
      assert told + [] == told;
    }
  }

  /** The overlap, in every run: once its lcore has heard of an install, a port accepts that epoch under the
      new key and, until the lcore hears of a retire, the epoch current before under the old key; and no other. */
  lemma {:induction false} OverlapInRun(w: World, ds: seq<Drain>, j: nat, p: nat, i: nat, epoch: byte)
    requires |w.lcores| == |w.seen| && j < |w.lcores| && p < |w.lcores[j].ports| && w.lcores[j].ports[p].cipher
    requires LastInstall(HeardOf(w, ds, j, |ds|), i)
    ensures var heard := HeardOf(w, ds, j, |ds|);
            var new', old' := heard[i].slot, LastInstalled(w.lcores[j].ports[p].cs.cur, heard[..i]);
            var w' := Run(w, ds);
            && j < |w'.lcores| && p < |w'.lcores[j].ports|
            && Lookup(w'.lcores[j].ports[p].cs, epoch)
               == if epoch == new'.epoch then Just(new')
                  else if epoch == old'.epoch && |heard| == i + 1 then Just(old') else Nothing
  {
    hide Run, HeardOf, Lookup, CsAfter, LastInstall, LastInstalled;
    PortsFollow(w, ds, j, |ds|);
    assert ds[..|ds|] == ds;
    AcceptsOverlap(w.lcores[j].ports[p].cs, HeardOf(w, ds, j, |ds|), i, epoch);
  }

  /** One tick that catches up with another lcore: every port accepts the shared key and the one it had. */
  lemma {:induction false} CatchUpOverlaps(sh: Shared, lc: Lcore, p: nat, epoch: byte)
    requires sh.slot.epoch != NONE && sh.seqNo != lc.applied && p < |lc.ports| && lc.ports[p].cipher
    ensures var (_, lc') := Tick(sh, lc, []);
            var old' := lc.ports[p].cs.cur;
            && p < |lc'.ports|
            && Lookup(lc'.ports[p].cs, epoch)
               == if epoch == sh.slot.epoch then Just(sh.slot)
                  else if epoch == old'.epoch then Just(old') else Nothing
  {
  }
}
