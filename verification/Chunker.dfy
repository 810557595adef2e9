/** Cutting a byte stream into content-defined chunks under an inactivity timer. */
module Chunker {
  import opened Bytes

  const CHUNK_SIZE: nat := 4096
  const INACTIVITY_TICKS: nat := 200

  datatype Boundary = Continue | Found | FoundStrong | FoundMax

  /** The boundary detector is any deterministic machine over states R. */
  datatype Cdc<!R> = Cdc(feed: (R, byte, nat) -> (R, Boundary), reset: R -> R)

  datatype Kind = Full | Partial | MaxSized

  datatype Chunk = Chunk(data: seq<byte>, kind: Kind)

  datatype Stats = Stats(bytes: u32, full: u32, partial: u32, max: u32, total: u32)

  /** One connection, with the list of all chunks it has emitted. */
  datatype Conn<R> = Conn(cur: seq<byte>, timer: nat, rabin: R, stats: Stats, out: seq<Chunk>)

  function Counted(st: Stats, kind: Kind): Stats {
    var st' := match kind
      case Full => st.(full := Inc32(st.full))
      case Partial => st.(partial := Inc32(st.partial))
      case MaxSized => st.(max := Inc32(st.max));
    st'.(total := Inc32(st.total))
  }

  function Process<R>(c: Cdc<R>, s: Conn<R>, kind: Kind): Conn<R> {
    if s.cur == [] then s
    else Conn([], 0, c.reset(s.rabin), Counted(s.stats, kind), s.out + [Chunk(s.cur, kind)])
  }

  /** A full buffer is emitted before the next byte goes in. */
  function Drained<R>(c: Cdc<R>, s: Conn<R>): Conn<R> {
    if |s.cur| >= CHUNK_SIZE then Process(c, s, MaxSized) else s
  }

  /** The byte goes into the buffer, then the detector decides. */
  function Placed<R>(c: Cdc<R>, s: Conn<R>, b: byte): Conn<R> {
    var (rabin, found) := c.feed(s.rabin, b, |s.cur| + 1);
    var s' := s.(cur := s.cur + [b], rabin := rabin, stats := s.stats.(bytes := Inc32(s.stats.bytes)));
    match found
    case Found => Process(c, s', Full)
    case FoundStrong => Process(c, s', Full)
    case FoundMax => Process(c, s', MaxSized)
    case Continue => s'
  }

  function FeedByte<R>(c: Cdc<R>, s: Conn<R>, b: byte): Conn<R> {
    Placed(c, Drained(c, s), b)
  }

  function Feed<R>(c: Cdc<R>, s: Conn<R>, bs: seq<byte>): Conn<R> {
    if bs == [] then s else FeedByte(c, Feed(c, s, bs[..|bs| - 1]), bs[|bs| - 1])
  }

  function Armed<R>(s: Conn<R>): Conn<R> {
    if s.cur != [] && s.timer == 0 then s.(timer := INACTIVITY_TICKS) else s
  }

  /** One call that adds the bytes of one packet. */
  function Add<R>(c: Cdc<R>, s: Conn<R>, bs: seq<byte>): Conn<R> {
    Armed(Feed(c, s, bs))
  }

  function Tick<R>(c: Cdc<R>, s: Conn<R>): Conn<R> {
    if s.timer == 0 then s
    else
      var s' := s.(timer := s.timer - 1);
      if s'.timer == 0 then Process(c, s', Partial) else s'
  }

  function Flush<R>(c: Cdc<R>, s: Conn<R>): Conn<R> {
    Process(c, s, Partial)
  }

  /** A call that takes in these bytes and then finds no buffer for the next one. It leaves the timer alone; a full
      buffer was emitted before, so nothing waits then, or else there was a buffer and the call does not stop. */
  function RunDry<R>(c: Cdc<R>, s: Conn<R>, bs: seq<byte>): Conn<R> {
    var d := Drained(c, Feed(c, s, bs));
    if d.cur == [] then d else Armed(d)
  }

  datatype Op = AddOp(bytes: seq<byte>) | DryOp(bytes: seq<byte>) | TickOp | FlushOp

  /** The bytes an operation takes in. */
  function TakenBy(op: Op): seq<byte> {
    if op.AddOp? || op.DryOp? then op.bytes else []
  }

  function Step<R>(c: Cdc<R>, s: Conn<R>, op: Op): Conn<R> {
    match op
    case AddOp(bs) => Add(c, s, bs)
    case DryOp(bs) => RunDry(c, s, bs)
    case TickOp => Tick(c, s)
    case FlushOp => Flush(c, s)
  }

  function Run<R>(c: Cdc<R>, s: Conn<R>, ops: seq<Op>): Conn<R>
    decreases |ops|
  {
    if ops == [] then s else Run(c, Step(c, s, ops[0]), ops[1..])
  }

  // ---------------------------------------------------------------- nothing is lost, order is kept

  /** The bytes of the emitted chunks, in order. */
  function Emitted(out: seq<Chunk>): seq<byte> {
    if out == [] then [] else Emitted(out[..|out| - 1]) + out[|out| - 1].data
  }

  /** The stream the connection has taken in. */
  function Stream<R>(s: Conn<R>): seq<byte> {
    Emitted(s.out) + s.cur
  }

  function AddedBytes(ops: seq<Op>): seq<byte> {
    if ops == [] then []
    else TakenBy(ops[0]) + AddedBytes(ops[1..])
  }

  lemma {:induction false} EmittedSnoc(out: seq<Chunk>, x: Chunk)
    ensures Emitted(out + [x]) == Emitted(out) + x.data
  {
    assert (out + [x])[..|out|] == out;
  }

  lemma {:induction false} ProcessKeepsStream<R>(c: Cdc<R>, s: Conn<R>, kind: Kind)
    ensures Stream(Process(c, s, kind)) == Stream(s)
    ensures s.out <= Process(c, s, kind).out
  {
    if s.cur != [] {
      EmittedSnoc(s.out, Chunk(s.cur, kind));
    }
  }

  lemma {:induction false} FeedByteExtends<R>(c: Cdc<R>, s: Conn<R>, b: byte)
    ensures Stream(FeedByte(c, s, b)) == Stream(s) + [b]
    ensures s.out <= FeedByte(c, s, b).out
  {
    hide Process, Placed, Emitted;
    ProcessKeepsStream(c, s, MaxSized);
    PlacedExtends(c, Drained(c, s), b);
  }

  lemma {:induction false} PlacedExtends<R>(c: Cdc<R>, s: Conn<R>, b: byte)
    ensures Stream(Placed(c, s, b)) == Stream(s) + [b]
    ensures s.out <= Placed(c, s, b).out
  {
    hide Process, Emitted, Inc32;
    var (rabin, found) := c.feed(s.rabin, b, |s.cur| + 1);
    var p := s.(cur := s.cur + [b], rabin := rabin, stats := s.stats.(bytes := Inc32(s.stats.bytes)));
    assert Stream(p) == Stream(s) + [b];
    ProcessKeepsStream(c, p, Full);
    ProcessKeepsStream(c, p, MaxSized);
  }

  lemma {:induction false} FeedExtends<R>(c: Cdc<R>, s: Conn<R>, bs: seq<byte>)
    ensures Stream(Feed(c, s, bs)) == Stream(s) + bs
    ensures s.out <= Feed(c, s, bs).out
  {
    if bs != [] {
      var init := bs[..|bs| - 1];
      FeedExtends(c, s, init);
      FeedByteExtends(c, Feed(c, s, init), bs[|bs| - 1]);
      assert bs == init + [bs[|bs| - 1]];
    }
  }

  lemma {:induction false} StepExtends<R>(c: Cdc<R>, s: Conn<R>, op: Op)
    ensures Stream(Step(c, s, op)) == Stream(s) + TakenBy(op)
    ensures s.out <= Step(c, s, op).out
  {
    match op
    case AddOp(bs) => FeedExtends(c, s, bs);
    case DryOp(bs) =>
      FeedExtends(c, s, bs);
      ProcessKeepsStream(c, Feed(c, s, bs), MaxSized);
    case TickOp => ProcessKeepsStream(c, s.(timer := 0), Partial);
    case FlushOp => ProcessKeepsStream(c, s, Partial);
  }

  /** In every run the emitted chunks followed by the buffer are exactly the bytes taken in. */
  lemma {:induction false} StreamConserved<R>(c: Cdc<R>, s: Conn<R>, ops: seq<Op>)
    ensures Stream(Run(c, s, ops)) == Stream(s) + AddedBytes(ops)
    ensures s.out <= Run(c, s, ops).out
    decreases |ops|
  {
    if ops != [] {
      StepExtends(c, s, ops[0]);
      StreamConserved(c, Step(c, s, ops[0]), ops[1..]);
    }
  }

  // ---------------------------------------------------------------- chunk sizes and the timer

  ghost predicate SizesFit(out: seq<Chunk>) {
    forall i :: 0 <= i < |out| ==> 1 <= |out[i].data| <= CHUNK_SIZE
  }

  /** What holds of a connection whenever its lock is free. */
  ghost predicate Resting<R>(s: Conn<R>) {
    && |s.cur| <= CHUNK_SIZE
    && SizesFit(s.out)
    && (s.timer > 0 <==> s.cur != [])
    && s.timer <= INACTIVITY_TICKS
  }

  /** The same while bytes are being fed: the timer may still be unset. */
  ghost predicate Feeding<R>(s: Conn<R>) {
    && |s.cur| <= CHUNK_SIZE
    && SizesFit(s.out)
    && (s.timer > 0 ==> s.cur != [])
    && s.timer <= INACTIVITY_TICKS
  }

  lemma {:induction false} FeedKeeps<R>(c: Cdc<R>, s: Conn<R>, bs: seq<byte>)
    requires Feeding(s)
    ensures Feeding(Feed(c, s, bs))
  {
    if bs != [] {
      FeedKeeps(c, s, bs[..|bs| - 1]);
    }
  }

  /** For any boundary function: chunks have 1 to CHUNK_SIZE bytes, and the timer runs
      exactly while bytes are waiting. */
  lemma {:induction false} RunRests<R>(c: Cdc<R>, s: Conn<R>, ops: seq<Op>)
    requires Resting(s)
    ensures Resting(Run(c, s, ops))
    decreases |ops|
  {
    if ops != [] {
      if ops[0].AddOp? || ops[0].DryOp? {
        FeedKeeps(c, s, ops[0].bytes);
      }
      RunRests(c, Step(c, s, ops[0]), ops[1..]);
    }
  }

  function CountOf(out: seq<Chunk>, kind: Kind): nat {
    if out == [] then 0 else CountOf(out[..|out| - 1], kind) + (if out[|out| - 1].kind == kind then 1 else 0)
  }

  /** The five counters count the bytes taken in and the chunks of each kind, modulo 2^32. */
  ghost predicate CountsRight<R>(s: Conn<R>) {
    && s.stats.bytes == |Stream(s)| % U32
    && s.stats.full == CountOf(s.out, Full) % U32
    && s.stats.partial == CountOf(s.out, Partial) % U32
    && s.stats.max == CountOf(s.out, MaxSized) % U32
    && s.stats.total == |s.out| % U32
  }

  lemma {:induction false} ProcessCounts<R>(c: Cdc<R>, s: Conn<R>, kind: Kind)
    requires CountsRight(s)
    ensures CountsRight(Process(c, s, kind))
  {
    if s.cur != [] {
      ProcessKeepsStream(c, s, kind);
      var x := Chunk(s.cur, kind);
      assert (s.out + [x])[..|s.out|] == s.out;
      IncMod(CountOf(s.out, kind));
      IncMod(|s.out|);
      hide Inc32;
      assert CountOf(s.out + [x], kind) == CountOf(s.out, kind) + 1;
    }
  }

  lemma {:induction false} FeedCounts<R>(c: Cdc<R>, s: Conn<R>, bs: seq<byte>)
    requires CountsRight(s)
    ensures CountsRight(Feed(c, s, bs))
  {
    if bs != [] {
      var f, b := Feed(c, s, bs[..|bs| - 1]), bs[|bs| - 1];
      FeedCounts(c, s, bs[..|bs| - 1]);
      ProcessCounts(c, f, MaxSized);
      PlacedCounts(c, Drained(c, f), b);
    }
  }

  lemma {:induction false} PlacedCounts<R>(c: Cdc<R>, s: Conn<R>, b: byte)
    requires CountsRight(s)
    ensures CountsRight(Placed(c, s, b))
  {
    var (rabin, found) := c.feed(s.rabin, b, |s.cur| + 1);
    var s' := s.(cur := s.cur + [b], rabin := rabin, stats := s.stats.(bytes := Inc32(s.stats.bytes)));
    assert Stream(s') == Stream(s) + [b];
    IncMod(|Stream(s)|);
    ProcessCounts(c, s', Full);
    ProcessCounts(c, s', MaxSized);
  }

  lemma {:induction false} RunCounts<R>(c: Cdc<R>, s: Conn<R>, ops: seq<Op>)
    requires CountsRight(s)
    ensures CountsRight(Run(c, s, ops))
    decreases |ops|
  {
    if ops != [] {
      match ops[0] {
        case AddOp(bs) => FeedCounts(c, s, bs);
        case DryOp(bs) =>
          FeedCounts(c, s, bs);
          ProcessCounts(c, Feed(c, s, bs), MaxSized);
        case TickOp => ProcessCounts(c, s.(timer := 0), Partial);
        case FlushOp => ProcessCounts(c, s, Partial);
      }
      RunCounts(c, Step(c, s, ops[0]), ops[1..]);
    }
  }

  // ---------------------------------------------------------------- packets may be cut anywhere

  lemma {:induction false} FeedConcat<R>(c: Cdc<R>, s: Conn<R>, a: seq<byte>, b: seq<byte>)
    ensures Feed(c, s, a + b) == Feed(c, Feed(c, s, a), b)
  {
    hide FeedByte;
    if b == [] {
      assert a + b == a;
    } else {
      FeedConcat(c, s, a, b[..|b| - 1]);
      assert (a + b)[..|a + b| - 1] == a + b[..|b| - 1];
    }
  }

  /** Feeding does not look at the timer, and clears it just when it emits a chunk. */
  lemma {:induction false} FeedAndTimer<R>(c: Cdc<R>, s: Conn<R>, t: nat, bs: seq<byte>)
    ensures var f := Feed(c, s, bs);
            && s.out <= f.out
            && f.timer == (if |f.out| > |s.out| then 0 else s.timer)
            && Feed(c, s.(timer := t), bs) == f.(timer := if |f.out| > |s.out| then 0 else t)
            && (|f.out| == |s.out| ==> s.cur <= f.cur)
  {
    if bs != [] {
      FeedAndTimer(c, s, t, bs[..|bs| - 1]);
      FeedByteAndTimer(c, Feed(c, s, bs[..|bs| - 1]), t, bs[|bs| - 1]);
      FeedByteAndTimer(c, Feed(c, s, bs[..|bs| - 1]), 0, bs[|bs| - 1]);
    }
  }

  lemma {:induction false} FeedByteAndTimer<R>(c: Cdc<R>, s: Conn<R>, t: nat, b: byte)
    ensures var f := FeedByte(c, s, b);
            && s.out <= f.out
            && f.timer == (if |f.out| > |s.out| then 0 else s.timer)
            && FeedByte(c, s.(timer := t), b) == f.(timer := if |f.out| > |s.out| then 0 else t)
            && (|f.out| == |s.out| ==> s.cur <= f.cur)
  {
  }

  /** Adding a and then b leaves the same buffer, timer, counters and chunks as adding a + b at once. */
  lemma {:induction false} SegmentationIndependent<R>(c: Cdc<R>, s: Conn<R>, a: seq<byte>, b: seq<byte>)
    ensures Add(c, Add(c, s, a), b) == Add(c, s, a + b)
  {
    FeedConcat(c, s, a, b);
    var f := Feed(c, s, a);
    FeedAndTimer(c, f, INACTIVITY_TICKS, b);
  }

  // ---------------------------------------------------------------- no byte waits for ever

  function Ticks(ops: seq<Op>): nat {
    if ops == [] then 0 else (if ops[0].TickOp? then 1 else 0) + Ticks(ops[1..])
  }

  lemma {:induction false} EmittedMonotone(a: seq<Chunk>, b: seq<Chunk>)
    requires a <= b
    ensures Emitted(a) <= Emitted(b)
  {
    if |a| < |b| {
      EmittedMonotone(a, b[..|b| - 1]);
    } else {
      assert a == b;
    }
  }

  /** A step that emits anything emits all that was waiting; one that does not keeps the clock running. */
  lemma {:induction false} StepTowardsEmission<R>(c: Cdc<R>, s: Conn<R>, op: Op)
    requires Resting(s) && s.cur != []
    ensures var s' := Step(c, s, op);
            if |s'.out| > |s.out| then Stream(s) <= Emitted(s'.out)
            else s'.out == s.out && s.cur <= s'.cur && s'.timer == s.timer - (if op.TickOp? then 1 else 0)
  {
    var s' := Step(c, s, op);
    match op
    case AddOp(bs) =>
      FeedAndTimer(c, s, 0, bs);
      var f := Feed(c, s, bs);
      if |f.out| > |s.out| {
        FirstEmission(c, s, bs);
      }
    case DryOp(bs) => DryTowardsEmission(c, s, bs);
    case TickOp => EmittedSnoc(s.out, Chunk(s.cur, Partial));
    case FlushOp => EmittedSnoc(s.out, Chunk(s.cur, Partial));
  }

  lemma {:induction false} DryTowardsEmission<R>(c: Cdc<R>, s: Conn<R>, bs: seq<byte>)
    requires Resting(s) && s.cur != []
    ensures var s' := RunDry(c, s, bs);
            if |s'.out| > |s.out| then Stream(s) <= Emitted(s'.out)
            else s'.out == s.out && s.cur <= s'.cur && s'.timer == s.timer
  {
    FeedAndTimer(c, s, 0, bs);
    FeedExtends(c, s, bs);
    var f := Feed(c, s, bs);
    if |f.cur| >= CHUNK_SIZE {
      EmittedSnoc(f.out, Chunk(f.cur, MaxSized));
    } else if |f.out| > |s.out| {
      FirstEmission(c, s, bs);
    }
    hide Feed, Emitted, SizesFit;
  }

  lemma {:induction false} FirstEmission<R>(c: Cdc<R>, s: Conn<R>, bs: seq<byte>)
    requires |Feed(c, s, bs).out| > |s.out|
    ensures Stream(s) <= Emitted(Feed(c, s, bs).out)
  {
    hide FeedByte;
    if bs != [] {
      hide Emitted;
      var init := bs[..|bs| - 1];
      var f, g := Feed(c, s, init), Feed(c, s, bs);
      FeedAndTimer(c, s, 0, init);
      FeedExtends(c, s, init);
      FeedByteExtends(c, f, bs[|bs| - 1]);
      if |f.out| > |s.out| {
        FirstEmission(c, s, init);
        EmittedMonotone(f.out, g.out);
      } else {
        FeedByteEmits(c, f, bs[|bs| - 1]);
      }
    }
  }

  lemma {:induction false} FeedByteEmits<R>(c: Cdc<R>, s: Conn<R>, b: byte)
    requires |FeedByte(c, s, b).out| > |s.out|
    ensures Stream(s) <= Emitted(FeedByte(c, s, b).out)
  {
    var d := Drained(c, s);
    var g := FeedByte(c, s, b);
    FeedByteExtends(c, s, b);
    ProcessKeepsStream(c, s, MaxSized);
    if |d.out| > |s.out| {
      assert d.cur == [];
      EmittedMonotone(d.out, g.out);
    } else {
      assert g.cur == [];
    }
  }

  /** Whatever data keeps arriving: once the remaining ticks have passed, every byte that was
      waiting has been emitted. A timer that runs shows at most INACTIVITY_TICKS. */
  lemma {:induction false} EmittedInTime<R>(c: Cdc<R>, s: Conn<R>, ops: seq<Op>)
    requires Resting(s) && s.cur != []
    requires Ticks(ops) >= s.timer
    ensures Stream(s) <= Emitted(Run(c, s, ops).out)
    decreases |ops|
  {
    var s' := Step(c, s, ops[0]);
    StepTowardsEmission(c, s, ops[0]);
    RunRests(c, s, [ops[0]]);
    assert Run(c, s, [ops[0]]) == s' by {
      assert [ops[0]][1..] == [];
    }
    if |s'.out| > |s.out| {
      StreamConserved(c, s', ops[1..]);
      EmittedMonotone(s'.out, Run(c, s', ops[1..]).out);
    } else {
      EmittedInTime(c, s', ops[1..]);
    }
  }

  // ---------------------------------------------------------------- why a chunk was emitted

  lemma {:induction false} FeedEmitsNoPartial<R>(c: Cdc<R>, s: Conn<R>, bs: seq<byte>)
    ensures s.out <= Feed(c, s, bs).out
    ensures forall i :: |s.out| <= i < |Feed(c, s, bs).out| ==> Feed(c, s, bs).out[i].kind != Partial
  {
    if bs != [] {
      FeedEmitsNoPartial(c, s, bs[..|bs| - 1]);
    }
  }

  /** Ticks and flushes emit partial chunks only, and data never does. */
  lemma {:induction false} KindsTellWhy<R>(c: Cdc<R>, s: Conn<R>, op: Op, i: nat)
    requires |s.out| <= i < |Step(c, s, op).out|
    ensures Step(c, s, op).out[i].kind == Partial <==> op.TickOp? || op.FlushOp?
  {
    if op.AddOp? || op.DryOp? {
      FeedEmitsNoPartial(c, s, op.bytes);
    }
  }
}
