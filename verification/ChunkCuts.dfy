/** Where the stream is cut, told by the detector's answers, and when the timer cuts it. */
module ChunkCuts {
  import opened Bytes
  import opened Chunker

  // ---------------------------------------------------------------- replaying the detector

  /** The detector's state after the first n bytes of a chunk, begun in state r; it is told each byte's number. */
  function StateAt<R>(c: Cdc<R>, r: R, data: seq<byte>, n: nat): R
    requires n <= |data|
  {
    if n == 0 then r else c.feed(StateAt(c, r, data, n - 1), data[n - 1], n).0
  }

  /** Its answer to byte i. */
  function Answer<R>(c: Cdc<R>, r: R, data: seq<byte>, i: nat): Boundary
    requires i < |data|
  {
    c.feed(StateAt(c, r, data, i), data[i], i + 1).1
  }

  /** Its state at the beginning of chunk k: reset from the state in which the chunk before ended. */
  function StartOf<R>(c: Cdc<R>, init: R, out: seq<Chunk>, k: nat): R
    requires k <= |out|
  {
    if k == 0 then init
    else c.reset(StateAt(c, StartOf(c, init, out, k - 1), out[k - 1].data, |out[k - 1].data|))
  }

  /** It answers Continue to the first n bytes. */
  ghost predicate Continues<R>(c: Cdc<R>, r: R, data: seq<byte>, n: nat)
    requires n <= |data|
  {
    forall i :: 0 <= i < n ==> Answer(c, r, data, i) == Continue
  }

  /** A chunk that ends where it should: at the detector's first other answer than Continue, or there was none and the
      buffer was full, or the chunk was cut off by a tick or a flush. */
  ghost predicate CutWell<R>(c: Cdc<R>, r: R, chunk: Chunk) {
    var n := |chunk.data|;
    && 0 < n <= CHUNK_SIZE
    && Continues(c, r, chunk.data, n - 1)
    && var last := Answer(c, r, chunk.data, n - 1);
       match chunk.kind
       case Full => last == Found || last == FoundStrong
       case MaxSized => last == FoundMax || (last == Continue && n == CHUNK_SIZE)
       case Partial => last == Continue
  }

  ghost predicate AllCutWell<R>(c: Cdc<R>, init: R, out: seq<Chunk>) {
    forall k :: 0 <= k < |out| ==> CutWell(c, StartOf(c, init, out, k), out[k])
  }

  /** The bytes that wait were all answered with Continue. */
  ghost predicate WaitsRightly<R>(c: Cdc<R>, init: R, s: Conn<R>) {
    var r := StartOf(c, init, s.out, |s.out|);
    s.rabin == StateAt(c, r, s.cur, |s.cur|) && Continues(c, r, s.cur, |s.cur|)
  }

  ghost predicate Cut<R>(c: Cdc<R>, init: R, s: Conn<R>) {
    |s.cur| <= CHUNK_SIZE && AllCutWell(c, init, s.out) && WaitsRightly(c, init, s)
  }

  lemma {:induction false} StartOfPrefix<R>(c: Cdc<R>, init: R, a: seq<Chunk>, b: seq<Chunk>, k: nat)
    requires k <= |a| && a <= b
    ensures StartOf(c, init, b, k) == StartOf(c, init, a, k)
  {
    if k > 0 {
      StartOfPrefix(c, init, a, b, k - 1);
    }
  }

  lemma {:induction false} StateOfPrefix<R>(c: Cdc<R>, r: R, a: seq<byte>, b: seq<byte>, n: nat)
    requires n <= |a| && a <= b
    ensures StateAt(c, r, b, n) == StateAt(c, r, a, n)
    ensures n < |a| ==> Answer(c, r, b, n) == Answer(c, r, a, n)
  {
    if n > 0 {
      StateOfPrefix(c, r, a, b, n - 1);
    }
  }

  lemma {:induction false} ContinuesOnPrefix<R>(c: Cdc<R>, r: R, a: seq<byte>, b: seq<byte>)
    requires a <= b && Continues(c, r, a, |a|)
    ensures Continues(c, r, b, |a|)
  {
    forall i | 0 <= i < |a| ensures Answer(c, r, b, i) == Continue {
      StateOfPrefix(c, r, a, b, i);
    }
  }

  lemma {:induction false} OneMoreCutWell<R>(c: Cdc<R>, init: R, out: seq<Chunk>, chunk: Chunk)
    requires AllCutWell(c, init, out) && CutWell(c, StartOf(c, init, out, |out|), chunk)
    ensures AllCutWell(c, init, out + [chunk])
  {
    hide CutWell, StartOf, StateAt;
    var out' := out + [chunk];
    forall k | 0 <= k < |out'| ensures CutWell(c, StartOf(c, init, out', k), out'[k]) {
      StartOfPrefix(c, init, out, out', k);
      assert k < |out| ==> out'[k] == out[k] && CutWell(c, StartOf(c, init, out, k), out[k]);
    }
  }

  lemma {:induction false} StartOfNext<R>(c: Cdc<R>, init: R, out: seq<Chunk>, chunk: Chunk)
    ensures StartOf(c, init, out + [chunk], |out| + 1)
            == c.reset(StateAt(c, StartOf(c, init, out, |out|), chunk.data, |chunk.data|))
  {
    hide StateAt;
    StartOfPrefix(c, init, out, out + [chunk], |out|);
  }

  lemma {:induction false} NothingWaits<R>(c: Cdc<R>, init: R, s: Conn<R>)
    requires s.cur == [] && s.rabin == StartOf(c, init, s.out, |s.out|)
    ensures WaitsRightly(c, init, s)
  {
    hide StartOf, Answer;
  }

  /** Emitting what waits, when that is well cut, leaves a fresh detector. */
  lemma {:induction false} ProcessCuts<R>(c: Cdc<R>, init: R, s: Conn<R>, kind: Kind)
    requires AllCutWell(c, init, s.out) && s.cur != []
    requires var r := StartOf(c, init, s.out, |s.out|);
             CutWell(c, r, Chunk(s.cur, kind)) && s.rabin == StateAt(c, r, s.cur, |s.cur|)
    ensures Cut(c, init, Process(c, s, kind))
  {
    hide CutWell, StartOf, StateAt, AllCutWell, WaitsRightly, Counted;
    var chunk := Chunk(s.cur, kind);
    OneMoreCutWell(c, init, s.out, chunk);
    StartOfNext(c, init, s.out, chunk);
    NothingWaits(c, init, Process(c, s, kind));
  }

  /** A waiting buffer may be cut off, as a full one when it is full. */
  lemma {:induction false} CutOff<R>(c: Cdc<R>, init: R, s: Conn<R>, kind: Kind)
    requires Cut(c, init, s) && (kind == Partial || (kind == MaxSized && |s.cur| == CHUNK_SIZE))
    ensures Cut(c, init, Process(c, s, kind))
  {
    if s.cur != [] {
      ProcessCuts(c, init, s, kind);
    }
  }

  /** One more byte of the chunk: the replay goes on with the detector's answer to it. */
  lemma {:induction false} OneMoreByte<R>(c: Cdc<R>, r: R, cur: seq<byte>, b: byte)
    requires Continues(c, r, cur, |cur|)
    ensures var next := cur + [b];
            Continues(c, r, next, |cur|)
            && (StateAt(c, r, next, |next|), Answer(c, r, next, |cur|)) == c.feed(StateAt(c, r, cur, |cur|), b, |next|)
  {
    hide Continues;
    StateOfPrefix(c, r, cur, cur + [b], |cur|);
    ContinuesOnPrefix(c, r, cur, cur + [b]);
  }

  lemma {:induction false} AllContinue<R>(c: Cdc<R>, r: R, data: seq<byte>)
    requires data != [] && Continues(c, r, data, |data| - 1) && Answer(c, r, data, |data| - 1) == Continue
    ensures Continues(c, r, data, |data|)
  {
    hide Answer;
  }

  lemma {:induction false} PlacedCuts<R>(c: Cdc<R>, init: R, s: Conn<R>, b: byte)
    requires Cut(c, init, s) && |s.cur| < CHUNK_SIZE
    ensures Cut(c, init, Placed(c, s, b))
  {
    hide Process, Inc32, StateAt, StartOf, Answer, Continues, AllCutWell;
    var r, n := StartOf(c, init, s.out, |s.out|), |s.cur|;
    var (rabin, found) := c.feed(s.rabin, b, n + 1);
    var p := s.(cur := s.cur + [b], rabin := rabin, stats := s.stats.(bytes := Inc32(s.stats.bytes)));
    OneMoreByte(c, r, s.cur, b);
    match found
    case Found => ProcessCuts(c, init, p, Full);
    case FoundStrong => ProcessCuts(c, init, p, Full);
    case FoundMax => ProcessCuts(c, init, p, MaxSized);
    case Continue => AllContinue(c, r, p.cur);
  }

  lemma {:induction false} FeedCuts<R>(c: Cdc<R>, init: R, s: Conn<R>, bs: seq<byte>)
    requires Cut(c, init, s)
    ensures Cut(c, init, Feed(c, s, bs))
  {
    hide Cut, Placed;
    if bs != [] {
      var f := Feed(c, s, bs[..|bs| - 1]);
      FeedCuts(c, init, s, bs[..|bs| - 1]);
      DrainedCuts(c, init, f);
      PlacedCuts(c, init, Drained(c, f), bs[|bs| - 1]);
      hide Drained;
    }
  }

  lemma {:induction false} DrainedCuts<R>(c: Cdc<R>, init: R, s: Conn<R>)
    requires Cut(c, init, s)
    ensures Cut(c, init, Drained(c, s)) && |Drained(c, s).cur| < CHUNK_SIZE
  {
    if |s.cur| >= CHUNK_SIZE {
      CutOff(c, init, s, MaxSized);
    }
    hide AllCutWell, WaitsRightly;
  }

  /** The timer has no part in it. */
  lemma {:induction false} TimerCutsNothing<R>(c: Cdc<R>, init: R, s: Conn<R>, t: nat)
    requires Cut(c, init, s)
    ensures Cut(c, init, s.(timer := t))
  {
  }

  lemma {:induction false} StepCuts<R>(c: Cdc<R>, init: R, s: Conn<R>, op: Op)
    requires Cut(c, init, s)
    ensures Cut(c, init, Step(c, s, op))
  {
    hide Cut, Feed, Process;
    match op
    case AddOp(bs) =>
      FeedCuts(c, init, s, bs);
      TimerCutsNothing(c, init, Feed(c, s, bs), INACTIVITY_TICKS);
    case DryOp(bs) =>
      FeedCuts(c, init, s, bs);
      DrainedCuts(c, init, Feed(c, s, bs));
      TimerCutsNothing(c, init, Drained(c, Feed(c, s, bs)), INACTIVITY_TICKS);
    case TickOp =>
      if s.timer > 0 {
        TimerCutsNothing(c, init, s, s.timer - 1);
        CutOff(c, init, s.(timer := s.timer - 1), Partial);
      }
    case FlushOp => CutOff(c, init, s, Partial);
  }

  /** Where the cuts are, in every run from an empty buffer: each chunk ends at the detector's first other answer than
      Continue - Full at a boundary, MaxSized at its maximum -, or after CHUNK_SIZE bytes, or was cut off by a tick or a
      flush; the detector is reset before each chunk and counts its bytes from 1; and nothing waits behind a cut. */
  lemma {:induction false} CutsAreContentDefined<R>(c: Cdc<R>, s: Conn<R>, ops: seq<Op>)
    requires s.cur == [] && s.out == []
    ensures Cut(c, s.rabin, Run(c, s, ops))
  {
    assert Cut(c, s.rabin, s);
    RunCuts(c, s.rabin, s, ops);
    hide Cut, Run;
  }

  lemma {:induction false} RunCuts<R>(c: Cdc<R>, init: R, s: Conn<R>, ops: seq<Op>)
    requires Cut(c, init, s)
    ensures Cut(c, init, Run(c, s, ops))
    decreases |ops|
  {
    hide Cut, Step;
    if ops != [] {
      StepCuts(c, init, s, ops[0]);
      RunCuts(c, init, Step(c, s, ops[0]), ops[1..]);
    }
  }

  // ---------------------------------------------------------------- when the timer cuts

  function Quiet(n: nat): (ops: seq<Op>)
    ensures |ops| == n
  {
    seq(n, _ => TickOp)
  }

  /** Ticks alone: nothing is emitted before the timer has run down, and then everything that waits, as a
      partial chunk. */
  lemma {:induction false} TicksAlone<R>(c: Cdc<R>, s: Conn<R>, n: nat)
    requires Resting(s) && s.cur != []
    ensures n < s.timer ==> Run(c, s, Quiet(n)) == s.(timer := s.timer - n)
    ensures n >= s.timer ==> Run(c, s, Quiet(n)).out == s.out + [Chunk(s.cur, Partial)] && Run(c, s, Quiet(n)).cur == []
    decreases n
  {
    hide SizesFit, Counted;
    if n > 0 {
      assert Quiet(n)[1..] == Quiet(n - 1);
      var s' := Tick(c, s);
      if s.timer > 1 {
        TicksAlone(c, s', n - 1);
      } else {
        IdleTicks(c, s', n - 1);
      }
    }
  }

  lemma {:induction false} IdleTicks<R>(c: Cdc<R>, s: Conn<R>, n: nat)
    requires s.timer == 0
    ensures Run(c, s, Quiet(n)) == s
  {
    if n > 0 {
      assert Quiet(n)[1..] == Quiet(n - 1);
      IdleTicks(c, s, n - 1);
    }
  }

  /** What data leaves waiting gets the full time when nothing waited before or a chunk was emitted; otherwise the clock
      goes on where it was. */
  lemma {:induction false} ArmedAnew<R>(c: Cdc<R>, s: Conn<R>, bs: seq<byte>)
    requires Resting(s)
    ensures var s' := Add(c, s, bs);
            s'.cur != [] ==>
              s'.timer == if s.cur == [] || |s'.out| > |s.out| then INACTIVITY_TICKS else s.timer
  {
    FeedAndTimer(c, s, 0, bs);
    hide Feed, SizesFit;
  }

  /** A flush emits everything that waits and leaves the rest as it is. */
  lemma {:induction false} FlushEmits<R>(c: Cdc<R>, s: Conn<R>)
    ensures var s' := Step(c, s, FlushOp);
            s'.cur == [] && s'.out == if s.cur == [] then s.out else s.out + [Chunk(s.cur, Partial)]
  {
    hide Counted;
  }
}
