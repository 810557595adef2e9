/** The control machine of the AES core, clock edge by clock edge, over an abstract round. */
module AesCore {
  import Cbc

  /** A 128-bit register. */
  type Word = w: nat | w < 0x1_0000_0000_0000_0000_0000_0000_0000_0000

  function AddRoundKey(s: Word, k: Word): Word {
    assert Cbc.XorBits(s, k, 128) < 0x1_0000_0000_0000_0000_0000_0000_0000_0000 by { Cbc.Bits128(); }
    Cbc.XorBits(s, k, 128)
  }

  /** One round of FIPS 197: state, round key, and whether MixColumns is left out. */
  type Round = (Word, Word, bool) -> Word

  type RoundKeys = k: seq<Word> | |k| == 11 witness [0, 0, 0, 0, 0, 0, 0, 0, 0, 0, 0]

  datatype St = Idle | Latch | Keygen | Ark | Setup | Capture | Done

  datatype Regs = Regs(st: St, done: bool, keStart: bool, keBusy: bool, roundNum: nat, cur: Word, key: Word, pt: Word,
                       out: Word, roundIn: Word, roundKey: Word, roundLast: bool)

  /** What is on the wires at one edge; `rst` is the active reset and `rk` are the round keys the expansion drives. */
  datatype In = In(rst: bool, start: bool, key: Word, pt: Word, keDone: bool, rk: RoundKeys)

  const RESET: Regs := Regs(Idle, false, false, false, 0, 0, 0, 0, 0, 0, 0, false)

  function KeyFor(i: In, n: nat): Word {
    if n <= 10 then i.rk[n] else 0
  }

  /** One rising edge: all registers change at once. */
  function Edge(round: Round, r: Regs, i: In): Regs {
    if i.rst then RESET else
    var r' := r.(keStart := false);
    match r.st
    case Idle =>
      var q := r'.(done := false, keBusy := false);
      if i.start then q.(key := i.key, pt := i.pt, st := Latch) else q
    case Latch => r'.(keStart := true, keBusy := true, st := Keygen)
    case Keygen =>
      if r.keBusy && i.keDone then r'.(keBusy := false, cur := AddRoundKey(r.pt, i.rk[0]), st := Ark) else r'
    case Ark => r'.(roundIn := r.cur, roundKey := i.rk[1], roundLast := false, roundNum := 1, st := Capture)
    case Setup => r'.(roundIn := r.cur, roundKey := KeyFor(i, r.roundNum), roundLast := r.roundNum == 10, st := Capture)
    case Capture =>
      var q := r'.(cur := round(r.roundIn, r.roundKey, r.roundLast));
      if r.roundNum == 10 then q.(st := Done) else q.(roundNum := (r.roundNum + 1) % 16, st := Setup)
    case Done => r'.(out := r.cur, done := true, st := Idle)
  }

  /** The registers after n edges. */
  function Run(round: Round, ins: seq<In>, n: nat): Regs
    requires n <= |ins|
  {
    if n == 0 then RESET else Edge(round, Run(round, ins, n - 1), ins[n - 1])
  }

  /** The first n rounds of the cipher of FIPS 197 section 5.1 on a state to which round key 0 was added. */
  function Rounds(round: Round, k: RoundKeys, s: Word, n: nat): Word
    requires n <= 10
  {
    if n == 0 then s else round(Rounds(round, k, s, n - 1), k[n], n == 10)
  }

  function Cipher(round: Round, k: RoundKeys, pt: Word): Word {
    Rounds(round, k, AddRoundKey(pt, k[0]), 10)
  }

  // ---------------------------------------------------------------- what holds in every run

  predicate Inv(r: Regs) {
    && (r.done ==> r.st == Idle)
    && (r.keBusy <==> r.st == Keygen)
    && (r.st.Setup? ==> 2 <= r.roundNum <= 10)
    && (r.st.Capture? ==> 1 <= r.roundNum <= 10 && (r.roundLast <==> r.roundNum == 10))
  }

  lemma {:induction false} EdgeKeepsInv(round: Round, r: Regs, i: In)
    requires Inv(r)
    ensures Inv(Edge(round, r, i))
  {
  }

  /** The last-round flag is up exactly when round 10 is captured; the busy flag never keeps a ke_done out. */
  lemma {:induction false} RunKeepsInv(round: Round, ins: seq<In>, n: nat)
    requires n <= |ins|
    ensures Inv(Run(round, ins, n))
  {
    hide Edge, Inv;
    if n == 0 {
      ResetHasInv();
    } else {
      RunKeepsInv(round, ins, n - 1);
      EdgeKeepsInv(round, Run(round, ins, n - 1), ins[n - 1]);
    }
  }

  lemma {:induction false} ResetHasInv()
    ensures Inv(RESET)
  {
  }

  function Accepted(round: Round, ins: seq<In>, n: nat): nat
    requires n <= |ins|
  {
    if n == 0 then 0
    else Accepted(round, ins, n - 1) + if Run(round, ins, n - 1).st == Idle && ins[n - 1].start && !ins[n - 1].rst
      then 1 else 0
  }

  /** Encryptions a reset broke off. */
  function BrokenOff(round: Round, ins: seq<In>, n: nat): nat
    requires n <= |ins|
  {
    if n == 0 then 0
    else BrokenOff(round, ins, n - 1) + if Run(round, ins, n - 1).st != Idle && ins[n - 1].rst then 1 else 0
  }

  function Pulses(round: Round, ins: seq<In>, n: nat): nat
    requires n <= |ins|
  {
    if n == 0 then 0 else Pulses(round, ins, n - 1) + if Run(round, ins, n).done then 1 else 0
  }

  lemma {:induction false} EdgeCounts(round: Round, r: Regs, i: In)
    requires Inv(r)
    ensures var r' := Edge(round, r, i);
            (if r.st == Idle && i.start && !i.rst then 1 else 0) + (if r.st == Idle then 0 else 1)
              == (if r'.done then 1 else 0) + (if r.st != Idle && i.rst then 1 else 0)
                + (if r'.st == Idle then 0 else 1)
  {
  }

  /** In every run, resets at any edge included, there are as many cycles with done up as starts were accepted, but for
      the encryptions a reset broke off and the one still at work. */
  lemma {:induction false} OnePulsePerStart(round: Round, ins: seq<In>, n: nat)
    requires n <= |ins|
    ensures Accepted(round, ins, n)
         == Pulses(round, ins, n) + BrokenOff(round, ins, n) + if Run(round, ins, n).st == Idle then 0 else 1
  {
    hide Edge, Inv;
    if n > 0 {
      OnePulsePerStart(round, ins, n - 1);
      RunKeepsInv(round, ins, n - 1);
      var r := Run(round, ins, n - 1);
      EdgeCounts(round, r, ins[n - 1]);
      assert Run(round, ins, n) == Edge(round, r, ins[n - 1]);
      hide Run;
    }
  }

  /** A start while the core is busy, with whatever key and plaintext, changes nothing. */
  lemma {:induction false} BusyIgnoresStart(round: Round, r: Regs, i: In, start: bool, key: Word, pt: Word)
    requires r.st != Idle
    ensures Edge(round, r, i.(start := start, key := key, pt := pt)) == Edge(round, r, i)
  {
  }

  // ---------------------------------------------------------------- one encryption

  /** At edge t a start is accepted, d is the first edge from t + 2 on with ke_done up, and no reset comes in between
      or in the 22 edges after d. */
  ghost predicate Encryption(round: Round, ins: seq<In>, t: nat, d: nat) {
    && t + 2 <= d && d + 23 <= |ins|
    && Run(round, ins, t).st == Idle && ins[t].start
    && ins[d].keDone
    && (forall n :: t + 2 <= n < d ==> !ins[n].keDone)
    && (forall n :: t <= n < d + 23 ==> !ins[n].rst)
  }

  /** Until ke_done the core waits with key and plaintext latched. */
  lemma {:induction false} Waits(round: Round, ins: seq<In>, t: nat, d: nat, n: nat)
    requires Encryption(round, ins, t, d) && t < n <= d
    ensures var r := Run(round, ins, n);
            && r.key == ins[t].key && r.pt == ins[t].pt && !r.done
            && r.st == (if n == t + 1 then Latch else Keygen) && (n > t + 1 ==> r.keBusy)
            && (r.keStart <==> n == t + 2)
  {
    hide Edge;
    StartEdge(round, Run(round, ins, t), ins[t]);
    if n > t + 1 {
      Waits(round, ins, t, d, n - 1);
      WaitEdge(round, Run(round, ins, n - 1), ins[n - 1]);
    }
  }

  lemma {:induction false} StartEdge(round: Round, r: Regs, i: In)
    requires r.st == Idle && i.start && !i.rst
    ensures var r' := Edge(round, r, i); r'.key == i.key && r'.pt == i.pt && !r'.done && r'.st == Latch && !r'.keStart
  {
  }

  lemma {:induction false} WaitEdge(round: Round, r: Regs, i: In)
    requires (r.st == Latch || (r.st == Keygen && r.keBusy && !i.keDone)) && !r.done && !i.rst
    ensures var r' := Edge(round, r, i);
            && r'.key == r.key && r'.pt == r.pt && !r'.done && r'.st == Keygen && r'.keBusy
            && (r'.keStart <==> r.st == Latch)
  {
  }

  /** Round key j is sampled at edge d for j = 0 and at edge d + 2j - 1 otherwise. */
  function KeyAt(ins: seq<In>, d: nat, j: nat): Word
    requires j <= 10 && d + 23 <= |ins|
  {
    if j == 0 then ins[d].rk[0] else ins[d + 2 * j - 1].rk[j]
  }

  function Sampled(ins: seq<In>, d: nat): (k: RoundKeys)
    requires d + 23 <= |ins|
    ensures forall j :: 0 <= j <= 10 ==> k[j] == KeyAt(ins, d, j)
  {
    seq(11, j requires 0 <= j < 11 => KeyAt(ins, d, j))
  }

  /** Registers before and after round j is captured. */
  ghost predicate Loaded(round: Round, ins: seq<In>, k: RoundKeys, s: Word, r: Regs, j: nat)
    requires 1 <= j <= 10
  {
    r.st == Capture && r.roundNum == j && r.roundIn == Rounds(round, k, s, j - 1) && r.roundKey == k[j]
      && (r.roundLast <==> j == 10) && !r.done
  }

  ghost predicate Captured(round: Round, ins: seq<In>, k: RoundKeys, s: Word, r: Regs, j: nat)
    requires j <= 10
  {
    && r.cur == Rounds(round, k, s, j) && !r.done
    && (if j == 0 then r.st == Ark else if j == 10 then r.st == Done else r.st == Setup && r.roundNum == j + 1)
  }

  lemma {:induction false} Loads(round: Round, ins: seq<In>, k: RoundKeys, s: Word, r: Regs, i: In, j: nat)
    requires 1 <= j <= 10 && Captured(round, ins, k, s, r, j - 1) && i.rk[j] == k[j] && !i.rst
    ensures Loaded(round, ins, k, s, Edge(round, r, i), j)
  {
    hide Rounds;
  }

  lemma {:induction false} Captures(round: Round, ins: seq<In>, k: RoundKeys, s: Word, r: Regs, i: In, j: nat)
    requires 1 <= j <= 10 && Loaded(round, ins, k, s, r, j) && !i.rst
    ensures Captured(round, ins, k, s, Edge(round, r, i), j)
  {
  }

  lemma {:induction false} SampledAt(ins: seq<In>, d: nat, j: nat)
    requires 1 <= j <= 10 && d + 23 <= |ins|
    ensures ins[d + 2 * j - 1].rk[j] == Sampled(ins, d)[j]
  {
  }

  lemma {:induction false} KeysArrive(round: Round, ins: seq<In>, t: nat, d: nat)
    requires Encryption(round, ins, t, d)
    ensures var k := Sampled(ins, d);
            Captured(round, ins, k, AddRoundKey(ins[t].pt, k[0]), Run(round, ins, d + 1), 0)
  {
    Waits(round, ins, t, d, d);
    hide AddRoundKey;
    assert Sampled(ins, d)[0] == KeyAt(ins, d, 0);
  }

  /** Round j is captured by edge d + 2j. */
  lemma {:induction false} ReachesRound(round: Round, ins: seq<In>, t: nat, d: nat, j: nat)
    requires Encryption(round, ins, t, d) && j <= 10
    ensures var k := Sampled(ins, d);
            var s := AddRoundKey(ins[t].pt, k[0]);
            && Captured(round, ins, k, s, Run(round, ins, d + 2 * j + 1), j)
            && (j > 0 ==> Loaded(round, ins, k, s, Run(round, ins, d + 2 * j), j))
  {
    hide Captured, Loaded, Edge, Rounds, AddRoundKey, Sampled, KeyAt;
    var k := Sampled(ins, d);
    var s := AddRoundKey(ins[t].pt, k[0]);
    if j == 0 {
      KeysArrive(round, ins, t, d);
    } else {
      ReachesRound(round, ins, t, d, j - 1);
      var a := d + 2 * j - 1;
      SampledAt(ins, d, j);
      Loads(round, ins, k, s, Run(round, ins, a), ins[a], j);
      Captures(round, ins, k, s, Run(round, ins, a + 1), ins[a + 1], j);
    }
  }

  lemma {:induction false} Finishes(round: Round, r: Regs, i: In, i': In)
    requires r.st == Done && !i.rst && !i'.rst
    ensures var r' := Edge(round, r, i); r'.done && r'.st == Idle && r'.out == r.cur && !Edge(round, r', i').done
  {
  }

  /** The 21st edge after the one that accepts ke_done raises done for one cycle, with the ciphertext under the
      round keys as they were sampled; before, done is down. */
  lemma {:induction false} DonePulse(round: Round, ins: seq<In>, t: nat, d: nat)
    requires Encryption(round, ins, t, d)
    ensures var r := Run(round, ins, d + 22);
            && r.done && r.st == Idle && r.out == Cipher(round, Sampled(ins, d), ins[t].pt)
            && !Run(round, ins, d + 23).done
    ensures forall n :: t < n < d + 22 ==> !Run(round, ins, n).done
  {
    hide Rounds, AddRoundKey, Loaded, Sampled, Edge;
    ReachesRound(round, ins, t, d, 10);
    Finishes(round, Run(round, ins, d + 21), ins[d + 21], ins[d + 22]);
    forall n | t < n < d + 22 ensures !Run(round, ins, n).done {
      DownBefore(round, ins, t, d, n);
    }
  }

  lemma {:induction false} DownBefore(round: Round, ins: seq<In>, t: nat, d: nat, n: nat)
    requires Encryption(round, ins, t, d) && t < n < d + 22
    ensures !Run(round, ins, n).done
  {
    hide Run, Encryption, Rounds, AddRoundKey;
    if n <= d {
      Waits(round, ins, t, d, n);
    } else {
      var j := (n - d) / 2;
      ReachesRound(round, ins, t, d, j);
      assert n == d + 2 * j || n == d + 2 * j + 1;
    }
  }

  // ---------------------------------------------------------------- under which keys

  /** With the same round keys on the wires from ke_done on, the core computes the cipher under these keys,
      whether they belong to the latched key or not. */
  lemma {:induction false} CoreComputesCipher(round: Round, ins: seq<In>, t: nat, d: nat, k: RoundKeys)
    requires Encryption(round, ins, t, d)
    requires forall n :: d <= n < d + 20 ==> ins[n].rk == k
    ensures Run(round, ins, d + 22).done && Run(round, ins, d + 22).out == Cipher(round, k, ins[t].pt)
  {
    DonePulse(round, ins, t, d);
    hide Run, Cipher, Encryption;
    forall j: nat | j <= 10 ensures KeyAt(ins, d, j) == k[j] {
      assert ins[d].rk == k;
      if j > 0 {
        assert ins[d + 2 * j - 1].rk == k;
      }
    }
    assert Sampled(ins, d) == k;
  }

  /** A start is accepted at edge t and no reset comes before edge t + 3. */
  predicate StartsAt(round: Round, ins: seq<In>, t: nat) {
    && t + 3 <= |ins|
    && Run(round, ins, t).st == Idle && ins[t].start
    && !ins[t].rst && !ins[t + 1].rst && !ins[t + 2].rst
  }

  /** ke_done is taken at the second edge after the start exactly when it is up there; the busy flag does not help. */
  lemma {:induction false} DoneTakenAtOnce(round: Round, ins: seq<In>, t: nat)
    requires StartsAt(round, ins, t)
    ensures Run(round, ins, t + 2).keBusy
    ensures Run(round, ins, t + 3).st == if ins[t + 2].keDone then Ark else Keygen
  {
    assert Run(round, ins, t + 1).st == Latch;
    assert Run(round, ins, t + 2).st == Keygen && Run(round, ins, t + 2).keBusy;
  }

  /** ke_done still up from the expansion before, with that one's keys on the wires: the core encrypts under them. */
  lemma {:induction false} StaleKeysUsed(round: Round, ins: seq<In>, t: nat, stale: RoundKeys)
    requires StartsAt(round, ins, t) && t + 25 <= |ins| && ins[t + 2].keDone
    requires forall n :: t + 2 <= n < t + 22 ==> ins[n].rk == stale
    requires forall n :: t <= n < t + 25 ==> !ins[n].rst
    ensures Run(round, ins, t + 24).done && Run(round, ins, t + 24).out == Cipher(round, stale, ins[t].pt)
  {
    hide Run, Cipher;
    CoreComputesCipher(round, ins, t, t + 2, stale);
  }

  /** Two encryptions in a row, the second started as soon as the first is done. The expansion module keeps ke_done up
      and the first key's round keys on the wires. */
  function TwoStarts(key: Word, pt: Word, key': Word, pt': Word, expanded: RoundKeys): (ins: seq<In>)
    ensures |ins| == 49
  {
    seq(49, i => if i < 24 then In(false, true, key, pt, true, expanded)
        else In(false, true, key', pt', true, expanded))
  }

  /** For any two keys with different expansions and any plaintexts: the first ciphertext is that of the first key, and
      for some round function the second is not that of the second key. */
  lemma {:induction false} StaleKeysWrong(
    key: Word, pt: Word, expanded: RoundKeys, key': Word, pt': Word, expanded': RoundKeys)
    returns (round: Round, ins: seq<In>)
    requires expanded != expanded'
    ensures ins == TwoStarts(key, pt, key', pt', expanded)
    ensures StartsAt(round, ins, 0) && ins[0].key == key && ins[0].pt == pt
    ensures Run(round, ins, 24).done && Run(round, ins, 24).out == Cipher(round, expanded, pt)
    ensures StartsAt(round, ins, 24) && ins[24].key == key' && ins[24].pt == pt'
    ensures Run(round, ins, 48).done && Run(round, ins, 48).out == Cipher(round, expanded, pt')
    ensures Cipher(round, expanded, pt') != Cipher(round, expanded', pt')
  {
    hide Cipher, Run;
    round := Distinguishes(expanded, expanded', pt');
    ins := TwoStarts(key, pt, key', pt', expanded);
    BeginsIdle(round, ins);
    UsedAt(round, ins, 0, expanded);
    RunKeepsInv(round, ins, 24);
    UsedAt(round, ins, 24, expanded);
  }

  lemma {:induction false} BeginsIdle(round: Round, ins: seq<In>)
    ensures Run(round, ins, 0).st == Idle
  {
  }

  lemma {:induction false} UsedAt(round: Round, ins: seq<In>, t: nat, expanded: RoundKeys)
    requires t + 25 <= |ins| && Run(round, ins, t).st == Idle
    requires forall n :: t <= n < t + 25 ==> ins[n].start && ins[n].keDone && !ins[n].rst && ins[n].rk == expanded
    ensures StartsAt(round, ins, t)
    ensures Run(round, ins, t + 24).done && Run(round, ins, t + 24).out == Cipher(round, expanded, ins[t].pt)
  {
    hide Cipher, Run;
    StaleKeysUsed(round, ins, t, expanded);
  }

  /** What is enough: ke_done is down at the second edge after the start, and goes up only with the latched key's
      round keys on the wires, which then stay. */
  lemma {:induction false} OwnKeysSuffice(round: Round, ins: seq<In>, t: nat, d: nat, own: RoundKeys)
    requires Encryption(round, ins, t, d) && !ins[t + 2].keDone
    requires forall n, m :: t + 2 < n <= m < n + 20 && m < |ins| && ins[n].keDone ==> ins[m].rk == own
    ensures Run(round, ins, d + 22).done && Run(round, ins, d + 22).out == Cipher(round, own, ins[t].pt)
  {
    forall m | d <= m < d + 20 ensures ins[m].rk == own {
      assert ins[d].keDone;
    }
    CoreComputesCipher(round, ins, t, d, own);
  }

  // ---------------------------------------------------------------- telling round keys apart

  function Base(s: Word): Word {
    if s >= 100 then 0 else 100
  }

  /** The state after n rounds on the track of the keys a. */
  function OnTrack(s: Word, n: nat): Word
    requires n <= 10
  {
    if n == 0 then s else Base(s) + n
  }

  function OffTrack(s: Word): Word {
    Base(s) + 50
  }

  /** A round that walks along a track as long as it is given the keys a in order, and leaves it for good otherwise. */
  function Walk(a: RoundKeys, s0: Word, s: Word, k: Word): Word {
    var i := if s == s0 then 0 else if Base(s0) < s <= Base(s0) + 9 then s - Base(s0) else 10;
    if i < 10 && k == a[i + 1] then Base(s0) + i + 1 else OffTrack(s0)
  }

  function Tracking(a: RoundKeys, s0: Word): Round {
    (s, k, last) => Walk(a, s0, s, k)
  }

  lemma {:induction false} WalkStays(a: RoundKeys, s0: Word, n: nat, k: Word)
    requires n < 10
    ensures Walk(a, s0, OnTrack(s0, n), k) == if k == a[n + 1] then OnTrack(s0, n + 1) else OffTrack(s0)
    ensures Walk(a, s0, OffTrack(s0), k) == OffTrack(s0)
  {
  }

  lemma {:induction false} WalksToEnd(a: RoundKeys, s0: Word, n: nat)
    requires n <= 10
    ensures Rounds(Tracking(a, s0), a, s0, n) == OnTrack(s0, n)
  {
    if n > 0 {
      WalksToEnd(a, s0, n - 1);
      WalkStays(a, s0, n - 1, a[n]);
      hide Walk;
    }
  }

  lemma {:induction false} LeavesAt(a: RoundKeys, b: RoundKeys, s0: Word, j: nat, n: nat)
    requires 1 <= j <= 10 && a[j] != b[j] && n <= 10
    ensures var s := Rounds(Tracking(a, s0), b, s0, n);
            s == OffTrack(s0) || (n < j && s == OnTrack(s0, n))
  {
    if n > 0 {
      LeavesAt(a, b, s0, j, n - 1);
      WalkStays(a, s0, n - 1, b[n]);
      hide Walk;
    }
  }

  lemma {:induction false} IdentityRounds(k: RoundKeys, s: Word, n: nat)
    requires n <= 10
    ensures Rounds((s: Word, k: Word, last: bool) => s, k, s, n) == s
  {
    if n > 0 {
      IdentityRounds(k, s, n - 1);
    }
  }

  /** For any two different lists of round keys some round function makes the cipher differ. */
  lemma {:induction false} Distinguishes(a: RoundKeys, b: RoundKeys, pt: Word) returns (round: Round)
    requires a != b
    ensures Cipher(round, a, pt) != Cipher(round, b, pt)
  {
    hide Walk, Rounds;
    var s, s' := AddRoundKey(pt, a[0]), AddRoundKey(pt, b[0]);
    if s != s' {
      round := (s: Word, k: Word, last: bool) => s;
      IdentityRounds(a, s, 10);
      IdentityRounds(b, s', 10);
    } else {
      Cbc.Bits128();
      Cbc.XorInjective(pt, a[0], b[0], 128);
      var j :| 0 <= j <= 10 && a[j] != b[j];
      round := Tracking(a, s);
      WalksToEnd(a, s, 10);
      LeavesAt(a, b, s, j, 10);
    }
  }

  /** The registers that decide what happens next, in which the round function has no part. */
  predicate SameControl(r: Regs, q: Regs) {
    r.st == q.st && r.keBusy == q.keBusy && r.roundNum == q.roundNum
  }

  lemma {:induction false} ControlAlike(f: Round, g: Round, ins: seq<In>, n: nat)
    requires n <= |ins|
    ensures SameControl(Run(f, ins, n), Run(g, ins, n))
  {
    if n == 0 {
      assert Run(f, ins, 0) == Run(g, ins, 0) == RESET;
    } else {
      hide Edge, SameControl;
      ControlAlike(f, g, ins, n - 1);
      ControlStep(f, g, Run(f, ins, n - 1), Run(g, ins, n - 1), ins[n - 1]);
      assert Run(f, ins, n) == Edge(f, Run(f, ins, n - 1), ins[n - 1]);
      assert Run(g, ins, n) == Edge(g, Run(g, ins, n - 1), ins[n - 1]);
    }
  }

  lemma {:induction false} ControlStep(f: Round, g: Round, r: Regs, q: Regs, i: In)
    requires SameControl(r, q)
    ensures SameControl(Edge(f, r, i), Edge(g, q, i))
  {
    EdgeSt(f, r, i);
    EdgeSt(g, q, i);
  }

  /** What these registers become depends on nothing else. */
  function NextSt(r: Regs, i: In): St {
    if i.rst then Idle
    else match r.st
      case Idle => if i.start then Latch else Idle
      case Latch => Keygen
      case Keygen => if r.keBusy && i.keDone then Ark else Keygen
      case Ark => Capture
      case Setup => Capture
      case Capture => if r.roundNum == 10 then St.Done else Setup
      case Done => Idle
  }

  lemma {:induction false} EdgeSt(f: Round, r: Regs, i: In)
    ensures Edge(f, r, i).st == NextSt(r, i)
  {
  }

  /** The ciphertext is the cipher under the keys k for every round function if and only if the keys the core sampled
      are k. */
  lemma {:induction false} RightForEveryRoundIff(f: Round, ins: seq<In>, t: nat, d: nat, k: RoundKeys)
    requires Encryption(f, ins, t, d)
    ensures (forall round: Round :: Run(round, ins, d + 22).out == Cipher(round, k, ins[t].pt))
            <==> Sampled(ins, d) == k
  {
    forall round: Round ensures Run(round, ins, d + 22).out == Cipher(round, Sampled(ins, d), ins[t].pt) {
      ControlAlike(f, round, ins, t);
      assert Encryption(round, ins, t, d);
      DonePulse(round, ins, t, d);
    }
    hide Run, Cipher, Encryption, Sampled;
    if Sampled(ins, d) != k {
      var round := Distinguishes(Sampled(ins, d), k, ins[t].pt);
      assert Run(round, ins, d + 22).out != Cipher(round, k, ins[t].pt);
    }
  }

  // ---------------------------------------------------------------- the registers

  class Core {
    var st: St
    var done: bool
    var keStart: bool
    var keBusy: bool
    var roundNum: nat
    var cur: Word
    var key: Word
    var pt: Word
    var out: Word
    var roundIn: Word
    var roundKey: Word
    var roundLast: bool

    ghost function Value(): Regs
      reads this
    {
      Regs(st, done, keStart, keBusy, roundNum, cur, key, pt, out, roundIn, roundKey, roundLast)
    }

    constructor ()
      ensures Value() == RESET
    {
      st, done, keStart, keBusy, roundNum, cur, key, pt, out := Idle, false, false, false, 0, 0, 0, 0, 0;
      roundIn, roundKey, roundLast := 0, 0, false;
    }

    /** A rising clock edge; an active reset clears every register. */
    method Clock(round: Round, i: In)
      modifies this
      ensures Value() == Edge(round, old(Value()), i)
    {
      if i.rst {
        st, done, keStart, keBusy, roundNum, cur, key, pt, out := Idle, false, false, false, 0, 0, 0, 0, 0;
        roundIn, roundKey, roundLast := 0, 0, false;
        return;
      }
      keStart := false;
      match st {
        case Idle =>
          done, keBusy := false, false;
          if i.start {
            key, pt, st := i.key, i.pt, Latch;
          }
        case Latch =>
          keStart, keBusy, st := true, true, Keygen;
        case Keygen =>
          if keBusy && i.keDone {
            keBusy, cur, st := false, AddRoundKey(pt, i.rk[0]), Ark;
          }
        case Ark =>
          roundIn, roundKey, roundLast, roundNum, st := cur, i.rk[1], false, 1, Capture;
        case Setup =>
          roundIn, roundKey, roundLast, st := cur, KeyFor(i, roundNum), roundNum == 10, Capture;
        case Capture =>
          cur := round(roundIn, roundKey, roundLast);
          if roundNum == 10 {
            st := Done;
          } else {
            roundNum, st := (roundNum + 1) % 16, Setup;
          }
        case Done =>
          out, done, st := cur, true, Idle;
      }
    }
  }
}
