/** Burst buffers in front of a device that accepts any prefix of what it is given. */
module Burst {
  import opened Bytes

  const MAX_PKT_BURST: nat := 32

  // ---------------------------------------------------------------- drop what the device refuses

  /** What became of an item: the device took it, or it was freed. */
  datatype Fate<T> = Taken(item: T) | Freed(item: T)

  /** A buffer, the statistics beside it, and the history of everything that left it. */
  datatype Buffer<T> = Buffer(pending: seq<T>, taken: nat, lost: nat, log: seq<Fate<T>>)

  function Fates<T>(items: seq<T>, ret: nat): (r: seq<Fate<T>>)
    ensures |r| == |items|
  {
    seq(|items|, i requires 0 <= i < |items| => if i < ret then Taken(items[i]) else Freed(items[i]))
  }

  /** Offer everything to the device, which takes at most `willing`; free the rest. */
  function Flush<T>(b: Buffer<T>, willing: nat): Buffer<T> {
    var ret := Min(willing, |b.pending|);
    Buffer([], b.taken + ret, b.lost + (|b.pending| - ret), b.log + Fates(b.pending, ret))
  }

  function Send<T>(b: Buffer<T>, item: T, willing: nat): Buffer<T> {
    var b' := b.(pending := b.pending + [item]);
    if |b'.pending| == MAX_PKT_BURST then Flush(b', willing) else b'
  }

  datatype Op<T> = SendOp(item: T, willing: nat) | DrainOp(willing: nat)

  function Step<T>(b: Buffer<T>, op: Op<T>): Buffer<T> {
    match op
    case SendOp(item, willing) => Send(b, item, willing)
    case DrainOp(willing) => Flush(b, willing)
  }

  function Run<T>(b: Buffer<T>, ops: seq<Op<T>>): Buffer<T> {
    if ops == [] then b else Step(Run(b, ops[..|ops| - 1]), ops[|ops| - 1])
  }

  /** Everything ever given to the buffer, in order. */
  function Given<T>(ops: seq<Op<T>>): seq<T> {
    if ops == [] then []
    else Given(ops[..|ops| - 1]) + match ops[|ops| - 1] case SendOp(item, _) => [item] case DrainOp(_) => []
  }

  function Items<T>(log: seq<Fate<T>>): (r: seq<T>)
    ensures |r| == |log|
  {
    seq(|log|, i requires 0 <= i < |log| => log[i].item)
  }

  function CountTaken<T>(log: seq<Fate<T>>): nat {
    if log == [] then 0 else CountTaken(log[..|log| - 1]) + if log[|log| - 1].Taken? then 1 else 0
  }

  lemma {:induction false} CountAppend<T>(a: seq<Fate<T>>, b: seq<Fate<T>>)
    ensures CountTaken(a + b) == CountTaken(a) + CountTaken(b)
  {
    if b == [] {
      assert a + b == a;
    } else {
      var n := |b| - 1;
      assert (a + b)[..|a + b| - 1] == a + b[..n];
      CountAppend(a, b[..n]);
    }
  }

  lemma {:induction false} CountFates<T>(items: seq<T>, ret: nat)
    requires ret <= |items|
    ensures CountTaken(Fates(items, ret)) == ret
  {
    if items != [] {
      var n := |items| - 1;
      if ret <= n {
        assert Fates(items, ret)[..n] == Fates(items[..n], ret);
        CountFates(items[..n], ret);
      } else {
        assert Fates(items, ret)[..n] == Fates(items[..n], n);
        CountFates(items[..n], n);
      }
    }
  }

  /** Statistics match the history, and less than a burst waits between calls. */
  ghost predicate Inv<T>(b: Buffer<T>) {
    && b.taken == CountTaken(b.log)
    && b.taken + b.lost == |b.log|
    && |b.pending| < MAX_PKT_BURST
  }

  lemma {:induction false} FlushKeeps<T>(b: Buffer<T>, willing: nat)
    requires b.taken == CountTaken(b.log) && b.taken + b.lost == |b.log|
    ensures Inv(Flush(b, willing)) && Items(Flush(b, willing).log) == Items(b.log) + b.pending
  {
    hide CountTaken, Fates, Items;
    var ret := Min(willing, |b.pending|);
    CountAppend(b.log, Fates(b.pending, ret));
    CountFates(b.pending, ret);
    ItemsOfFates(b.log, b.pending, ret);
  }

  lemma {:induction false} ItemsOfFates<T>(log: seq<Fate<T>>, items: seq<T>, ret: nat)
    ensures Items(log + Fates(items, ret)) == Items(log) + items
  {
  }

  /** Over a whole run, whatever the device accepts: every item given was taken, freed or still waits, exactly once
      and in order, and the statistics say how many of each. */
  lemma {:induction false} RunConserves<T>(b: Buffer<T>, ops: seq<Op<T>>)
    requires Inv(b)
    ensures var e := Run(b, ops);
            && Inv(e)
            && Items(e.log) + e.pending == Items(b.log) + b.pending + Given(ops)
            && e.taken + e.lost + |e.pending| == b.taken + b.lost + |b.pending| + |Given(ops)|
    decreases |ops|
  {
    if ops == [] {
      assert Items(b.log) + b.pending + Given(ops) == Items(b.log) + b.pending;
    } else {
      var n := |ops| - 1;
      RunConserves(b, ops[..n]);
      var m := Run(b, ops[..n]);
      var all := Items(b.log) + b.pending;
      match ops[n]
      case DrainOp(willing) =>
        FlushKeeps(m, willing);
        assert Given(ops) == Given(ops[..n]);
      case SendOp(item, willing) =>
        var m' := m.(pending := m.pending + [item]);
        FlushKeeps(m', willing);
        assert Items(m.log) + (m.pending + [item]) == (Items(m.log) + m.pending) + [item];
        assert all + Given(ops) == (all + Given(ops[..n])) + [item];
    }
  }

  /** Of one flush: exactly the first `willing` items are taken, in their order. */
  lemma {:induction false} FlushFates<T>(b: Buffer<T>, willing: nat, i: nat)
    requires i < |b.pending|
    ensures var e := Flush(b, willing);
            && e.pending == [] && |e.log| == |b.log| + |b.pending|
            && e.log[|b.log| + i] == if i < willing then Taken(b.pending[i]) else Freed(b.pending[i])
  {
  }

  /** How many items were given since the buffer was drained last; n stands for those that waited at the start. */
  function SinceDrain<T>(n: nat, ops: seq<Op<T>>): nat {
    if ops == [] then n
    else if ops[|ops| - 1].DrainOp? then 0
    else SinceDrain(n, ops[..|ops| - 1]) + 1
  }

  /** Nothing leaves but in whole bursts of 32 or by a drain: what waits is what is left over of the items given since
      the last drain. */
  lemma {:induction false} WaitsForBurst<T>(b: Buffer<T>, ops: seq<Op<T>>)
    requires Inv(b)
    ensures |Run(b, ops).pending| == SinceDrain(|b.pending|, ops) % 32
  {
    if ops != [] {
      WaitsForBurst(b, ops[..|ops| - 1]);
      OneMoreOf32(SinceDrain(|b.pending|, ops[..|ops| - 1]));
      hide Inv;
    }
  }

  lemma {:induction false} OneMoreOf32(n: nat)
    ensures (n + 1) % 32 == if n % 32 == 31 then 0 else n % 32 + 1
  {
  }

  /** The buffer of one port or crypto device of an lcore. */
  class BurstBuffer<T(0)> {
    const buffer: array<T>
    var len: nat
    var taken: nat
    var lost: nat
    ghost var log: seq<Fate<T>>

    ghost predicate Valid()
      reads this
    {
      buffer.Length == MAX_PKT_BURST && len < MAX_PKT_BURST
    }

    ghost function Value(): Buffer<T>
      requires len <= buffer.Length
      reads this, buffer
    {
      Buffer(buffer[..len], taken, lost, log)
    }

    constructor ()
      ensures Valid() && Value() == Buffer([], 0, 0, []) && fresh(buffer)
    {
      buffer := new T[MAX_PKT_BURST];
      len, taken, lost, log := 0, 0, 0, [];
    }

    /** Offer the first n entries to the device and free those it does not take. */
    method SendBurst(n: nat, willing: nat)
      requires n <= buffer.Length
      modifies `taken, `lost, `log
      ensures taken == old(taken) + Min(willing, n) && lost == old(lost) + n - Min(willing, n)
      ensures log == old(log) + Fates(buffer[..n], Min(willing, n))
    {
      var ret := Min(willing, n);
      ghost var start := ret;
      taken := taken + ret;
      log := log + Fates(buffer[..ret], ret);
      if ret < n {
        lost := lost + (n - ret);
        while ret < n
          modifies `log
          invariant start <= ret <= n
          invariant log == old(log) + Fates(buffer[..n], start)[..ret]
        {
          log := log + [Freed(buffer[ret])];
          ret := ret + 1;
        }
      }
    }

    /** Put an item in; a full buffer is sent at once. */
    method SendItem(item: T, willing: nat)
      requires Valid()
      modifies this, buffer
      ensures Valid() && Value() == Send(old(Value()), item, willing)
    {
      buffer[len] := item;
      var n := len + 1;
      if n == MAX_PKT_BURST {
        SendBurst(MAX_PKT_BURST, willing);
        n := 0;
      }
      len := n;
    }

    /** The drain tick sends what is there. */
    method Drain(willing: nat)
      requires Valid()
      modifies this
      ensures Valid() && Value() == Flush(old(Value()), willing)
    {
      SendBurst(len, willing);
      len := 0;
    }
  }

  // ---------------------------------------------------------------- offer again until the device takes it

  /** How many items the device is willing to take, call by call; it never refuses forever. */
  ghost predicate Progresses(dev: nat -> nat) {
    forall k: nat :: WillTake(dev, k)
  }

  ghost predicate WillTake(dev: nat -> nat, k: nat) {
    exists next: nat :: Takes(dev, k, next)
  }

  predicate Takes(dev: nat -> nat, k: nat, next: nat) {
    next >= k && dev(next) > 0
  }

  /** How many of n + k packets are left when whole bursts were sent. */
  function LeftOver(n: nat, k: nat, burst: nat): nat {
    if k == 0 then n
    else if LeftOver(n, k - 1, burst) + 1 == burst then 0
    else LeftOver(n, k - 1, burst) + 1
  }

  lemma {:induction false} WholeBursts(n: nat, k: nat, burst: nat) returns (q: nat)
    requires n < burst
    ensures LeftOver(n, k, burst) < burst && n + k == Times(q, burst) + LeftOver(n, k, burst)
  {
    q := 0;
    if k > 0 {
      q := WholeBursts(n, k - 1, burst);
      if LeftOver(n, k - 1, burst) + 1 == burst {
        q := q + 1;
      }
    }
  }

  function Times(q: nat, n: nat): nat {
    if q == 0 then 0 else Times(q - 1, n) + n
  }

  /** The TX side of a thread; `wire` is everything the device took and `calls` how often it was asked. */
  class ThreadConf<T> {
    const table: array<T>
    var nMbufs: nat
    ghost var wire: seq<T>
    var calls: nat

    constructor (table: array<T>)
      ensures this.table == table && nMbufs == 0 && wire == [] && calls == 0
    {
      this.table, nMbufs, wire, calls := table, 0, [], 0;
    }

    /** Offer the table again and again until nothing is left. */
    method SendBurst(dev: nat -> nat)
      requires nMbufs <= table.Length && Progresses(dev)
      modifies `wire, `calls
      ensures wire == old(wire) + table[..nMbufs]
    {
      var at := 0;
      var n: nat := nMbufs;
      var again := true;
      assert WillTake(dev, calls);
      ghost var next: nat :| Takes(dev, calls, next);
      while again
        modifies `wire, `calls
        invariant 0 <= at <= nMbufs && n == nMbufs - at && (!again ==> n == 0)
        invariant wire == old(wire) + table[..at]
        invariant Takes(dev, calls, next)
        decreases again, n, next - calls
      {
        var ret := Min(dev(calls), n);
        wire := wire + table[at..at + ret];
        assert table[..at] + table[at..at + ret] == table[..at + ret];
        if calls == next {
          assert WillTake(dev, calls + 1);
          next :| Takes(dev, calls + 1, next);
        }
        calls := calls + 1;
        at, n := at + ret, n - ret;
        again := n != 0;
      }
    }

    /** Put packets into the table; whenever it is full, send it. */
    method SendPackets(mbufs: seq<T>, txBurst: nat, dev: nat -> nat)
      requires nMbufs < txBurst <= table.Length && Progresses(dev)
      modifies this, table
      ensures nMbufs == LeftOver(old(nMbufs), |mbufs|, txBurst) < txBurst
      ensures wire + table[..nMbufs] == old(wire) + old(table[..nMbufs]) + mbufs
    {
      var len := nMbufs;
      for i := 0 to |mbufs|
        invariant len == LeftOver(old(nMbufs), i, txBurst) < txBurst
        invariant wire + table[..len] == old(wire) + old(table[..nMbufs]) + mbufs[..i]
      {
        Grown(wire, table[..len], old(wire) + old(table[..nMbufs]), mbufs, i);
        table[len] := mbufs[i];
        len := len + 1;
        if len == txBurst {
          nMbufs := len;
          SendBurst(dev);
          assert wire + table[..0] == wire;
          len := 0;
        }
      }
      assert mbufs[..|mbufs|] == mbufs;
      nMbufs := len;
    }

    static lemma {:induction false} Grown(wire: seq<T>, tab: seq<T>, before: seq<T>, mbufs: seq<T>, i: nat)
      requires i < |mbufs| && wire + tab == before + mbufs[..i]
      ensures wire + (tab + [mbufs[i]]) == before + mbufs[..i + 1]
    {
      assert wire + (tab + [mbufs[i]]) == (wire + tab) + [mbufs[i]];
      assert before + mbufs[..i + 1] == (before + mbufs[..i]) + [mbufs[i]];
    }
  }
}
