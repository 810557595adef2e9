/** The memory pool: one block cut into units that hang in two doubly linked lists. */
module MemPool {

  /** Size of the two link pointers in front of every unit. */
  const LINKS: nat := 16

  // ---------------------------------------------------------------- the pool as two lists of unit numbers

  /** The units on the free and on the alloc list, in list order. */
  datatype Lists = Lists(free: seq<nat>, alloc: seq<nat>)

  function PositionOf(xs: seq<nat>, u: nat): (k: nat)
    requires u in xs
    ensures k < |xs| && xs[k] == u
  {
    if xs[0] == u then 0 else 1 + PositionOf(xs[1..], u)
  }

  function Without(xs: seq<nat>, k: nat): seq<nat>
    requires k < |xs|
  {
    xs[..k] + xs[k + 1..]
  }

  function GetStep(l: Lists): Lists {
    if l.free == [] then l else Lists(l.free[1..], [l.free[0]] + l.alloc)
  }

  function PutStep(l: Lists, u: nat): Lists {
    if u in l.alloc then Lists([u] + l.free, Without(l.alloc, PositionOf(l.alloc, u))) else l
  }

  /** Every unit number below n stands exactly once on exactly one of the lists. */
  ghost predicate Partition(l: Lists, n: nat) {
    && |l.free| + |l.alloc| == n
    && (forall i :: 0 <= i < |l.free| ==> l.free[i] < n)
    && (forall i :: 0 <= i < |l.alloc| ==> l.alloc[i] < n)
    && (forall i, j :: 0 <= i < j < |l.free| ==> l.free[i] != l.free[j])
    && (forall i, j :: 0 <= i < j < |l.alloc| ==> l.alloc[i] != l.alloc[j])
    && (forall i, j :: 0 <= i < |l.free| && 0 <= j < |l.alloc| ==> l.free[i] != l.alloc[j])
  }

  lemma {:induction false} GetKeepsPartition(l: Lists, n: nat)
    requires Partition(l, n)
    ensures Partition(GetStep(l), n)
  {
  }

  lemma {:induction false} PutKeepsPartition(l: Lists, n: nat, u: nat)
    requires Partition(l, n)
    ensures Partition(PutStep(l, u), n)
  {
    if u in l.alloc {
      var k := PositionOf(l.alloc, u);
      MovedPartition(l.free, l.alloc, n, k);
    }
  }

  lemma {:induction false} MovedPartition(free: seq<nat>, alloc: seq<nat>, n: nat, k: nat)
    requires Partition(Lists(free, alloc), n) && k < |alloc|
    ensures Partition(Lists([alloc[k]] + free, Without(alloc, k)), n)
  {
    var l, rest := Lists(free, alloc), Without(alloc, k);
    var free' := [alloc[k]] + free;
    forall i | 0 <= i < |rest|
      ensures rest[i] == alloc[if i < k then i else i + 1] && rest[i] < n && rest[i] != alloc[k]
    {
    }
    forall i, j | 0 <= i < j < |rest| ensures rest[i] != rest[j] {
      assert alloc[if i < k then i else i + 1] != alloc[if j < k then j else j + 1];
    }
    forall i, j | 0 <= i < |free'| && 0 <= j < |rest| ensures free'[i] != rest[j] {
      assert i > 0 ==> free'[i] == free[i - 1];
    }
    forall i, j | 0 <= i < j < |free'| ensures free'[i] != free'[j] {
      assert free'[j] == free[j - 1] && (i > 0 ==> free'[i] == free[i - 1]);
    }
  }

  /** A run of calls. Callers return only live units; returning another is outside every run. */
  datatype Op = Get | Put(unit: nat)

  function Run(l: Lists, ops: seq<Op>): Lists {
    if ops == [] then l
    else
      var before := Run(l, ops[..|ops| - 1]);
      match ops[|ops| - 1]
      case Get => GetStep(before)
      case Put(u) => PutStep(before, u)
  }

  /** In every run, with units returned in any order, no unit is lost, doubled or on both lists. */
  lemma {:induction false} RunKeepsPartition(l: Lists, n: nat, ops: seq<Op>)
    requires Partition(l, n)
    ensures Partition(Run(l, ops), n)
  {
    if ops != [] {
      var before := Run(l, ops[..|ops| - 1]);
      RunKeepsPartition(l, n, ops[..|ops| - 1]);
      match ops[|ops| - 1]
      case Get => GetKeepsPartition(before, n);
      case Put(u) => PutKeepsPartition(before, n, u);
    }
  }

  /** A partition leaves no unit out. */
  lemma {:induction false} PartitionCovers(l: Lists, n: nat, u: nat)
    requires Partition(l, n) && u < n
    ensures u in l.free || u in l.alloc
  {
    var all := l.free + l.alloc;
    if u !in all {
      Pigeonhole(all, n, u);
    }
  }

  ghost function Below(n: nat): (s: set<nat>)
    ensures |s| == n
    ensures forall i: nat :: i in s <==> i < n
  {
    if n == 0 then {} else Below(n - 1) + {n - 1}
  }

  ghost function Members(xs: seq<nat>): set<nat> {
    set x | x in xs
  }

  lemma {:induction false} DistinctMembers(xs: seq<nat>)
    requires forall i, j :: 0 <= i < j < |xs| ==> xs[i] != xs[j]
    ensures |Members(xs)| == |xs|
  {
    if xs != [] {
      var n := |xs| - 1;
      DistinctMembers(xs[..n]);
      assert Members(xs) == Members(xs[..n]) + {xs[n]};
      assert xs[n] !in xs[..n];
    }
  }

  lemma {:induction false} SmallerSet(a: set<nat>, b: set<nat>)
    requires a <= b
    ensures |a| <= |b|
  {
    assert b == a + (b - a);
    assert |a + (b - a)| == |a| + |b - a|;
  }

  lemma {:induction false} Pigeonhole(xs: seq<nat>, n: nat, missing: nat)
    requires forall i :: 0 <= i < |xs| ==> xs[i] < n && xs[i] != missing
    requires forall i, j :: 0 <= i < j < |xs| ==> xs[i] != xs[j]
    requires missing < n
    ensures |xs| < n
  {
    DistinctMembers(xs);
    SmallerSet(Members(xs), Below(n) - {missing});
    assert |Below(n) - {missing}| == n - 1;
  }

  /** Get fails exactly when all n units are live; otherwise the unit it hands out was not live. */
  lemma {:induction false} GetFailsOnlyWhenAllLive(l: Lists, n: nat)
    requires Partition(l, n)
    ensures l.free == [] <==> forall u: nat :: u < n ==> u in l.alloc
    ensures l.free != [] ==> GetStep(l).alloc == [l.free[0]] + l.alloc && l.free[0] !in l.alloc
  {
    if l.free == [] {
      forall u: nat | u < n ensures u in l.alloc {
        PartitionCovers(l, n, u);
      }
    } else {
      assert l.free[0] < n && l.free[0] !in l.alloc;
    }
  }

  lemma {:induction false} PositionIs(xs: seq<nat>, k: nat)
    requires k < |xs| && forall i, j :: 0 <= i < j < |xs| ==> xs[i] != xs[j]
    ensures PositionOf(xs, xs[k]) == k
  {
  }

  ghost predicate Distinct(xs: seq<nat>) {
    forall i, j :: 0 <= i < j < |xs| ==> xs[i] != xs[j]
  }

  lemma {:induction false} WithoutIs(xs: seq<nat>, k: nat)
    requires k < |xs| && Distinct(xs)
    ensures |Without(xs, k)| == |xs| - 1 && Distinct(Without(xs, k)) && xs[k] !in Without(xs, k)
    ensures forall i :: 0 <= i < |xs| - 1 ==> Without(xs, k)[i] == xs[if i < k then i else i + 1]
  {
  }

  lemma {:induction false} MovesUp(xs: seq<nat>, k: nat, i: nat)
    requires k < |xs| && Distinct(xs) && i < |xs| && i != k
    ensures xs[i] in Without(xs, k) && PositionOf(Without(xs, k), xs[i]) == if i < k then i else i - 1
  {
    WithoutIs(xs, k);
    hide Without;
    var rest, j := Without(xs, k), if i < k then i else i - 1;
    assert rest[j] == xs[i];
    PositionIs(rest, j);
  }

  /** Put removes exactly the one unit; the others keep their order. */
  lemma {:induction false} PutRemovesOne(l: Lists, n: nat, u: nat)
    requires Partition(l, n) && u in l.alloc
    ensures var after := PutStep(l, u);
            && u !in after.alloc && after.free == [u] + l.free && |after.alloc| == |l.alloc| - 1
            && forall i, j :: 0 <= i < j < |l.alloc| && l.alloc[i] != u && l.alloc[j] != u ==>
                 && l.alloc[i] in after.alloc && l.alloc[j] in after.alloc
                 && PositionOf(after.alloc, l.alloc[i]) < PositionOf(after.alloc, l.alloc[j])
  {
    assert Distinct(l.alloc);
    hide Partition, Without, Distinct;
    var k := PositionOf(l.alloc, u);
    WithoutIs(l.alloc, k);
    forall i, j | 0 <= i < j < |l.alloc| && l.alloc[i] != u && l.alloc[j] != u
      ensures var rest := Without(l.alloc, k);
              && l.alloc[i] in rest && l.alloc[j] in rest
              && PositionOf(rest, l.alloc[i]) < PositionOf(rest, l.alloc[j])
    {
      MovesUp(l.alloc, k, i);
      MovesUp(l.alloc, k, j);
    }
  }

  /** Returning the unit just handed out undoes the get. */
  lemma {:induction false} PutUndoesGet(l: Lists)
    requires l.free != []
    ensures PutStep(GetStep(l), l.free[0]) == l
  {
    var u := l.free[0];
    assert ([u] + l.alloc)[0] == u;
    assert Without([u] + l.alloc, 0) == l.alloc;
    assert [u] + l.free[1..] == l.free;
  }

  // ---------------------------------------------------------------- the linked structure

  class Unit {
    const addr: nat
    var prev: Unit?
    var next: Unit?

    constructor (addr: nat)
      ensures this.addr == addr && prev == null && next == null
    {
      this.addr, prev, next := addr, null, null;
    }
  }

  function At(us: seq<Unit>, k: int): Unit? {
    if 0 <= k < |us| then us[k] else null
  }

  function Some(u: Unit?): set<Unit> {
    if u == null then {} else {u}
  }

  /** `us` are the units of the list with this head, in order, linked both ways and without repetition. */
  ghost predicate Chained(head: Unit?, us: seq<Unit>)
    reads us
  {
    && head == At(us, 0)
    && (forall k {:trigger us[k].next} :: 0 <= k < |us| ==> us[k].next == At(us, k + 1))
    && (forall k {:trigger us[k].prev} :: 0 <= k < |us| ==> us[k].prev == At(us, k - 1))
    && (forall i, j :: 0 <= i < j < |us| ==> us[i] != us[j])
  }

  /** Make a unit the first of a list. If it is the first already, it ends up linked to itself. */
  method Push(head: Unit?, cur: Unit, ghost us: seq<Unit>)
    requires head == cur || (Chained(head, us) && cur !in us)
    modifies cur, Some(head)
    ensures head != cur ==> Chained(cur, [cur] + us)
    ensures head == cur ==> cur.next == cur && cur.prev == cur
  {
    cur.prev := null;
    cur.next := head;
    if head != null {
      head.prev := cur;
    }
    if head != cur {
      ghost var all := [cur] + us;
      forall k | 0 <= k < |all|
        ensures all[k].next == At(all, k + 1) && all[k].prev == At(all, k - 1)
      {
        if k > 0 {
          assert all[k] == us[k - 1] != cur;
        }
      }
    }
  }

  /** Take the first unit off a list. */
  method Pop(cur: Unit, ghost us: seq<Unit>) returns (head: Unit?)
    requires Chained(cur, us)
    modifies Some(At(us, 1))
    ensures Chained(head, us[1..])
  {
    head := cur.next;
    if head != null {
      head.prev := null;
    }
  }

  /** Take a unit out of a list, wherever it hangs. Its successor becomes the new head if the unit has no predecessor,
      whichever list the head belongs to. */
  method Unlink(head: Unit?, cur: Unit, ghost us: seq<Unit>, ghost k: nat) returns (head': Unit?)
    requires Chained(At(us, 0), us) && k < |us| && cur == us[k]
    modifies Some(At(us, k - 1)), Some(At(us, k + 1))
    ensures var rest := us[..k] + us[k + 1..]; Chained(At(rest, 0), rest)
    ensures head' == if k == 0 then At(us, 1) else head
  {
    assert cur.next == At(us, k + 1) && cur.prev == At(us, k - 1);
    if cur.prev != null {
      cur.prev.next := cur.next;
      head' := head;
    } else {
      head' := cur.next;
    }
    if cur.next != null {
      cur.next.prev := cur.prev;
    }
    assert forall j {:trigger us[j].next} :: 0 <= j < |us|
             ==> us[j].next == if j == k - 1 then At(us, k + 1) else At(us, j + 1);
    assert forall j {:trigger us[j].prev} :: 0 <= j < |us|
             ==> us[j].prev == if j == k + 1 then At(us, k - 1) else At(us, j - 1);
    WithoutAt(us, k);
    ghost var rest := us[..k] + us[k + 1..];
    hide At;
    forall i | 0 <= i < |rest| ensures rest[i].next == At(rest, i + 1) && rest[i].prev == At(rest, i - 1) {
      Neighbours(us, k, i);
    }
  }

  lemma {:induction false} Neighbours(us: seq<Unit>, k: nat, i: nat)
    requires k < |us| && i < |us| - 1
    ensures var rest, j := us[..k] + us[k + 1..], if i < k then i else i + 1;
            && rest[i] == us[j]
            && At(rest, i + 1) == At(us, if j == k - 1 then k + 1 else j + 1)
            && At(rest, i - 1) == At(us, if j == k + 1 then k - 1 else j - 1)
  {
  }

  ghost predicate Disjoint(a: seq<Unit>, b: seq<Unit>) {
    forall i, j :: 0 <= i < |a| && 0 <= j < |b| ==> a[i] != b[j]
  }

  /** The first unit of one list becomes the first of the other. */
  method MoveFirst(from: Unit, to: Unit?, ghost fs: seq<Unit>, ghost ts: seq<Unit>) returns (from': Unit?)
    requires Chained(from, fs) && Chained(to, ts) && Disjoint(fs, ts)
    modifies from, Some(At(fs, 1)), Some(At(ts, 0))
    ensures Chained(from', fs[1..]) && Chained(from, [from] + ts)
  {
    from' := Pop(from, fs);
    assert forall i :: 0 <= i < |fs[1..]| ==> fs[1..][i] != from && fs[1..][i] != At(ts, 0);
    Push(to, from, ts);
  }

  /** A unit from anywhere in one list becomes the first of the other. The program does the same to a unit that is on
      the other list already, `twice`: it moves to its front, or, if it was there, loops on itself and leaves the first
      list with its successor as head. */
  method MoveAny(
    from: Unit?, to: Unit?, cur: Unit, ghost us: seq<Unit>, ghost ts: seq<Unit>, ghost k: nat, ghost twice: bool)
    returns (from': Unit?)
    requires Chained(At(us, 0), us) && k < |us| && cur == us[k]
    requires if twice then to == us[0] else from == us[0] && Chained(to, ts) && Disjoint(us, ts)
    modifies cur, Some(At(us, k - 1)), Some(At(us, k + 1)), Some(to)
    ensures var rest := us[..k] + us[k + 1..];
            && (!twice ==> Chained(from', rest) && Chained(cur, [cur] + ts))
            && (twice && k > 0 ==> from' == from && Chained(cur, [cur] + rest))
            && (twice && k == 0 ==> from' == At(us, 1) && cur.next == cur && cur.prev == cur)
  {
    from' := Unlink(from, cur, us, k);
    ghost var rest := us[..k] + us[k + 1..];
    WithoutAt(us, k);
    assert forall i :: 0 <= i < |rest| ==> rest[i] != cur;
    if !twice {
      assert Chained(to, ts);
      assert forall i :: 0 <= i < |rest| ==> rest[i] != to;
      assert from' == At(rest, 0);
    }
    Push(to, cur, if twice then rest else ts);
  }

  lemma {:induction false} WithoutAt(us: seq<Unit>, k: nat)
    requires k < |us|
    ensures var rest := us[..k] + us[k + 1..];
            && |rest| == |us| - 1
            && forall i :: 0 <= i < |rest| ==> rest[i] == us[if i < k then i else i + 1]
  {
  }

  /** Bytes taken by n units of the given size. */
  function Span(n: nat, size: nat): nat {
    n * size
  }

  lemma {:induction false} SpanStep(n: nat, size: nat)
    ensures Span(n + 1, size) == Span(n, size) + size
  {
  }

  /** Address of the memory of unit i that callers get, behind its links. */
  function AddressOf(base: nat, unitSize: nat, i: nat): nat {
    base + Span(i, unitSize + LINKS) + LINKS
  }

  /** The objects on a list are the units with these numbers. */
  ghost predicate Hang(units: seq<Unit>, us: seq<Unit>, xs: seq<nat>) {
    |us| == |xs| && forall k :: 0 <= k < |us| ==> xs[k] < |units| && us[k] == units[xs[k]]
  }

  /** The units lie one behind the other in the block. */
  ghost predicate Laid(units: seq<Unit>, base: nat, unitSize: nat) {
    && (forall i, j :: 0 <= i < j < |units| ==> units[i] != units[j])
    && (forall i :: 0 <= i < |units| ==> units[i].addr == base + Span(i, unitSize + LINKS))
  }

  /** Both lists hold units of the block, each unit once, and the two counters account for them. */
  ghost predicate Books(
    units: seq<Unit>, unitSize: nat, blockSize: nat, l: Lists, fs: seq<Unit>, al: seq<Unit>, lenAlloc: int,
    lenFree: int)
  {
    && Partition(l, |units|)
    && Hang(units, fs, l.free)
    && Hang(units, al, l.alloc)
    && lenAlloc == Span(|l.alloc|, unitSize)
    && lenAlloc + lenFree == blockSize
  }

  lemma {:induction false} GetBooks(
    units: seq<Unit>, unitSize: nat, blockSize: nat, l: Lists, fs: seq<Unit>, al: seq<Unit>, lenAlloc: int,
    lenFree: int)
    requires Books(units, unitSize, blockSize, l, fs, al, lenAlloc, lenFree) && fs != []
    ensures l.free != []
    ensures Books(
              units, unitSize, blockSize, GetStep(l), fs[1..], [fs[0]] + al, lenAlloc + unitSize, lenFree - unitSize)
  {
    GetKeepsPartition(l, |units|);
    SpanStep(|l.alloc|, unitSize);
    hide Partition, Span;
  }

  lemma {:induction false} PutBooks(
    units: seq<Unit>, unitSize: nat, blockSize: nat, l: Lists, fs: seq<Unit>, al: seq<Unit>, lenAlloc: int,
    lenFree: int, u: nat)
    requires Books(units, unitSize, blockSize, l, fs, al, lenAlloc, lenFree) && u in l.alloc
    ensures var k := PositionOf(l.alloc, u);
            && u < |units| && k < |al| && al[k] == units[u]
            && Books(
                 units, unitSize, blockSize, PutStep(l, u), [al[k]] + fs, al[..k] + al[k + 1..],
                 lenAlloc - unitSize, lenFree + unitSize)
  {
    var k := PositionOf(l.alloc, u);
    assert u == l.alloc[k];
    PutKeepsPartition(l, |units|, u);
    SpanStep(|l.alloc| - 1, unitSize);
    hide Partition, Span, PositionOf;
    WithoutAt(al, k);
    assert forall i :: 0 <= i < |Without(l.alloc, k)| ==> Without(l.alloc, k)[i] == l.alloc[if i < k then i else i + 1];
  }

  /** A unit that is not live hangs in the free list at its number's position. */
  lemma {:induction false} FreeBooks(
    units: seq<Unit>, unitSize: nat, blockSize: nat, l: Lists, fs: seq<Unit>, al: seq<Unit>, lenAlloc: int,
    lenFree: int, u: nat)
    requires Books(units, unitSize, blockSize, l, fs, al, lenAlloc, lenFree) && u < |units| && u !in l.alloc
    ensures u in l.free && PositionOf(l.free, u) < |fs| && fs[PositionOf(l.free, u)] == units[u]
  {
    PartitionCovers(l, |units|, u);
    hide Partition, Span, PositionOf;
    assert l.free[PositionOf(l.free, u)] == u;
  }

  /** No object hangs in both lists. */
  lemma {:induction false} Apart(
    units: seq<Unit>, base: nat, unitSize: nat, blockSize: nat, l: Lists, fs: seq<Unit>, al: seq<Unit>, lenAlloc: int,
    lenFree: int)
    requires Books(units, unitSize, blockSize, l, fs, al, lenAlloc, lenFree) && Laid(units, base, unitSize)
    ensures Disjoint(fs, al) && Disjoint(al, fs)
  {
    forall i, j | 0 <= i < |fs| && 0 <= j < |al| ensures fs[i] != al[j] {
      assert l.free[i] != l.alloc[j];
    }
  }

  /** Chain the next unit of the block as free. */
  method AddUnit(head: Unit?, addr: nat, ghost us: seq<Unit>) returns (cur: Unit)
    requires Chained(head, us)
    modifies Some(At(us, 0))
    ensures fresh(cur) && cur.addr == addr && Chained(cur, [cur] + us)
  {
    cur := new Unit(addr);
    Push(head, cur, us);
  }

  lemma {:induction false} HeadIsFirst(head: Unit?, us: seq<Unit>)
    requires Chained(head, us)
    ensures head == At(us, 0) && (head != null ==> head in us)
  {
  }

  /** What the head of the free list tells Get. */
  lemma {:induction false} HeadOfFree(
    head: Unit?, units: seq<Unit>, base: nat, unitSize: nat, blockSize: nat, l: Lists, fs: seq<Unit>, al: seq<Unit>,
    lenAlloc: int, lenFree: int)
    requires Books(units, unitSize, blockSize, l, fs, al, lenAlloc, lenFree) && Laid(units, base, unitSize)
             && Chained(head, fs)
    ensures |fs| == |l.free|
    ensures head == null ==> GetStep(l) == l && l.free == []
    ensures head != null ==> fs != [] && head == fs[0] && head.addr + LINKS == AddressOf(base, unitSize, l.free[0])
  {
  }

  /** All units free: the books right after the block was cut. */
  lemma {:induction false} FreshBooks(units: seq<Unit>, unitSize: nat, blockSize: nat, chain: seq<Unit>)
    requires Hang(units, chain, Descending(|units|))
    ensures Books(units, unitSize, blockSize, Lists(Descending(|units|), []), chain, [], 0, blockSize)
    ensures Chained(null, [])
  {
  }

  class Pool {
    /** Address of the block, 0 for NULL, and its units in address order. */
    const base: nat
    const units: seq<Unit>
    const unitSize: nat
    const blockSize: nat
    var allocHead: Unit?
    var freeHead: Unit?
    var lenAlloc: int
    var lenFree: int
    /** The lists by unit number, and the same by object. */
    ghost var lists: Lists
    ghost var freeUnits: seq<Unit>
    ghost var allocUnits: seq<Unit>

    ghost predicate Valid()
      reads this, freeUnits, allocUnits
    {
      && base != 0
      && blockSize == Span(|units|, unitSize + LINKS)
      && Laid(units, base, unitSize)
      && Books(units, unitSize, blockSize, lists, freeUnits, allocUnits, lenAlloc, lenFree)
      && Chained(freeHead, freeUnits)
      && Chained(allocHead, allocUnits)
    }

    /** Cut the block malloc returned, 0 when it failed, into units and chain them all as free. */
    constructor Alloc(block: nat, size: nat, num: nat)
      ensures base == block && unitSize == size && blockSize == Span(num, size + LINKS)
      ensures block != 0 ==> Valid() && |units| == num && lists == Lists(Descending(num), []) && lenAlloc == 0
      ensures block == 0 ==> units == [] && freeHead == null && allocHead == null
      ensures forall k :: 0 <= k < |units| ==> fresh(units[k])
    {
      hide Partition, Span, Hang, Laid, Chained, Books, Descending;
      var us: seq<Unit>, head: Unit? := [], null;
      ghost var chain: seq<Unit> := [];
      if block != 0 {
        us, head, chain := CutBlock(block, size, num);
        FreshBooks(us, size, Span(num, size + LINKS), chain);
      }
      base, units, unitSize, blockSize := block, us, size, Span(num, size + LINKS);
      allocHead, freeHead := null, head;
      lenAlloc, lenFree := 0, Span(num, size + LINKS);
      lists, freeUnits, allocUnits := Lists(Descending(num), []), chain, [];
    }

    /** The loop of the constructor. */
    static method CutBlock(block: nat, size: nat, num: nat) returns (us: seq<Unit>, head: Unit?, ghost chain: seq<Unit>)
      ensures |us| == num && Laid(us, block, size) && Hang(us, chain, Descending(num)) && Chained(head, chain)
      ensures forall k :: 0 <= k < num ==> fresh(us[k])
    {
      us, head, chain := [], null, [];
      for i := 0 to num
        invariant |us| == i && Laid(us, block, size) && Hang(us, chain, Descending(i)) && Chained(head, chain)
        invariant forall k :: 0 <= k < i ==> fresh(us[k])
      {
        assert i > 0 ==> At(chain, 0) == us[i - 1];
        hide Chained, Span;
        var cur := AddUnit(head, block + Span(i, size + LINKS), chain);
        us, head, chain := us + [cur], cur, [cur] + chain;
      }
    }

    /** Hand out the first free unit; 0 is NULL. */
    method Get(useMemPool: bool) returns (p: nat)
      requires base != 0 ==> Valid()
      modifies this, freeUnits, allocUnits
      ensures base != 0 ==> Valid()
      ensures lists == if useMemPool && base != 0 then GetStep(old(lists)) else old(lists)
      ensures p == if useMemPool && base != 0 && old(lists).free != []
              then AddressOf(base, unitSize, old(lists).free[0]) else 0
    {
      hide Partition, Span, Hang, Laid, Chained, Disjoint, GetStep, Books, AddressOf;
      if base != 0 {
        HeadOfFree(freeHead, units, base, unitSize, blockSize, lists, freeUnits, allocUnits, lenAlloc, lenFree);
      }
      if !useMemPool || base == 0 || freeHead == null {
        return 0;
      }
      var cur: Unit := freeHead;
      p := cur.addr + LINKS;
      GetBooks(units, unitSize, blockSize, lists, freeUnits, allocUnits, lenAlloc, lenFree);
      Apart(units, base, unitSize, blockSize, lists, freeUnits, allocUnits, lenAlloc, lenFree);
      freeHead := MoveFirst(cur, allocHead, freeUnits, allocUnits);
      allocHead := cur;
      lenAlloc := lenAlloc + unitSize;
      lenFree := lenFree - unitSize;
      freeUnits, allocUnits := freeUnits[1..], [cur] + allocUnits;
      lists := GetStep(lists);
    }

    /** What a second put of the unit with number k on the free list leaves: the counters are wrong, and either the unit
        just moves to the front of the free list, or, being there, it loops on itself and the alloc list is lost. */
    ghost predicate PutTwice(k: nat, frees: seq<Unit>, allocs: seq<Unit>, allocHead0: Unit?)
      requires k < |frees|
      reads this, frees, allocs
    {
      && freeHead == frees[k]
      && (k > 0 ==> allocHead == allocHead0 && Chained(allocHead, allocs)
                    && Chained(freeHead, [frees[k]] + (frees[..k] + frees[k + 1..])))
      && (k == 0 ==> allocHead == At(frees, 1) && freeHead.next == freeHead && freeHead.prev == freeHead)
    }

    /** Give memory back: a unit of the block is unlinked from wherever it hangs and becomes free;
        any other address goes to free(). The program does not notice that a unit is free already. */
    method Put(p: nat, ghost u: nat) returns (freed: bool)
      requires base != 0 ==> Valid()
      requires base < p < base + blockSize ==> base != 0 && u < |units| && p == AddressOf(base, unitSize, u)
      modifies this, freeUnits, allocUnits
      ensures freed == !(base < p < base + blockSize)
      ensures base != 0 && (freed || u in old(lists).alloc) ==> Valid()
      ensures freed ==> lists == old(lists) && unchanged(this)
      ensures !freed && u in old(lists).alloc ==> lists == PutStep(old(lists), u)
      ensures !freed && u !in old(lists).alloc ==>
                && u in old(lists).free && PositionOf(old(lists).free, u) < |old(freeUnits)|
                && lenAlloc == old(lenAlloc) - unitSize && lenFree == old(lenFree) + unitSize
                && PutTwice(PositionOf(old(lists).free, u), old(freeUnits), old(allocUnits), old(allocHead))
    {
      if !(base < p < base + blockSize) {
        return true;
      }
      freed := false;
      UnitAt(u, unitSize + LINKS);
      PutBack(units[(p - LINKS - base) / (unitSize + LINKS)], u);
    }

    method PutBack(cur: Unit, ghost u: nat)
      requires Valid() && u < |units| && cur == units[u]
      modifies this, freeUnits, allocUnits
      ensures u in old(lists).alloc ==> Valid() && lists == PutStep(old(lists), u)
      ensures u !in old(lists).alloc ==>
                && u in old(lists).free && PositionOf(old(lists).free, u) < |old(freeUnits)|
                && lenAlloc == old(lenAlloc) - unitSize && lenFree == old(lenFree) + unitSize
                && PutTwice(PositionOf(old(lists).free, u), old(freeUnits), old(allocUnits), old(allocHead))
    {
      hide Partition, Span, Hang, Laid, Chained, Disjoint, PutStep, Books, PositionOf;
      ghost var twice := u !in lists.alloc;
      ghost var us, k := allocUnits, 0;
      if twice {
        FreeBooks(units, unitSize, blockSize, lists, freeUnits, allocUnits, lenAlloc, lenFree, u);
        us, k := freeUnits, PositionOf(lists.free, u);
      } else {
        PutBooks(units, unitSize, blockSize, lists, freeUnits, allocUnits, lenAlloc, lenFree, u);
        k := PositionOf(lists.alloc, u);
      }
      Apart(units, base, unitSize, blockSize, lists, freeUnits, allocUnits, lenAlloc, lenFree);
      HeadIsFirst(allocHead, allocUnits);
      HeadIsFirst(freeHead, freeUnits);
      allocHead := MoveAny(allocHead, freeHead, cur, us, freeUnits, k, twice);
      freeHead := cur;
      lenFree := lenFree + unitSize;
      lenAlloc := lenAlloc - unitSize;
      if !twice {
        freeUnits, allocUnits := [cur] + freeUnits, allocUnits[..k] + allocUnits[k + 1..];
        lists := PutStep(lists, u);
      }
    }
  }

  lemma {:induction false} MulAtLeast(k: int, s: nat)
    ensures k >= 1 ==> k * s >= s
    ensures k <= -1 ==> k * s <= 0 - s
  {
  }

  /** Unit numbers and addresses correspond. */
  lemma {:induction false} UnitAt(i: nat, stride: nat)
    requires stride > 0
    ensures Span(i, stride) / stride == i
  {
    var q, r := i * stride / stride, i * stride % stride;
    assert (i - q) * stride == r;
    MulAtLeast(i - q, stride);
  }

  lemma {:induction false} SpanGrows(i: nat, j: nat, stride: nat)
    requires i < j
    ensures Span(i, stride) + stride <= Span(j, stride)
  {
    assert j * stride - i * stride == (j - i) * stride;
    MulAtLeast(j - i, stride);
  }

  /** The memory of two units never overlaps. */
  lemma {:induction false} BuffersAreApart(base: nat, unitSize: nat, i: nat, j: nat)
    requires i < j
    ensures AddressOf(base, unitSize, i) + unitSize <= AddressOf(base, unitSize, j) - LINKS
  {
    SpanGrows(i, j, unitSize + LINKS);
  }

  /** Whatever was got and put before, the memory of any two live units is apart. */
  lemma {:induction false} LiveBuffersNeverOverlap(
    l: Lists, n: nat, ops: seq<Op>, base: nat, unitSize: nat, i: nat, j: nat)
    requires Partition(l, n) && i < j < |Run(l, ops).alloc|
    ensures var live := Run(l, ops).alloc;
            var p, q := AddressOf(base, unitSize, live[i]), AddressOf(base, unitSize, live[j]);
            p + unitSize <= q || q + unitSize <= p
  {
    RunKeepsPartition(l, n, ops);
    var u, v := Run(l, ops).alloc[i], Run(l, ops).alloc[j];
    hide Run, Span;
    if u < v {
      BuffersAreApart(base, unitSize, u, v);
    } else {
      BuffersAreApart(base, unitSize, v, u);
    }
  }

  /** Put recognises the address of a unit as its own, except that of the last unit when units have size 0. */
  lemma {:induction false} PutRecognisesUnits(base: nat, unitSize: nat, n: nat, u: nat)
    requires u < n
    ensures base < AddressOf(base, unitSize, u) < base + Span(n, unitSize + LINKS) <==> unitSize > 0 || u + 1 < n
  {
    SpanStep(u, unitSize + LINKS);
    if u + 1 < n {
      SpanGrows(u + 1, n, unitSize + LINKS);
    }
    hide Span;
  }

  function Descending(n: nat): (xs: seq<nat>)
    ensures |xs| == n && forall k :: 0 <= k < n ==> xs[k] == n - 1 - k
  {
    if n == 0 then [] else [n - 1] + Descending(n - 1)
  }
}
