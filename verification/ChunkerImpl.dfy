/** The chunker as the program runs it: pool buffers, pending TLVs, a shared store. */
module ChunkerImpl {
  import opened Bytes
  import opened ChunkStore
  import opened StoreImpl
  import opened Chunker
  import opened Dedup

  // ---------------------------------------------------------------- encoding against the real store

  /** What happens around one emitted chunk: the disk and table, and whether a TLV buffer is to be had. */
  datatype Env = Env(fault: Fault, tlvOk: bool)

  function AsData(d: seq<byte>): Data {
    if |d| < U32 then d else []
  }

  /** Look the digest up, then build a HIT, or store the chunk and build a MISS. */
  function EncodeStep(s: State, digest: Data -> Hash, chunk: Data, f: Fault): (State, Tlv)
    requires Shape(s)
  {
    var cid := if s.tableReady then FindLocked(s.index, s.table, digest(chunk)) else 0;
    if cid != 0 then (IncrementStep(s, cid), Hit(digest(chunk)))
    else (StoreStep(s, chunk, digest(chunk), f).0, Miss(chunk))
  }

  /** Store and TLVs after chunks i to j - 1 of `out` have been encoded in order. */
  function EncodeRun(
    s: State, tlvs: seq<Tlv>, digest: Data -> Hash, env: nat -> Env, out: seq<Chunk>, i: nat, j: nat)
    : (r: (State, seq<Tlv>))
    requires Shape(s) && i <= j <= |out|
    ensures Shape(r.0)
    decreases j
  {
    if i == j then (s, tlvs)
    else
      var (s1, tlvs1) := EncodeRun(s, tlvs, digest, env, out, i, j - 1);
      var (s2, tlv) := EncodeStep(s1, digest, AsData(out[j - 1].data), env(j - 1).fault);
      (s2, if env(j - 1).tlvOk then tlvs1 + [tlv] else tlvs1)
  }

  lemma {:induction false} EncodeRunPrefix(
    s: State, tlvs: seq<Tlv>, digest: Data -> Hash, env: nat -> Env, a: seq<Chunk>, b: seq<Chunk>, i: nat, j: nat)
    requires Shape(s) && i <= j <= |a| && a <= b
    ensures EncodeRun(s, tlvs, digest, env, b, i, j) == EncodeRun(s, tlvs, digest, env, a, i, j)
    decreases j
  {
    hide EncodeStep;
    if i < j {
      EncodeRunPrefix(s, tlvs, digest, env, a, b, i, j - 1);
    }
  }

  lemma {:induction false} EncodeRunJoin(
    s: State, tlvs: seq<Tlv>, digest: Data -> Hash, env: nat -> Env, out: seq<Chunk>, i: nat, m: nat, j: nat)
    requires Shape(s) && i <= m <= j <= |out|
    ensures var (s1, tlvs1) := EncodeRun(s, tlvs, digest, env, out, i, m);
            EncodeRun(s1, tlvs1, digest, env, out, m, j) == EncodeRun(s, tlvs, digest, env, out, i, j)
    decreases j
  {
    hide EncodeStep;
    if m < j {
      EncodeRunJoin(s, tlvs, digest, env, out, i, m, j - 1);
    }
  }

  lemma {:induction false} EncodeRunNone(
    s: State, tlvs: seq<Tlv>, digest: Data -> Hash, env: nat -> Env, out: seq<Chunk>)
    requires Shape(s)
    ensures EncodeRun(s, tlvs, digest, env, out, |out|, |out|) == (s, tlvs)
  {
  }

  /** What one call encoded is carried on by the next. */
  lemma {:induction false} EncodeRunCompose(
    s: State, tlvs: seq<Tlv>, digest: Data -> Hash, env: nat -> Env, k: nat,
    a: seq<Chunk>, s1: State, tlvs1: seq<Tlv>, b: seq<Chunk>, s2: State, tlvs2: seq<Tlv>)
    requires Shape(s) && Shape(s1) && k <= |a| && a <= b
    requires EncodeRun(s, tlvs, digest, env, a, k, |a|) == (s1, tlvs1)
    requires EncodeRun(s1, tlvs1, digest, env, b, |a|, |b|) == (s2, tlvs2)
    ensures EncodeRun(s, tlvs, digest, env, b, k, |b|) == (s2, tlvs2)
  {
    EncodeRunPrefix(s, tlvs, digest, env, a, b, k, |a|);
    EncodeRunJoin(s, tlvs, digest, env, b, k, |a|, |b|);
  }

  lemma {:induction false} EncodeRunOne(
    s: State, tlvs: seq<Tlv>, digest: Data -> Hash, env: nat -> Env, out: seq<Chunk>, x: Chunk)
    requires Shape(s) && |x.data| < U32
    ensures var (s', tlv) := EncodeStep(s, digest, x.data, env(|out|).fault);
            EncodeRun(s, tlvs, digest, env, out + [x], |out|, |out| + 1)
            == (s', if env(|out|).tlvOk then tlvs + [tlv] else tlvs)
  {
    hide EncodeStep;
    assert (out + [x])[|out|] == x;
    assert EncodeRun(s, tlvs, digest, env, out + [x], |out|, |out|) == (s, tlvs);
  }

  lemma {:induction false} EncodeStepRefines(s: State, recs: seq<Rec>, digest: Data -> Hash, chunk: Data, f: Fault)
    requires Represents(s, recs)
    requires f.accepted >= HDR_SIZE + |chunk| && f.insertOk
    ensures var (s', tlv) := EncodeStep(s, digest, chunk, f);
            Represents(s', EncodeOne(recs, digest, chunk).0) && tlv == EncodeOne(recs, digest, chunk).1
  {
    var hash := digest(chunk);
    FindIsCidOf(s.index, s.file, s.table, recs, hash);
    if CidOf(recs, hash) != 0 {
      IncrementRefines(s, recs, CidOf(recs, hash));
    } else {
      StoreRefines(s, recs, chunk, hash, f);
    }
  }

  /** Every write is complete, every insert takes, and TLV buffers are to be had. */
  ghost predicate Healthy(env: nat -> Env) {
    forall k :: env(k).fault.accepted >= HDR_SIZE + CHUNK_SIZE && env(k).fault.insertOk && env(k).tlvOk
  }

  lemma {:induction false} EncodeAllNext(recs: seq<Rec>, digest: Data -> Hash, chunks: seq<Data>, j: nat)
    requires 0 < j <= |chunks|
    ensures var (recs1, tlvs) := EncodeAll(recs, digest, chunks[..j - 1]);
            var (recs2, tlv) := EncodeOne(recs1, digest, chunks[j - 1]);
            EncodeAll(recs, digest, chunks[..j]) == (recs2, tlvs + [tlv])
  {
    hide EncodeOne;
    assert chunks[..j][..j - 1] == chunks[..j - 1];
  }

  /** The real store and TLVs after j chunks are those of the simple encoder. */
  ghost predicate EncodedAlike(
    s: State, recs: seq<Rec>, tlvs: seq<Tlv>, digest: Data -> Hash, env: nat -> Env, out: seq<Chunk>, j: nat)
    requires Shape(s) && j <= |out| && SizesFit(out)
  {
    var (s', tlvs') := EncodeRun(s, tlvs, digest, env, out, 0, j);
    var (recs', new_) := EncodeAll(recs, digest, ChunkData(out)[..j]);
    Represents(s', recs') && tlvs' == tlvs + new_
  }

  lemma {:induction false} OneMoreEncoded(
    s: State, recs: seq<Rec>, tlvs: seq<Tlv>, digest: Data -> Hash, env: nat -> Env, out: seq<Chunk>, j: nat)
    requires Shape(s) && 0 < j <= |out| && SizesFit(out) && Healthy(env)
    requires EncodedAlike(s, recs, tlvs, digest, env, out, j - 1)
    ensures EncodedAlike(s, recs, tlvs, digest, env, out, j)
  {
    hide Represents, EncodeStep, EncodeOne, EncodeAll;
    var chunks := ChunkData(out);
    EncodeAllNext(recs, digest, chunks, j);
    var s1 := EncodeRun(s, tlvs, digest, env, out, 0, j - 1).0;
    var recs1 := EncodeAll(recs, digest, chunks[..j - 1]).0;
    EncodeStepRefines(s1, recs1, digest, chunks[j - 1], env(j - 1).fault);
  }

  /** With a healthy environment the real store and TLVs are those of the simple encoder. */
  lemma {:induction false} EncodeRunRefines(
    s: State, recs: seq<Rec>, tlvs: seq<Tlv>, digest: Data -> Hash, env: nat -> Env, out: seq<Chunk>, j: nat)
    requires Represents(s, recs) && j <= |out| && SizesFit(out) && Healthy(env)
    ensures var (s', tlvs') := EncodeRun(s, tlvs, digest, env, out, 0, j);
            var (recs', new_) := EncodeAll(recs, digest, ChunkData(out)[..j]);
            Represents(s', recs') && tlvs' == tlvs + new_
    decreases j
  {
    assert EncodedAlike(s, recs, tlvs, digest, env, out, j) by {
      assert Shape(s);
      if j > 0 {
        EncodeRunRefines(s, recs, tlvs, digest, env, out, j - 1);
        hide Represents, EncodeRun, EncodeAll, Healthy;
        OneMoreEncoded(s, recs, tlvs, digest, env, out, j);
      }
    }
    hide Represents, EncodeRun, EncodeAll;
  }

  /** One chunk, whatever the environment does: a known hash goes out as a HIT and raises the use count of its
      record and of no other; anything else goes out whole and is stored if the environment lets it. */
  lemma {:induction false} EncodeStepSays(s: State, recs: seq<Rec>, digest: Data -> Hash, chunk: Data, f: Fault)
    requires Represents(s, recs)
    ensures var (s', tlv) := EncodeStep(s, digest, chunk, f);
            var cid := CidOf(recs, digest(chunk));
            && (cid != 0 ==> tlv == Hit(digest(chunk)) && Represents(s', recs))
            && (cid == 0 ==> tlv == Miss(chunk) && Represents(s', Stored(recs, chunk, digest(chunk), f)))
            && forall k :: 0 <= k < |recs| ==>
                 s'.index[k].refCount == if k + 1 == cid then Inc32(s.index[k].refCount) else s.index[k].refCount
  {
    var hash := digest(chunk);
    FindIsCidOf(s.index, s.file, s.table, recs, hash);
    var cid := CidOf(recs, hash);
    if cid != 0 {
      IncrementRefines(s, recs, cid);
    } else {
      StoreRefines(s, recs, chunk, hash, f);
    }
    forall k | 0 <= k < |recs|
      ensures EncodeStep(s, digest, chunk, f).0.index[k].refCount
              == if k + 1 == cid then Inc32(s.index[k].refCount) else s.index[k].refCount
    {
      if cid != 0 {
        IncrementCountsOne(s, recs, cid, k);
      } else {
        StoreCountsOne(s, recs, chunk, hash, f, k);
        assert recs[k].hash != hash;
      }
    }
  }

  /** The records after j chunks under these faults. */
  function RecsUnder(recs: seq<Rec>, digest: Data -> Hash, env: nat -> Env, out: seq<Chunk>, j: nat): seq<Rec>
    requires j <= |out|
  {
    if j == 0 then recs
    else
      var chunk := AsData(out[j - 1].data);
      Stored(RecsUnder(recs, digest, env, out, j - 1), chunk, digest(chunk), env(j - 1).fault)
  }

  /** What is built for j chunks: a HIT for each hash the records know by then, a MISS for each other chunk, and
      nothing where there is no buffer for it. */
  function TlvsUnder(recs: seq<Rec>, digest: Data -> Hash, env: nat -> Env, out: seq<Chunk>, j: nat): seq<Tlv>
    requires j <= |out|
  {
    if j == 0 then []
    else
      var chunk := AsData(out[j - 1].data);
      var known := CidOf(RecsUnder(recs, digest, env, out, j - 1), digest(chunk)) != 0;
      TlvsUnder(recs, digest, env, out, j - 1)
      + if env(j - 1).tlvOk then [if known then Hit(digest(chunk)) else Miss(chunk)] else []
  }

  /** The real store and TLVs, whatever the environment does. */
  lemma {:induction false} EncodeRunUnder(
    s: State, recs: seq<Rec>, tlvs: seq<Tlv>, digest: Data -> Hash, env: nat -> Env, out: seq<Chunk>, j: nat)
    requires Represents(s, recs) && j <= |out|
    ensures var (s', tlvs') := EncodeRun(s, tlvs, digest, env, out, 0, j);
            Represents(s', RecsUnder(recs, digest, env, out, j)) && tlvs' == tlvs + TlvsUnder(recs, digest, env, out, j)
    decreases j
  {
    assert EncodedUnder(s, recs, tlvs, digest, env, out, j) by {
      assert Shape(s);
      if j > 0 {
        EncodeRunUnder(s, recs, tlvs, digest, env, out, j - 1);
        hide Represents, EncodeRun, RecsUnder, TlvsUnder;
        OneMoreUnder(s, recs, tlvs, digest, env, out, j);
      }
    }
    hide Represents, EncodeRun, RecsUnder, TlvsUnder;
  }

  ghost predicate EncodedUnder(
    s: State, recs: seq<Rec>, tlvs: seq<Tlv>, digest: Data -> Hash, env: nat -> Env, out: seq<Chunk>, j: nat)
    requires Shape(s) && j <= |out|
  {
    var (s', tlvs') := EncodeRun(s, tlvs, digest, env, out, 0, j);
    Represents(s', RecsUnder(recs, digest, env, out, j)) && tlvs' == tlvs + TlvsUnder(recs, digest, env, out, j)
  }

  lemma {:induction false} OneMoreUnder(
    s: State, recs: seq<Rec>, tlvs: seq<Tlv>, digest: Data -> Hash, env: nat -> Env, out: seq<Chunk>, j: nat)
    requires Shape(s) && 0 < j <= |out| && EncodedUnder(s, recs, tlvs, digest, env, out, j - 1)
    ensures EncodedUnder(s, recs, tlvs, digest, env, out, j)
  {
    hide Represents, EncodeStep, Stored, CidOf, AsData;
    var chunk := AsData(out[j - 1].data);
    var now := RecsUnder(recs, digest, env, out, j - 1);
    EncodeStepSays(EncodeRun(s, tlvs, digest, env, out, 0, j - 1).0, now, digest, chunk, env(j - 1).fault);
    if CidOf(now, digest(chunk)) != 0 {
      KnownIsKept(now, chunk, digest(chunk), env(j - 1).fault);
    }
  }

  lemma {:induction false} KnownIsKept(recs: seq<Rec>, data: Data, hash: Hash, f: Fault)
    requires CidOf(recs, hash) != 0
    ensures Stored(recs, data, hash, f) == recs
  {
  }

  /** In a healthy environment, record j on the wire is a HIT exactly if the hash of chunk j was held at the start or an
      earlier chunk with it was kept. */
  lemma {:induction false} HitsOnWire(
    s: State, recs: seq<Rec>, digest: Data -> Hash, env: nat -> Env, out: seq<Chunk>, j: nat)
    requires Represents(s, recs) && SizesFit(out) && Healthy(env) && j < |out|
    ensures var tlvs, chunks := EncodeRun(s, [], digest, env, out, 0, |out|).1, ChunkData(out);
            && |tlvs| == |out|
            && tlvs[j] == if Known(recs, digest, chunks, j, digest(chunks[j])) then Hit(digest(chunks[j]))
                          else Miss(chunks[j])
  {
    hide Represents, EncodeRun, EncodeAll, Known, WellFormed, Healthy, SizesFit;
    RepresentedIsWellFormed(s, recs);
    EncodeRunRefines(s, recs, [], digest, env, out, |out|);
    assert ChunkData(out)[..|out|] == ChunkData(out);
    HitIff(recs, digest, ChunkData(out), j);
  }

  /** The state after n of the bytes were taken: when bytes remain, a full buffer was still emitted
      before the pool turned out to be empty. */
  function FedTo<R>(c: Cdc<R>, s: Conn<R>, bs: seq<byte>, n: nat): Conn<R>
    requires n <= |bs|
  {
    if n == |bs| then Feed(c, s, bs) else Drained(c, Feed(c, s, bs[..n]))
  }

  // ---------------------------------------------------------------- the buffer pool

  class ChunkPool {
    ghost const all: set<array<byte>>
    var free: set<array<byte>>

    ghost predicate Valid()
      reads this
    {
      free <= all && forall b :: b in all ==> b.Length == CHUNK_SIZE
    }

    constructor (buffers: set<array<byte>>)
      requires forall b :: b in buffers ==> b.Length == CHUNK_SIZE
      ensures Valid() && all == free == buffers
    {
      all, free := buffers, buffers;
    }

    /** Any free buffer, or null when there is none. */
    method Get() returns (b: array?<byte>)
      requires Valid()
      modifies this
      ensures Valid()
      ensures old(free) == {} ==> b == null && free == {}
      ensures old(free) != {} ==> b != null && b in old(free) && free == old(free) - {b}
    {
      if free == {} {
        return null;
      }
      var x :| x in free;
      free := free - {x};
      b := x;
    }

    method Put(b: array<byte>)
      requires Valid() && b in all
      modifies this
      ensures Valid() && free == old(free) + {b}
    {
      free := free + {b};
    }
  }

  // ---------------------------------------------------------------- one connection

  class Connection<R(!new)> {
    const pool: ChunkPool
    const store: DedupStore
    const digest: Data -> Hash
    const cdc: Cdc<R>
    const env: nat -> Env
    var data: array?<byte>
    var used: nat
    var timer: nat
    var rabin: R
    var stats: Stats
    var pending: seq<Tlv>
    var emitted: nat
    ghost var out: seq<Chunk>
    /** All TLVs ever built, and those already taken away. */
    ghost var built: seq<Tlv>
    ghost var taken: seq<Tlv>

    ghost predicate Inv()
      reads this, pool, store, store.index, store.file
    {
      && pool.Valid()
      && Shape(store.View())
      && (used > 0 ==> data != null)
      && (data != null ==> data in pool.all && data !in pool.free && used <= CHUNK_SIZE == data.Length)
      && emitted == |out|
      && taken + pending == built
    }

    /** Between calls a buffer is held exactly while bytes are waiting. */
    ghost predicate Idle()
      reads this, pool, store, store.index, store.file
    {
      Inv() && (data != null ==> used > 0)
    }

    ghost function View(): Conn<R>
      reads this, data
      requires used > 0 ==> data != null && used <= data.Length
    {
      Conn(if used == 0 then [] else data[..used], timer, rabin, stats, out)
    }

    ghost function Held(): set<array<byte>>
      reads this
    {
      if data == null then {} else {data}
    }

    /** The buffers this connection and the pool have between them. */
    ghost function Buffers(): set<array<byte>>
      reads this, pool
    {
      Held() + pool.free
    }

    /** The chunks emitted since there were k have been encoded against the store. */
    ghost predicate EncodedSince(s: State, tlvs: seq<Tlv>, k: nat)
      reads this, store, store.index, store.file
      requires Shape(s)
    {
      k <= |out| && EncodeRun(s, tlvs, digest, env, out, k, |out|) == (store.View(), built)
    }

    constructor (pool: ChunkPool, store: DedupStore, digest: Data -> Hash, cdc: Cdc<R>, env: nat -> Env, init: R)
      requires pool.Valid() && Shape(store.View())
      ensures this.pool == pool && this.store == store && this.digest == digest && this.cdc == cdc && this.env == env
      ensures Idle() && data == null && built == taken == []
      ensures View() == Conn([], 0, init, Stats(0, 0, 0, 0, 0), [])
    {
      this.pool, this.store, this.digest, this.cdc, this.env := pool, store, digest, cdc, env;
      data, used, timer, rabin, stats, pending, emitted := null, 0, 0, init, Stats(0, 0, 0, 0, 0), [], 0;
      out, built, taken := [], [], [];
    }

    method LookupAndBuildTlv(chunk: Data, fault: Fault) returns (tlv: Tlv)
      requires Shape(store.View())
      modifies store, store.index, store.file
      ensures (store.View(), tlv) == EncodeStep(old(store.View()), digest, chunk, fault)
    {
      var hash := digest(chunk);
      var cid := store.FindByHash(hash);
      if cid != 0 {
        store.IncrementRef(cid);
        tlv := Hit(hash);
      } else {
        cid := store.StoreChunk(chunk, hash, fault);
        tlv := Miss(chunk);
      }
    }

    /** Encode one chunk against the store and queue its TLV, if there is a packet buffer for it. */
    method EncodeChunk(chunk: Data, kind: Kind)
      requires Shape(store.View()) && emitted == |out| && taken + pending == built
      modifies `pending, `built, `emitted, `out, store, store.index, store.file
      ensures Shape(store.View()) && emitted == |out| && taken + pending == built
      ensures out == old(out) + [Chunk(chunk, kind)]
      ensures EncodedSince(old(store.View()), old(built), |old(out)|)
    {
      hide EncodeStep, EncodeRun;
      var e := env(emitted);
      EncodeRunOne(store.View(), built, digest, env, out, Chunk(chunk, kind));
      var tlv := LookupAndBuildTlv(chunk, e.fault);
      if e.tlvOk {
        pending := pending + [tlv];
        built := built + [tlv];
      }
      emitted := emitted + 1;
      out := out + [Chunk(chunk, kind)];
    }

    /** Emit the bytes that wait: encode them, give the buffer back, stop the timer. Here and below,
        s, tlvs and k say since when the encoding is accounted for. */
    method EmitBuffer(kind: Kind, ghost s: State, ghost tlvs: seq<Tlv>, ghost k: nat)
      requires Inv() && used > 0
      requires Shape(s) && EncodedSince(s, tlvs, k)
      modifies this, pool, store, store.index, store.file
      ensures Inv() && View() == Process(cdc, old(View()), kind)
      ensures EncodedSince(s, tlvs, k)
      ensures data == null && pool.free == old(pool.free + Held()) && taken == old(taken)
    {
      hide EncodeRun, Shape, Counted;
      ghost var s1, tlvs1, out1 := store.View(), built, out;
      EncodeChunk(data[..used], kind);
      EncodeRunCompose(s, tlvs, digest, env, k, out1, s1, tlvs1, out, store.View(), built);
      stats := Counted(stats, kind);
      pool.Put(data);
      data, used := null, 0;
      timer := 0;
      rabin := cdc.reset(rabin);
    }

    method ProcessChunk(kind: Kind, ghost s: State, ghost tlvs: seq<Tlv>, ghost k: nat)
      requires Inv()
      requires Shape(s) && EncodedSince(s, tlvs, k)
      modifies this, pool, store, store.index, store.file
      ensures Inv() && View() == Process(cdc, old(View()), kind)
      ensures EncodedSince(s, tlvs, k)
      ensures Held() == if old(used) > 0 then {} else old(Held())
      ensures pool.free == if old(used) > 0 then old(pool.free + Held()) else old(pool.free)
      ensures taken == old(taken)
    {
      if used != 0 {
        EmitBuffer(kind, s, tlvs, k);
      }
    }

    /** Make sure there is a buffer with room for a byte, emitting a full one first. */
    method MakeRoom(ghost s: State, ghost tlvs: seq<Tlv>, ghost k: nat) returns (ok: bool)
      requires Inv()
      requires Shape(s) && EncodedSince(s, tlvs, k)
      modifies this, pool, store, store.index, store.file
      ensures Inv() && View() == Drained(cdc, old(View()))
      ensures EncodedSince(s, tlvs, k)
      ensures if ok then data != null && used < CHUNK_SIZE else data == null && used == 0
      ensures old(data) != null || old(pool.free) != {} ==> ok
      ensures Buffers() == old(Buffers())
      ensures Held() <= old(Buffers())
      ensures taken == old(taken)
    {
      hide EncodeRun, Shape;
      if used >= CHUNK_SIZE {
        ProcessChunk(MaxSized, s, tlvs, k);
      }
      if data == null {
        data := pool.Get();
      }
      ok := data != null;
    }

    /** Put the byte into the buffer and act on the detector's verdict. */
    method Place(b: byte, ghost s: State, ghost tlvs: seq<Tlv>, ghost k: nat)
      requires Inv() && data != null && used < CHUNK_SIZE
      requires Shape(s) && EncodedSince(s, tlvs, k)
      modifies this, pool, data, store, store.index, store.file
      ensures Idle() && View() == Placed(cdc, old(View()), b)
      ensures EncodedSince(s, tlvs, k)
      ensures Buffers() == old(Buffers())
      ensures Held() <= old(Held())
      ensures taken == old(taken)
    {
      hide EncodeRun, Shape;
      ghost var v := View();
      data[used] := b;
      used := used + 1;
      assert data[..used] == v.cur + [b];
      stats := stats.(bytes := Inc32(stats.bytes));
      var (next, found) := cdc.feed(rabin, b, used);
      rabin := next;
      assert View() == v.(cur := v.cur + [b], rabin := next, stats := v.stats.(bytes := Inc32(v.stats.bytes)));
      hide Counted;
      match found {
        case Found => ProcessChunk(Full, s, tlvs, k);
        case FoundStrong => ProcessChunk(Full, s, tlvs, k);
        case FoundMax => ProcessChunk(MaxSized, s, tlvs, k);
        case Continue =>
      }
    }

    /** One byte; `ok` is false when no buffer is to be had, and then the byte is not taken. */
    method FeedOne(b: byte, ghost s: State, ghost tlvs: seq<Tlv>, ghost k: nat) returns (ok: bool)
      requires Idle()
      requires Shape(s) && EncodedSince(s, tlvs, k)
      modifies this, pool, pool.free, data, store, store.index, store.file
      ensures Idle()
      ensures View() == if ok then FeedByte(cdc, old(View()), b) else Drained(cdc, old(View()))
      ensures EncodedSince(s, tlvs, k)
      ensures !ok ==> used == 0 && old(Buffers()) == {}
      ensures Buffers() == old(Buffers()) && taken == old(taken)
    {
      hide EncodeRun, Shape, Placed, Drained;
      ok := MakeRoom(s, tlvs, k);
      if ok {
        assert data == old(data) || data in old(pool.free);
        Place(b, s, tlvs, k);
      }
    }

    /** The byte loop, as far as buffers are to be had. */
    method FeedBytes(bytes: seq<byte>, ghost s: State, ghost tlvs: seq<Tlv>, ghost k: nat) returns (n: nat)
      requires Idle()
      requires Shape(s) && EncodedSince(s, tlvs, k)
      modifies this, pool, pool.free, data, store, store.index, store.file
      ensures Idle() && n <= |bytes|
      ensures View() == FedTo(cdc, old(View()), bytes, n)
      ensures EncodedSince(s, tlvs, k)
      ensures n < |bytes| ==> used == 0 && old(Buffers()) == {}
      ensures Buffers() == old(Buffers()) && taken == old(taken)
    {
      hide EncodeRun, Shape, FeedByte, Drained;
      ghost var v := View();
      ghost var buffers := Buffers();
      n := 0;
      while n < |bytes|
        invariant Idle() && n <= |bytes|
        invariant View() == Feed(cdc, v, bytes[..n])
        invariant EncodedSince(s, tlvs, k)
        invariant Buffers() == buffers && taken == old(taken)
      {
        FeedSnoc(cdc, v, bytes, n);
        assert data != null ==> data in buffers;
        var ok := FeedOne(bytes[n], s, tlvs, k);
        if !ok {
          return;
        }
        n := n + 1;
      }
      assert bytes[..|bytes|] == bytes;
    }

    /** Add the bytes of one packet; stop early when the pool runs dry, and then do not arm the timer. */
    method AddData(bytes: seq<byte>) returns (total: nat)
      requires Idle()
      modifies this, pool, pool.free, data, store, store.index, store.file
      ensures Idle() && total <= |bytes|
      ensures View() == Step(cdc, old(View()), if total == |bytes| then AddOp(bytes) else DryOp(bytes[..total]))
      ensures total < |bytes| ==> used == 0 && old(Buffers()) == {}
      ensures EncodedSince(old(store.View()), old(built), |old(out)|)
      ensures Buffers() == old(Buffers()) && taken == old(taken)
      ensures old(Resting(View())) ==> Resting(View())
    {
      EncodeRunNone(store.View(), built, digest, env, out);
      AddRests(cdc, View(), bytes);
      hide EncodeRun, Shape, Feed, SizesFit;
      total := FeedBytes(bytes, store.View(), built, |out|);
      if total == |bytes| && used > 0 && timer == 0 {
        timer := INACTIVITY_TICKS;
      }
    }

    method TimerCheck()
      requires Idle()
      modifies this, pool, store, store.index, store.file
      ensures Idle() && View() == Tick(cdc, old(View()))
      ensures EncodedSince(old(store.View()), old(built), |old(out)|)
      ensures Buffers() == old(Buffers()) && Held() <= old(Held()) && taken == old(taken)
      ensures old(Resting(View())) ==> Resting(View())
    {
      EncodeRunNone(store.View(), built, digest, env, out);
      hide EncodeRun, Shape;
      if timer == 0 {
        return;
      }
      timer := timer - 1;
      if timer == 0 && used > 0 {
        ProcessChunk(Partial, old(store.View()), old(built), |old(out)|);
      }
    }

    method FlushChunk()
      requires Idle()
      modifies this, pool, store, store.index, store.file
      ensures Idle() && View() == Flush(cdc, old(View()))
      ensures EncodedSince(old(store.View()), old(built), |old(out)|)
      ensures Buffers() == old(Buffers()) && Held() <= old(Held()) && taken == old(taken)
      ensures old(Resting(View())) ==> Resting(View())
    {
      EncodeRunNone(store.View(), built, digest, env, out);
      hide EncodeRun, Shape;
      if used != 0 {
        ProcessChunk(Partial, old(store.View()), old(built), |old(out)|);
      }
    }

    /** Detach the pending TLVs; what was taken so far, followed by what is pending, is all that was built. */
    method TakePending() returns (tlvs: seq<Tlv>)
      requires Idle()
      modifies this
      ensures Idle() && View() == old(View()) && data == old(data) && built == old(built)
      ensures tlvs == old(pending) && pending == [] && taken == old(taken) + tlvs == built
    {
      tlvs := pending;
      pending := [];
      taken := taken + tlvs;
    }
  }

  /** A call leaves the timer running exactly while bytes wait, also when the pool ran dry in it. */
  lemma {:induction false} AddRests<R>(c: Cdc<R>, s: Conn<R>, bs: seq<byte>)
    ensures Resting(s) ==> Resting(Add(c, s, bs))
    ensures Resting(s) ==> forall n :: 0 <= n <= |bs| && FedTo(c, s, bs, n).cur == [] ==> Resting(FedTo(c, s, bs, n))
  {
    if Resting(s) {
      FeedKeeps(c, s, bs);
      forall n | 0 <= n <= |bs| && FedTo(c, s, bs, n).cur == [] ensures Resting(FedTo(c, s, bs, n)) {
        FeedKeeps(c, s, bs[..n]);
      }
    }
  }

  // ---------------------------------------------------------------- many connections, one pool

  /** All connections use the same pool and store, and no two hold the same buffer. */
  ghost predicate Apart<R(!new)>(conns: set<Connection<R>>, pool: ChunkPool, store: DedupStore)
    reads conns, pool, store, store.index, store.file
  {
    && (forall c :: c in conns ==> c.pool == pool && c.store == store && c.Idle())
    && (forall c, d :: c in conns && d in conns && c != d && c.data != null ==> c.data != d.data)
  }

  /** Data for one connection touches neither the others' state nor their buffers, and all stay apart. */
  method AddDataAmong<R(!new)>(ghost conns: set<Connection<R>>, c: Connection<R>, bytes: seq<byte>) returns (total: nat)
    requires c in conns && Apart(conns, c.pool, c.store)
    modifies c, c.pool, c.pool.free, c.data, c.store, c.store.index, c.store.file
    ensures Apart(conns, c.pool, c.store)
    ensures forall d :: d in conns && d != c ==> unchanged(d) && (d.data != null ==> d.data[..] == old(d.data[..]))
    ensures forall d :: d in conns && d != c ==> d.View() == old(d.View())
  {
    total := c.AddData(bytes);
    assert c.data != null ==> c.data in c.Buffers();
  }

  method TimerCheckAmong<R(!new)>(ghost conns: set<Connection<R>>, c: Connection<R>)
    requires c in conns && Apart(conns, c.pool, c.store)
    modifies c, c.pool, c.store, c.store.index, c.store.file
    ensures Apart(conns, c.pool, c.store)
    ensures forall d :: d in conns && d != c ==> unchanged(d) && d.View() == old(d.View())
  {
    c.TimerCheck();
  }

  lemma {:induction false} FeedSnoc<R>(c: Cdc<R>, s: Conn<R>, bs: seq<byte>, n: nat)
    requires n < |bs|
    ensures Feed(c, s, bs[..n + 1]) == FeedByte(c, Feed(c, s, bs[..n]), bs[n])
  {
    assert bs[..n + 1][..n] == bs[..n];
  }

  // ---------------------------------------------------------------- the receiving side

  /** What the store holds under a hash, read into the buffer. */
  method FindAndRead(store: DedupStore, hash: Hash, buf: array<byte>, ghost recs: seq<Rec>) returns (d: Decoded)
    requires Represents(store.View(), recs)
    modifies store.file`pos, buf
    ensures store.View() == old(store.View())
    ensures var cid := CidOf(recs, hash);
            d == if cid == 0 || |recs[cid - 1].data| > buf.Length then Unknown else Bytes(recs[cid - 1].data)
  {
    FindIsCidOf(store.index[..], store.file.bytes, store.table, recs, hash);
    RepresentedIsWellFormed(store.View(), recs);
    var cid := store.FindByHash(hash);
    ReadRefines(store.View(), recs, cid, buf.Length);
    hide IndexHolds, TableHolds, FindLocked, ReadStep, CidOf;
    var n := store.ReadChunk(cid, buf);
    d := if n == 0 then Unknown else Bytes(buf[..n]);
  }

  /** A HIT is found by hash and read into the buffer; a MISS is stored and passed on. */
  method Receive(store: DedupStore, digest: Data -> Hash, tlv: Tlv, buf: array<byte>, ghost recs: seq<Rec>)
    returns (d: Decoded)
    requires Represents(store.View(), recs)
    modifies store, store.index, store.file, buf
    ensures var (recs', d') := DecodeOne(recs, digest, buf.Length, tlv);
            Represents(store.View(), recs') && d == d'
  {
    match tlv {
      case Hit(hash) =>
        d := FindAndRead(store, hash, buf, recs);
      case Miss(data) =>
        StoreRefines(store.View(), recs, data, digest(data), NoFault(data));
        hide Represents, StoreStep, Stored;
        var cid := store.StoreChunk(data, digest(data), NoFault(data));
        d := Bytes(data);
    }
  }
}
