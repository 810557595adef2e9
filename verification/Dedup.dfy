/** Sender and receiver of the byte cache: chunks become TLVs through one store and bytes again through another. */
module Dedup {
  import opened Bytes
  import opened ChunkStore
  import Chunker

  datatype Tlv = Hit(hash: Hash) | Miss(data: Data)

  /** The environment at its best: the write and the insert succeed. */
  function NoFault(data: Data): Fault {
    Fault(HDR_SIZE + |data|, true)
  }

  /** Encoding one chunk: HIT if the store knows its hash, else store it and send it whole. */
  function EncodeOne(recs: seq<Rec>, digest: Data -> Hash, chunk: Data): (seq<Rec>, Tlv) {
    var hash := digest(chunk);
    if CidOf(recs, hash) != 0 then (recs, Hit(hash))
    else (Stored(recs, chunk, hash, NoFault(chunk)), Miss(chunk))
  }

  datatype Decoded = Unknown | Bytes(data: Data)

  /** Decoding one TLV: a HIT is found by hash and read back into a buffer of `room` bytes; a MISS is stored. */
  function DecodeOne(recs: seq<Rec>, digest: Data -> Hash, room: nat, tlv: Tlv): (seq<Rec>, Decoded) {
    match tlv
    case Hit(hash) =>
      var cid := CidOf(recs, hash);
      (recs, if cid == 0 || |recs[cid - 1].data| > room then Unknown else Bytes(recs[cid - 1].data))
    case Miss(data) => (Stored(recs, data, digest(data), NoFault(data)), Bytes(data))
  }

  function EncodeAll(recs: seq<Rec>, digest: Data -> Hash, chunks: seq<Data>): (seq<Rec>, seq<Tlv>) {
    if chunks == [] then (recs, [])
    else
      var (recs1, tlvs) := EncodeAll(recs, digest, chunks[..|chunks| - 1]);
      var (recs2, tlv) := EncodeOne(recs1, digest, chunks[|chunks| - 1]);
      (recs2, tlvs + [tlv])
  }

  function DecodeAll(recs: seq<Rec>, digest: Data -> Hash, room: nat, tlvs: seq<Tlv>): (seq<Rec>, seq<Decoded>) {
    if tlvs == [] then (recs, [])
    else
      var (recs1, outs) := DecodeAll(recs, digest, room, tlvs[..|tlvs| - 1]);
      var (recs2, d) := DecodeOne(recs1, digest, room, tlvs[|tlvs| - 1]);
      (recs2, outs + [d])
  }

  // ---------------------------------------------------------------- two stores with the same contents

  /** Equal as maps from hash to data, whatever the ids and the order. */
  ghost predicate SameContents(a: seq<Rec>, b: seq<Rec>) {
    && (forall r :: r in a ==> r in b)
    && (forall r :: r in b ==> r in a)
  }

  /** Every record stands under the hash of its data, and all data comes from `pool`. */
  ghost predicate Honest(recs: seq<Rec>, digest: Data -> Hash, pool: set<Data>) {
    forall r :: r in recs ==> r.hash == digest(r.data) && r.data in pool
  }

  /** No two different chunks of the pool have the same hash. */
  ghost predicate CollisionFree(digest: Data -> Hash, pool: set<Data>) {
    forall x, y :: x in pool && y in pool && digest(x) == digest(y) ==> x == y
  }

  ghost function AsSet(recs: seq<Rec>): set<Rec> {
    set r | r in recs
  }

  lemma {:induction false} DistinctSize(recs: seq<Rec>)
    requires DistinctHashes(recs)
    ensures |AsSet(recs)| == |recs|
  {
    if recs != [] {
      var n := |recs| - 1;
      DistinctSize(recs[..n]);
      assert AsSet(recs) == AsSet(recs[..n]) + {recs[n]};
      assert recs[n] !in recs[..n];
    }
  }

  lemma {:induction false} SameSize(a: seq<Rec>, b: seq<Rec>)
    requires DistinctHashes(a) && DistinctHashes(b) && SameContents(a, b)
    ensures |a| == |b|
  {
    DistinctSize(a);
    DistinctSize(b);
    assert AsSet(a) == AsSet(b);
  }

  /** The two stores answer every hash alike. */
  lemma {:induction false} SameAnswers(a: seq<Rec>, b: seq<Rec>, hash: Hash)
    requires DistinctHashes(a) && DistinctHashes(b) && SameContents(a, b)
    ensures CidOf(a, hash) == 0 <==> CidOf(b, hash) == 0
    ensures CidOf(a, hash) != 0 ==> a[CidOf(a, hash) - 1] == b[CidOf(b, hash) - 1]
  {
    if CidOf(a, hash) != 0 {
      var r := a[CidOf(a, hash) - 1];
      assert r in a && r in b;
      var j :| 0 <= j < |b| && b[j] == r;
      CidOfPosition(b, j);
    }
    if CidOf(b, hash) != 0 {
      var r := b[CidOf(b, hash) - 1];
      assert r in b && r in a;
    }
  }

  lemma {:induction false} StoredAlike(a: seq<Rec>, b: seq<Rec>, data: Data, hash: Hash)
    requires WellFormed(a) && WellFormed(b) && SameContents(a, b)
    ensures SameContents(Stored(a, data, hash, NoFault(data)), Stored(b, data, hash, NoFault(data)))
  {
    SameSize(a, b);
    SameAnswers(a, b, hash);
  }

  /** One chunk through both stores: the receiver gets the chunk, and the stores stay alike. */
  lemma {:induction false} OneChunk(
    a: seq<Rec>, b: seq<Rec>, digest: Data -> Hash, pool: set<Data>, room: nat, chunk: Data)
    requires WellFormed(a) && WellFormed(b) && SameContents(a, b)
    requires Honest(a, digest, pool) && CollisionFree(digest, pool) && chunk in pool
    requires |chunk| <= room
    ensures var (a', tlv) := EncodeOne(a, digest, chunk);
            var (b', d) := DecodeOne(b, digest, room, tlv);
            && d == Bytes(chunk)
            && WellFormed(a') && WellFormed(b') && SameContents(a', b') && Honest(a', digest, pool)
  {
    var hash := digest(chunk);
    SameAnswers(a, b, hash);
    if CidOf(a, hash) != 0 {
      var r := a[CidOf(a, hash) - 1];
      assert r in a;
      assert r.data == chunk;
    } else {
      StoredAlike(a, b, chunk, hash);
      StoredWellFormed(a, chunk, hash, NoFault(chunk));
      StoredWellFormed(b, chunk, hash, NoFault(chunk));
    }
  }

  function AsBytes(chunks: seq<Data>): seq<Decoded> {
    seq(|chunks|, i requires 0 <= i < |chunks| => Bytes(chunks[i]))
  }

  /** The cache is transparent: whatever the stores held at first, as long as it was the same, and
      even when both are full, the receiver reconstructs every chunk, and the stores stay the same. */
  lemma {:induction false} CacheIsTransparent(
    a: seq<Rec>, b: seq<Rec>, digest: Data -> Hash, pool: set<Data>, room: nat, chunks: seq<Data>)
    requires WellFormed(a) && WellFormed(b) && SameContents(a, b)
    requires Honest(a, digest, pool) && CollisionFree(digest, pool)
    requires forall i :: 0 <= i < |chunks| ==> chunks[i] in pool && |chunks[i]| <= room
    ensures var (a', tlvs) := EncodeAll(a, digest, chunks);
            var (b', outs) := DecodeAll(b, digest, room, tlvs);
            && outs == AsBytes(chunks)
            && WellFormed(a') && WellFormed(b') && SameContents(a', b') && Honest(a', digest, pool)
  {
    hide WellFormed, SameContents, Honest, EncodeOne, DecodeOne;
    if chunks != [] {
      var init, last := chunks[..|chunks| - 1], chunks[|chunks| - 1];
      CacheIsTransparent(a, b, digest, pool, room, init);
      var (a1, tlvs1) := EncodeAll(a, digest, init);
      var (b1, outs1) := DecodeAll(b, digest, room, tlvs1);
      OneChunk(a1, b1, digest, pool, room, last);
      var (a2, tlv) := EncodeOne(a1, digest, last);
      assert (tlvs1 + [tlv])[..|tlvs1|] == tlvs1;
      assert AsBytes(chunks) == AsBytes(init) + [Bytes(last)];
    }
  }

  /** A hash decodes to the bytes stored under it, or, when nothing is or they exceed the buffer, to nothing; the store
      stays as it is. */
  lemma {:induction false} HitDecodes(recs: seq<Rec>, digest: Data -> Hash, room: nat, hash: Hash)
    requires WellFormed(recs)
    ensures var (recs', d) := DecodeOne(recs, digest, room, Hit(hash));
            && recs' == recs
            && (d == Unknown <==> forall i :: 0 <= i < |recs| && recs[i].hash == hash ==> |recs[i].data| > room)
            && (d.Bytes? ==> Rec(hash, d.data) in recs)
  {
    var cid := CidOf(recs, hash);
    if cid != 0 {
      assert recs[cid - 1] == Rec(hash, recs[cid - 1].data);
    }
  }

  // ---------------------------------------------------------------- which chunks are sent as hashes

  ghost function HashesOf(recs: seq<Rec>): set<Hash> {
    set i | 0 <= i < |recs| :: recs[i].hash
  }

  /** The hashes held at the start and those of the first j chunks; an empty chunk is never stored. */
  ghost function Offered(recs: seq<Rec>, digest: Data -> Hash, chunks: seq<Data>, j: nat): set<Hash>
    requires j <= |chunks|
  {
    if j == 0 then HashesOf(recs)
    else Offered(recs, digest, chunks, j - 1) + if chunks[j - 1] == [] then {} else {digest(chunks[j - 1])}
  }

  /** Chunk i was not empty, and the store was not full when it came. */
  ghost predicate Kept(recs: seq<Rec>, digest: Data -> Hash, chunks: seq<Data>, i: nat)
    requires i < |chunks|
  {
    chunks[i] != [] && |Offered(recs, digest, chunks, i)| < MAX_CHUNKS
  }

  /** The hash was held at the start, or belongs to one of the first j chunks that was kept. */
  ghost predicate Known(recs: seq<Rec>, digest: Data -> Hash, chunks: seq<Data>, j: nat, hash: Hash)
    requires j <= |chunks|
  {
    hash in HashesOf(recs) || exists i :: 0 <= i < j && Kept(recs, digest, chunks, i) && digest(chunks[i]) == hash
  }

  /** The sender's records after the first j chunks. */
  function RecsAt(recs: seq<Rec>, digest: Data -> Hash, chunks: seq<Data>, j: nat): seq<Rec>
    requires j <= |chunks|
  {
    EncodeAll(recs, digest, chunks[..j]).0
  }

  lemma {:induction false} EncodeNext(recs: seq<Rec>, digest: Data -> Hash, chunks: seq<Data>, j: nat)
    requires j < |chunks|
    ensures var (recs', tlv) := EncodeOne(RecsAt(recs, digest, chunks, j), digest, chunks[j]);
            && RecsAt(recs, digest, chunks, j + 1) == recs'
            && EncodeAll(recs, digest, chunks[..j + 1]).1 == EncodeAll(recs, digest, chunks[..j]).1 + [tlv]
  {
    hide EncodeOne;
    assert chunks[..j + 1][..j] == chunks[..j];
  }

  lemma {:induction false} HoldsIff(recs: seq<Rec>, hash: Hash)
    ensures CidOf(recs, hash) != 0 <==> hash in HashesOf(recs)
  {
    var cid := CidOf(recs, hash);
    if cid != 0 {
      assert recs[cid - 1].hash == hash;
    }
  }

  lemma {:induction false} HashesMore(recs: seq<Rec>, r: Rec)
    ensures HashesOf(recs + [r]) == HashesOf(recs) + {r.hash}
  {
    var more := recs + [r];
    assert forall i :: 0 <= i < |recs| ==> more[i] == recs[i];
    assert more[|recs|] == r;
  }

  lemma {:induction false} OfferedGrows(recs: seq<Rec>, digest: Data -> Hash, chunks: seq<Data>, i: nat, j: nat)
    requires i <= j <= |chunks|
    ensures |Offered(recs, digest, chunks, i)| <= |Offered(recs, digest, chunks, j)|
  {
    if i < j {
      OfferedGrows(recs, digest, chunks, i, j - 1);
      Larger(Offered(recs, digest, chunks, j - 1), Offered(recs, digest, chunks, j));
    }
  }

  lemma {:induction false} Larger<T>(a: set<T>, b: set<T>)
    requires a <= b
    ensures |a| <= |b|
  {
    assert b == a + (b - a);
  }

  /** As long as the store is not full, everything offered is known. */
  lemma {:induction false} OfferedIsKnown(recs: seq<Rec>, digest: Data -> Hash, chunks: seq<Data>, j: nat, hash: Hash)
    requires j <= |chunks| && |Offered(recs, digest, chunks, j)| < MAX_CHUNKS
             && hash in Offered(recs, digest, chunks, j)
    ensures Known(recs, digest, chunks, j, hash)
  {
    if j > 0 {
      OfferedGrows(recs, digest, chunks, j - 1, j);
      if hash in Offered(recs, digest, chunks, j - 1) {
        OfferedIsKnown(recs, digest, chunks, j - 1, hash);
      } else {
        assert Kept(recs, digest, chunks, j - 1) && digest(chunks[j - 1]) == hash;
      }
    }
  }

  lemma {:induction false} KnownIsOffered(recs: seq<Rec>, digest: Data -> Hash, chunks: seq<Data>, j: nat, hash: Hash)
    requires j <= |chunks| && Known(recs, digest, chunks, j, hash)
    ensures hash in Offered(recs, digest, chunks, j)
  {
    if j > 0 && hash !in HashesOf(recs) {
      var i :| 0 <= i < j && Kept(recs, digest, chunks, i) && digest(chunks[i]) == hash;
      if i < j - 1 {
        KnownIsOffered(recs, digest, chunks, j - 1, hash);
      }
    } else if j > 0 {
      KnownIsOffered(recs, digest, chunks, j - 1, hash);
    }
  }

  /** After j chunks the store holds exactly the known hashes; it has as many records as hashes were offered,
      or is full. */
  ghost predicate HoldsKnown(recs: seq<Rec>, digest: Data -> Hash, chunks: seq<Data>, j: nat, now: seq<Rec>)
    requires j <= |chunks|
  {
    && |now| == Min(MAX_CHUNKS, |Offered(recs, digest, chunks, j)|)
    && forall h: Hash :: h in HashesOf(now) <==> Known(recs, digest, chunks, j, h)
  }

  lemma {:induction false} KnownNext(recs: seq<Rec>, digest: Data -> Hash, chunks: seq<Data>, j: nat, h: Hash)
    requires j < |chunks|
    ensures Known(recs, digest, chunks, j + 1, h)
            <==> Known(recs, digest, chunks, j, h) || (Kept(recs, digest, chunks, j) && h == digest(chunks[j]))
  {
    hide Kept;
  }

  lemma {:induction false} HoldsNext(recs: seq<Rec>, digest: Data -> Hash, chunks: seq<Data>, j: nat, now: seq<Rec>)
    requires j < |chunks| && |now| <= MAX_CHUNKS && HoldsKnown(recs, digest, chunks, j, now)
    ensures HoldsKnown(recs, digest, chunks, j + 1, EncodeOne(now, digest, chunks[j]).0)
  {
    hide Known, CidOf, HashesOf;
    var x := chunks[j];
    var h := digest(x);
    var old', new' := Offered(recs, digest, chunks, j), Offered(recs, digest, chunks, j + 1);
    forall g: Hash ensures Known(recs, digest, chunks, j + 1, g)
                           <==> Known(recs, digest, chunks, j, g) || (Kept(recs, digest, chunks, j) && g == h) {
      KnownNext(recs, digest, chunks, j, g);
    }
    HoldsIff(now, h);
    Larger(old', new');
    if h in HashesOf(now) {
      KnownIsOffered(recs, digest, chunks, j, h);
      assert new' == old';
    } else if x != [] && |now| < MAX_CHUNKS {
      HashesMore(now, Rec(h, x));
      if h in old' {
        OfferedIsKnown(recs, digest, chunks, j, h);
      }
    }
  }

  lemma {:induction false} HoldsAtFirst(recs: seq<Rec>, digest: Data -> Hash, chunks: seq<Data>)
    requires WellFormed(recs)
    ensures HoldsKnown(recs, digest, chunks, 0, recs)
  {
    HashCount(recs);
  }

  lemma {:induction false} HashCount(recs: seq<Rec>)
    requires DistinctHashes(recs)
    ensures |HashesOf(recs)| == |recs|
  {
    if recs != [] {
      var n := |recs| - 1;
      HashCount(recs[..n]);
      HashesMore(recs[..n], recs[n]);
      assert recs == recs[..n] + [recs[n]];
      assert recs[n].hash !in HashesOf(recs[..n]);
    }
  }

  lemma {:induction false} RecsHold(recs: seq<Rec>, digest: Data -> Hash, chunks: seq<Data>, j: nat)
    requires WellFormed(recs) && j <= |chunks|
    ensures HoldsKnown(recs, digest, chunks, j, RecsAt(recs, digest, chunks, j))
  {
    hide HoldsKnown, EncodeOne, WellFormed;
    if j == 0 {
      assert chunks[..0] == [];
      HoldsAtFirst(recs, digest, chunks);
    } else {
      RecsHold(recs, digest, chunks, j - 1);
      EncodeNext(recs, digest, chunks, j - 1);
      hide EncodeAll, RecsAt;
      AtMostFull(recs, digest, chunks, j - 1, RecsAt(recs, digest, chunks, j - 1));
      HoldsNext(recs, digest, chunks, j - 1, RecsAt(recs, digest, chunks, j - 1));
    }
  }

  lemma {:induction false} AtMostFull(recs: seq<Rec>, digest: Data -> Hash, chunks: seq<Data>, j: nat, now: seq<Rec>)
    requires j <= |chunks| && HoldsKnown(recs, digest, chunks, j, now)
    ensures |now| <= MAX_CHUNKS
  {
  }

  lemma {:induction false} TlvStays(recs: seq<Rec>, digest: Data -> Hash, chunks: seq<Data>, j: nat, n: nat)
    requires j < n <= |chunks|
    ensures var tlvs := EncodeAll(recs, digest, chunks[..n]).1;
            |tlvs| == n && tlvs[j] == EncodeOne(RecsAt(recs, digest, chunks, j), digest, chunks[j]).1
  {
    hide EncodeOne;
    TlvCount(recs, digest, chunks, n - 1);
    EncodeNext(recs, digest, chunks, n - 1);
    if j < n - 1 {
      TlvStays(recs, digest, chunks, j, n - 1);
    }
  }

  lemma {:induction false} TlvCount(recs: seq<Rec>, digest: Data -> Hash, chunks: seq<Data>, n: nat)
    requires n <= |chunks|
    ensures |EncodeAll(recs, digest, chunks[..n]).1| == n
  {
    hide EncodeOne;
    if n > 0 {
      TlvCount(recs, digest, chunks, n - 1);
      EncodeNext(recs, digest, chunks, n - 1);
    }
  }

  /** The cache compresses: chunk j goes out as its hash if and only if the hash was held at the start, or an
      earlier chunk with this hash was kept; otherwise it goes out whole. */
  lemma {:induction false} HitIff(recs: seq<Rec>, digest: Data -> Hash, chunks: seq<Data>, j: nat)
    requires WellFormed(recs) && j < |chunks|
    ensures var tlvs := EncodeAll(recs, digest, chunks).1;
            && |tlvs| == |chunks|
            && tlvs[j] == if Known(recs, digest, chunks, j, digest(chunks[j])) then Hit(digest(chunks[j]))
                          else Miss(chunks[j])
  {
    hide Known, WellFormed, EncodeAll, CidOf, HashesOf;
    assert chunks[..|chunks|] == chunks;
    TlvStays(recs, digest, chunks, j, |chunks|);
    RecsHold(recs, digest, chunks, j);
    HoldsIff(RecsAt(recs, digest, chunks, j), digest(chunks[j]));
  }

  /** A chunk equal to an earlier one goes out whole only if it is empty or the store was full when the earlier
      one came. */
  lemma {:induction false} RepeatIsHit(recs: seq<Rec>, digest: Data -> Hash, chunks: seq<Data>, i: nat, j: nat)
    requires WellFormed(recs) && i < j < |chunks| && chunks[i] == chunks[j]
    requires chunks[j] != [] && |Offered(recs, digest, chunks, i)| < MAX_CHUNKS
    ensures |EncodeAll(recs, digest, chunks).1| == |chunks|
    ensures EncodeAll(recs, digest, chunks).1[j] == Hit(digest(chunks[j]))
  {
    HitIff(recs, digest, chunks, j);
    assert Kept(recs, digest, chunks, i);
    hide WellFormed, EncodeAll, Offered;
  }

  // ---------------------------------------------------------------- from stream to stream

  function ChunkData(out: seq<Chunker.Chunk>): (chunks: seq<Data>)
    requires Chunker.SizesFit(out)
    ensures |chunks| == |out|
  {
    seq(|out|, i requires 0 <= i < |out| => out[i].data)
  }

  function Joined(outs: seq<Decoded>): seq<byte> {
    if outs == [] then []
    else Joined(outs[..|outs| - 1]) + (if outs[|outs| - 1].Bytes? then outs[|outs| - 1].data else [])
  }

  lemma {:induction false} JoinedChunks(out: seq<Chunker.Chunk>)
    requires Chunker.SizesFit(out)
    ensures Joined(AsBytes(ChunkData(out))) == Chunker.Emitted(out)
  {
    if out != [] {
      var init := out[..|out| - 1];
      JoinedChunks(init);
      var whole := AsBytes(ChunkData(out));
      assert whole[..|whole| - 1] == AsBytes(ChunkData(init));
    }
  }

  /** End to end: for every boundary detector and every run of packets, ticks and flushes, chunking,
      encoding against the sender's store and decoding against an equal receiver store gives back
      the bytes that went in, up to those still waiting in the sender's buffer. */
  lemma {:induction false} StreamComesOutUnchanged<R>(
    c: Chunker.Cdc<R>, s: Chunker.Conn<R>, ops: seq<Chunker.Op>,
    a: seq<Rec>, b: seq<Rec>, digest: Data -> Hash, pool: set<Data>)
    requires s.cur == [] && s.timer == 0 && s.out == []
    requires WellFormed(a) && WellFormed(b) && SameContents(a, b)
    requires Honest(a, digest, pool) && CollisionFree(digest, pool)
    requires var out := Chunker.Run(c, s, ops).out; forall i :: 0 <= i < |out| ==> out[i].data in pool
    ensures var end := Chunker.Run(c, s, ops);
            && Chunker.SizesFit(end.out)
            && var (a', tlvs) := EncodeAll(a, digest, ChunkData(end.out));
            && var (b', outs) := DecodeAll(b, digest, Chunker.CHUNK_SIZE, tlvs);
            && Joined(outs) + end.cur == Chunker.AddedBytes(ops)
            && SameContents(a', b')
  {
    var end := Chunker.Run(c, s, ops);
    Chunker.RunRests(c, s, ops);
    Chunker.StreamConserved(c, s, ops);
    CacheIsTransparent(a, b, digest, pool, Chunker.CHUNK_SIZE, ChunkData(end.out));
    JoinedChunks(end.out);
  }
}
