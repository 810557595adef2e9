/** The deduplicating chunk store: an append-only file, an index array and a hash table. */
module ChunkStore {
  import opened Bytes

  const MAX_CHUNKS: nat := 262144
  const HASH_SIZE: nat := 32
  const HDR_SIZE: nat := 40
  const MAX_LOAD_LEN: nat := 65536

  type Hash = h: seq<byte> | |h| == HASH_SIZE witness Zeros(HASH_SIZE)

  /** Chunk bytes: the length travels in a 32-bit integer. */
  type Data = d: seq<byte> | |d| < U32

  datatype Entry = Entry(chunkId: u32, hash: Hash, fileOffset: nat, dataLen: u32, refCount: u32, isUsed: bool)

  const NO_ENTRY := Entry(0, Zeros(HASH_SIZE), 0, 0, 0, false)

  /** What the outside world does to one attempt to add a record: how many of its
      bytes reach the file, and whether the hash table takes the key. */
  datatype Fault = Fault(accepted: nat, insertOk: bool)

  // ---------------------------------------------------------------- the simple store

  /** The store as its users see it: the chunks in the order of their ids, which start at 1. */
  datatype Rec = Rec(hash: Hash, data: Data)

  ghost predicate DistinctHashes(recs: seq<Rec>) {
    forall i, j :: 0 <= i < j < |recs| ==> recs[i].hash != recs[j].hash
  }

  ghost predicate WellFormed(recs: seq<Rec>) {
    && |recs| <= MAX_CHUNKS
    && DistinctHashes(recs)
    && forall i :: 0 <= i < |recs| ==> 0 < |recs[i].data|
  }

  /** The id of the chunk stored under `hash` among the first n, or 0. */
  function CidAmong(recs: seq<Rec>, hash: Hash, n: nat): (cid: nat)
    requires n <= |recs|
    ensures cid <= n
    ensures cid != 0 ==> recs[cid - 1].hash == hash
    ensures cid == 0 ==> forall i :: 0 <= i < n ==> recs[i].hash != hash
  {
    if n == 0 then 0 else if recs[n - 1].hash == hash then n else CidAmong(recs, hash, n - 1)
  }

  /** The id of the chunk stored under `hash`, or 0. */
  function CidOf(recs: seq<Rec>, hash: Hash): nat {
    CidAmong(recs, hash, |recs|)
  }

  /** Storing adds one record at the end or leaves the store alone. */
  function Stored(recs: seq<Rec>, data: Data, hash: Hash, f: Fault): seq<Rec> {
    if |data| == 0 || CidOf(recs, hash) != 0 || |recs| >= MAX_CHUNKS
       || f.accepted < HDR_SIZE + |data| || !f.insertOk
    then recs
    else recs + [Rec(hash, data)]
  }

  function StoreResult(recs: seq<Rec>, data: Data, hash: Hash, f: Fault): nat {
    if |data| == 0 then 0 else CidOf(Stored(recs, data, hash, f), hash)
  }

  datatype Op = Store(data: Data, hash: Hash, fault: Fault) | Find(hash: Hash) | Read(cid: u32) | IncrementRef(cid: u32)

  function RecsAfter(recs: seq<Rec>, op: Op): seq<Rec> {
    match op
    case Store(data, hash, f) => Stored(recs, data, hash, f)
    case _ => recs
  }

  function Run(recs: seq<Rec>, ops: seq<Op>): seq<Rec> {
    if ops == [] then recs else RecsAfter(Run(recs, ops[..|ops| - 1]), ops[|ops| - 1])
  }

  lemma {:induction false} StoredWellFormed(recs: seq<Rec>, data: Data, hash: Hash, f: Fault)
    requires WellFormed(recs)
    ensures WellFormed(Stored(recs, data, hash, f))
    ensures recs <= Stored(recs, data, hash, f)
    ensures CidOf(recs, hash) != 0 ==> StoreResult(recs, data, hash, f) == if |data| == 0 then 0 else CidOf(recs, hash)
  {
  }

  /** In every run the store only grows at its end and keeps one record per hash. */
  lemma {:induction false} RunOnlyAppends(recs: seq<Rec>, ops: seq<Op>)
    requires WellFormed(recs)
    ensures WellFormed(Run(recs, ops))
    ensures recs <= Run(recs, ops)
  {
    if ops != [] {
      var init := ops[..|ops| - 1];
      RunOnlyAppends(recs, init);
      match ops[|ops| - 1]
      case Store(data, hash, f) => StoredWellFormed(Run(recs, init), data, hash, f);
      case _ =>
    }
  }

  lemma {:induction false} CidOfPosition(recs: seq<Rec>, i: nat)
    requires DistinctHashes(recs) && i < |recs|
    ensures CidOf(recs, recs[i].hash) == i + 1
  {
    var cid := CidOf(recs, recs[i].hash);
    assert cid != 0;
    assert recs[cid - 1].hash == recs[i].hash;
  }

  /** The bytes first stored under a hash, when `data` is stored under it now. */
  function FirstUnder(recs: seq<Rec>, data: Data, hash: Hash): Data {
    var cid := CidOf(recs, hash);
    if cid == 0 then data else recs[cid - 1].data
  }

  /** The id a store call issues names the record of that hash: the new one, or the first one. */
  lemma {:induction false} StoreResultNames(recs: seq<Rec>, data: Data, hash: Hash, f: Fault)
    requires StoreResult(recs, data, hash, f) != 0
    ensures var cid := StoreResult(recs, data, hash, f);
            var now := Stored(recs, data, hash, f);
            && cid <= |now|
            && now[cid - 1].hash == hash
            && now[cid - 1].data == FirstUnder(recs, data, hash)
  {
  }

  /** Once an id is issued for a hash, that hash keeps that id and the bytes first
      stored under it, whatever happens later, failed writes and inserts included. */
  lemma {:induction false} IssuedIdsAreForever(recs: seq<Rec>, data: Data, hash: Hash, f: Fault, later: seq<Op>)
    requires WellFormed(recs)
    requires StoreResult(recs, data, hash, f) != 0
    ensures var cid := StoreResult(recs, data, hash, f);
            var after := Run(Stored(recs, data, hash, f), later);
            && cid <= |after|
            && CidOf(after, hash) == cid
            && after[cid - 1].data == FirstUnder(recs, data, hash)
  {
    var now := Stored(recs, data, hash, f);
    var cid := StoreResult(recs, data, hash, f);
    StoreResultNames(recs, data, hash, f);
    StoredWellFormed(recs, data, hash, f);
    IdsSurvive(now, later, cid);
  }

  lemma {:induction false} IdsSurvive(recs: seq<Rec>, ops: seq<Op>, cid: nat)
    requires WellFormed(recs) && 1 <= cid <= |recs|
    ensures cid <= |Run(recs, ops)|
    ensures Run(recs, ops)[cid - 1] == recs[cid - 1]
    ensures CidOf(Run(recs, ops), recs[cid - 1].hash) == cid
  {
    RunOnlyAppends(recs, ops);
    CidOfPosition(Run(recs, ops), cid - 1);
  }

  // ---------------------------------------------------------------- lookups in the index

  /** The O(1) lookup by id: a direct index plus the defensive checks. */
  function SlotOf(index: seq<Entry>, next: u32, cid: u32): int
    requires |index| == MAX_CHUNKS
  {
    if cid == 0 || cid > next then -1
    else
      var slot := cid - 1;
      if slot >= MAX_CHUNKS then -1
      else if !index[slot].isUsed then -1
      else if index[slot].chunkId != cid then -1
      else slot
  }

  function FindLocked(index: seq<Entry>, table: map<Hash, nat>, hash: Hash): u32
    requires |index| == MAX_CHUNKS
  {
    if hash !in table then 0
    else
      var slot := table[hash];
      if slot >= MAX_CHUNKS || !index[slot].isUsed then 0
      else if index[slot].hash != hash then 0
      else index[slot].chunkId
  }

  /** The linear scan the O(1) lookup replaced: the first used slot holding `cid`, from slot `from` on. */
  function Scan(index: seq<Entry>, cid: u32, from: nat): int
    requires from <= |index|
    decreases |index| - from
  {
    if from == |index| then -1
    else if index[from].isUsed && index[from].chunkId == cid then from
    else Scan(index, cid, from + 1)
  }

  lemma {:induction false} ScanFinds(index: seq<Entry>, cid: u32, from: nat, slot: nat)
    requires from <= slot < |index|
    requires index[slot].isUsed && index[slot].chunkId == cid
    requires forall i :: from <= i < slot ==> !(index[i].isUsed && index[i].chunkId == cid)
    ensures Scan(index, cid, from) == slot
    decreases slot - from
  {
    if from < slot {
      ScanFinds(index, cid, from + 1, slot);
    }
  }

  lemma {:induction false} ScanFails(index: seq<Entry>, cid: u32, from: nat)
    requires from <= |index|
    requires forall i :: from <= i < |index| ==> !(index[i].isUsed && index[i].chunkId == cid)
    ensures Scan(index, cid, from) == -1
    decreases |index| - from
  {
    if from < |index| {
      ScanFails(index, cid, from + 1);
    }
  }

  // ---------------------------------------------------------------- what the index means

  ghost predicate EntryHolds(e: Entry, i: nat, bytes: seq<byte>, r: Rec) {
    && e.isUsed
    && e.chunkId == i + 1
    && e.hash == r.hash
    && e.dataLen == |r.data|
    && e.fileOffset + HDR_SIZE + |r.data| <= |bytes|
    && bytes[e.fileOffset + HDR_SIZE..e.fileOffset + HDR_SIZE + |r.data|] == r.data
  }

  ghost predicate IndexHolds(index: seq<Entry>, bytes: seq<byte>, recs: seq<Rec>) {
    && |index| == MAX_CHUNKS
    && |recs| <= MAX_CHUNKS
    && (forall i :: 0 <= i < |recs| ==> EntryHolds(index[i], i, bytes, recs[i]))
    && (forall i :: |recs| <= i < MAX_CHUNKS ==> !index[i].isUsed)
  }

  ghost predicate TableHolds(table: map<Hash, nat>, recs: seq<Rec>) {
    && (forall i :: 0 <= i < |recs| ==> recs[i].hash in table && table[recs[i].hash] == i)
    && (forall h :: h in table ==> table[h] < |recs| && recs[table[h]].hash == h)
  }

  /** The fast lookup by id agrees with the linear scan on every id. */
  lemma {:induction false} SlotIsLinearScan(index: seq<Entry>, bytes: seq<byte>, recs: seq<Rec>, cid: u32)
    requires IndexHolds(index, bytes, recs)
    ensures SlotOf(index, |recs| + 1, cid) == Scan(index, cid, 0)
    ensures SlotOf(index, |recs| + 1, cid) == if 1 <= cid <= |recs| then cid - 1 else -1
  {
    if 1 <= cid <= |recs| {
      assert EntryHolds(index[cid - 1], cid - 1, bytes, recs[cid - 1]);
      forall i | 0 <= i < cid - 1 ensures index[i].chunkId != cid {
        assert EntryHolds(index[i], i, bytes, recs[i]);
      }
      ScanFinds(index, cid, 0, cid - 1);
    } else {
      forall i | 0 <= i < MAX_CHUNKS ensures !(index[i].isUsed && index[i].chunkId == cid) {
        if i < |recs| {
          assert EntryHolds(index[i], i, bytes, recs[i]);
        }
      }
      ScanFails(index, cid, 0);
    }
  }

  /** The hash lookup through table and index is the lookup in the simple store. */
  lemma {:induction false} FindIsCidOf(
    index: seq<Entry>, bytes: seq<byte>, table: map<Hash, nat>, recs: seq<Rec>, hash: Hash)
    requires IndexHolds(index, bytes, recs) && TableHolds(table, recs)
    ensures FindLocked(index, table, hash) == CidOf(recs, hash)
  {
    var cid := CidOf(recs, hash);
    if cid != 0 {
      assert recs[cid - 1].hash == hash;
      assert EntryHolds(index[cid - 1], cid - 1, bytes, recs[cid - 1]);
    }
  }

  // ---------------------------------------------------------------- the file

  function Encode(cid: u32, hash: Hash, data: Data): (s: seq<byte>)
    ensures |s| == HDR_SIZE + |data|
  {
    Le32(cid) + Le32(|data|) + hash + data
  }

  lemma {:induction false} HeaderFields(cid: u32, hash: Hash, data: Data)
    ensures var e := Encode(cid, hash, data);
            && FromLe32(e[0..4]) == cid && FromLe32(e[4..8]) == |data|
            && e[8..HDR_SIZE] == hash && e[HDR_SIZE..] == data
  {
    var e := Encode(cid, hash, data);
    assert e[0..4] == Le32(cid);
    assert e[4..8] == Le32(|data|);
    Le32RoundTrip(cid);
    Le32RoundTrip(|data|);
  }

  /** File position of record i in a file where no write ever failed. */
  function Start(recs: seq<Rec>, i: nat): nat
    requires i <= |recs|
  {
    if i == 0 then 0 else Start(recs, i - 1) + HDR_SIZE + |recs[i - 1].data|
  }

  /** The first n records as such a file holds them: in order, numbered from 1. */
  function Serialize(recs: seq<Rec>, n: nat): (s: seq<byte>)
    requires n <= |recs| < U32
    ensures |s| == Start(recs, n)
  {
    if n == 0 then []
    else Serialize(recs, n - 1) + Encode(n, recs[n - 1].hash, recs[n - 1].data)
  }

  function FileOf(recs: seq<Rec>): seq<byte>
    requires |recs| < U32
  {
    Serialize(recs, |recs|)
  }

  ghost predicate Writable(recs: seq<Rec>) {
    && |recs| <= MAX_CHUNKS
    && forall i :: 0 <= i < |recs| ==> 0 < |recs[i].data|
  }

  lemma {:induction false} FilesGrow(recs: seq<Rec>, i: nat, n: nat)
    requires i <= n <= |recs| < U32
    ensures Serialize(recs, i) <= Serialize(recs, n)
  {
    if i < n {
      FilesGrow(recs, i, n - 1);
    }
  }

  /** Record i stands at its start position in the file. */
  lemma {:induction false} RecordAt(recs: seq<Rec>, i: nat)
    requires i < |recs| < U32
    ensures Start(recs, i + 1) <= |FileOf(recs)|
    ensures FileOf(recs)[Start(recs, i)..Start(recs, i + 1)] == Encode(i + 1, recs[i].hash, recs[i].data)
  {
    FilesGrow(recs, i + 1, |recs|);
    SliceBehindPrefix(Serialize(recs, i), Encode(i + 1, recs[i].hash, recs[i].data), FileOf(recs));
  }

  /** The index entry start-up makes of the record header at `off`. */
  function EntryAt(bytes: seq<byte>, off: nat): (e: Entry)
    requires off + HDR_SIZE <= |bytes|
    ensures e.isUsed && e.fileOffset == off
  {
    var cid, len := FromLe32(bytes[off..off + 4]), FromLe32(bytes[off + 4..off + 8]);
    Entry(cid, bytes[off + 8..off + HDR_SIZE], off, len, 1, true)
  }

  /** The entries the start-up loop builds from the file contents from `off` on, `n` slots being filled. */
  function Parse(bytes: seq<byte>, off: nat, n: nat): (es: seq<Entry>)
    ensures n <= MAX_CHUNKS ==> |es| + n <= MAX_CHUNKS
    decreases |bytes| - off
  {
    if off + HDR_SIZE > |bytes| then []
    else
      var e := EntryAt(bytes, off);
      if e.dataLen == 0 || e.dataLen > MAX_LOAD_LEN || n >= MAX_CHUNKS then []
      else [e] + Parse(bytes, off + HDR_SIZE + e.dataLen, n + 1)
  }

  /** What a read of entry `e` delivers: its bytes, or nothing when the file is too short. */
  function ReadAt(bytes: seq<byte>, e: Entry): seq<byte> {
    if e.fileOffset + HDR_SIZE + e.dataLen <= |bytes|
    then bytes[e.fileOffset + HDR_SIZE..e.fileOffset + HDR_SIZE + e.dataLen]
    else []
  }

  // ---------------------------------------------------------------- the store's state and its steps

  /** The global state of the store; `file` is the content of the file behind `fp`. */
  datatype State = State(
    index: seq<Entry>, totalStored: nat, nextChunkId: u32, totalBytes: u32, duplicates: u32,
    file: seq<byte>, fileOpen: bool, table: map<Hash, nat>, tableReady: bool)

  predicate Shape(s: State) {
    |s.index| == MAX_CHUNKS && s.totalStored <= MAX_CHUNKS
  }

  /** Counting one more use of a chunk. */
  function IncrementStep(s: State, cid: u32): (s': State)
    requires Shape(s)
    ensures Shape(s')
  {
    var slot := SlotOf(s.index, s.nextChunkId, cid);
    if slot < 0 then s
    else s.(index := s.index[slot := s.index[slot].(refCount := Inc32(s.index[slot].refCount))],
            duplicates := Inc32(s.duplicates))
  }

  /** Adding a record: the file first, then the index slot, then the hash table. */
  function AppendStep(s: State, data: Data, hash: Hash, f: Fault): (r: (State, u32))
    requires Shape(s) && s.totalStored < MAX_CHUNKS
    ensures Shape(r.0)
  {
    var slot := s.totalStored;
    var size := HDR_SIZE + |data|;
    var grown := s.(file := s.file + Encode(s.nextChunkId, hash, data)[..Min(f.accepted, size)]);
    if f.accepted < size then (grown, 0)
    else
      var e := Entry(s.nextChunkId, hash, |s.file|, |data|, 1, true);
      if !f.insertOk then (grown.(index := s.index[slot := e.(isUsed := false)]), 0)
      else
        (grown.(index := s.index[slot := e], table := s.table[hash := slot],
                nextChunkId := Inc32(s.nextChunkId), totalStored := s.totalStored + 1,
                totalBytes := Add32(s.totalBytes, |data|)),
         s.nextChunkId)
  }

  function StoreStep(s: State, data: Data, hash: Hash, f: Fault): (r: (State, u32))
    requires Shape(s)
    ensures Shape(r.0)
  {
    if |data| == 0 || !s.fileOpen || !s.tableReady then (s, 0)
    else
      var cid := FindLocked(s.index, s.table, hash);
      if cid != 0 then (IncrementStep(s, cid), cid)
      else if s.totalStored >= MAX_CHUNKS then (s, 0)
      else AppendStep(s, data, hash, f)
  }

  /** The bytes a read of `cid` into a buffer of `room` bytes delivers; none means the call returns 0. */
  function ReadStep(s: State, cid: u32, room: nat): seq<byte>
    requires Shape(s)
  {
    var slot := SlotOf(s.index, s.nextChunkId, cid);
    if !s.fileOpen || slot < 0 || room < s.index[slot].dataLen then []
    else ReadAt(s.file, s.index[slot])
  }

  /** The concrete state is an implementation of the simple store `recs`. */
  ghost predicate Represents(s: State, recs: seq<Rec>) {
    && Shape(s)
    && WellFormed(recs)
    && s.totalStored == |recs|
    && s.nextChunkId == |recs| + 1
    && s.fileOpen && s.tableReady
    && IndexHolds(s.index, s.file, recs)
    && TableHolds(s.table, recs)
  }

  lemma {:induction false} IndexHoldsGrown(index: seq<Entry>, bytes: seq<byte>, more: seq<byte>, recs: seq<Rec>)
    requires IndexHolds(index, bytes, recs)
    ensures IndexHolds(index, bytes + more, recs)
  {
    forall i | 0 <= i < |recs| ensures EntryHolds(index[i], i, bytes + more, recs[i]) {
      assert EntryHolds(index[i], i, bytes, recs[i]);
      SliceOfPrefix(bytes, more, index[i].fileOffset + HDR_SIZE, index[i].fileOffset + HDR_SIZE + |recs[i].data|);
    }
  }

  lemma {:induction false} IncrementRefines(s: State, recs: seq<Rec>, cid: u32)
    requires Represents(s, recs)
    ensures Represents(IncrementStep(s, cid), recs)
  {
    SlotIsLinearScan(s.index, s.file, recs, cid);
    var s' := IncrementStep(s, cid);
    forall i | 0 <= i < |recs| ensures EntryHolds(s'.index[i], i, s'.file, recs[i]) {
      assert EntryHolds(s.index[i], i, s.file, recs[i]);
    }
  }

  /** One call of store is one step of the simple store, whatever the environment does. */
  lemma {:induction false} StoreRefines(s: State, recs: seq<Rec>, data: Data, hash: Hash, f: Fault)
    requires Represents(s, recs)
    ensures Represents(StoreStep(s, data, hash, f).0, Stored(recs, data, hash, f))
    ensures StoreStep(s, data, hash, f).1 == StoreResult(recs, data, hash, f)
  {
    FindIsCidOf(s.index, s.file, s.table, recs, hash);
    StoredWellFormed(recs, data, hash, f);
    var cid := CidOf(recs, hash);
    if |data| != 0 && cid != 0 {
      IncrementRefines(s, recs, cid);
    } else if |data| != 0 && |recs| < MAX_CHUNKS {
      if f.accepted >= HDR_SIZE + |data| && f.insertOk {
        CleanAppendRefines(s, recs, data, hash, f);
      } else {
        FailedAppendRefines(s, recs, data, hash, f);
      }
    }
  }

  /** A slot behind the used ones may hold anything unused ... */
  lemma {:induction false} SparedSlot(index: seq<Entry>, bytes: seq<byte>, recs: seq<Rec>, e: Entry)
    requires IndexHolds(index, bytes, recs) && |recs| < MAX_CHUNKS && !e.isUsed
    ensures IndexHolds(index[|recs| := e], bytes, recs)
  {
    forall i | 0 <= i < |recs| ensures EntryHolds(index[|recs| := e][i], i, bytes, recs[i]) {
      assert EntryHolds(index[i], i, bytes, recs[i]);
    }
  }

  /** ... and the first of them takes the next record. */
  lemma {:induction false} FilledSlot(index: seq<Entry>, bytes: seq<byte>, recs: seq<Rec>, e: Entry, r: Rec)
    requires IndexHolds(index, bytes, recs) && |recs| < MAX_CHUNKS && EntryHolds(e, |recs|, bytes, r)
    ensures IndexHolds(index[|recs| := e], bytes, recs + [r])
  {
    var recs', index' := recs + [r], index[|recs| := e];
    forall i | 0 <= i < |recs'| ensures EntryHolds(index'[i], i, bytes, recs'[i]) {
      if i < |recs| {
        assert EntryHolds(index[i], i, bytes, recs[i]);
      }
    }
  }

  lemma {:induction false} TableGrows(table: map<Hash, nat>, recs: seq<Rec>, r: Rec)
    requires TableHolds(table, recs) && CidOf(recs, r.hash) == 0
    ensures TableHolds(table[r.hash := |recs|], recs + [r])
  {
  }

  lemma {:induction false} FailedAppendRefines(s: State, recs: seq<Rec>, data: Data, hash: Hash, f: Fault)
    requires Represents(s, recs) && |recs| < MAX_CHUNKS
    requires f.accepted < HDR_SIZE + |data| || !f.insertOk
    ensures Represents(AppendStep(s, data, hash, f).0, recs) && AppendStep(s, data, hash, f).1 == 0
  {
    var size := HDR_SIZE + |data|;
    var more := Encode(s.nextChunkId, hash, data)[..Min(f.accepted, size)];
    IndexHoldsGrown(s.index, s.file, more, recs);
    if f.accepted >= size {
      SparedSlot(s.index, s.file + more, recs, Entry(s.nextChunkId, hash, |s.file|, |data|, 1, false));
    }
  }

  lemma {:induction false} CleanAppendRefines(s: State, recs: seq<Rec>, data: Data, hash: Hash, f: Fault)
    requires Represents(s, recs) && |recs| < MAX_CHUNKS && |data| > 0 && CidOf(recs, hash) == 0
    requires f.accepted >= HDR_SIZE + |data| && f.insertOk
    ensures Represents(AppendStep(s, data, hash, f).0, recs + [Rec(hash, data)])
    ensures AppendStep(s, data, hash, f).1 == |recs| + 1
  {
    hide TableHolds, WellFormed, IndexHolds, Encode;
    var r := Rec(hash, data);
    WellFormedGrows(recs, r);
    TableGrows(s.table, recs, r);
    var record := Encode(s.nextChunkId, hash, data);
    assert record[..|record|] == record;
    NewIndexHolds(s.index, s.file, recs, r);
  }

  lemma {:induction false} WellFormedGrows(recs: seq<Rec>, r: Rec)
    requires WellFormed(recs) && |recs| < MAX_CHUNKS && |r.data| > 0 && CidOf(recs, r.hash) == 0
    ensures WellFormed(recs + [r])
  {
  }

  lemma {:induction false} NewIndexHolds(index: seq<Entry>, bytes: seq<byte>, recs: seq<Rec>, r: Rec)
    requires IndexHolds(index, bytes, recs) && |recs| < MAX_CHUNKS
    ensures var e := Entry(|recs| + 1, r.hash, |bytes|, |r.data|, 1, true);
            IndexHolds(index[|recs| := e], bytes + Encode(|recs| + 1, r.hash, r.data), recs + [r])
  {
    hide IndexHolds, EntryHolds, Encode;
    assert |index| == MAX_CHUNKS by { IndexSize(index, bytes, recs); }
    var e := Entry(|recs| + 1, r.hash, |bytes|, |r.data|, 1, true);
    var record := Encode(|recs| + 1, r.hash, r.data);
    IndexHoldsGrown(index, bytes, record, recs);
    NewEntryHolds(bytes, |recs|, r.hash, r.data);
    FilledSlot(index, bytes + record, recs, e, r);
  }

  lemma {:induction false} IndexSize(index: seq<Entry>, bytes: seq<byte>, recs: seq<Rec>)
    requires IndexHolds(index, bytes, recs)
    ensures |index| == MAX_CHUNKS && |recs| <= MAX_CHUNKS
  {
  }

  lemma {:induction false} NewEntryHolds(file: seq<byte>, i: nat, hash: Hash, data: Data)
    requires i < MAX_CHUNKS
    ensures var e := Entry(i + 1, hash, |file|, |data|, 1, true);
            EntryHolds(e, i, file + Encode(i + 1, hash, data), Rec(hash, data))
  {
    HeaderFields(i + 1, hash, data);
    var e := Encode(i + 1, hash, data);
    assert (file + e)[|file| + HDR_SIZE..|file| + HDR_SIZE + |data|] == e[HDR_SIZE..];
  }

  /** A read gives exactly the bytes of the simple store, if the buffer holds them. */
  lemma {:induction false} ReadRefines(s: State, recs: seq<Rec>, cid: u32, room: nat)
    requires Represents(s, recs)
    ensures ReadStep(s, cid, room) ==
            if 1 <= cid <= |recs| && |recs[cid - 1].data| <= room then recs[cid - 1].data else []
  {
    SlotIsLinearScan(s.index, s.file, recs, cid);
    if 1 <= cid <= |recs| {
      assert EntryHolds(s.index[cid - 1], cid - 1, s.file, recs[cid - 1]);
    }
  }

  function StepOf(s: State, op: Op): (s': State)
    requires Shape(s)
    ensures Shape(s')
  {
    match op
    case Store(data, hash, f) => StoreStep(s, data, hash, f).0
    case IncrementRef(cid) => IncrementStep(s, cid)
    case _ => s
  }

  function Exec(s: State, ops: seq<Op>): (s': State)
    requires Shape(s)
    ensures Shape(s')
  {
    if ops == [] then s else StepOf(Exec(s, ops[..|ops| - 1]), ops[|ops| - 1])
  }

  /** A store that is not open, or has no table, stores nothing, whatever is called; if it is not open, it reads nothing
      either. */
  lemma {:induction false} ClosedStoreRefuses(
    s: State, ops: seq<Op>, data: Data, hash: Hash, f: Fault, cid: u32, room: nat)
    requires Shape(s) && !(s.fileOpen && s.tableReady)
    ensures var s' := Exec(s, ops);
            && s'.file == s.file && s'.totalStored == s.totalStored && s'.table == s.table
            && StoreStep(s', data, hash, f) == (s', 0) && (!s.fileOpen ==> ReadStep(s', cid, room) == [])
  {
    ClosedStays(s, ops);
    hide Exec;
  }

  lemma {:induction false} ClosedStays(s: State, ops: seq<Op>)
    requires Shape(s) && !(s.fileOpen && s.tableReady)
    ensures var s' := Exec(s, ops);
            s' == s.(index := s'.index, duplicates := s'.duplicates)
  {
    if ops != [] {
      ClosedStays(s, ops[..|ops| - 1]);
      hide SlotOf;
    }
  }

  /** One operation of the store is the same operation of the simple store. */
  lemma {:induction false} StepRefines(s: State, recs: seq<Rec>, op: Op)
    requires Represents(s, recs)
    ensures Represents(StepOf(s, op), RecsAfter(recs, op))
  {
    hide Represents, StoreStep, IncrementStep, Stored;
    ShapeOf(s, recs);
    match op
    case Store(data, hash, f) => StoreRefines(s, recs, data, hash, f);
    case IncrementRef(cid) => IncrementRefines(s, recs, cid);
    case _ =>
  }

  /** Every run of the store is a run of the simple store. */
  lemma {:induction false} RunRefines(s: State, recs: seq<Rec>, ops: seq<Op>)
    requires Represents(s, recs)
    ensures Represents(Exec(s, ops), Run(recs, ops))
  {
    hide Represents, StepOf, RecsAfter;
    ShapeOf(s, recs);
    if ops != [] {
      var init := ops[..|ops| - 1];
      RunRefines(s, recs, init);
      StepRefines(Exec(s, init), Run(recs, init), ops[|ops| - 1]);
    }
  }

  /** An id issued by the store reads back, after any later run, the bytes first stored under its hash. */
  lemma {:induction false} IssuedIdReadsBack(
    s: State, recs: seq<Rec>, data: Data, hash: Hash, f: Fault, later: seq<Op>, room: nat)
    requires Represents(s, recs)
    requires StoreStep(s, data, hash, f).1 != 0
    ensures var cid := StoreStep(s, data, hash, f).1;
            var first := FirstUnder(recs, data, hash);
            |first| <= room ==> ReadStep(Exec(StoreStep(s, data, hash, f).0, later), cid, room) == first
  {
    hide Represents, StoreStep, Stored, StoreResult, FirstUnder, Exec, ReadStep, WellFormed;
    ShapeOf(s, recs);
    StoreRefines(s, recs, data, hash, f);
    RepresentedIsWellFormed(s, recs);
    var (now, cid) := StoreStep(s, data, hash, f);
    ReadsBack(now, recs, data, hash, f, later, cid, room);
  }

  lemma {:induction false} ReadsBack(
    now: State, recs: seq<Rec>, data: Data, hash: Hash, f: Fault, later: seq<Op>, cid: u32, room: nat)
    requires WellFormed(recs) && Represents(now, Stored(recs, data, hash, f))
    requires StoreResult(recs, data, hash, f) == cid != 0
    ensures var first := FirstUnder(recs, data, hash);
            |first| <= room ==> ReadStep(Exec(now, later), cid, room) == first
  {
    hide Represents, Stored, StoreResult, CidOf, FirstUnder, Exec, Run, ReadStep, WellFormed;
    ShapeOf(now, Stored(recs, data, hash, f));
    IssuedIdsAreForever(recs, data, hash, f, later);
    ReadAfterRun(now, Stored(recs, data, hash, f), later, cid, room);
  }

  lemma {:induction false} ReadAfterRun(s: State, recs: seq<Rec>, ops: seq<Op>, cid: u32, room: nat)
    requires Represents(s, recs)
    ensures var after := Run(recs, ops);
            1 <= cid <= |after| && |after[cid - 1].data| <= room ==>
              ReadStep(Exec(s, ops), cid, room) == after[cid - 1].data
  {
    hide Represents, Exec, Run, ReadStep;
    ShapeOf(s, recs);
    RunRefines(s, recs, ops);
    ReadRefines(Exec(s, ops), Run(recs, ops), cid, room);
  }

  lemma {:induction false} RepresentedIsWellFormed(s: State, recs: seq<Rec>)
    requires Represents(s, recs)
    ensures WellFormed(recs) && |recs| <= MAX_CHUNKS
  {
  }

  // ---------------------------------------------------------------- the use counts

  /** A store of data under this hash, or an explicit count of this id. */
  predicate IsUse(op: Op, hash: Hash, cid: nat) {
    (op.Store? && op.data != [] && op.hash == hash) || (op.IncrementRef? && op.cid == cid)
  }

  function Uses(ops: seq<Op>, hash: Hash, cid: nat): nat {
    if ops == [] then 0
    else Uses(ops[..|ops| - 1], hash, cid) + if IsUse(ops[|ops| - 1], hash, cid) then 1 else 0
  }

  lemma {:induction false} IncrementCountsOne(s: State, recs: seq<Rec>, cid: u32, k: nat)
    requires Represents(s, recs) && k < |recs|
    ensures IncrementStep(s, cid).index[k].refCount
            == if cid == k + 1 then Inc32(s.index[k].refCount) else s.index[k].refCount
  {
    SlotIsLinearScan(s.index, s.file, recs, cid);
    hide SlotOf, Scan, Inc32;
  }

  lemma {:induction false} AppendCountsNone(s: State, data: Data, hash: Hash, f: Fault, k: nat)
    requires Shape(s) && k < s.totalStored < MAX_CHUNKS
    ensures AppendStep(s, data, hash, f).0.index[k] == s.index[k]
  {
    hide Encode;
  }

  lemma {:induction false} StoreCountsOne(s: State, recs: seq<Rec>, data: Data, hash: Hash, f: Fault, k: nat)
    requires Represents(s, recs) && k < |recs|
    ensures StoreStep(s, data, hash, f).0.index[k].refCount
            == if data != [] && hash == recs[k].hash then Inc32(s.index[k].refCount) else s.index[k].refCount
  {
    assert Shape(s) && s.totalStored == |recs|;
    FindIsCidOf(s.index, s.file, s.table, recs, hash);
    SameHash(recs, hash, k);
    hide FindLocked, CidOf, Represents, AppendStep, IncrementStep, Inc32;
    var cid := CidOf(recs, hash);
    if cid != 0 {
      IncrementCountsOne(s, recs, cid, k);
    } else if |recs| < MAX_CHUNKS {
      AppendCountsNone(s, data, hash, f, k);
    }
  }

  lemma {:induction false} SameHash(recs: seq<Rec>, hash: Hash, k: nat)
    requires DistinctHashes(recs) && k < |recs|
    ensures CidOf(recs, hash) == k + 1 <==> hash == recs[k].hash
  {
    CidOfPosition(recs, k);
  }

  lemma {:induction false} StepCountsOne(s: State, recs: seq<Rec>, op: Op, k: nat)
    requires Represents(s, recs) && k < |recs|
    ensures StepOf(s, op).index[k].refCount
            == if IsUse(op, recs[k].hash, k + 1) then Inc32(s.index[k].refCount) else s.index[k].refCount
  {
    hide Represents, StoreStep, IncrementStep, Inc32;
    ShapeOf(s, recs);
    match op
    case Store(data, hash, f) => StoreCountsOne(s, recs, data, hash, f, k);
    case IncrementRef(cid) => IncrementCountsOne(s, recs, cid, k);
    case _ =>
  }

  ghost predicate CountIs(s: State, k: nat, n: nat) {
    k < |s.index| && s.index[k].refCount == n % U32
  }

  lemma {:induction false} ShapeOf(s: State, recs: seq<Rec>)
    requires Represents(s, recs)
    ensures Shape(s) && |recs| <= MAX_CHUNKS
  {
  }

  /** Record k stands under this hash. */
  predicate Names(recs: seq<Rec>, k: nat, hash: Hash) {
    k < |recs| && recs[k].hash == hash
  }

  lemma {:induction false} CountsNext(s: State, recs: seq<Rec>, op: Op, k: nat, hash: Hash, n: nat)
    requires Represents(s, recs) && Names(recs, k, hash) && CountIs(s, k, n)
    ensures CountIs(StepOf(s, op), k, n + if IsUse(op, hash, k + 1) then 1 else 0)
  {
    hide Represents, StepOf, Inc32;
    ShapeOf(s, recs);
    StepCountsOne(s, recs, op, k);
    IncMod(n);
  }

  lemma {:induction false} UsesAddUp(s: State, recs: seq<Rec>, ops: seq<Op>, k: nat, hash: Hash, n: nat)
    requires Represents(s, recs) && Names(recs, k, hash) && CountIs(s, k, n)
    ensures CountIs(Exec(s, ops), k, n + Uses(ops, hash, k + 1))
  {
    hide Represents, CountIs, Names, Exec, Uses;
    ShapeOf(s, recs);
    if ops == [] {
      NoUse(s, hash, k + 1);
    } else {
      UsesAddUp(s, recs, ops[..|ops| - 1], k, hash, n);
      CountsLast(s, recs, ops, k, hash, n);
    }
  }

  lemma {:induction false} NoUse(s: State, hash: Hash, cid: nat)
    requires Shape(s)
    ensures Exec(s, []) == s && Uses([], hash, cid) == 0
  {
  }

  lemma {:induction false} CountsLast(s: State, recs: seq<Rec>, ops: seq<Op>, k: nat, hash: Hash, n: nat)
    requires Represents(s, recs) && Names(recs, k, hash) && ops != []
    requires CountIs(Exec(s, ops[..|ops| - 1]), k, n + Uses(ops[..|ops| - 1], hash, k + 1))
    ensures CountIs(Exec(s, ops), k, n + Uses(ops, hash, k + 1))
  {
    hide Represents, StepOf, Run, IsUse, CountIs, Names, Exec, Uses;
    ShapeOf(s, recs);
    var init := ops[..|ops| - 1];
    LastUse(s, ops, hash, k + 1);
    RunRefines(s, recs, init);
    StillThere(s, recs, init, k, hash);
    CountsNext(Exec(s, init), Run(recs, init), ops[|ops| - 1], k, hash, n + Uses(init, hash, k + 1));
  }

  lemma {:induction false} LastUse(s: State, ops: seq<Op>, hash: Hash, cid: nat)
    requires Shape(s) && ops != []
    ensures var init, op := ops[..|ops| - 1], ops[|ops| - 1];
            && Exec(s, ops) == StepOf(Exec(s, init), op)
            && Uses(ops, hash, cid) == Uses(init, hash, cid) + if IsUse(op, hash, cid) then 1 else 0
  {
    hide StepOf, IsUse;
  }

  /** Over every run, failures included, the use count of each record grows by exactly its own uses, modulo 2^32. */
  lemma {:induction false} CountsItsUses(s: State, recs: seq<Rec>, ops: seq<Op>, k: nat)
    requires Represents(s, recs) && k < |recs|
    ensures Exec(s, ops).index[k].refCount == (s.index[k].refCount + Uses(ops, recs[k].hash, k + 1)) % U32
  {
    assert Shape(s) && k < MAX_CHUNKS;
    hide Represents, Exec, Uses;
    UsesAddUp(s, recs, ops, k, recs[k].hash, s.index[k].refCount);
  }

  lemma {:induction false} StillThere(s: State, recs: seq<Rec>, ops: seq<Op>, k: nat, hash: Hash)
    requires Represents(s, recs) && Names(recs, k, hash)
    ensures Names(Run(recs, ops), k, hash)
  {
    RepresentedIsWellFormed(s, recs);
    hide Represents, WellFormed, Run;
    RunOnlyAppends(recs, ops);
  }

  /** A chunk stored for the first time has been used once. */
  lemma {:induction false} NewCountsOnce(s: State, recs: seq<Rec>, data: Data, hash: Hash, f: Fault)
    requires Represents(s, recs) && |recs| < MAX_CHUNKS && data != [] && CidOf(recs, hash) == 0
    requires f.accepted >= HDR_SIZE + |data| && f.insertOk
    ensures StoreStep(s, data, hash, f).0.index[|recs|].refCount == 1
  {
    FindIsCidOf(s.index, s.file, s.table, recs, hash);
    hide FindLocked, CidOf, Encode;
  }

  /** Sum of the use counts of the first n slots. */
  function RefSum(index: seq<Entry>, n: nat): nat
    requires n <= |index|
  {
    if n == 0 then 0 else RefSum(index, n - 1) + index[n - 1].refCount
  }

  lemma {:induction false} RefSumUpdate(index: seq<Entry>, n: nat, k: nat, e: Entry)
    requires n <= |index| && k < |index|
    ensures RefSum(index[k := e], n) == RefSum(index, n) + if k < n then e.refCount - index[k].refCount else 0
  {
    if n > 0 {
      RefSumUpdate(index, n - 1, k, e);
    }
  }

  /** Every use is either the first one of a stored chunk or counted as a duplicate; all counters are 32 bits wide. */
  ghost predicate CountsAgree(s: State)
    requires Shape(s)
  {
    RefSum(s.index, s.totalStored) % U32 == (s.totalStored + s.duplicates) % U32
  }

  lemma {:induction false} BothUp(sum: nat, count: u32, stored: nat, dup: u32)
    requires sum >= count && sum % U32 == (stored + dup) % U32
    ensures (sum + Inc32(count) - count) % U32 == (stored + Inc32(dup)) % U32
  {
    SameUp(count);
    SameUp(dup);
    hide Inc32;
    SameSum(sum - count, Inc32(count), count + 1);
    SameSum(stored, Inc32(dup), dup + 1);
    SameSum(1, sum, stored + dup);
  }

  lemma {:induction false} SameUp(x: u32)
    ensures Inc32(x) as int % U32 == (x + 1) % U32
  {
  }

  lemma {:induction false} SameSum(a: int, x: int, y: int)
    requires x % U32 == y % U32
    ensures (a + x) % U32 == (a + y) % U32
  {
    assert x == y + U32 * (x / U32 - y / U32);
    WrapsOff(a + y, x / U32 - y / U32);
  }

  lemma {:induction false} WrapsOff(x: int, q: int)
    ensures (x + U32 * q) % U32 == x % U32
  {
  }

  lemma {:induction false} RefSumAtLeast(index: seq<Entry>, n: nat, k: nat)
    requires k < n <= |index|
    ensures RefSum(index, n) >= index[k].refCount
  {
    if k < n - 1 {
      RefSumAtLeast(index, n - 1, k);
    }
  }

  lemma {:induction false} OneMoreUse(s: State, k: nat)
    requires Shape(s) && k < s.totalStored && CountsAgree(s)
    ensures var e := s.index[k].(refCount := Inc32(s.index[k].refCount));
            CountsAgree(s.(index := s.index[k := e], duplicates := Inc32(s.duplicates)))
  {
    var e := s.index[k];
    RefSumUpdate(s.index, s.totalStored, k, e.(refCount := Inc32(e.refCount)));
    RefSumAtLeast(s.index, s.totalStored, k);
    BothUp(RefSum(s.index, s.totalStored), e.refCount, s.totalStored, s.duplicates);
    hide RefSum, Inc32;
  }

  lemma {:induction false} IncrementCounts(s: State, recs: seq<Rec>, cid: u32)
    requires Represents(s, recs) && CountsAgree(s)
    ensures CountsAgree(IncrementStep(s, cid))
  {
    SlotIsLinearScan(s.index, s.file, recs, cid);
    hide CountsAgree, IndexHolds, TableHolds, WellFormed, SlotOf, Inc32;
    if 1 <= cid <= |recs| {
      OneMoreUse(s, cid - 1);
    }
  }

  lemma {:induction false} AppendCounts(s: State, data: Data, hash: Hash, f: Fault)
    requires Shape(s) && s.totalStored < MAX_CHUNKS && CountsAgree(s)
    ensures CountsAgree(AppendStep(s, data, hash, f).0)
  {
    var slot := s.totalStored;
    var e := Entry(s.nextChunkId, hash, |s.file|, |data|, 1, true);
    RefSumUpdate(s.index, slot, slot, e);
    RefSumUpdate(s.index, slot, slot, e.(isUsed := false));
    OneMoreEach(RefSum(s.index, slot), slot + s.duplicates);
    hide Encode;
  }

  lemma {:induction false} OneMoreEach(a: nat, b: nat)
    requires a % U32 == b % U32
    ensures (a + 1) % U32 == (b + 1) % U32
  {
    IncMod(a);
    IncMod(b);
  }

  /** In every run the use counts add up to stored chunks plus duplicates, failures included. */
  lemma {:induction false} RunKeepsCounts(s: State, recs: seq<Rec>, ops: seq<Op>)
    requires Represents(s, recs) && CountsAgree(s)
    ensures CountsAgree(Exec(s, ops))
  {
    hide Represents, CountsAgree, StepOf, Run;
    ShapeOf(s, recs);
    if ops != [] {
      var init := ops[..|ops| - 1];
      RunKeepsCounts(s, recs, init);
      RunRefines(s, recs, init);
      StepCounts(Exec(s, init), Run(recs, init), ops[|ops| - 1]);
    }
  }

  lemma {:induction false} StepCounts(s: State, recs: seq<Rec>, op: Op)
    requires Represents(s, recs) && CountsAgree(s)
    ensures CountsAgree(StepOf(s, op))
  {
    hide Represents, CountsAgree, IncrementStep, StoreStep;
    ShapeOf(s, recs);
    match op
    case Store(data, hash, f) => StoreCounts(s, recs, data, hash, f);
    case IncrementRef(cid) => IncrementCounts(s, recs, cid);
    case _ =>
  }

  lemma {:induction false} StoreCounts(s: State, recs: seq<Rec>, data: Data, hash: Hash, f: Fault)
    requires Represents(s, recs) && CountsAgree(s)
    ensures CountsAgree(StoreStep(s, data, hash, f).0)
  {
    FindIsCidOf(s.index, s.file, s.table, recs, hash);
    if |data| != 0 {
      if CidOf(recs, hash) != 0 {
        IncrementCounts(s, recs, CidOf(recs, hash));
      } else if s.totalStored < MAX_CHUNKS {
        AppendCounts(s, data, hash, f);
      }
    }
  }
}
