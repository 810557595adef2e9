/** Starting the chunk store again from its file. */
module StoreRebuild {
  import opened Bytes
  import opened ChunkStore

  /** No record is longer than start-up accepts. */
  ghost predicate Loadable(recs: seq<Rec>) {
    forall i :: 0 <= i < |recs| ==> |recs[i].data| <= MAX_LOAD_LEN
  }

  /** The index entry of record i right after start-up: use counts are not on file. */
  function Image(recs: seq<Rec>, i: nat): Entry
    requires i < |recs| < U32
  {
    Entry(i + 1, recs[i].hash, Start(recs, i), |recs[i].data|, 1, true)
  }

  /** Record i of a file cut to `cut` bytes passes the start-up loop's checks. */
  predicate Loads(recs: seq<Rec>, cut: nat, i: nat)
    requires i < |recs|
  {
    Start(recs, i) + HDR_SIZE <= cut && |recs[i].data| <= MAX_LOAD_LEN
  }

  /** Number of the first record, from i on, that start-up does not load. */
  function LoadEnd(recs: seq<Rec>, cut: nat, i: nat): (k: nat)
    requires i <= |recs|
    ensures i <= k <= |recs|
    decreases |recs| - i
  {
    if i < |recs| && Loads(recs, cut, i) then LoadEnd(recs, cut, i + 1) else i
  }

  lemma {:induction false} LoadEndIsFirst(recs: seq<Rec>, cut: nat, i: nat)
    requires i <= |recs|
    ensures var k := LoadEnd(recs, cut, i);
            (forall j :: i <= j < k ==> Loads(recs, cut, j)) && (k < |recs| ==> !Loads(recs, cut, k))
    decreases |recs| - i
  {
    if i < |recs| && Loads(recs, cut, i) {
      LoadEndIsFirst(recs, cut, i + 1);
    }
  }

  function Images(recs: seq<Rec>, i: nat, k: nat): (es: seq<Entry>)
    requires i <= k <= |recs| < U32
    ensures |es| == k - i
    decreases k - i
  {
    if i == k then [] else [Image(recs, i)] + Images(recs, i + 1, k)
  }

  lemma {:induction false} ImagesAt(recs: seq<Rec>, i: nat, k: nat, j: nat)
    requires i <= j < k <= |recs| < U32
    ensures Images(recs, i, k)[j - i] == Image(recs, j)
    decreases k - i
  {
    if i < j {
      ImagesAt(recs, i + 1, k, j);
    }
  }

  /** Start-up on a clean file, cut anywhere, rebuilds exactly the entries of the
      records up to the first one that is oversized or whose header is cut. */
  lemma {:induction false} ParseOfSerialized(recs: seq<Rec>, cut: nat, i: nat)
    requires Writable(recs) && i <= |recs| && cut <= |FileOf(recs)|
    ensures Parse(FileOf(recs)[..cut], Start(recs, i), i) == Images(recs, i, LoadEnd(recs, cut, i))
    decreases |recs| - i
  {
    hide Parse, Serialize, Start;
    if i < |recs| && Start(recs, i) + HDR_SIZE <= cut {
      ParseStep(recs, cut, i);
      if Loads(recs, cut, i) {
        ParseOfSerialized(recs, cut, i + 1);
      }
    } else {
      ParseStops(recs, cut, i);
    }
  }

  lemma {:induction false} ParseStops(recs: seq<Rec>, cut: nat, i: nat)
    requires Writable(recs) && i <= |recs| && cut <= |FileOf(recs)|
    requires i == |recs| || Start(recs, i) + HDR_SIZE > cut
    ensures Parse(FileOf(recs)[..cut], Start(recs, i), i) == []
  {
    hide EntryAt, Serialize;
  }

  lemma {:induction false} ParseStep(recs: seq<Rec>, cut: nat, i: nat)
    requires Writable(recs) && i < |recs| && cut <= |FileOf(recs)|
    requires Start(recs, i) + HDR_SIZE <= cut
    ensures Parse(FileOf(recs)[..cut], Start(recs, i), i)
            == if |recs[i].data| > MAX_LOAD_LEN then [] else
                 [Image(recs, i)] + Parse(FileOf(recs)[..cut], Start(recs, i + 1), i + 1)
  {
    hide Parse, Encode, Serialize;
    var file, lo, data := FileOf(recs), Start(recs, i), recs[i].data;
    assert Start(recs, i + 1) == lo + HDR_SIZE + |data|;
    assert lo + HDR_SIZE + |data| <= |file|
           && file[lo..lo + HDR_SIZE + |data|] == Encode(i + 1, recs[i].hash, data) by {
      RecordAt(recs, i);
    }
    ParseRecord(file, cut, lo, i, i + 1, recs[i].hash, data);
  }

  /** The fields start-up reads from a record at `lo` of a file cut behind the record's header. */
  lemma {:induction false} HeaderAt(file: seq<byte>, cut: nat, lo: nat, cid: u32, hash: Hash, data: Data)
    requires lo + HDR_SIZE <= cut <= |file| && lo + HDR_SIZE + |data| <= |file|
    requires file[lo..lo + HDR_SIZE + |data|] == Encode(cid, hash, data)
    ensures EntryAt(file[..cut], lo) == Entry(cid, hash, lo, |data|, 1, true)
  {
    HeaderFields(cid, hash, data);
    var end := lo + HDR_SIZE + |data|;
    SliceInWindow(file, cut, lo, end, 0, 4);
    SliceInWindow(file, cut, lo, end, 4, 8);
    SliceInWindow(file, cut, lo, end, 8, HDR_SIZE);
  }

  /** A record that survives a cut whole keeps its data at the place the entry points to. */
  lemma {:induction false} DataAt(file: seq<byte>, cut: nat, lo: nat, cid: u32, hash: Hash, data: Data)
    requires lo + HDR_SIZE + |data| <= cut <= |file|
    requires file[lo..lo + HDR_SIZE + |data|] == Encode(cid, hash, data)
    ensures file[..cut][lo + HDR_SIZE..lo + HDR_SIZE + |data|] == data
  {
    HeaderFields(cid, hash, data);
    SliceInWindow(file, cut, lo, lo + HDR_SIZE + |data|, HDR_SIZE, HDR_SIZE + |data|);
    assert Encode(cid, hash, data)[HDR_SIZE..HDR_SIZE + |data|] == data;
  }

  lemma {:induction false} ParseRecord(file: seq<byte>, cut: nat, lo: nat, n: nat, cid: u32, hash: Hash, data: Data)
    requires lo + HDR_SIZE <= cut <= |file| && lo + HDR_SIZE + |data| <= |file|
    requires file[lo..lo + HDR_SIZE + |data|] == Encode(cid, hash, data)
    requires 0 < |data| && n < MAX_CHUNKS
    ensures Parse(file[..cut], lo, n) == if |data| > MAX_LOAD_LEN then [] else
              [Entry(cid, hash, lo, |data|, 1, true)] + Parse(file[..cut], lo + HDR_SIZE + |data|, n + 1)
  {
    hide EntryAt, Encode;
    HeaderAt(file, cut, lo, cid, hash, data);
  }

  /** Every record of an uncut clean file is restored exactly when none is longer than start-up accepts. */
  lemma {:induction false} RebuildRestoresAll(recs: seq<Rec>)
    requires Writable(recs)
    ensures Parse(FileOf(recs), 0, 0) == Images(recs, 0, |recs|)
            <==> Loadable(recs)
  {
    var size := |FileOf(recs)|;
    assert FileOf(recs)[..size] == FileOf(recs);
    ParseOfSerialized(recs, size, 0);
    LoadEndIsFirst(recs, size, 0);
    var k := LoadEnd(recs, size, 0);
    if k < |recs| {
      RecordAt(recs, k);
    }
    forall i | 0 <= i < k ensures |recs[i].data| <= MAX_LOAD_LEN {
      assert Loads(recs, size, i);
    }
  }

  /** After a crash cut the file anywhere, start-up loads a prefix of the records, and
      reading a loaded record gives its bytes, or nothing exactly when the cut took some of them. */
  lemma {:induction false} CutFileNeverReadsWrongBytes(recs: seq<Rec>, cut: nat, j: nat)
    requires Writable(recs) && cut <= |FileOf(recs)|
    requires j < |Parse(FileOf(recs)[..cut], 0, 0)|
    ensures j < |recs|
    ensures var bytes := FileOf(recs)[..cut];
            ReadAt(bytes, Parse(bytes, 0, 0)[j]) == if cut < Start(recs, j + 1) then [] else recs[j].data
    ensures cut < Start(recs, j + 1) ==> j == |Parse(FileOf(recs)[..cut], 0, 0)| - 1
  {
    ParseOfSerialized(recs, cut, 0);
    var k := LoadEnd(recs, cut, 0);
    ImagesAt(recs, 0, k, j);
    ReadOfImage(recs, cut, j);
    if j + 1 < k {
      LoadEndIsFirst(recs, cut, 0);
      assert Loads(recs, cut, j + 1);
    }
  }

  lemma {:induction false} DataOnFile(recs: seq<Rec>, cut: nat, j: nat)
    requires j < |recs| < U32 && Start(recs, j + 1) <= cut <= |FileOf(recs)|
    ensures FileOf(recs)[..cut][Start(recs, j) + HDR_SIZE..Start(recs, j) + HDR_SIZE + |recs[j].data|] == recs[j].data
  {
    RecordAt(recs, j);
    DataAt(FileOf(recs), cut, Start(recs, j), j + 1, recs[j].hash, recs[j].data);
  }

  lemma {:induction false} ReadOfImage(recs: seq<Rec>, cut: nat, j: nat)
    requires j < |recs| < U32 && cut <= |FileOf(recs)|
    ensures ReadAt(FileOf(recs)[..cut], Image(recs, j)) == if cut < Start(recs, j + 1) then [] else recs[j].data
  {
    hide Serialize;
    assert Start(recs, j + 1) == Start(recs, j) + HDR_SIZE + |recs[j].data|;
    hide Start;
    if cut >= Start(recs, j + 1) {
      DataOnFile(recs, cut, j);
    }
  }

  /** Once more bytes are appended behind a cut record, its read delivers something again, and
      that is the right chunk exactly when the appended bytes repeat the ones the cut removed. */
  lemma {:induction false} AppendBehindCut(recs: seq<Rec>, cut: nat, j: nat, more: seq<byte>)
    requires j < |recs| < U32
    requires Start(recs, j) + HDR_SIZE <= cut < Start(recs, j + 1) <= cut + |more|
    requires cut <= |FileOf(recs)|
    ensures Start(recs, j + 1) == Start(recs, j) + HDR_SIZE + |recs[j].data|
    ensures var missing := Start(recs, j + 1) - cut;
            ReadAt(FileOf(recs)[..cut] + more, Image(recs, j)) == recs[j].data
            <==> more[..missing] == recs[j].data[|recs[j].data| - missing..]
  {
    FilesGrow(recs, j + 1, |recs|);
    DataOnFile(recs, |FileOf(recs)|, j);
    assert FileOf(recs)[..|FileOf(recs)|] == FileOf(recs);
    Spliced(FileOf(recs), cut, more, Image(recs, j), recs[j].data);
  }

  lemma {:induction false} Spliced(file: seq<byte>, cut: nat, more: seq<byte>, e: Entry, data: seq<byte>)
    requires e.dataLen == |data|
    requires var lo := e.fileOffset + HDR_SIZE;
             lo <= cut < lo + |data| <= |file| && lo + |data| <= cut + |more| && file[lo..lo + |data|] == data
    ensures var missing := e.fileOffset + HDR_SIZE + |data| - cut;
            ReadAt(file[..cut] + more, e) == data <==> more[..missing] == data[|data| - missing..]
  {
    var lo := e.fileOffset + HDR_SIZE;
    var kept := cut - lo;
    assert data[..kept] == file[lo..cut];
    assert (file[..cut] + more)[lo..lo + |data|] == data[..kept] + more[..|data| - kept];
    assert data == data[..kept] + data[kept..];
    if more[..|data| - kept] != data[kept..] {
      assert (data[..kept] + more[..|data| - kept])[kept..] != data[kept..];
    }
  }

  // ---------------------------------------------------------------- the state start-up builds

  /** The smallest id above every loaded one (32-bit arithmetic), over the first n entries. */
  function NextId(es: seq<Entry>, n: nat): u32
    requires n <= |es|
  {
    if n == 0 then 1
    else
      var next := NextId(es, n - 1);
      if es[n - 1].chunkId >= next then Inc32(es[n - 1].chunkId) else next
  }

  function LoadedBytes(es: seq<Entry>, n: nat): u32
    requires n <= |es|
  {
    if n == 0 then 0 else Add32(LoadedBytes(es, n - 1), es[n - 1].dataLen)
  }

  /** The hash table after inserting the first n entries; the inserts numbered in `failed` do not take. */
  function TableOf(es: seq<Entry>, failed: set<nat>, n: nat): map<Hash, nat>
    requires n <= |es|
  {
    if n == 0 then map[]
    else if n - 1 in failed then TableOf(es, failed, n - 1)
    else TableOf(es, failed, n - 1)[es[n - 1].hash := n - 1]
  }

  function Padded(es: seq<Entry>): (index: seq<Entry>)
    requires |es| <= MAX_CHUNKS
    ensures |index| == MAX_CHUNKS
  {
    es + seq(MAX_CHUNKS - |es|, _ => NO_ENTRY)
  }

  /** The environment of a start: is the file there, can it be created, can the table be created,
      and which of the table inserts fail. */
  datatype Boot = Boot(found: bool, creatable: bool, tableOk: bool, failed: set<nat>)

  const FINE := Boot(true, true, true, {})

  function Loaded(boot: Boot, bytes: seq<byte>): (es: seq<Entry>)
    ensures |es| <= MAX_CHUNKS
  {
    if boot.found then Parse(bytes, 0, 0) else []
  }

  function InitStep(boot: Boot, bytes: seq<byte>): (s: State)
    ensures Shape(s)
  {
    var es := Loaded(boot, bytes);
    if !boot.found && !boot.creatable
    then State(Padded([]), 0, 1, 0, 0, bytes, false, map[], false)
    else
      State(Padded(es), |es|, NextId(es, |es|), LoadedBytes(es, |es|), 0,
            if boot.found then bytes else [], true,
            if boot.tableOk then TableOf(es, boot.failed, |es|) else map[], boot.tableOk)
  }

  /** A start that finds no file and can create none, or gets no hash table, leaves a store that stores
      nothing, whatever is called afterwards; the file keeps what it had, or is the empty one just created. */
  lemma {:induction false} HalfStartRefuses(
    boot: Boot, bytes: seq<byte>, ops: seq<Op>, data: Data, hash: Hash, f: Fault, cid: u32, room: nat)
    requires (!boot.found && !boot.creatable) || !boot.tableOk
    ensures var s := Exec(InitStep(boot, bytes), ops);
            && StoreStep(s, data, hash, f) == (s, 0)
            && s.file == (if !boot.found && boot.creatable then [] else bytes)
            && (!boot.found ==> ReadStep(s, cid, room) == [])
  {
    var s := InitStep(boot, bytes);
    ClosedStoreRefuses(s, ops, data, hash, f, cid, room);
    hide Parse, NextId, LoadedBytes, TableOf, StoreStep, ReadAt, Exec;
    if !boot.found && boot.creatable {
      StaysEmpty(s, ops);
      EmptySlots(s.index, s.nextChunkId, cid);
    }
  }

  /** In an empty index there is nothing to find. */
  lemma {:induction false} EmptySlots(index: seq<Entry>, next: u32, cid: u32)
    requires |index| == MAX_CHUNKS && index == Padded([])
    ensures SlotOf(index, next, cid) == -1
  {
  }

  lemma {:induction false} StaysEmpty(s: State, ops: seq<Op>)
    requires Shape(s) && !s.tableReady && s.index == Padded([])
    ensures Exec(s, ops) == s
  {
    hide SlotOf, Padded;
    if ops != [] {
      StaysEmpty(s, ops[..|ops| - 1]);
      match ops[|ops| - 1]
      case IncrementRef(cid) => EmptySlots(s.index, s.nextChunkId, cid);
      case _ =>
    }
  }

  /** The records a file shows at start-up. */
  function FileRecs(bytes: seq<byte>, es: seq<Entry>): (recs: seq<Rec>)
    ensures |recs| == |es|
    ensures forall i :: 0 <= i < |es| ==> recs[i] == Rec(es[i].hash, ReadAt(bytes, es[i]))
  {
    seq(|es|, i requires 0 <= i < |es| => Rec(es[i].hash, ReadAt(bytes, es[i])))
  }

  ghost predicate IdsInOrder(es: seq<Entry>) {
    forall i :: 0 <= i < |es| ==> es[i].chunkId == i + 1
  }

  ghost predicate HashesDiffer(es: seq<Entry>) {
    forall i, j :: 0 <= i < j < |es| ==> es[i].hash != es[j].hash
  }

  ghost predicate DataComplete(bytes: seq<byte>, es: seq<Entry>) {
    forall i :: 0 <= i < |es| ==> es[i].fileOffset + HDR_SIZE + es[i].dataLen <= |bytes|
  }

  lemma {:induction false} NextIdInOrder(es: seq<Entry>, n: nat)
    requires IdsInOrder(es) && n <= |es| <= MAX_CHUNKS
    ensures NextId(es, n) == n + 1
  {
    if n > 0 {
      NextIdInOrder(es, n - 1);
    }
  }

  /** The table knows exactly those of the first n entries whose insert did not fail. */
  ghost predicate Knows(table: map<Hash, nat>, es: seq<Entry>, failed: set<nat>, n: nat)
    requires n <= |es|
  {
    && (forall i :: 0 <= i < n && i !in failed ==> es[i].hash in table && table[es[i].hash] == i)
    && (forall h :: h in table ==> table[h] < n && table[h] !in failed && es[table[h]].hash == h)
  }

  lemma {:induction false} KnowsMore(table: map<Hash, nat>, es: seq<Entry>, failed: set<nat>, n: nat)
    requires HashesDiffer(es) && n < |es| && Knows(table, es, failed, n)
    ensures Knows(if n in failed then table else table[es[n].hash := n], es, failed, n + 1)
  {
    if n !in failed {
      var table' := table[es[n].hash := n];
      forall i | 0 <= i < n && i !in failed ensures es[i].hash in table' && table'[es[i].hash] == i {
        assert es[i].hash != es[n].hash;
      }
    }
  }

  lemma {:induction false} TableWithout(es: seq<Entry>, failed: set<nat>, n: nat)
    requires HashesDiffer(es) && n <= |es|
    ensures Knows(TableOf(es, failed, n), es, failed, n)
  {
    hide Knows, HashesDiffer;
    if n == 0 {
      KnowsNone(es, failed);
    } else {
      TableWithout(es, failed, n - 1);
      KnowsMore(TableOf(es, failed, n - 1), es, failed, n - 1);
    }
  }

  lemma {:induction false} KnowsNone(es: seq<Entry>, failed: set<nat>)
    ensures Knows(map[], es, failed, 0)
  {
  }

  /** Exactly when start-up gives a correct store: the ids on file count 1, 2, 3, ..., no hash
      occurs twice, and the last record's data is all there. For then slot == id - 1 again. */
  lemma {:induction false} StartIsCorrectIff(bytes: seq<byte>, recs: seq<Rec>)
    ensures var es := Parse(bytes, 0, 0);
            Represents(InitStep(FINE, bytes), recs)
            <==> IdsInOrder(es) && HashesDiffer(es) && DataComplete(bytes, es) && recs == FileRecs(bytes, es)
  {
    var es := Parse(bytes, 0, 0);
    if IdsInOrder(es) && HashesDiffer(es) && DataComplete(bytes, es) && recs == FileRecs(bytes, es) {
      StartIsCorrectIf(bytes, recs);
    }
    if Represents(InitStep(FINE, bytes), recs) {
      StartIsCorrectOnlyIf(bytes, recs);
    }
  }

  lemma {:induction false} LoadedEntries(bytes: seq<byte>, off: nat, n: nat)
    ensures forall i :: 0 <= i < |Parse(bytes, off, n)|
              ==> Parse(bytes, off, n)[i].isUsed && 0 < Parse(bytes, off, n)[i].dataLen
    decreases |bytes| - off
  {
    hide EntryAt;
    if off + HDR_SIZE <= |bytes| && EntryAt(bytes, off).dataLen > 0 {
      LoadedEntries(bytes, off + HDR_SIZE + EntryAt(bytes, off).dataLen, n + 1);
    }
  }

  lemma {:induction false} StartIsCorrectIf(bytes: seq<byte>, recs: seq<Rec>)
    requires var es := Parse(bytes, 0, 0);
             IdsInOrder(es) && HashesDiffer(es) && DataComplete(bytes, es) && recs == FileRecs(bytes, es)
    ensures Represents(InitStep(FINE, bytes), recs)
  {
    var es := Parse(bytes, 0, 0);
    LoadedEntries(bytes, 0, 0);
    hide Parse;
    LoadedIndexHolds(bytes, es);
    LoadedTableHolds(bytes, es);
    NextIdInOrder(es, |es|);
  }

  lemma {:induction false} LoadedIndexHolds(bytes: seq<byte>, es: seq<Entry>)
    requires |es| <= MAX_CHUNKS && IdsInOrder(es) && DataComplete(bytes, es)
    requires forall i :: 0 <= i < |es| ==> es[i].isUsed
    ensures IndexHolds(Padded(es), bytes, FileRecs(bytes, es))
  {
  }

  lemma {:induction false} LoadedTableHolds(bytes: seq<byte>, es: seq<Entry>)
    requires |es| <= MAX_CHUNKS && HashesDiffer(es) && DataComplete(bytes, es)
    requires forall i :: 0 <= i < |es| ==> 0 < es[i].dataLen
    ensures TableHolds(TableOf(es, {}, |es|), FileRecs(bytes, es)) && WellFormed(FileRecs(bytes, es))
  {
    TableWithout(es, {}, |es|);
  }

  lemma {:induction false} StartIsCorrectOnlyIf(bytes: seq<byte>, recs: seq<Rec>)
    requires Represents(InitStep(FINE, bytes), recs)
    ensures var es := Parse(bytes, 0, 0);
            IdsInOrder(es) && HashesDiffer(es) && DataComplete(bytes, es) && recs == FileRecs(bytes, es)
  {
    hide Parse;
    var es := Parse(bytes, 0, 0);
    assert |es| == |recs|;
    forall i | 0 <= i < |es|
      ensures EntryHolds(es[i], i, bytes, recs[i]) && FileRecs(bytes, es)[i] == recs[i]
    {
      assert Padded(es)[i] == es[i];
    }
  }

  // ---------------------------------------------------------------- clean histories

  function LengthSum(recs: seq<Rec>, n: nat): u32
    requires n <= |recs|
  {
    if n == 0 then 0 else Add32(LengthSum(recs, n - 1), |recs[n - 1].data|)
  }

  /** Up to its use counts the index is the one start-up would build. */
  ghost predicate CleanIndex(index: seq<Entry>, recs: seq<Rec>) {
    && |recs| <= |index| == MAX_CHUNKS
    && (forall i :: 0 <= i < |recs| ==> index[i].(refCount := 1) == Image(recs, i))
    && (forall i :: |recs| <= i < MAX_CHUNKS ==> index[i] == NO_ENTRY)
  }

  /** No write and no insert of this store ever failed. */
  ghost predicate Clean(s: State, recs: seq<Rec>) {
    && Represents(s, recs)
    && s.file == FileOf(recs)
    && CleanIndex(s.index, recs)
    && s.totalBytes == LengthSum(recs, |recs|)
  }

  predicate FaultFree(op: Op) {
    op.Store? ==> op.fault.accepted >= HDR_SIZE + |op.data| && op.fault.insertOk
  }

  lemma {:induction false} PrefixUnchanged(recs: seq<Rec>, r: Rec, n: nat)
    requires n <= |recs| < U32 - 1
    ensures Start(recs + [r], n) == Start(recs, n)
    ensures Serialize(recs + [r], n) == Serialize(recs, n)
    ensures LengthSum(recs + [r], n) == LengthSum(recs, n)
  {
    if n > 0 {
      PrefixUnchanged(recs, r, n - 1);
    }
  }

  lemma {:induction false} FileGrows(recs: seq<Rec>, r: Rec)
    requires |recs| < U32 - 1
    ensures FileOf(recs + [r]) == FileOf(recs) + Encode(|recs| + 1, r.hash, r.data)
    ensures Start(recs + [r], |recs|) == |FileOf(recs)|
  {
    PrefixUnchanged(recs, r, |recs|);
  }

  lemma {:induction false} CleanIndexGrows(index: seq<Entry>, recs: seq<Rec>, r: Rec)
    requires CleanIndex(index, recs) && |recs| < MAX_CHUNKS
    ensures CleanIndex(index[|recs| := Image(recs + [r], |recs|)], recs + [r])
  {
    var index' := index[|recs| := Image(recs + [r], |recs|)];
    forall i | 0 <= i <= |recs| ensures index'[i].(refCount := 1) == Image(recs + [r], i) {
      PrefixUnchanged(recs, r, i);
    }
  }

  lemma {:induction false} CleanAppend(s: State, recs: seq<Rec>, data: Data, hash: Hash, f: Fault)
    requires Clean(s, recs) && |recs| < MAX_CHUNKS && |data| > 0 && CidOf(recs, hash) == 0
    requires f.accepted >= HDR_SIZE + |data| && f.insertOk
    ensures Clean(AppendStep(s, data, hash, f).0, recs + [Rec(hash, data)])
  {
    assert s.totalStored == |recs| && s.nextChunkId == |recs| + 1;
    CleanAppendRefines(s, recs, data, hash, f);
    CleanAppendParts(s, recs, data, hash, f);
  }

  lemma {:induction false} CleanAppendParts(s: State, recs: seq<Rec>, data: Data, hash: Hash, f: Fault)
    requires Shape(s) && s.totalStored == |recs| < MAX_CHUNKS && s.nextChunkId == |recs| + 1
    requires s.file == FileOf(recs) && CleanIndex(s.index, recs) && s.totalBytes == LengthSum(recs, |recs|)
    requires f.accepted >= HDR_SIZE + |data| && f.insertOk
    ensures var s', recs' := AppendStep(s, data, hash, f).0, recs + [Rec(hash, data)];
            s'.file == FileOf(recs') && CleanIndex(s'.index, recs') && s'.totalBytes == LengthSum(recs', |recs'|)
  {
    var r := Rec(hash, data);
    var s' := AppendStep(s, data, hash, f).0;
    FileGrows(recs, r);
    var record := Encode(s.nextChunkId, hash, data);
    assert record[..|record|] == record;
    CleanIndexGrows(s.index, recs, r);
    assert s'.index == s.index[|recs| := Image(recs + [r], |recs|)];
    PrefixUnchanged(recs, r, |recs|);
  }

  lemma {:induction false} CleanIndexCounts(index: seq<Entry>, recs: seq<Rec>, i: nat, count: u32)
    requires CleanIndex(index, recs) && i < |recs|
    ensures CleanIndex(index[i := index[i].(refCount := count)], recs)
  {
  }

  lemma {:induction false} CleanIncrement(s: State, recs: seq<Rec>, cid: u32)
    requires Clean(s, recs)
    ensures Clean(IncrementStep(s, cid), recs)
  {
    IncrementRefines(s, recs, cid);
    SlotIsLinearScan(s.index, s.file, recs, cid);
    if 1 <= cid <= |recs| {
      CleanIndexCounts(s.index, recs, cid - 1, Inc32(s.index[cid - 1].refCount));
    }
  }

  /** A run in which nothing fails keeps the file the plain list of the records. */
  lemma {:induction false} CleanRun(s: State, recs: seq<Rec>, ops: seq<Op>)
    requires Clean(s, recs)
    requires forall i :: 0 <= i < |ops| ==> FaultFree(ops[i])
    ensures Clean(Exec(s, ops), Run(recs, ops))
  {
    assert Shape(s);
    hide Clean, StoreStep, Stored, IncrementStep;
    if ops != [] {
      var init := ops[..|ops| - 1];
      CleanRun(s, recs, init);
      CleanStep(Exec(s, init), Run(recs, init), ops[|ops| - 1]);
    }
  }

  lemma {:induction false} CleanStep(s: State, recs: seq<Rec>, op: Op)
    requires Clean(s, recs) && FaultFree(op)
    ensures op.Store? ==> Clean(StoreStep(s, op.data, op.hash, op.fault).0, Stored(recs, op.data, op.hash, op.fault))
    ensures op.IncrementRef? ==> Clean(IncrementStep(s, op.cid), recs)
  {
    match op
    case Store(data, hash, f) => CleanStore(s, recs, data, hash, f);
    case IncrementRef(cid) => CleanIncrement(s, recs, cid);
    case _ =>
  }

  lemma {:induction false} CleanStore(s: State, recs: seq<Rec>, data: Data, hash: Hash, f: Fault)
    requires Clean(s, recs)
    requires f.accepted >= HDR_SIZE + |data| && f.insertOk
    ensures Clean(StoreStep(s, data, hash, f).0, Stored(recs, data, hash, f))
  {
    FindIsCidOf(s.index, s.file, s.table, recs, hash);
    var cid := CidOf(recs, hash);
    if |data| != 0 && cid != 0 {
      CleanIncrement(s, recs, cid);
    } else if |data| != 0 && |recs| < MAX_CHUNKS {
      CleanAppend(s, recs, data, hash, f);
    }
  }

  // ---------------------------------------------------------------- restart after a clean history

  /** The index with the use counts start-up cannot know set back to one. */
  function CountsReset(index: seq<Entry>): seq<Entry> {
    seq(|index|, i requires 0 <= i < |index| =>
      if index[i].isUsed then index[i].(refCount := 1) else index[i])
  }

  lemma {:induction false} TableIsDetermined(a: map<Hash, nat>, b: map<Hash, nat>, recs: seq<Rec>)
    requires TableHolds(a, recs) && TableHolds(b, recs)
    ensures a == b
  {
    forall h | h in a ensures h in b && b[h] == a[h] {
      assert recs[a[h]].hash == h;
    }
    forall h | h in b ensures h in a {
      assert recs[b[h]].hash == h;
    }
  }

  lemma {:induction false} LoadedBytesOfImages(recs: seq<Rec>, n: nat)
    requires n <= |recs| < U32
    ensures LoadedBytes(Images(recs, 0, |recs|), n) == LengthSum(recs, n)
  {
    if n > 0 {
      LoadedBytesOfImages(recs, n - 1);
      ImagesAt(recs, 0, |recs|, n - 1);
    }
  }

  /** Rebuild is the inverse of persistence: after a clean history of loadable chunks, a restart
      brings back the whole state, except that use and duplicate counts start over. */
  lemma {:induction false} RestartRestores(s: State, recs: seq<Rec>)
    requires Clean(s, recs)
    requires Loadable(recs)
    ensures InitStep(FINE, s.file) == s.(index := CountsReset(s.index), duplicates := 0)
  {
    var es := Images(recs, 0, |recs|);
    assert Parse(s.file, 0, 0) == es by {
      RebuildRestoresAll(recs);
    }
    LoadedBytesOfImages(recs, |recs|);
    ImagesInOrder(recs, |recs|);
    NextIdInOrder(es, |es|);
    assert TableOf(es, {}, |es|) == s.table by {
      TableOfImages(recs);
      TableIsDetermined(TableOf(es, {}, |es|), s.table, recs);
    }
    IndexRestored(s.index, recs);
  }

  lemma {:induction false} ImagesInOrder(recs: seq<Rec>, k: nat)
    requires k <= |recs| < U32
    ensures forall i :: 0 <= i < k ==> Images(recs, 0, k)[i] == Image(recs, i)
  {
    forall i | 0 <= i < k ensures Images(recs, 0, k)[i] == Image(recs, i) {
      ImagesAt(recs, 0, k, i);
    }
  }

  lemma {:induction false} TableOfImages(recs: seq<Rec>)
    requires WellFormed(recs)
    ensures var es := Images(recs, 0, |recs|); TableHolds(TableOf(es, {}, |es|), recs)
  {
    var es := Images(recs, 0, |recs|);
    ImagesInOrder(recs, |recs|);
    TableWithout(es, {}, |es|);
    var table := TableOf(es, {}, |es|);
    forall i | 0 <= i < |recs| ensures recs[i].hash in table && table[recs[i].hash] == i {
      assert es[i].hash == recs[i].hash;
    }
    forall h | h in table ensures table[h] < |recs| && recs[table[h]].hash == h {
      assert es[table[h]].hash == h;
    }
  }

  lemma {:induction false} IndexRestored(index: seq<Entry>, recs: seq<Rec>)
    requires CleanIndex(index, recs)
    ensures Padded(Images(recs, 0, |recs|)) == CountsReset(index)
  {
    ImagesInOrder(recs, |recs|);
    forall i | 0 <= i < |recs| ensures index[i].isUsed {
      assert index[i].(refCount := 1) == Image(recs, i);
    }
  }

  /** A store created anew is clean and empty, so every fault-free run from it can be restarted. */
  lemma {:induction false} RestartAfterCleanRun(ops: seq<Op>)
    requires forall i :: 0 <= i < |ops| ==> FaultFree(ops[i])
    requires Loadable(Run([], ops))
    ensures var s := Exec(InitStep(FINE.(found := false), []), ops);
            InitStep(FINE, s.file) == s.(index := CountsReset(s.index), duplicates := 0)
  {
    CreatedIsClean();
    CleanRun(InitStep(FINE.(found := false), []), [], ops);
    RestartRestores(Exec(InitStep(FINE.(found := false), []), ops), Run([], ops));
  }

  lemma {:induction false} CreatedIsClean()
    ensures Clean(InitStep(FINE.(found := false), []), [])
  {
    assert FileOf([]) == [];
  }

  // ---------------------------------------------------------------- restart after a rolled-back insert

  lemma {:induction false} ParseBehind(recs: seq<Rec>, bytes: seq<byte>, i: nat)
    requires Writable(recs) && i <= |recs| && FileOf(recs) <= bytes
    requires Loadable(recs)
    ensures Parse(bytes, Start(recs, i), i) == Images(recs, i, |recs|) + Parse(bytes, |FileOf(recs)|, |recs|)
    decreases |recs| - i
  {
    hide Parse, Serialize, Image;
    if i < |recs| {
      ParseBehindStep(recs, bytes, i);
      ParseBehind(recs, bytes, i + 1);
    }
  }

  lemma {:induction false} ParseBehindStep(recs: seq<Rec>, bytes: seq<byte>, i: nat)
    requires Writable(recs) && i < |recs| && FileOf(recs) <= bytes && |recs[i].data| <= MAX_LOAD_LEN
    ensures Parse(bytes, Start(recs, i), i) == [Image(recs, i)] + Parse(bytes, Start(recs, i + 1), i + 1)
  {
    hide Encode, Parse;
    var lo, hi := Start(recs, i), Start(recs, i + 1);
    assert hi <= |bytes| && bytes[lo..hi] == Encode(i + 1, recs[i].hash, recs[i].data) by {
      RecordAt(recs, i);
      assert bytes[lo..hi] == FileOf(recs)[lo..hi];
    }
    ParseWhole(bytes, lo, i, i + 1, recs[i].hash, recs[i].data);
  }

  lemma {:induction false} ParseWhole(bytes: seq<byte>, lo: nat, n: nat, cid: u32, hash: Hash, data: Data)
    requires lo + HDR_SIZE + |data| <= |bytes|
    requires bytes[lo..lo + HDR_SIZE + |data|] == Encode(cid, hash, data)
    requires 0 < |data| <= MAX_LOAD_LEN && n < MAX_CHUNKS
    ensures Parse(bytes, lo, n) == [Entry(cid, hash, lo, |data|, 1, true)] + Parse(bytes, lo + HDR_SIZE + |data|, n + 1)
  {
    hide EntryAt, Encode;
    assert bytes[..|bytes|] == bytes;
    ParseRecord(bytes, |bytes|, lo, n, cid, hash, data);
  }

  /** A rolled-back insert leaves its record on file, and the next chunk takes the same id. */
  lemma {:induction false} FileAfterRollback(s: State, recs: seq<Rec>, r1: Rec, r2: Rec, f1: Fault, f2: Fault)
    requires Clean(s, recs) && |recs| < MAX_CHUNKS && |r1.data| > 0 && |r2.data| > 0
    requires CidOf(recs, r1.hash) == 0 && CidOf(recs, r2.hash) == 0
    requires f1.accepted >= HDR_SIZE + |r1.data| && !f1.insertOk
    requires f2.accepted >= HDR_SIZE + |r2.data| && f2.insertOk
    ensures var s2 := StoreStep(StoreStep(s, r1.data, r1.hash, f1).0, r2.data, r2.hash, f2);
            s2.0.file == FileOf(recs + [r1]) + Encode(|recs| + 1, r2.hash, r2.data) && s2.1 == |recs| + 1
  {
    NewChunkOnFile(s, recs, r1, f1);
    FailedAppendRefines(s, recs, r1.data, r1.hash, f1);
    NewChunkOnFile(StoreStep(s, r1.data, r1.hash, f1).0, recs, r2, f2);
    FileGrows(recs, r1);
  }

  lemma {:induction false} NewChunkOnFile(s: State, recs: seq<Rec>, r: Rec, f: Fault)
    requires Represents(s, recs) && |recs| < MAX_CHUNKS && |r.data| > 0 && CidOf(recs, r.hash) == 0
    requires f.accepted >= HDR_SIZE + |r.data|
    ensures var (s', cid) := StoreStep(s, r.data, r.hash, f);
            && (s', cid) == AppendStep(s, r.data, r.hash, f)
            && s'.file == s.file + Encode(|recs| + 1, r.hash, r.data)
            && cid == if f.insertOk then |recs| + 1 else 0
  {
    FindIsCidOf(s.index, s.file, s.table, recs, r.hash);
    var record := Encode(|recs| + 1, r.hash, r.data);
    assert record[..|record|] == record;
  }

  /** What start-up makes of a file whose last record repeats the id of the one before it. */
  lemma {:induction false} DuplicateIdOnFile(recs: seq<Rec>, r: Rec)
    requires Writable(recs) && 0 < |recs| < MAX_CHUNKS && 0 < |r.data| <= MAX_LOAD_LEN
    requires Loadable(recs)
    ensures var bytes := FileOf(recs) + Encode(|recs|, r.hash, r.data);
            var e := Entry(|recs|, r.hash, |FileOf(recs)|, |r.data|, 1, true);
            Parse(bytes, 0, 0) == Images(recs, 0, |recs|) + [e]
  {
    hide Encode, EntryAt, Serialize, Images;
    var record := Encode(|recs|, r.hash, r.data);
    var bytes := FileOf(recs) + record;
    ParseBehind(recs, bytes, 0);
    SliceBehindPrefix(FileOf(recs), record, bytes);
    ParseWhole(bytes, |FileOf(recs)|, |recs|, |recs|, r.hash, r.data);
  }

  lemma {:induction false} DuplicateIdReadsOtherChunk(recs: seq<Rec>, r1: Rec, r2: Rec, room: nat)
    requires Writable(recs) && |recs| + 1 < MAX_CHUNKS
    requires 0 < |r1.data| <= MAX_LOAD_LEN && 0 < |r2.data| <= MAX_LOAD_LEN && |r1.data| <= room
    requires Loadable(recs)
    ensures var s := InitStep(FINE, FileOf(recs + [r1]) + Encode(|recs| + 1, r2.hash, r2.data));
            && FindLocked(s.index, s.table, r2.hash) == |recs| + 1
            && ReadStep(s, |recs| + 1, room) == r1.data
  {
    hide Encode, Parse, Images, Serialize, Start, ReadAt;
    var before, n := recs + [r1], |recs| + 1;
    var tail := Encode(n, r2.hash, r2.data);
    var bytes := FileOf(before) + tail;
    var e := Entry(n, r2.hash, |FileOf(before)|, |r2.data|, 1, true);
    DuplicateIdOnFile(before, r2);
    ImagesAt(before, 0, n, n - 1);
    ReadBehind(before, n - 1, tail);
    SecondWins(bytes, Parse(bytes, 0, 0), n, room);
  }

  /** Of two entries with the same id n, in slots n - 1 and n, a lookup by hash finds the second and a read the
      first. */
  lemma {:induction false} SecondWins(bytes: seq<byte>, es: seq<Entry>, n: nat, room: nat)
    requires es == Parse(bytes, 0, 0) && 0 < n && |es| == n + 1 <= MAX_CHUNKS
    requires es[n - 1].chunkId == n && es[n].chunkId == n && es[n - 1].isUsed && es[n].isUsed
             && es[n - 1].dataLen <= room
    ensures var s := InitStep(FINE, bytes);
            && FindLocked(s.index, s.table, es[n].hash) == n
            && ReadStep(s, n, room) == ReadAt(bytes, es[n - 1])
  {
    hide Parse, ReadAt, LoadedBytes;
    assert TableOf(es, {}, n + 1)[es[n].hash] == n;
    assert NextId(es, n + 1) > n;
  }

  lemma {:induction false} ReadBehind(recs: seq<Rec>, i: nat, tail: seq<byte>)
    requires i < |recs| < U32
    ensures ReadAt(FileOf(recs) + tail, Image(recs, i)) == recs[i].data
  {
    RecordAt(recs, i);
    DataOnFile(recs, |FileOf(recs)|, i);
    assert FileOf(recs)[..|FileOf(recs)|] == FileOf(recs);
    SliceOfPrefix(FileOf(recs), tail, Start(recs, i) + HDR_SIZE, Start(recs, i + 1));
  }

  /** The comment's claim that slot == id - 1 also holds after rebuilding from disk is false: after a
      rolled-back insert of r1, storing r2 and a restart, the hash of r2 is found under an id
      that reads back the bytes of r1. */
  lemma {:induction false} RestartAfterRollbackReadsOtherChunk(
    s: State, recs: seq<Rec>, r1: Rec, r2: Rec, f1: Fault, f2: Fault, room: nat)
    requires Clean(s, recs) && Loadable(recs) && |recs| + 1 < MAX_CHUNKS
    requires 0 < |r1.data| <= MAX_LOAD_LEN && 0 < |r2.data| <= MAX_LOAD_LEN && |r1.data| <= room && |r2.data| <= room
    requires CidOf(recs, r1.hash) == 0 && CidOf(recs, r2.hash) == 0
    requires f1.accepted >= HDR_SIZE + |r1.data| && !f1.insertOk
    requires f2.accepted >= HDR_SIZE + |r2.data| && f2.insertOk
    ensures var (now, cid) := StoreStep(StoreStep(s, r1.data, r1.hash, f1).0, r2.data, r2.hash, f2);
            var restarted := InitStep(FINE, now.file);
            && ReadStep(now, cid, room) == r2.data
            && FindLocked(restarted.index, restarted.table, r2.hash) == cid
            && ReadStep(restarted, cid, room) == r1.data
  {
    FileAfterRollback(s, recs, r1, r2, f1, f2);
    DuplicateIdReadsOtherChunk(recs, r1, r2, room);
    ReadBeforeRestart(s, recs, r1, r2, f1, f2, room);
  }

  lemma {:induction false} ReadBeforeRestart(
    s: State, recs: seq<Rec>, r1: Rec, r2: Rec, f1: Fault, f2: Fault, room: nat)
    requires Represents(s, recs) && |recs| < MAX_CHUNKS && |r2.data| > 0 && |r2.data| <= room
    requires CidOf(recs, r2.hash) == 0 && !f1.insertOk
    requires f2.accepted >= HDR_SIZE + |r2.data| && f2.insertOk
    ensures var (now, cid) := StoreStep(StoreStep(s, r1.data, r1.hash, f1).0, r2.data, r2.hash, f2);
            ReadStep(now, cid, room) == r2.data
  {
    StoreRefines(s, recs, r1.data, r1.hash, f1);
    var s1 := StoreStep(s, r1.data, r1.hash, f1).0;
    assert Stored(recs, r1.data, r1.hash, f1) == recs;
    StoreRefines(s1, recs, r2.data, r2.hash, f2);
    var (now, cid) := StoreStep(s1, r2.data, r2.hash, f2);
    ReadRefines(now, Stored(recs, r2.data, r2.hash, f2), cid, room);
  }
}
