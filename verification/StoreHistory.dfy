/** Which histories of the chunk store a restart brings back right. */
module StoreHistory {
  import opened Bytes
  import opened ChunkStore
  import opened StoreRebuild

  // ---------------------------------------------------------------- single operations

  /** The operation tries to add a record: new data, and room for it. */
  predicate Attempts(recs: seq<Rec>, op: Op) {
    op.Store? && |op.data| > 0 && CidOf(recs, op.hash) == 0 && |recs| < MAX_CHUNKS
  }

  /** The bytes the operation adds to the file. */
  function WrittenBy(recs: seq<Rec>, op: Op): seq<byte> {
    if Attempts(recs, op) then Encode(|recs| + 1, op.hash, op.data)[..Min(op.fault.accepted, HDR_SIZE + |op.data|)]
    else []
  }

  /** It wrote a record, but the hash table did not take it. */
  predicate FailedInsert(recs: seq<Rec>, op: Op) {
    Attempts(recs, op) && op.fault.accepted > 0 && !op.fault.insertOk
  }

  /** Its record is written whole or refused at once, and start-up accepts its data. */
  predicate Untorn(op: Op) {
    op.Store? ==> (op.fault.accepted == 0 || op.fault.accepted >= HDR_SIZE + |op.data|) && |op.data| <= MAX_LOAD_LEN
  }

  lemma {:induction false} Next(s: State, recs: seq<Rec>, ops: seq<Op>, n: nat)
    requires Shape(s) && n < |ops|
    ensures Exec(s, ops[..n + 1]) == StepOf(Exec(s, ops[..n]), ops[n])
    ensures Run(recs, ops[..n + 1]) == RecsAfter(Run(recs, ops[..n]), ops[n])
  {
    hide StepOf, RecsAfter;
    assert ops[..n + 1][..n] == ops[..n];
  }

  lemma {:induction false} NoAttemptNoWrite(s: State, recs: seq<Rec>, op: Op)
    requires Represents(s, recs) && !Attempts(recs, op)
    ensures StepOf(s, op).file == s.file && RecsAfter(recs, op) == recs
  {
    if op.Store? {
      FindIsCidOf(s.index, s.file, s.table, recs, op.hash);
      hide FindLocked, IndexHolds, TableHolds;
    }
  }

  lemma {:induction false} AttemptWrites(s: State, recs: seq<Rec>, data: Data, hash: Hash, f: Fault)
    requires Represents(s, recs) && |data| > 0 && CidOf(recs, hash) == 0 && |recs| < MAX_CHUNKS
    ensures StoreStep(s, data, hash, f).0.file
            == s.file + Encode(|recs| + 1, hash, data)[..Min(f.accepted, HDR_SIZE + |data|)]
  {
    hide Encode;
    FindIsCidOf(s.index, s.file, s.table, recs, hash);
    hide FindLocked, IndexHolds, TableHolds, CidOf;
  }

  /** What one operation does to the file, whatever the environment does. */
  lemma {:induction false} StepWrites(s: State, recs: seq<Rec>, op: Op)
    requires Represents(s, recs)
    ensures StepOf(s, op).file == s.file + WrittenBy(recs, op)
  {
    hide Represents, StoreStep, IncrementStep, Encode, CidOf;
    ShapeOf(s, recs);
    if Attempts(recs, op) {
      AttemptWrites(s, recs, op.data, op.hash, op.fault);
    } else {
      NoAttemptNoWrite(s, recs, op);
    }
  }

  /** What an untorn operation does: a record that is written stands behind the file, whether or not it is kept. */
  lemma {:induction false} StepFacts(s: State, recs: seq<Rec>, op: Op)
    requires Represents(s, recs) && Untorn(op)
    ensures var s', recs' := StepOf(s, op), RecsAfter(recs, op);
            && Represents(s', recs')
            && if Attempts(recs, op) && op.fault.accepted > 0
               then s'.file == s.file + Encode(|recs| + 1, op.hash, op.data)
                    && recs' == if op.fault.insertOk then recs + [Rec(op.hash, op.data)] else recs
               else s'.file == s.file && recs' == recs
  {
    hide Represents, StepOf, RecsAfter, WrittenBy, Untorn, Encode, CidOf;
    ShapeOf(s, recs);
    StepRefines(s, recs, op);
    StepWrites(s, recs, op);
    UntornBytes(recs, op);
  }

  lemma {:induction false} UntornBytes(recs: seq<Rec>, op: Op)
    requires Untorn(op)
    ensures if Attempts(recs, op) && op.fault.accepted > 0
            then WrittenBy(recs, op) == Encode(|recs| + 1, op.hash, op.data)
                 && RecsAfter(recs, op) == if op.fault.insertOk then recs + [Rec(op.hash, op.data)] else recs
            else WrittenBy(recs, op) == [] && RecsAfter(recs, op) == recs
  {
    hide Encode, CidOf;
    if Attempts(recs, op) {
      var record := Encode(|recs| + 1, op.hash, op.data);
      assert record[..|record|] == record && record[..0] == [];
    }
  }

  // ---------------------------------------------------------------- histories

  /** The store implements the records, and its file is their plain list. */
  ghost predicate OnFile(s: State, recs: seq<Rec>) {
    Represents(s, recs) && s.file == FileOf(recs) && Loadable(recs)
  }

  lemma {:induction false} OnFileIsRepresented(s: State, recs: seq<Rec>)
    requires OnFile(s, recs)
    ensures Represents(s, recs)
  {
  }

  ghost predicate AllUntorn(ops: seq<Op>) {
    forall i :: 0 <= i < |ops| ==> Untorn(ops[i])
  }

  /** None of the first n operations fails to insert. */
  ghost predicate NoFailure(recs: seq<Rec>, ops: seq<Op>, n: nat)
    requires n <= |ops|
  {
    forall p :: 0 <= p < n ==> !FailedInsert(Run(recs, ops[..p]), ops[p])
  }

  ghost predicate FirstFailure(recs: seq<Rec>, ops: seq<Op>, p: nat) {
    p < |ops| && FailedInsert(Run(recs, ops[..p]), ops[p]) && NoFailure(recs, ops, p)
  }

  lemma {:induction false} FailureFound(recs: seq<Rec>, ops: seq<Op>, n: nat) returns (p: nat)
    requires n <= |ops| && !NoFailure(recs, ops, n)
    ensures p < n && FirstFailure(recs, ops, p)
  {
    hide FailedInsert;
    if NoFailure(recs, ops, n - 1) {
      p := n - 1;
    } else {
      p := FailureFound(recs, ops, n - 1);
    }
  }

  /** Without failures the file stays the plain list of the records. */
  lemma {:induction false} StaysOnFile(s: State, recs: seq<Rec>, ops: seq<Op>, n: nat)
    requires OnFile(s, recs) && AllUntorn(ops) && n <= |ops| && NoFailure(recs, ops, n)
    ensures OnFile(Exec(s, ops[..n]), Run(recs, ops[..n]))
  {
    assert Shape(s);
    if n == 0 {
      assert ops[..0] == [];
    } else {
      hide Exec, Run, StepOf, RecsAfter, OnFile, FailedInsert, Untorn;
      StaysOnFile(s, recs, ops, n - 1);
      Next(s, recs, ops, n - 1);
      StepStaysOnFile(Exec(s, ops[..n - 1]), Run(recs, ops[..n - 1]), ops[n - 1]);
    }
  }

  lemma {:induction false} StepStaysOnFile(s: State, recs: seq<Rec>, op: Op)
    requires OnFile(s, recs) && Untorn(op) && !FailedInsert(recs, op)
    ensures OnFile(StepOf(s, op), RecsAfter(recs, op))
  {
    hide Represents, Encode, StepOf, RecsAfter, Serialize, CidOf, Loadable;
    ShapeOf(s, recs);
    StepFacts(s, recs, op);
    if Attempts(recs, op) && op.fault.accepted > 0 {
      ListGrows(recs, Rec(op.hash, op.data));
    }
  }

  lemma {:induction false} ListGrows(recs: seq<Rec>, r: Rec)
    requires |recs| < MAX_CHUNKS && Loadable(recs) && |r.data| <= MAX_LOAD_LEN
    ensures Loadable(recs + [r]) && FileOf(recs + [r]) == FileOf(recs) + Encode(|recs| + 1, r.hash, r.data)
  {
    FileGrows(recs, r);
  }

  /** Behind `base` stands at least one loadable record with this id. */
  ghost predicate Begun(file: seq<byte>, base: seq<byte>, id: u32) {
    exists r: Rec :: BegunWith(file, base, id, r)
  }

  ghost predicate BegunWith(file: seq<byte>, base: seq<byte>, id: u32, r: Rec) {
    0 < |r.data| <= MAX_LOAD_LEN && base + Encode(id, r.hash, r.data) <= file
  }

  /** Since the file was `base` and the records `before`, nothing was written, or first a record with the next id. */
  ghost predicate Behind(s: State, recs: seq<Rec>, base: seq<byte>, before: seq<Rec>) {
    && Represents(s, recs) && base <= s.file && |before| <= MAX_CHUNKS
    && ((s.file == base && recs == before) || Begun(s.file, base, |before| + 1))
  }

  lemma {:induction false} BehindStep(s: State, recs: seq<Rec>, op: Op, base: seq<byte>, before: seq<Rec>)
    requires Behind(s, recs, base, before) && Untorn(op)
    ensures Behind(StepOf(s, op), RecsAfter(recs, op), base, before)
  {
    hide Represents, Encode, StepOf, RecsAfter, BegunWith, CidOf;
    ShapeOf(s, recs);
    StepFacts(s, recs, op);
    if Attempts(recs, op) && op.fault.accepted > 0 {
      RepresentedIsWellFormed(s, recs);
      FileBegun(s.file, recs, base, before, Rec(op.hash, op.data));
    }
  }

  lemma {:induction false} FileBegun(file: seq<byte>, recs: seq<Rec>, base: seq<byte>, before: seq<Rec>, r: Rec)
    requires |recs| < MAX_CHUNKS && |before| <= MAX_CHUNKS && base <= file && 0 < |r.data| <= MAX_LOAD_LEN
    requires (file == base && recs == before) || Begun(file, base, |before| + 1)
    ensures var file' := file + Encode(|recs| + 1, r.hash, r.data); base <= file' && Begun(file', base, |before| + 1)
  {
    hide BegunWith, Encode;
    var file' := file + Encode(|recs| + 1, r.hash, r.data);
    if Begun(file, base, |before| + 1) {
      var first: Rec :| BegunWith(file, base, |before| + 1, first);
      BegunGrows(file, file', base, |before| + 1, first);
    } else {
      BegunNow(base, |before| + 1, r);
    }
  }

  lemma {:induction false} StaysBehind(
    s: State, recs: seq<Rec>, ops: seq<Op>, p: nat, n: nat, base: seq<byte>, before: seq<Rec>)
    requires Shape(s) && AllUntorn(ops) && p <= n <= |ops|
    requires Behind(Exec(s, ops[..p]), Run(recs, ops[..p]), base, before)
    ensures Behind(Exec(s, ops[..n]), Run(recs, ops[..n]), base, before)
  {
    hide Exec, Run, StepOf, RecsAfter, Behind, Untorn;
    if p < n {
      StaysBehind(s, recs, ops, p, n - 1, base, before);
      Next(s, recs, ops, n - 1);
      BehindStep(Exec(s, ops[..n - 1]), Run(recs, ops[..n - 1]), ops[n - 1], base, before);
    }
  }

  /** Whatever happens later, the first record that reaches the file takes the next id. */
  lemma {:induction false} NextIdBehind(s: State, recs: seq<Rec>, ops: seq<Op>, p: nat, n: nat)
    requires Represents(s, recs) && AllUntorn(ops) && p <= n <= |ops|
    ensures Behind(Exec(s, ops[..n]), Run(recs, ops[..n]), Exec(s, ops[..p]).file, Run(recs, ops[..p]))
  {
    hide Represents, Exec, Run, Behind, Untorn;
    ShapeOf(s, recs);
    RunRefines(s, recs, ops[..p]);
    BehindNow(Exec(s, ops[..p]), Run(recs, ops[..p]));
    StaysBehind(s, recs, ops, p, n, Exec(s, ops[..p]).file, Run(recs, ops[..p]));
  }

  lemma {:induction false} BehindNow(s: State, recs: seq<Rec>)
    requires Represents(s, recs)
    ensures Behind(s, recs, s.file, recs)
  {
    hide Begun;
    RepresentedIsWellFormed(s, recs);
    hide Represents;
  }

  lemma {:induction false} BegunGrows(file: seq<byte>, more: seq<byte>, base: seq<byte>, id: u32, r: Rec)
    requires BegunWith(file, base, id, r) && file <= more
    ensures BegunWith(more, base, id, r)
  {
  }

  lemma {:induction false} BegunNow(base: seq<byte>, id: u32, r: Rec)
    requires 0 < |r.data| <= MAX_LOAD_LEN
    ensures BegunWith(base + Encode(id, r.hash, r.data), base, id, r)
  {
  }

  // ---------------------------------------------------------------- what start-up makes of a file

  lemma {:induction false} ParsesAs(recs: seq<Rec>, bytes: seq<byte>)
    requires WellFormed(recs) && Loadable(recs) && FileOf(recs) <= bytes
    requires Parse(bytes, |FileOf(recs)|, |recs|) == []
    ensures Parse(bytes, 0, 0) == Images(recs, 0, |recs|)
  {
    hide Parse, Images, Encode;
    ParseBehind(recs, bytes, 0);
    assert Images(recs, 0, |recs|) + [] == Images(recs, 0, |recs|);
  }

  lemma {:induction false} ImagesAreFine(recs: seq<Rec>)
    requires WellFormed(recs)
    ensures IdsInOrder(Images(recs, 0, |recs|)) && HashesDiffer(Images(recs, 0, |recs|))
  {
    hide Images, Start;
    ImagesInOrder(recs, |recs|);
  }

  /** A file that begins with the plain list of some records and on which start-up then finds no further one. */
  lemma {:induction false} StartsAs(recs: seq<Rec>, bytes: seq<byte>)
    requires WellFormed(recs) && Loadable(recs) && FileOf(recs) <= bytes
    requires Parse(bytes, |FileOf(recs)|, |recs|) == []
    ensures Represents(InitStep(FINE, bytes), recs)
  {
    hide Parse, Images, Encode, Serialize, Represents, InitStep, IdsInOrder, HashesDiffer, DataComplete, FileRecs;
    ParsesAs(recs, bytes);
    ImagesAreFine(recs);
    LoadedAsWritten(recs, bytes);
    StartIsCorrectIf(bytes, recs);
  }

  /** The entries of records that stand at the front of a file read back these records. */
  lemma {:induction false} LoadedAsWritten(recs: seq<Rec>, bytes: seq<byte>)
    requires WellFormed(recs) && FileOf(recs) <= bytes
    ensures recs == FileRecs(bytes, Images(recs, 0, |recs|)) && DataComplete(bytes, Images(recs, 0, |recs|))
  {
    hide Images, Encode, Serialize, ReadAt;
    var es := Images(recs, 0, |recs|);
    ImagesInOrder(recs, |recs|);
    var tail := bytes[|FileOf(recs)|..];
    assert bytes == FileOf(recs) + tail;
    forall i | 0 <= i < |recs|
      ensures ReadAt(bytes, es[i]) == recs[i].data && es[i].fileOffset + HDR_SIZE + es[i].dataLen <= |bytes|
    {
      ReadBehind(recs, i, tail);
      EndsInFile(recs, i);
    }
  }

  lemma {:induction false} EndsInFile(recs: seq<Rec>, i: nat)
    requires i < |recs| < U32
    ensures Start(recs, i) + HDR_SIZE + |recs[i].data| <= |FileOf(recs)|
  {
    RecordAt(recs, i);
  }

  lemma {:induction false} RepresentsOne(bytes: seq<byte>, a: seq<Rec>, b: seq<Rec>)
    requires Represents(InitStep(FINE, bytes), a) && Represents(InitStep(FINE, bytes), b)
    ensures a == b
  {
    StartIsCorrectOnlyIf(bytes, a);
    StartIsCorrectOnlyIf(bytes, b);
    hide Represents, Parse;
  }

  lemma {:induction false} NothingBehind(bytes: seq<byte>, off: nat, n: nat)
    requires off + HDR_SIZE > |bytes| || n >= MAX_CHUNKS
    ensures Parse(bytes, off, n) == []
  {
  }

  /** Start-up stops here: no whole header is left, its length is not accepted, or the index is full. */
  predicate NoEntry(bytes: seq<byte>, off: nat, n: nat) {
    off + HDR_SIZE > |bytes| || n >= MAX_CHUNKS || !(0 < EntryAt(bytes, off).dataLen <= MAX_LOAD_LEN)
  }

  lemma {:induction false} NoEntryIff(bytes: seq<byte>, off: nat, n: nat)
    ensures Parse(bytes, off, n) == [] <==> NoEntry(bytes, off, n)
  {
    hide EntryAt;
  }

  lemma {:induction false} ParseHead(bytes: seq<byte>, off: nat, n: nat)
    requires Parse(bytes, off, n) != []
    ensures off + HDR_SIZE <= |bytes| && 0 < EntryAt(bytes, off).dataLen <= MAX_LOAD_LEN
    ensures var e := EntryAt(bytes, off); Parse(bytes, off, n) == [e] + Parse(bytes, off + HDR_SIZE + e.dataLen, n + 1)
  {
    hide EntryAt;
  }

  /** Header and data read back pin down the record's bytes. */
  lemma {:induction false} BytesOfEntry(bytes: seq<byte>, off: nat, cid: u32, hash: Hash, data: Data)
    requires off + HDR_SIZE + |data| <= |bytes|
    requires var e := EntryAt(bytes, off); e.chunkId == cid && e.hash == hash && e.dataLen == |data|
    requires bytes[off + HDR_SIZE..off + HDR_SIZE + |data|] == data
    ensures bytes[off..off + HDR_SIZE + |data|] == Encode(cid, hash, data)
  {
    hide Le32, FromLe32;
    FromLe32RoundTrip(bytes[off..off + 4]);
    FromLe32RoundTrip(bytes[off + 4..off + 8]);
    assert bytes[off..off + HDR_SIZE + |data|]
        == bytes[off..off + 4] + bytes[off + 4..off + 8] + bytes[off + 8..off + HDR_SIZE]
           + bytes[off + HDR_SIZE..off + HDR_SIZE + |data|];
  }

  /** Start-up loads exactly these records from the file. */
  ghost predicate LoadsAs(bytes: seq<byte>, recs: seq<Rec>) {
    var es := Parse(bytes, 0, 0);
    IdsInOrder(es) && DataComplete(bytes, es) && recs == FileRecs(bytes, es)
  }

  /** Then the first i entries stem from the first i records of the plain list, which the file begins with. */
  lemma {:induction false} BeginsWith(bytes: seq<byte>, recs: seq<Rec>, i: nat)
    requires LoadsAs(bytes, recs) && i <= |recs| <= MAX_CHUNKS
    ensures BegunAs(bytes, recs, Parse(bytes, 0, 0), i)
  {
    hide Serialize, EntryAt, Parse, ReadAt;
    var es := Parse(bytes, 0, 0);
    if i == 0 {
      NothingYet(bytes, recs);
    } else {
      BeginsWith(bytes, recs, i - 1);
      hide BegunAs;
      assert recs[i - 1] == FileRecs(bytes, es)[i - 1];
      OneMoreRecord(bytes, recs, es, i - 1);
    }
  }

  ghost predicate BegunAs(bytes: seq<byte>, recs: seq<Rec>, es: seq<Entry>, i: nat) {
    && i <= |recs| == |es| && |recs| <= MAX_CHUNKS
    && Serialize(recs, i) <= bytes && Parse(bytes, Start(recs, i), i) == es[i..]
    && forall j :: 0 <= j < i ==> |recs[j].data| <= MAX_LOAD_LEN
  }

  lemma {:induction false} NothingYet(bytes: seq<byte>, recs: seq<Rec>)
    requires |recs| == |Parse(bytes, 0, 0)| && |recs| <= MAX_CHUNKS
    ensures BegunAs(bytes, recs, Parse(bytes, 0, 0), 0)
  {
    hide Parse;
  }

  lemma {:induction false} EntryHere(bytes: seq<byte>, es: seq<Entry>, lo: nat, i: nat)
    requires i < |es| && Parse(bytes, lo, i) == es[i..]
    ensures lo + HDR_SIZE <= |bytes| && es[i] == EntryAt(bytes, lo) && 0 < es[i].dataLen <= MAX_LOAD_LEN
    ensures Parse(bytes, lo + HDR_SIZE + es[i].dataLen, i + 1) == es[i + 1..]
  {
    hide EntryAt, Parse;
    ParseHead(bytes, lo, i);
    assert es[i..][0] == es[i] && es[i..][1..] == es[i + 1..];
  }

  lemma {:induction false} OneMoreRecord(bytes: seq<byte>, recs: seq<Rec>, es: seq<Entry>, i: nat)
    requires BegunAs(bytes, recs, es, i) && i < |recs| && es[i].chunkId == i + 1
    requires es[i].fileOffset + HDR_SIZE + es[i].dataLen <= |bytes|
    requires recs[i] == Rec(es[i].hash, ReadAt(bytes, es[i]))
    ensures BegunAs(bytes, recs, es, i + 1)
  {
    hide Encode, EntryAt, Parse;
    var lo, r := Start(recs, i), recs[i];
    EntryHere(bytes, es, lo, i);
    BytesOfEntry(bytes, lo, i + 1, r.hash, r.data);
    Extended(Serialize(recs, i), Encode(i + 1, r.hash, r.data), bytes);
  }

  lemma {:induction false} Extended<T>(a: seq<T>, b: seq<T>, s: seq<T>)
    requires a <= s && |a| + |b| <= |s| && s[|a|..|a| + |b|] == b
    ensures a + b <= s
  {
    assert s[..|a| + |b|] == a + b;
  }

  /** Which files start-up turns into which records: the file begins with their plain list, the lengths are accepted,
      and nothing is loaded behind it. */
  lemma {:induction false} StartsAsIff(recs: seq<Rec>, bytes: seq<byte>)
    ensures Represents(InitStep(FINE, bytes), recs)
            <==> WellFormed(recs) && Loadable(recs) && FileOf(recs) <= bytes && NoEntry(bytes, |FileOf(recs)|, |recs|)
  {
    hide InitStep, Parse, NoEntry, Serialize, IdsInOrder, DataComplete, FileRecs;
    if Represents(InitStep(FINE, bytes), recs) {
      StartIsCorrectOnlyIf(bytes, recs);
      RepresentedIsWellFormed(InitStep(FINE, bytes), recs);
      hide Represents, WellFormed;
      BeginsWith(bytes, recs, |recs|);
      NoEntryIff(bytes, |FileOf(recs)|, |recs|);
    }
    if WellFormed(recs) && Loadable(recs) && FileOf(recs) <= bytes && NoEntry(bytes, |FileOf(recs)|, |recs|) {
      NoEntryIff(bytes, |FileOf(recs)|, |recs|);
      StartsAs(recs, bytes);
    }
  }

  // ---------------------------------------------------------------- any history

  /** The bytes a history adds to the file, torn and given-up records included. */
  function Written(recs: seq<Rec>, ops: seq<Op>): seq<byte> {
    if ops == [] then []
    else
      var init := ops[..|ops| - 1];
      Written(recs, init) + WrittenBy(Run(recs, init), ops[|ops| - 1])
  }

  lemma {:induction false} LastOp(s: State, recs: seq<Rec>, ops: seq<Op>)
    requires Shape(s) && ops != []
    ensures var init, op := ops[..|ops| - 1], ops[|ops| - 1];
            && Exec(s, ops) == StepOf(Exec(s, init), op)
            && Written(recs, ops) == Written(recs, init) + WrittenBy(Run(recs, init), op)
  {
    hide StepOf, WrittenBy;
  }

  lemma {:induction false} FileOfHistory(s: State, recs: seq<Rec>, ops: seq<Op>)
    requires Represents(s, recs)
    ensures Exec(s, ops).file == s.file + Written(recs, ops)
  {
    assert Shape(s);
    if ops != [] {
      hide Represents, StepOf, RecsAfter, WrittenBy, Exec, Run, Written;
      var init := ops[..|ops| - 1];
      FileOfHistory(s, recs, init);
      RunRefines(s, recs, init);
      StepWrites(Exec(s, init), Run(recs, init), ops[|ops| - 1]);
      LastOp(s, recs, ops);
      Associates(s.file, Written(recs, init), WrittenBy(Run(recs, init), ops[|ops| - 1]));
    }
  }

  lemma {:induction false} Associates<T>(a: seq<T>, b: seq<T>, c: seq<T>)
    ensures a + b + c == a + (b + c)
  {
  }

  /** After any history, failed inserts and torn writes anywhere in it, a restart is right exactly when the
      bytes written begin with the plain list of the records and go on with nothing start-up loads. */
  lemma {:induction false} AnyHistoryIff(s: State, recs: seq<Rec>, ops: seq<Op>)
    requires Represents(s, recs)
    ensures var bytes, now := s.file + Written(recs, ops), Run(recs, ops);
            && |now| <= MAX_CHUNKS
            && (Represents(InitStep(FINE, Exec(s, ops).file), now)
                <==> Loadable(now) && FileOf(now) <= bytes && NoEntry(bytes, |FileOf(now)|, |now|))
  {
    hide Represents, Exec, Run, Written, InitStep, NoEntry, Serialize, Loadable;
    ShapeOf(s, recs);
    FileOfHistory(s, recs, ops);
    RunRefines(s, recs, ops);
    RepresentedIsWellFormed(Exec(s, ops), Run(recs, ops));
    StartsAsIff(Run(recs, ops), s.file + Written(recs, ops));
  }

  /** A record whose id repeats the one before it: no records are represented after start-up. */
  lemma {:induction false} RepeatedIdIsWrong(front: seq<Rec>, file: seq<byte>, r: Rec, recs: seq<Rec>)
    requires WellFormed(front) && Loadable(front) && |front| < MAX_CHUNKS
    requires BegunWith(file, FileOf(front), |front|, r)
    ensures !Represents(InitStep(FINE, file), recs)
  {
    hide Parse, Images, Encode, Serialize, Represents, InitStep, EntryAt;
    ParseBehind(front, file, 0);
    SliceBehindPrefix(FileOf(front), Encode(|front|, r.hash, r.data), file);
    ParseWhole(file, |FileOf(front)|, |front|, |front|, r.hash, r.data);
    assert Parse(file, 0, 0)[|front|].chunkId == |front|;
    if Represents(InitStep(FINE, file), recs) {
      StartIsCorrectOnlyIf(file, recs);
    }
  }

  // ---------------------------------------------------------------- which histories a restart brings back

  /** The failed chunk p was to fill the last slot, and it is the chunk that fills it in the end. */
  ghost predicate LastSlotRetried(recs: seq<Rec>, ops: seq<Op>, p: nat)
    requires p < |ops| && ops[p].Store?
  {
    var before := Run(recs, ops[..p]);
    |before| == MAX_CHUNKS - 1 && Run(recs, ops) == before + [Rec(ops[p].hash, ops[p].data)]
  }

  lemma {:induction false} FailedRecord(s: State, recs: seq<Rec>, op: Op)
    requires OnFile(s, recs) && Untorn(op) && FailedInsert(recs, op)
    ensures var recs' := recs + [Rec(op.hash, op.data)];
            && RecsAfter(recs, op) == recs && Represents(StepOf(s, op), recs)
            && StepOf(s, op).file == FileOf(recs') && WellFormed(recs') && Loadable(recs')
  {
    hide Represents, Encode, StepOf, RecsAfter, Serialize;
    StepFacts(s, recs, op);
    FileGrows(recs, Rec(op.hash, op.data));
    RepresentedIsWellFormed(s, recs);
    StoredWellFormed(recs, op.data, op.hash, Fault(HDR_SIZE + |op.data|, true));
  }

  /** What a restart makes of a file on which a record is left that the store gave up. */
  lemma {:induction false} FileWithLeftover(front: seq<Rec>, file: seq<byte>, recs: seq<Rec>)
    requires WellFormed(front) && Loadable(front) && 0 < |front| && FileOf(front) <= file
    requires (file == FileOf(front) && recs == front[..|front| - 1]) || Begun(file, FileOf(front), |front|)
    ensures Represents(InitStep(FINE, file), recs) <==> |front| == MAX_CHUNKS && recs == front
  {
    assert |front| <= MAX_CHUNKS;
    hide Encode, Serialize, Represents, InitStep, BegunWith, WellFormed, Loadable;
    if |front| < MAX_CHUNKS && Begun(file, FileOf(front), |front|) {
      var r: Rec :| BegunWith(file, FileOf(front), |front|, r);
      RepeatedIdIsWrong(front, file, r, recs);
    } else {
      StartsAsIff(front, file);
      if Represents(InitStep(FINE, file), recs) {
        RepresentsOne(file, recs, front);
      }
    }
  }

  lemma {:induction false} RestartAfterFailure(s: State, recs: seq<Rec>, ops: seq<Op>, p: nat)
    requires OnFile(s, recs) && AllUntorn(ops) && FirstFailure(recs, ops, p)
    ensures Represents(InitStep(FINE, Exec(s, ops).file), Run(recs, ops)) <==> LastSlotRetried(recs, ops, p)
  {
    assert Shape(s);
    var a, b, r := Exec(s, ops[..p]), Run(recs, ops[..p]), Rec(ops[p].hash, ops[p].data);
    StaysOnFile(s, recs, ops, p);
    Next(s, recs, ops, p);
    FailedRecord(a, b, ops[p]);
    hide Represents, Exec, Run, StepOf, RecsAfter, Serialize, InitStep, Begun, WellFormed, Loadable;
    NextIdBehind(s, recs, ops, p + 1, |ops|);
    assert ops[..|ops|] == ops;
    assert (b + [r])[..|b|] == b;
    FileWithLeftover(b + [r], Exec(s, ops).file, Run(recs, ops));
  }

  /** A restart brings the records of a history back exactly when no insert of it failed, but for one
      corner: the first chunk that failed was the last that fits, and later takes that slot after all. */
  lemma {:induction false} RestartRightIff(s: State, recs: seq<Rec>, ops: seq<Op>)
    requires OnFile(s, recs) && AllUntorn(ops)
    ensures Represents(InitStep(FINE, Exec(s, ops).file), Run(recs, ops))
            <==> NoFailure(recs, ops, |ops|)
                 || exists p :: FirstFailure(recs, ops, p) && LastSlotRetried(recs, ops, p)
  {
    hide Represents, Exec, Run, Serialize, InitStep, Begun, FailedInsert, LastSlotRetried;
    ShapeOf(s, recs);
    assert ops[..|ops|] == ops;
    if NoFailure(recs, ops, |ops|) {
      StaysOnFile(s, recs, ops, |ops|);
      var now := Run(recs, ops);
      RepresentedIsWellFormed(Exec(s, ops), now);
      NothingBehind(FileOf(now), |FileOf(now)|, |now|);
      StartsAs(now, FileOf(now));
    } else {
      var p := FailureFound(recs, ops, |ops|);
      RestartAfterFailure(s, recs, ops, p);
      forall q | FirstFailure(recs, ops, q) ensures q == p {
      }
    }
  }

  /** The same from a created file on. */
  lemma {:induction false} RestartRightFromCreated(ops: seq<Op>)
    requires AllUntorn(ops)
    ensures var s := InitStep(FINE.(found := false), []);
            Represents(InitStep(FINE, Exec(s, ops).file), Run([], ops))
            <==> NoFailure([], ops, |ops|) || exists p :: FirstFailure([], ops, p) && LastSlotRetried([], ops, p)
  {
    hide Represents, Exec, Run, InitStep, Serialize, FirstFailure, LastSlotRetried, NoFailure;
    CreatedIsClean();
    RestartRightIff(InitStep(FINE.(found := false), []), [], ops);
  }

  // ---------------------------------------------------------------- torn writes

  /** A write that stops inside a record does no harm by itself exactly when not even the header is whole. */
  lemma {:induction false} TornLast(s: State, recs: seq<Rec>, r: Rec, f: Fault)
    requires OnFile(s, recs) && |recs| < MAX_CHUNKS && CidOf(recs, r.hash) == 0
    requires 0 < |r.data| <= MAX_LOAD_LEN && f.accepted < HDR_SIZE + |r.data|
    ensures var now := StoreStep(s, r.data, r.hash, f).0;
            Represents(now, recs) && (Represents(InitStep(FINE, now.file), recs) <==> f.accepted < HDR_SIZE)
  {
    hide Represents, StoreStep, Serialize, Encode, InitStep, Parse, Images;
    ShapeOf(s, recs);
    TornStored(s, recs, r, f);
    RepresentedIsWellFormed(s, recs);
    var file := StoreStep(s, r.data, r.hash, f).0.file;
    if f.accepted < HDR_SIZE {
      NothingBehind(file, |FileOf(recs)|, |recs|);
      StartsAs(recs, file);
    } else {
      ParseTorn(recs, r, f.accepted);
      if Represents(InitStep(FINE, file), recs) {
        StartIsCorrectOnlyIf(file, recs);
      }
    }
  }

  lemma {:induction false} ParseTorn(recs: seq<Rec>, r: Rec, a: nat)
    requires WellFormed(recs) && Loadable(recs) && |recs| < MAX_CHUNKS
    requires 0 < |r.data| <= MAX_LOAD_LEN && HDR_SIZE <= a < HDR_SIZE + |r.data|
    ensures |Parse(FileOf(recs) + Encode(|recs| + 1, r.hash, r.data)[..a], 0, 0)| > |recs|
  {
    hide Parse, Images, Serialize, EntryAt, Encode;
    var record := Encode(|recs| + 1, r.hash, r.data);
    var whole, bytes, lo := FileOf(recs) + record, FileOf(recs) + record[..a], |FileOf(recs)|;
    ParseBehind(recs, bytes, 0);
    assert whole[..lo + a] == bytes;
    assert whole[lo..lo + HDR_SIZE + |r.data|] == record;
    ParseRecord(whole, lo + a, lo, |recs|, |recs| + 1, r.hash, r.data);
  }

  /** The bytes behind the records after a torn write of r1 and a whole one of r2. */
  function TornThenWhole(id: u32, r1: Rec, a: nat, r2: Rec): seq<byte>
    requires a < HDR_SIZE + |r1.data|
  {
    Encode(id, r1.hash, r1.data)[..a] + Encode(id, r2.hash, r2.data)
  }

  lemma {:induction false} TornStored(s: State, recs: seq<Rec>, r: Rec, f: Fault)
    requires Represents(s, recs) && |recs| < MAX_CHUNKS && CidOf(recs, r.hash) == 0
    requires 0 < |r.data| && f.accepted < HDR_SIZE + |r.data|
    ensures var now := StoreStep(s, r.data, r.hash, f).0;
            Represents(now, recs) && now.file == s.file + Encode(|recs| + 1, r.hash, r.data)[..f.accepted]
  {
    hide Represents, StoreStep, Encode, CidOf;
    ShapeOf(s, recs);
    StoreRefines(s, recs, r.data, r.hash, f);
    AttemptWrites(s, recs, r.data, r.hash, f);
  }

  lemma {:induction false} WholeStored(s: State, recs: seq<Rec>, r: Rec, f: Fault)
    requires Represents(s, recs) && |recs| < MAX_CHUNKS && CidOf(recs, r.hash) == 0
    requires 0 < |r.data| && f.accepted >= HDR_SIZE + |r.data| && f.insertOk
    ensures var now := StoreStep(s, r.data, r.hash, f).0;
            Represents(now, recs + [r]) && now.file == s.file + Encode(|recs| + 1, r.hash, r.data)
  {
    hide Represents, StoreStep, AppendStep, Encode, CidOf;
    ShapeOf(s, recs);
    StoreRefines(s, recs, r.data, r.hash, f);
    NewChunkOnFile(s, recs, r, f);
  }

  lemma {:induction false} TornThenStored(s: State, recs: seq<Rec>, r1: Rec, f1: Fault, r2: Rec, f2: Fault)
    requires Represents(s, recs) && |recs| < MAX_CHUNKS
    requires CidOf(recs, r1.hash) == 0 && CidOf(recs, r2.hash) == 0 && 0 < |r1.data| && 0 < |r2.data|
    requires f1.accepted < HDR_SIZE + |r1.data|
    requires f2.accepted >= HDR_SIZE + |r2.data| && f2.insertOk
    ensures var now := StoreStep(StoreStep(s, r1.data, r1.hash, f1).0, r2.data, r2.hash, f2).0;
            && Represents(now, recs + [r2])
            && now.file == s.file + TornThenWhole(|recs| + 1, r1, f1.accepted, r2)
  {
    hide Represents, StoreStep, Encode, CidOf;
    ShapeOf(s, recs);
    TornStored(s, recs, r1, f1);
    WholeStored(StoreStep(s, r1.data, r1.hash, f1).0, recs, r2, f2);
    var id := |recs| + 1;
    Associates(s.file, Encode(id, r1.hash, r1.data)[..f1.accepted], Encode(id, r2.hash, r2.data));
  }

  /** A chunk stored behind a torn record survives a restart exactly when the bytes of the torn record
      happen to continue as its own bytes would, and no entry is read out of what is left over. */
  lemma {:induction false} TornThenStoreIff(s: State, recs: seq<Rec>, r1: Rec, f1: Fault, r2: Rec, f2: Fault)
    requires OnFile(s, recs) && |recs| < MAX_CHUNKS
    requires CidOf(recs, r1.hash) == 0 && CidOf(recs, r2.hash) == 0
    requires 0 < |r1.data| <= MAX_LOAD_LEN && 0 < |r2.data| <= MAX_LOAD_LEN
    requires f1.accepted < HDR_SIZE + |r1.data|
    requires f2.accepted >= HDR_SIZE + |r2.data| && f2.insertOk
    ensures var now := StoreStep(StoreStep(s, r1.data, r1.hash, f1).0, r2.data, r2.hash, f2).0;
            var n, record := |recs| + 1, Encode(|recs| + 1, r2.hash, r2.data);
            && Represents(now, recs + [r2])
            && now.file == FileOf(recs) + TornThenWhole(n, r1, f1.accepted, r2)
            && (Represents(InitStep(FINE, now.file), recs + [r2])
                <==> record <= TornThenWhole(n, r1, f1.accepted, r2)
                     && NoEntry(now.file, |FileOf(recs)| + |record|, n))
  {
    hide Represents, StoreStep, Serialize, Encode, InitStep, NoEntry, CidOf, TornThenWhole, WellFormed;
    ShapeOf(s, recs);
    RepresentedIsWellFormed(s, recs);
    TornThenStored(s, recs, r1, f1, r2, f2);
    var s1 := StoreStep(s, r1.data, r1.hash, f1).0;
    RepresentedIsWellFormed(StoreStep(s1, r2.data, r2.hash, f2).0, recs + [r2]);
    TornTail(recs, r2, TornThenWhole(|recs| + 1, r1, f1.accepted, r2));
  }

  lemma {:induction false} TornTail(recs: seq<Rec>, r: Rec, tail: seq<byte>)
    requires |recs| < MAX_CHUNKS && WellFormed(recs + [r]) && Loadable(recs) && |r.data| <= MAX_LOAD_LEN
    ensures var bytes, record := FileOf(recs) + tail, Encode(|recs| + 1, r.hash, r.data);
            Represents(InitStep(FINE, bytes), recs + [r])
            <==> record <= tail && NoEntry(bytes, |FileOf(recs)| + |record|, |recs| + 1)
  {
    hide Serialize, Encode, Represents, InitStep, WellFormed, NoEntry;
    StartsAsIff(recs + [r], FileOf(recs) + tail);
    FileGrows(recs, r);
    PrefixBehind(FileOf(recs), Encode(|recs| + 1, r.hash, r.data), tail);
  }

  lemma {:induction false} PrefixBehind<T>(a: seq<T>, b: seq<T>, c: seq<T>)
    ensures a + b <= a + c <==> b <= c
  {
    if a + b <= a + c {
      assert (a + c)[|a|..][..|b|] == (a + b)[|a|..];
    }
  }

  /** A witness in every store: four bytes reach the file, then a chunk is stored whose length is not the
      id both records carry. The store reads it back; after a restart it is lost. */
  lemma {:induction false} TornIdLosesChunk(s: State, recs: seq<Rec>, r1: Rec, f1: Fault, r2: Rec, f2: Fault)
    requires OnFile(s, recs) && |recs| < MAX_CHUNKS
    requires CidOf(recs, r1.hash) == 0 && CidOf(recs, r2.hash) == 0
    requires 0 < |r1.data| <= MAX_LOAD_LEN && 0 < |r2.data| <= MAX_LOAD_LEN
    requires f1.accepted == 4 && |r2.data| != |recs| + 1
    requires f2.accepted >= HDR_SIZE + |r2.data| && f2.insertOk
    ensures var now := StoreStep(StoreStep(s, r1.data, r1.hash, f1).0, r2.data, r2.hash, f2).0;
            Represents(now, recs + [r2]) && !Represents(InitStep(FINE, now.file), recs + [r2])
  {
    hide Represents, StoreStep, Serialize, InitStep, NoEntry, Encode, CidOf, OnFile, TornThenWhole;
    OnFileIsRepresented(s, recs);
    ShapeOf(s, recs);
    TornThenStoreIff(s, recs, r1, f1, r2, f2);
    TornIdShifts(|recs| + 1, r1, r2);
  }

  lemma {:induction false} TornIdShifts(id: u32, r1: Rec, r2: Rec)
    requires |r2.data| != id
    ensures !(Encode(id, r2.hash, r2.data) <= TornThenWhole(id, r1, 4, r2))
  {
    var record, tail := Encode(id, r2.hash, r2.data), TornThenWhole(id, r1, 4, r2);
    HeaderFields(id, r2.hash, r2.data);
    assert tail[4..8] == record[0..4];
  }

  // ---------------------------------------------------------------- a store call on a cut file

  /** Start-up on a file cut inside the data of record j takes this record for whole. */
  lemma {:induction false} ParseOfCut(recs: seq<Rec>, cut: nat, j: nat)
    requires Writable(recs) && Loadable(recs) && j < |recs|
    requires Start(recs, j) + HDR_SIZE <= cut < Start(recs, j + 1) && cut <= |FileOf(recs)|
    ensures Parse(FileOf(recs)[..cut], 0, 0) == Images(recs, 0, j + 1)
  {
    hide Parse, Images, Serialize;
    ParseOfSerialized(recs, cut, 0);
    LoadEndOfCut(recs, cut, j, 0);
  }

  lemma {:induction false} StartsGrow(recs: seq<Rec>, i: nat, k: nat)
    requires i < k <= |recs|
    ensures Start(recs, i) + HDR_SIZE + |recs[i].data| <= Start(recs, k)
  {
    if i + 1 < k {
      StartsGrow(recs, i, k - 1);
    }
  }

  lemma {:induction false} LoadEndOfCut(recs: seq<Rec>, cut: nat, j: nat, i: nat)
    requires Loadable(recs) && i <= j + 1 <= |recs|
    requires Start(recs, j) + HDR_SIZE <= cut < Start(recs, j + 1)
    ensures LoadEnd(recs, cut, i) == j + 1
    decreases j + 1 - i
  {
    hide Start;
    if i <= j {
      if i < j {
        StartsGrow(recs, i, j);
      }
      LoadEndOfCut(recs, cut, j, i + 1);
    }
  }

  lemma {:induction false} NewHashNotFound(es: seq<Entry>, hash: Hash)
    requires |es| <= MAX_CHUNKS && HashesDiffer(es) && forall i :: 0 <= i < |es| ==> es[i].hash != hash
    ensures FindLocked(Padded(es), TableOf(es, {}, |es|), hash) == 0
  {
    TableWithout(es, {}, |es|);
  }

  /** The first store call after a start on such a file: the new record goes behind the cut, under the next id. */
  lemma {:induction false} StoreOnCut(recs: seq<Rec>, cut: nat, j: nat, r: Rec, f: Fault)
    requires WellFormed(recs) && Loadable(recs) && j < |recs| && j + 1 < MAX_CHUNKS
    requires Start(recs, j) + HDR_SIZE <= cut < Start(recs, j + 1) && cut <= |FileOf(recs)|
    requires |r.data| > 0 && forall i :: 0 <= i <= j ==> recs[i].hash != r.hash
    requires f.accepted >= HDR_SIZE + |r.data| && f.insertOk
    ensures var (now, cid) := StoreStep(InitStep(FINE, FileOf(recs)[..cut]), r.data, r.hash, f);
            && cid == j + 2 && now.nextChunkId == j + 3 && now.fileOpen
            && now.file == FileOf(recs)[..cut] + Encode(j + 2, r.hash, r.data)
            && now.index[j] == Image(recs, j)
  {
    hide Parse, Images, Serialize, Encode, Start, TableOf, LoadedBytes;
    var bytes := FileOf(recs)[..cut];
    var es := Images(recs, 0, j + 1);
    ParseOfCut(recs, cut, j);
    ImagesInOrder(recs, j + 1);
    NextIdInOrder(es, j + 1);
    NewHashNotFound(es, r.hash);
    assert Padded(es)[j] == es[j];
    var record := Encode(j + 2, r.hash, r.data);
    assert record[..|record|] == record;
  }

  /** After the file was cut inside the data of record j, start-up and one store call, reading id j + 1
      delivers as many bytes again as the lost chunk had if the new record fills the gap, and these are
      the right ones exactly when the new record begins with the bytes the cut removed. */
  lemma {:induction false} StoreBehindCut(recs: seq<Rec>, cut: nat, j: nat, r: Rec, f: Fault, room: nat)
    requires WellFormed(recs) && Loadable(recs) && j < |recs| && j + 1 < MAX_CHUNKS
    requires Start(recs, j) + HDR_SIZE <= cut < Start(recs, j + 1) && cut <= |FileOf(recs)|
    requires |r.data| > 0 && forall i :: 0 <= i <= j ==> recs[i].hash != r.hash
    requires f.accepted >= HDR_SIZE + |r.data| && f.insertOk && |recs[j].data| <= room
    ensures Start(recs, j + 1) == Start(recs, j) + HDR_SIZE + |recs[j].data|
    ensures var s0 := InitStep(FINE, FileOf(recs)[..cut]);
            var (now, cid) := StoreStep(s0, r.data, r.hash, f);
            var missing, record := Start(recs, j + 1) - cut, Encode(j + 2, r.hash, r.data);
            && cid == j + 2 && ReadStep(s0, j + 1, room) == []
            && |ReadStep(now, j + 1, room)| == (if missing <= |record| then |recs[j].data| else 0)
            && (ReadStep(now, j + 1, room) == recs[j].data
                <==> missing <= |record| && record[..missing] == recs[j].data[|recs[j].data| - missing..])
  {
    assert |recs| <= MAX_CHUNKS;
    hide Parse, Images, Serialize, Encode, InitStep, StoreStep, Loadable, WellFormed;
    StoreOnCut(recs, cut, j, r, f);
    ReadsNothing(recs, cut, j, room);
    var record := Encode(j + 2, r.hash, r.data);
    var now := StoreStep(InitStep(FINE, FileOf(recs)[..cut]), r.data, r.hash, f).0;
    ReadOfSlot(now, j, room);
    hide ReadStep;
    if Start(recs, j + 1) <= cut + |record| {
      AppendBehindCut(recs, cut, j, record);
    }
  }

  lemma {:induction false} ReadOfSlot(s: State, j: nat, room: nat)
    requires Shape(s) && s.fileOpen && j + 1 < MAX_CHUNKS && s.nextChunkId == j + 3
    requires s.index[j].isUsed && s.index[j].chunkId == j + 1 && s.index[j].dataLen <= room
    ensures ReadStep(s, j + 1, room) == ReadAt(s.file, s.index[j])
  {
    hide ReadAt;
  }

  lemma {:induction false} ReadsNothing(recs: seq<Rec>, cut: nat, j: nat, room: nat)
    requires WellFormed(recs) && Loadable(recs) && j < |recs|
    requires Start(recs, j) + HDR_SIZE <= cut < Start(recs, j + 1) && cut <= |FileOf(recs)|
    ensures ReadStep(InitStep(FINE, FileOf(recs)[..cut]), j + 1, room) == []
  {
    hide Parse, Images, Serialize, TableOf, LoadedBytes;
    var es := Images(recs, 0, j + 1);
    ParseOfCut(recs, cut, j);
    ImagesInOrder(recs, j + 1);
    NextIdInOrder(es, j + 1);
    assert Padded(es)[j] == es[j];
  }

  /** A witness: the file holds the chunk [1, 7] without its last byte; once any other chunk is stored, id 1
      reads [1, 2]. */
  lemma {:induction false} CutChunkReadsWrong(hash: Hash, r: Rec, f: Fault)
    requires r.hash != hash && |r.data| > 0
    requires f.accepted >= HDR_SIZE + |r.data| && f.insertOk
    ensures var file := FileOf([Rec(hash, [1, 7])]);
            && |file| == 42
            && ReadStep(StoreStep(InitStep(FINE, file[..41]), r.data, r.hash, f).0, 1, 2) == [1, 2]
  {
    hide Parse, Images, Serialize, InitStep, StoreStep;
    var recs := [Rec(hash, [1, 7])];
    assert Start(recs, 1) == 42 && Start(recs, 0) == 0;
    StoreOnCut(recs, 41, 0, r, f);
    var file, record := FileOf(recs), Encode(2, r.hash, r.data);
    assert |file| == 42;
    DataOnFile(recs, 42, 0);
    hide Start;
    assert file[..42][40..42] == [1, 7];
    assert file[40] == 1 && record[0] == 2;
    assert (file[..41] + record)[40..42] == [1, 2];
  }

  // ---------------------------------------------------------------- a start on which table inserts fail

  /** The inserts numbered in `failed` do not take; everything else goes well. */
  function StartWithout(bytes: seq<byte>, failed: set<nat>): (s: State)
    ensures Shape(s)
  {
    InitStep(FINE.(failed := failed), bytes)
  }

  lemma {:induction false} OnlyTheTable(bytes: seq<byte>, failed: set<nat>)
    ensures var es := Parse(bytes, 0, 0);
            StartWithout(bytes, failed) == InitStep(FINE, bytes).(table := TableOf(es, failed, |es|))
  {
    hide Parse, TableOf, NextId, LoadedBytes;
  }

  /** The hash table lacks exactly the failed records. */
  ghost predicate TableLacks(table: map<Hash, nat>, recs: seq<Rec>, failed: set<nat>) {
    && (forall i :: 0 <= i < |recs| && i !in failed ==> recs[i].hash in table && table[recs[i].hash] == i)
    && (forall h :: h in table ==> table[h] < |recs| && table[h] !in failed && recs[table[h]].hash == h)
  }

  /** Such a store: all is right but for the hash table. */
  ghost predicate HalfStarted(s: State, recs: seq<Rec>, failed: set<nat>) {
    && Shape(s) && WellFormed(recs) && s.totalStored == |recs| && s.nextChunkId == |recs| + 1
    && s.fileOpen && s.tableReady && IndexHolds(s.index, s.file, recs) && TableLacks(s.table, recs, failed)
  }

  lemma {:induction false} EntriesLack(bytes: seq<byte>, es: seq<Entry>, recs: seq<Rec>, failed: set<nat>)
    requires HashesDiffer(es) && recs == FileRecs(bytes, es)
    ensures TableLacks(TableOf(es, failed, |es|), recs, failed)
  {
    hide ReadAt, TableOf;
    TableWithout(es, failed, |es|);
  }

  lemma {:induction false} StartsHalf(bytes: seq<byte>, recs: seq<Rec>, failed: set<nat>)
    requires Represents(InitStep(FINE, bytes), recs)
    ensures HalfStarted(StartWithout(bytes, failed), recs, failed) && StartWithout(bytes, failed).file == bytes
  {
    hide Parse, TableOf, StartWithout, IndexHolds, TableHolds, TableLacks, WellFormed, NextId, LoadedBytes;
    hide FileRecs, HashesDiffer, IdsInOrder, DataComplete;
    OnlyTheTable(bytes, failed);
    StartIsCorrectOnlyIf(bytes, recs);
    EntriesLack(bytes, Parse(bytes, 0, 0), recs, failed);
  }

  /** Every record still reads back. */
  lemma {:induction false} HalfReads(s: State, recs: seq<Rec>, failed: set<nat>, cid: u32, room: nat)
    requires HalfStarted(s, recs, failed)
    ensures ReadStep(s, cid, room)
            == if 1 <= cid <= |recs| && |recs[cid - 1].data| <= room then recs[cid - 1].data else []
  {
    hide TableLacks, WellFormed;
    IndexReads(s, recs, cid, room);
  }

  lemma {:induction false} IndexReads(s: State, recs: seq<Rec>, cid: u32, room: nat)
    requires Shape(s) && IndexHolds(s.index, s.file, recs) && s.nextChunkId == |recs| + 1 && s.fileOpen
    ensures ReadStep(s, cid, room)
            == if 1 <= cid <= |recs| && |recs[cid - 1].data| <= room then recs[cid - 1].data else []
  {
    SlotIsLinearScan(s.index, s.file, recs, cid);
    if 1 <= cid <= |recs| {
      assert EntryHolds(s.index[cid - 1], cid - 1, s.file, recs[cid - 1]);
    }
    hide SlotOf, Scan;
  }

  /** A hash is found exactly if its insert did not fail. */
  lemma {:induction false} HalfFinds(s: State, recs: seq<Rec>, failed: set<nat>, hash: Hash)
    requires HalfStarted(s, recs, failed)
    ensures var cid := CidOf(recs, hash);
            FindLocked(s.index, s.table, hash) == if cid != 0 && cid - 1 !in failed then cid else 0
  {
    var cid := CidOf(recs, hash);
    if hash in s.table {
      var i := s.table[hash];
      CidOfPosition(recs, i);
      assert EntryHolds(s.index[i], i, s.file, recs[i]);
    } else if cid != 0 {
      assert recs[cid - 1].hash == hash;
    }
  }

  /** A chunk whose insert failed is stored once more, under a new id; both ids read its bytes. */
  lemma {:induction false} StoredTwice(s: State, recs: seq<Rec>, failed: set<nat>, i: nat, f: Fault, room: nat)
    requires HalfStarted(s, recs, failed) && i < |recs| < MAX_CHUNKS && i in failed
    requires f.accepted >= HDR_SIZE + |recs[i].data| && f.insertOk && |recs[i].data| <= room
    ensures var r := recs[i];
            var (now, cid) := StoreStep(s, r.data, r.hash, f);
            && cid == |recs| + 1 && now.file == s.file + Encode(|recs| + 1, r.hash, r.data)
            && ReadStep(now, i + 1, room) == r.data && ReadStep(now, |recs| + 1, room) == r.data
  {
    var r := recs[i];
    HalfFinds(s, recs, failed, r.hash);
    CidOfPosition(recs, i);
    hide TableLacks, CidOf, IndexHolds, FindLocked, Encode, ReadStep;
    assert |r.data| > 0;
    hide WellFormed;
    var record := Encode(|recs| + 1, r.hash, r.data);
    assert record[..|record|] == record;
    NewIndexHolds(s.index, s.file, recs, r);
    var now := StoreStep(s, r.data, r.hash, f).0;
    IndexReads(now, recs + [r], i + 1, room);
    IndexReads(now, recs + [r], |recs| + 1, room);
  }

  /** What holds after a start that would be right but for failed inserts: every record reads back, exactly the others
      are found by their hash, and the state is right if and only if no insert of a record failed. */
  lemma {:induction false} AfterFailedInserts(
    bytes: seq<byte>, recs: seq<Rec>, failed: set<nat>, hash: Hash, cid: u32, room: nat)
    requires Represents(InitStep(FINE, bytes), recs)
    ensures var s, found := StartWithout(bytes, failed), CidOf(recs, hash);
            && HalfStarted(s, recs, failed) && s.file == bytes
            && ReadStep(s, cid, room)
               == (if 1 <= cid <= |recs| && |recs[cid - 1].data| <= room then recs[cid - 1].data else [])
            && FindLocked(s.index, s.table, hash) == (if found != 0 && found - 1 !in failed then found else 0)
            && (Represents(s, recs) <==> forall i :: 0 <= i < |recs| ==> i !in failed)
  {
    var s := StartWithout(bytes, failed);
    StartsHalf(bytes, recs, failed);
    HalfReads(s, recs, failed, cid, room);
    HalfFinds(s, recs, failed, hash);
    hide StartWithout, InitStep, ReadStep, FindLocked, CidOf, IndexHolds, WellFormed;
    LacksNothing(s.table, recs, failed);
  }

  lemma {:induction false} LacksNothing(table: map<Hash, nat>, recs: seq<Rec>, failed: set<nat>)
    requires TableLacks(table, recs, failed)
    ensures TableHolds(table, recs) <==> forall i :: 0 <= i < |recs| ==> i !in failed
  {
    if TableHolds(table, recs) {
      forall i | 0 <= i < |recs| ensures i !in failed {
        assert recs[i].hash in table && table[recs[i].hash] == i;
      }
    }
  }
}
