/** The chunk store as the program runs it: one object updated in place by every call. */
module StoreImpl {
  import opened Bytes
  import opened ChunkStore
  import opened StoreRebuild

  /** A stdio stream: contents and a position, which may lie behind the end. */
  class File {
    var bytes: seq<byte>
    var pos: nat

    constructor (contents: seq<byte>)
      ensures bytes == contents && pos == 0
    {
      bytes, pos := contents, 0;
    }

    method Seek(to: nat)
      modifies `pos
      ensures pos == to
    {
      pos := to;
    }

    method SeekEnd() returns (at: nat)
      modifies `pos
      ensures at == pos == |bytes|
    {
      pos := |bytes|;
      at := pos;
    }

    /** Up to n bytes from the position on; fewer at the end of the file. */
    method Read(n: nat) returns (s: seq<byte>)
      modifies `pos
      ensures s == if old(pos) >= |bytes| then [] else bytes[old(pos)..Min(old(pos) + n, |bytes|)]
      ensures pos == old(pos) + |s|
    {
      s := if pos >= |bytes| then [] else bytes[pos..Min(pos + n, |bytes|)];
      pos := pos + |s|;
    }

    /** A write at the end of the file of which only `room` bytes are accepted. */
    method Write(s: seq<byte>, room: nat) returns (ok: bool)
      requires pos == |bytes|
      modifies this
      ensures ok == (|s| <= room)
      ensures bytes == old(bytes) + s[..Min(|s|, room)]
      ensures pos == |bytes|
    {
      bytes := bytes + s[..Min(|s|, room)];
      pos := |bytes|;
      ok := |s| <= room;
    }
  }

  class DedupStore {
    const file: File
    const index: array<Entry>
    var totalStored: nat
    var nextChunkId: u32
    var totalBytes: u32
    var duplicates: u32
    var fileOpen: bool
    var table: map<Hash, nat>
    var tableReady: bool

    ghost function View(): State
      reads this, index, file
    {
      State(index[..], totalStored, nextChunkId, totalBytes, duplicates, file.bytes, fileOpen, table, tableReady)
    }

    /** Start-up: load the index from the file, then build the hash table. */
    constructor (f: File, boot: Boot)
      modifies f
      ensures file == f && fresh(index)
      ensures View() == InitStep(boot, old(f.bytes))
    {
      file := f;
      index := new Entry[MAX_CHUNKS](_ => NO_ENTRY);
      totalStored, nextChunkId, totalBytes, duplicates := 0, 1, 0, 0;
      fileOpen, tableReady, table := false, false, map[];
      new;
      assert index[..] == Padded([]);
      if boot.found {
        fileOpen := true;
        LoadIndex();
      } else if boot.creatable {
        fileOpen := true;
        file.bytes, file.pos := [], 0;
      } else {
        return;
      }
      if boot.tableOk {
        tableReady := true;
        BuildTable(boot.failed);
      }
      assert index[..][..totalStored] == Loaded(boot, old(f.bytes));
    }

    /** The loop over the records on file. */
    method LoadIndex()
      requires index[..] == Padded([]) && totalStored == 0 && nextChunkId == 1 && totalBytes == 0
      modifies file`pos, index, `totalStored, `nextChunkId, `totalBytes
      ensures var es := Parse(file.bytes, 0, 0);
              && index[..] == Padded(es)
              && totalStored == |es|
              && nextChunkId == NextId(es, |es|)
              && totalBytes == LoadedBytes(es, |es|)
    {
      hide EntryAt, Parse, Add32, Inc32, Padded;
      ghost var es := Parse(file.bytes, 0, 0);
      file.Seek(0);
      while true
        invariant totalStored <= |es| && totalStored <= MAX_CHUNKS
        invariant index[..] == Padded(es[..totalStored])
        invariant es[totalStored..] == Parse(file.bytes, file.pos, totalStored)
        invariant nextChunkId == NextId(es, totalStored)
        invariant totalBytes == LoadedBytes(es, totalStored)
        decreases |file.bytes| - file.pos
      {
        var off := file.pos;
        var whole, e := ReadHeader();
        LoadCases(file.bytes, off, es, totalStored);
        if !whole { break; }
        if e.dataLen == 0 || e.dataLen > MAX_LOAD_LEN { break; }
        if totalStored >= MAX_CHUNKS { break; }
        PaddedStep(es, totalStored);
        index[totalStored] := e;
        assert index[..] == Padded(es[..totalStored])[totalStored := e];
        if e.chunkId >= nextChunkId {
          nextChunkId := Inc32(e.chunkId);
        }
        totalStored := totalStored + 1;
        totalBytes := Add32(totalBytes, e.dataLen);
        file.Seek(file.pos + e.dataLen);
      }
      assert es[..|es|] == es;
    }

    /** The three reads of a record header; the first short one ends it. */
    method ReadHeader() returns (whole: bool, e: Entry)
      modifies file`pos
      ensures whole == (old(file.pos) + HDR_SIZE <= |file.bytes|)
      ensures whole ==> e == EntryAt(file.bytes, old(file.pos)) && file.pos == old(file.pos) + HDR_SIZE
    {
      var off := file.pos;
      whole, e := false, NO_ENTRY;
      var cid := file.Read(4);
      if |cid| != 4 { return; }
      var dlen := file.Read(4);
      if |dlen| != 4 { return; }
      var hash := file.Read(HASH_SIZE);
      if |hash| != HASH_SIZE { return; }
      whole, e := true, Entry(FromLe32(cid), hash, off, FromLe32(dlen), 1, true);
    }

    method BuildTable(failed: set<nat>)
      requires index.Length == MAX_CHUNKS && totalStored <= MAX_CHUNKS && table == map[]
      modifies `table
      ensures table == TableOf(index[..totalStored], failed, totalStored)
    {
      ghost var es := index[..totalStored];
      for slot := 0 to totalStored
        invariant table == TableOf(es, failed, slot)
      {
        if slot !in failed {
          table := table[index[slot].hash := slot];
        }
      }
    }

    method FindByHash(hash: Hash) returns (cid: u32)
      requires Shape(View())
      ensures cid == if tableReady then FindLocked(index[..], table, hash) else 0
    {
      if !tableReady || hash !in table {
        return 0;
      }
      var slot := table[hash];
      if slot >= MAX_CHUNKS || !index[slot].isUsed {
        return 0;
      }
      if index[slot].hash != hash {
        return 0;
      }
      cid := index[slot].chunkId;
    }

    method CidToSlot(cid: u32) returns (slot: int)
      requires Shape(View())
      ensures slot == SlotOf(index[..], nextChunkId, cid)
    {
      if cid == 0 || cid > nextChunkId {
        return -1;
      }
      slot := cid - 1;
      if slot >= MAX_CHUNKS || !index[slot].isUsed || index[slot].chunkId != cid {
        slot := -1;
      }
    }

    method IncrementRef(cid: u32)
      requires Shape(View())
      modifies this, index
      ensures View() == IncrementStep(old(View()), cid)
    {
      var slot := CidToSlot(cid);
      if slot >= 0 {
        index[slot] := index[slot].(refCount := Inc32(index[slot].refCount));
        duplicates := Inc32(duplicates);
      }
    }

    /** Store a chunk once: count a duplicate, or append it to file, index and table. */
    method StoreChunk(data: Data, hash: Hash, fault: Fault) returns (cid: u32)
      requires Shape(View())
      modifies this, index, file
      ensures (View(), cid) == StoreStep(old(View()), data, hash, fault)
    {
      if |data| == 0 || !fileOpen || !tableReady {
        return 0;
      }
      cid := FindByHash(hash);
      if cid != 0 {
        IncrementRef(cid);
        return;
      }
      if totalStored >= MAX_CHUNKS {
        return 0;
      }
      cid := Append(data, hash, fault);
    }

    method Append(data: Data, hash: Hash, fault: Fault) returns (cid: u32)
      requires Shape(View()) && totalStored < MAX_CHUNKS
      modifies this, index, file
      ensures (View(), cid) == AppendStep(old(View()), data, hash, fault)
    {
      var slot := totalStored;
      cid := nextChunkId;
      var off := file.SeekEnd();
      var written := WriteRecord(cid, hash, data, fault.accepted);
      if !written {
        return 0;
      }
      index[slot] := Entry(cid, hash, off, |data|, 1, true);
      if !fault.insertOk {
        index[slot] := index[slot].(isUsed := false);
        assert index[..] == old(index[..])[slot := Entry(cid, hash, off, |data|, 1, false)];
        return 0;
      }
      table := table[hash := slot];
      nextChunkId := Inc32(nextChunkId);
      totalStored := totalStored + 1;
      totalBytes := Add32(totalBytes, |data|);
    }

    /** The four writes of one record; the first that fails ends it. */
    method WriteRecord(cid: u32, hash: Hash, data: Data, accepted: nat) returns (ok: bool)
      requires file.pos == |file.bytes|
      modifies file
      ensures ok == (accepted >= HDR_SIZE + |data|)
      ensures file.bytes == old(file.bytes) + Encode(cid, hash, data)[..Min(accepted, HDR_SIZE + |data|)]
    {
      hide Le32;
      ghost var a, b := Le32(cid), Le32(|data|);
      PiecesOfRecord(a, b, hash, data, accepted);
      hide Encode;
      ok := file.Write(Le32(cid), accepted);
      if ok {
        ok := file.Write(Le32(|data|), accepted - 4);
      }
      if ok {
        ok := file.Write(hash, accepted - 8);
      }
      if ok {
        ok := file.Write(data, accepted - HDR_SIZE);
      }
    }

    /** Read a chunk into the caller's buffer; 0 means nothing usable was read. */
    method ReadChunk(cid: u32, buf: array<byte>) returns (n: nat)
      requires Shape(View())
      modifies file`pos, buf
      ensures View() == old(View())
      ensures n == |ReadStep(View(), cid, buf.Length)|
      ensures buf[..n] == ReadStep(View(), cid, buf.Length)
      ensures n > 0 ==> buf[n..] == old(buf[n..])
    {
      if cid == 0 || !fileOpen {
        return 0;
      }
      var slot := CidToSlot(cid);
      if slot < 0 {
        return 0;
      }
      if buf.Length < index[slot].dataLen {
        return 0;
      }
      file.Seek(index[slot].fileOffset + HDR_SIZE);
      var s := file.Read(index[slot].dataLen);
      assert View() == old(View());
      CopyTo(s, buf);
      assert index[..] == old(index[..]);
      if |s| != index[slot].dataLen {
        return 0;
      }
      n := |s|;
    }

    /** Copy bytes to the front of a buffer. */
    static method CopyTo(s: seq<byte>, buf: array<byte>)
      requires |s| <= buf.Length
      modifies buf
      ensures buf[..|s|] == s && buf[|s|..] == old(buf[|s|..])
    {
      forall i | 0 <= i < |s| {
        buf[i] := s[i];
      }
    }
  }

  /** How much of a record is down after each of its four writes, the last of which may be partial. */
  lemma {:induction false} PiecesOfRecord(a: seq<byte>, b: seq<byte>, hash: Hash, data: seq<byte>, n: nat)
    requires |a| == |b| == 4
    ensures var record := a + b + hash + data;
            var some := record[..Min(n, |record|)];
            && (n < 4 ==> some == a[..n])
            && (4 <= n < 8 ==> some == a + b[..n - 4])
            && (8 <= n < HDR_SIZE ==> some == a + b + hash[..n - 8])
            && (HDR_SIZE <= n ==> some == a + b + hash + data[..Min(|data|, n - HDR_SIZE)])
  {
  }

  lemma {:induction false} PaddedStep(es: seq<Entry>, n: nat)
    requires n < |es| <= MAX_CHUNKS
    ensures Padded(es[..n])[n := es[n]] == Padded(es[..n + 1])
  {
  }

  /** What the record at `off` says about the entries es that start-up is about to build. */
  lemma {:induction false} LoadCases(bytes: seq<byte>, off: nat, es: seq<Entry>, n: nat)
    requires n <= |es| && es[n..] == Parse(bytes, off, n)
    ensures off + HDR_SIZE > |bytes| ==> |es| == n
    ensures off + HDR_SIZE <= |bytes| ==>
              var e := EntryAt(bytes, off);
              if e.dataLen == 0 || e.dataLen > MAX_LOAD_LEN || n >= MAX_CHUNKS then |es| == n
              else n < |es| && es[n] == e && es[n + 1..] == Parse(bytes, off + HDR_SIZE + e.dataLen, n + 1)
  {
    hide EntryAt;
    if n < |es| {
      assert es[n..][0] == es[n];
      assert es[n..][1..] == es[n + 1..];
    }
  }
}
