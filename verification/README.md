# Verified model of the WAN optimiser and encryptor

The repository is a DPDK data plane that sits in pairs between a LAN and a WAN. It removes repeated data from
byte streams with a byte cache, encrypts packets in tunnel or transport mode under keys that rotate while
packets are in flight, classifies and schedules them, and carries its own control traffic beside the data. One
AES core is written in Verilog. This project models the parts that hold state and proves what the rest of the
system relies on.

## The pieces

| file | models |
|---|---|
| Bytes.dfy | bytes, 16- and 32-bit unsigned integers, network and host byte order, slices |
| ChunkStore.dfy, StoreRebuild.dfy | the deduplicating store as a state machine over index, file and hash table; its restart from the file |
| StoreHistory.dfy | which histories of calls, failed inserts and torn writes a restart brings back right |
| StoreImpl.dfy | the same store as one object with a file stream, an index array and counters |
| Chunker.dfy | cutting a stream into chunks, the inactivity timer |
| ChunkCuts.dfy | where the stream is cut, told by the detector's answers, and when the timer cuts |
| Dedup.dfy | chunks to HIT/MISS records and back, through two stores |
| ChunkerImpl.dfy | connections with pool buffers and pending records on a shared pool and a shared store |
| MemPool.dfy | the memory pool: two doubly linked lists through one block |
| Checksum.dfy, TcpChecksum.dfy | the one's-complement sum, filling in and verifying IP and TCP checksums |
| PacketBuffer.dfy | a packet as a window that slides in a fixed array (adj, prepend, append, trim) |
| Cbc.dfy | cipher block chaining over an arbitrary block permutation |
| Tunnel.dfy, TunnelImpl.dfy | tunnel mode on values and on packet buffers |
| Transport.dfy, TransportImpl.dfy | transport mode on values and on packet buffers |
| KeyRotation.dfy, KeyRotationImpl.dfy | sharing a new key between lcores |
| KeyEpochs.dfy | how keys are numbered, which epoch a packet is stamped with, what a receiver makes of it |
| Classifier.dfy, FrameFields.dfy | the two rule scans and the queue ids; where a frame holds the fields the rules see |
| Burst.dfy | the dropping and the retrying burst buffers |
| CtrlBridge.dfy | the control-frame tag and the egress batch |
| AesCore.dfy | the clocked control machine of the AES core |

Each stateful part has two layers. A state is a value, a call is a function on it, and the properties are lemmas
about all runs of these functions. Beside that, classes and methods update fields, arrays and links in place, as
the program does, and are proved to compute exactly those functions. A run is a sequence of calls with
everything the environment decides written into it: which writes and inserts fail, how many packets a device
takes, which lcore receives which message.

What the outside world does enters as follows. The file behind the store is its contents and a position; the hash
table is a finite map; both may fail at any call. The boundary detector of the chunker is an arbitrary
deterministic machine. The digest is an arbitrary function; where two chunks with the same digest would break a
claim, the lemma assumes there are none among the chunks in play. A block cipher is an arbitrary function with an
inverse. The AES round, the key expansion and the crypto device's session store are abstract. Whether the library
routine that sums an IP header includes its options is left open, and everything holds in both cases. A section under
a spinlock, and one whole drain tick of an lcore, is one step.

## Findings

Where the code does not do what its comments or documents say, the model follows the code and the exact condition
is proved.

- Rebuilding the store from its file restores every record exactly when no record is longer than 65536 bytes
  (`StoreRebuild.RebuildRestoresAll`), although `module2_store_chunk` accepts longer ones.
- The comment at module2.c:20-25 says that slot == chunk_id - 1 also holds after rebuilding from disk. Over all
  histories in which each record is written whole or refused at once and data is loadable, a restart brings the records
  back exactly if no insert failed, with one corner: the first chunk that failed was the last one that fits, and later
  takes that slot after all (`StoreHistory.RestartRightIff`, `StoreHistory.RestartRightFromCreated`). A rolled-back
  insert leaves its record on file and its id is issued again; after a restart that id reads the other chunk
  (`StoreRebuild.RestartAfterRollbackReadsOtherChunk`).
- Over all histories without exception, torn writes among them, a restart is right exactly when the bytes written begin
  with the plain list of the records, the lengths are accepted, and nothing behind it passes for a record
  (`StoreHistory.AnyHistoryIff`). A torn write does no harm by itself exactly when it stops inside the header
  (`StoreHistory.TornLast`). A chunk stored behind it survives a restart exactly when the torn bytes happen to continue
  as its own record would (`StoreHistory.TornThenStoreIff`); `StoreHistory.TornIdLosesChunk` is a witness.
- When table inserts fail during start-up, every record still reads back, but the failed ones are not found by their
  hash (`StoreHistory.AfterFailedInserts`), and storing one again puts it on file a second time under a new id
  (`StoreHistory.StoredTwice`).
- A file cut inside the data of its last record never gives wrong bytes (`StoreRebuild.CutFileNeverReadsWrongBytes`)
  until the next store call. Then the read of the cut chunk succeeds if the new record fills the gap, and is right
  exactly when the new record begins with the lost bytes (`StoreHistory.StoreBehindCut`);
  `StoreHistory.CutChunkReadsWrong` shows [1, 2] read where [1, 7] was stored.
- Transport mode loses the last partial cipher block. The total length in the IP header does not cover the padding,
  so `tunnel_decap` closes the gap over too few bytes. It also loses the end of every datagram with IP options: the
  length to move is taken without the options, but the move starts in front of them. Whatever trails the datagram, it
  survives every key and IV exactly when there are no options, the transport part is a multiple of 16 bytes and the
  header checksum is the one the program would compute (`Transport.RestoredIff`).
- With IP options the two ends of transport mode do not agree where the IV is: the sender writes it at byte 44
  (main_transport.c:593-601), the receiver reads it behind the options (main_transport.c:1384-1396). The whole cipher
  blocks of what is moved always survive from the second on, and the first if and only if the bytes read happen to be
  the IV (`Transport.WholeBlocksRestored`); it survives every key and IV exactly without options
  (`Transport.FirstBlockIff`). An input: an IHL of 6, at least 16 bytes behind the options, no encryption, and an IV
  whose first and fifth byte differ (`Transport.OptionsGarbleFirstByte`).
- Tunnel mode restores a frame byte for byte exactly when nothing trails its datagram, or at least 16 bytes do and no
  padding was needed (`Tunnel.EndToEnd`); Ethernet header and datagram always survive.
- A poll that returns a message but no install makes an lcore skip the key another lcore received, until the next
  install (`KeyRotation.PollWithoutInstallSticks`, `KeyRotation.StuckStays`, `KeyRotation.MissedKey`).
- The epoch in the outer header is read at dequeue, the session is chosen at enqueue. In every run of the port the
  stamp names the key that encrypted the packet exactly when the numbers of the keys current at the packet's own enqueue
  and dequeue are congruent modulo 255 (`KeyEpochs.StampIsRightIff`); while they differ by less than 255, exactly when
  no install came in between, and if no install skips a key, exactly when their number is a multiple of 255
  (`KeyEpochs.StampAndInstalls`). One install is enough for a wrong stamp (`KeyEpochs.StraddlingRun`). The receiver
  decrypts such a packet under the stamped key (`KeyEpochs.ReceivesUnderStamp`), and delivers garbage
  (`KeyEpochs.StraddlingPacketGarbled`).
- A receiver whose last install brought key number r while q was current selects a wrong key for a packet of key s
  exactly when s is not r but congruent to it modulo 255, or, until a retirement, not q but congruent to it and not to r
  (`KeyEpochs.WrongKeyIff`). With q = r - 1 the first such packet is 254 rotations ahead (`KeyEpochs.WrongKeyAt254`,
  `KeyEpochs.LookupFindsKey`).
- The two rule scans agree exactly when every examined rule that fits by its VLAN 0 wildcard alone comes after an
  examined rule that fits without it (`Classifier.ScansAgreeIff`); `Classifier.WildcardTable` is a table on which
  they differ.
- `verify_tcp_checksum` subtracts 20 from the total length in 64 bits. As it is called, for a TCP segment whose length
  it takes from the header, a sum of -1 wraps around to an accepted one: addresses, total length and the words of the
  segment, which then has at least 65516 bytes, add up to 13 (`TcpChecksum.CalledAcceptsIff`, witness
  `TcpChecksum.ShortTotalAccepted`).
- `mpool_put` does not recognise the last unit of a pool whose units have size 0 (`MemPool.PutRecognisesUnits`). A
  second put of a unit moves it to the front of the free list and makes the counters wrong; if it is at the front
  already, it loops on itself, its successor becomes the head of the alloc list, and the live units are lost
  (`MemPool.Pool.Put`).
- aes_core_encrypt.v:4 calls ke_busy the fix for a ke_done that is still high. The flag is up exactly in the
  key-generation state (`AesCore.RunKeepsInv`), so it keeps nothing out: ke_done is taken at the second edge after the
  start exactly when it is high there (`AesCore.DoneTakenAtOnce`). If it is, with other round keys on the wires, the
  ciphertext is the one under these (`AesCore.StaleKeysUsed`). `AesCore.StaleKeysWrong` is two encryptions in a row of
  which the second uses the first one's round keys. The ciphertext is the latched key's for every round function
  exactly when the sampled round keys are its expansion (`AesCore.RightForEveryRoundIff`); ke_done low at that edge and
  afterwards only with that expansion on the wires is enough (`AesCore.OwnKeysSuffice`).

## Model

| member | source | states |
|---|---|---|
| ChunkStore.RunOnlyAppends | module2.c:149-206 | in every run of store, find, read and count calls, failures included, the store only grows at its end, keeps one record per hash and at most MAX_CHUNKS records |
| ChunkStore.IssuedIdsAreForever | module2.c:149-206 | an id once issued for a hash stays that hash's id and names the bytes first stored under it, whatever is called or fails later |
| ChunkStore.SlotIsLinearScan | module2.c:45-53 | for every id the direct index with its checks finds the same slot as a scan over all used slots, and that is id - 1 exactly for issued ids |
| ChunkStore.FindIsCidOf | module2.c:55-68 | the lookup through hash table and index answers every hash as the append-only list of records does |
| ChunkStore.IncrementRefines | module2.c:230-235 | counting a use changes no record, for any id, issued or not |
| ChunkStore.StoreRefines | module2.c:149-206 | one store call does to index, file and table what one append does to the list of records and returns its id, for every failure of a write or an insert |
| ChunkStore.FailedAppendRefines | module2.c:174-198 | a write that stops after any number of bytes, or an insert that is rolled back, leaves all records readable and issues no id |
| ChunkStore.CleanAppendRefines | module2.c:174-205 | a successful append makes exactly one new record readable, under the next id |
| ChunkStore.ReadRefines | module2.c:208-228 | a read gives exactly the bytes of the record with that id if the buffer holds them, and nothing otherwise |
| ChunkStore.RunRefines | module2.c:140-235 | every run of the concrete store is a run of the append-only list of records |
| ChunkStore.IssuedIdReadsBack | module2.c:149-228 | an id returned by a store call reads back, after any later run, the bytes first stored under that hash |
| ChunkStore.RunKeepsCounts | module2.c:149-235 | in every run, failures included, the use counts add up to stored chunks plus counted duplicates, modulo 2^32 |
| ChunkStore.CountsItsUses | module2.c:160-167 | over every run, a record's own use count grows by exactly the calls that use it: a store of its hash and an increment of its id, modulo 2^32; no other record's does (also module2.c:230-235) |
| ChunkStore.NewCountsOnce | module2.c:185-189 | a chunk newly stored counts one use |
| ChunkStore.ClosedStoreRefuses | module2.c:155-157 | without file or hash table no call, in any run, changes file, table or number of chunks, and every store is answered with 0; without a file nothing is read |
| ChunkStore.HeaderFields | module2.c:176-179 | the four parts of a record on file can be read back from its first 40 bytes and the rest |
| ChunkStore.RecordAt | module2.c:174-179 | in a file no write of which failed, each record stands whole at the position its predecessors leave |
| StoreRebuild.ParseOfSerialized | module2.c:90-114 | from a clean file cut at any byte, start-up rebuilds exactly the entries up to the first record that is oversized or whose header is cut |
| StoreRebuild.RebuildRestoresAll | module2.c:90-114 | start-up restores all records of an uncut file if and only if none is longer than 65536 bytes |
| StoreRebuild.CutFileNeverReadsWrongBytes | module2.c:90-114 | after a cut, every loaded record reads its own bytes, or nothing exactly when the cut took some of them, which can only be the last one |
| StoreRebuild.AppendBehindCut | module2.c:174-228 | once any bytes stand behind a cut record, its read gives the right chunk if and only if they repeat what the cut removed |
| StoreRebuild.StartIsCorrectIff | module2.c:16-25 | start-up yields a correct store if and only if the ids on file count up from 1, no hash occurs twice and the last data is complete; the records are then those on file |
| StoreRebuild.HalfStartRefuses | module2.c:81-132 | a start that finds and can create no file, or gets no hash table, leaves a store that stores nothing over every later run; only a newly created file is emptied |
| StoreRebuild.CleanRun | module2.c:149-206 | a run in which nothing fails keeps the file the plain sequence of its records, and index and byte count in step with it |
| StoreRebuild.RestartRestores | module2.c:70-138 | after a clean history of loadable chunks a restart gives back index, offsets, next id, byte count and hash table; only use and duplicate counts start over |
| StoreRebuild.RestartAfterCleanRun | module2.c:70-206 | the same for every fault-free run from a newly created file |
| StoreRebuild.FileAfterRollback | module2.c:192-198 | after a rolled-back insert the record stays on file and the next chunk is written and issued under the same id |
| StoreRebuild.RestartAfterRollbackReadsOtherChunk | module2.c:16-25 | the claim that slot equals id - 1 survives a restart fails after a rollback: the id found for the second chunk's hash reads the first chunk |
| StoreHistory.StepFacts | module2.c:149-206 | an untorn store call that writes a record puts it behind the file under the next id whether or not its insert is kept; every other call leaves the file alone |
| StoreHistory.StaysOnFile | module2.c:149-206 | as long as no insert fails, the file stays the plain list of the records over every history |
| StoreHistory.NextIdBehind | module2.c:174-198 | over every history, the first record that reaches the file after some point carries the id that was next at that point, whatever is rolled back before and after |
| StoreHistory.FileWithLeftover | module2.c:90-114 | a file with a given-up record, alone or followed by one with the same id, is brought back as these records exactly if they fill the store |
| StoreHistory.RestartRightIff | module2.c:16-25 | over every history in which records are written whole or refused at once and data is loadable, a restart represents exactly the records of the history if and only if no insert failed, or the first that failed was for the last slot and is the chunk that takes it in the end (also module2.c:70-206) |
| StoreHistory.RestartRightFromCreated | module2.c:70-206 | the same for every such history from a newly created file |
| StoreHistory.StepWrites | module2.c:149-206 | for every call and fault, the file grows by exactly the accepted bytes of the record the call attempts, numbered by the records kept so far |
| StoreHistory.StartsAsIff | module2.c:90-138 | start-up represents given records if and only if the file begins with their plain list, no length is above 65536, and what follows has no whole header, no accepted length, or no free slot |
| StoreHistory.AnyHistoryIff | module2.c:70-206 | after every history, with failed inserts and torn writes anywhere in it, a restart represents exactly its records if and only if the bytes it wrote are such a file |
| StoreHistory.TornLast | module2.c:174-182 | after a write that stops inside a record the store is right, and a restart is if and only if fewer than 40 bytes were written (also module2.c:90-114) |
| StoreHistory.TornThenStoreIff | module2.c:174-206 | a chunk stored behind a torn record is there after a restart if and only if its record is a prefix of the torn bytes followed by itself, and what is left has no whole header, no accepted length, or no free slot (also module2.c:90-114) |
| StoreHistory.TornIdLosesChunk | module2.c:174-206 | in every store: with four bytes torn, the chunk stored next is read back before a restart and lost after it unless its length equals its id |
| StoreHistory.StoreBehindCut | module2.c:149-228 | after start-up on a file cut inside a record's data, the chunk reads as nothing; after one more store call its full length is read again if the new record fills the gap, and the bytes are right if and only if the new record begins with the lost ones (also module2.c:90-114) |
| StoreHistory.CutChunkReadsWrong | module2.c:149-228 | the chunk [1, 7] cut by one byte reads [1, 2] once any other chunk was stored |
| StoreHistory.AfterFailedInserts | module2.c:131-136 | after a start on which any table inserts fail, every record reads back, a hash is found if and only if its insert did not fail, and the store is right if and only if none failed |
| StoreHistory.StoredTwice | module2.c:149-206 | after such a start, storing a chunk whose insert failed writes it again under the next id, and both ids read its bytes (also module2.c:131-136) |
| StoreImpl.DedupStore.constructor | module2.c:70-138 | start-up in place computes exactly the start-up state, for every failure of opening, table creation and inserts |
| StoreImpl.DedupStore.LoadIndex | module2.c:91-114 | the rebuild loop with its fread and fseek calls fills the index with exactly the parsed entries |
| StoreImpl.DedupStore.CidToSlot | module2.c:45-53 | agrees with the lookup function on every id |
| StoreImpl.DedupStore.FindByHash | module2.c:55-68 | agrees with the lookup function, and gives 0 without a table |
| StoreImpl.DedupStore.StoreChunk | module2.c:149-206 | the call in place, with its whole new state and result, is one store step |
| StoreImpl.DedupStore.WriteRecord | module2.c:174-182 | four writes of which the first short one ends the record leave exactly the accepted prefix of the record on file |
| StoreImpl.DedupStore.ReadChunk | module2.c:208-228 | fills the front of the caller's buffer with the bytes a read step gives and leaves the rest and the store alone |
| StoreImpl.DedupStore.IncrementRef | module2.c:230-235 | is one count step on the whole state |
| Chunker.StreamConserved | module1.c:108-183 | in every run, calls in which the buffer pool runs dry included, the chunks emitted followed by the buffer are exactly the bytes taken in, and emitted chunks are never changed |
| Chunker.RunRests | module1.c:56-75 | for every boundary function, whenever a call is over: chunks have 1 to CHUNK_SIZE bytes, and the timer runs exactly while bytes wait (also module1.c:158-174) |
| Chunker.RunCounts | module1.c:67-70 | the counters of bytes and of each kind of chunk count right modulo 2^32 in every run |
| Chunker.SegmentationIndependent | module1.c:108-163 | adding a and then b leaves the same buffer, timer, counters, detector state and chunks as adding a followed by b in one call |
| Chunker.EmittedInTime | module1.c:165-174 | every byte that waits has been emitted once the remaining ticks have passed, however much data arrives in between and in whichever calls the pool runs dry |
| Chunker.KindsTellWhy | module1.c:130-154 | ticks and flushes emit only chunks counted as partial, and data never does, whether or not the pool runs dry |
| ChunkCuts.CutsAreContentDefined | module1.c:125-154 | in every run, replaying the detector over each emitted chunk from the state its last reset left, with the bytes numbered from 1: it answers Continue up to the last byte; a full chunk ends exactly at a boundary, a maximal one at the detector's maximum or after CHUNK_SIZE bytes, a partial one where it still says Continue; and no byte waits behind another answer |
| ChunkCuts.TicksAlone | module1.c:165-174 | n ticks without data: nothing but the clock changes while n is below the remaining time, and from then on everything that waited is out as one partial chunk |
| ChunkCuts.ArmedAnew | module1.c:158-159 | after data, what waits has the full time if nothing waited before or a chunk was emitted on the way, and else the time that was left |
| ChunkCuts.FlushEmits | module1.c:176-183 | a flush emits all that waits as one partial chunk, and nothing when nothing waits |
| Dedup.OneChunk | PHASE2_EPOCH (1).md:122-133 | one chunk through sender and receiver store comes out unchanged and leaves the stores with equal contents |
| Dedup.CacheIsTransparent | PHASE2_EPOCH (1).md:122-133 | any list of chunks through two stores that began alike comes out unchanged, and the stores stay alike, even once both are full |
| Dedup.HitIff | PHASE2_EPOCH (1).md:122-133 | for every list of chunks, the j-th is sent as the hash alone if and only if its hash was held at the start or belongs to an earlier chunk that was kept, that is one that was not empty and came while fewer than MAX_CHUNKS different hashes had been offered; otherwise it is sent whole |
| Dedup.RepeatIsHit | PHASE2_EPOCH (1).md:122-133 | a chunk sent before is sent as its hash, unless it is empty or the store was full when it came first |
| Dedup.HitDecodes | BYTE_CACHE_SIZING_AND_LATENCY.md:203-210 | a received hash gives exactly the bytes stored under it, or nothing if and only if there are none or they exceed the buffer, and changes no store |
| Dedup.StreamComesOutUnchanged | module1.c:46-75 | for every boundary function and every run of packets, ticks and flushes, chunking, encoding and decoding give back the bytes that went in, up to those still waiting |
| ChunkerImpl.EncodeStepRefines | PHASE2_EPOCH (1).md:122-133 | looking a chunk up in the concrete store and building its record is what the list of records says it is |
| ChunkerImpl.EncodeRunRefines | module1.c:54-65 | the records built from the concrete store over a whole list of chunks are those of the simple encoder |
| ChunkerImpl.EncodeStepSays | PHASE2_EPOCH (1).md:122-133 | against the concrete store and for every failure of write or insert: a hash if and only if the store knows it, and then exactly its record counts one more use; else the chunk whole |
| ChunkerImpl.EncodeRunUnder | module1.c:54-65 | over every list of chunks and every environment, the records queued are, in order, those of the chunks for which there was a packet buffer, each decided by what the store then held |
| ChunkerImpl.HitsOnWire | module1.c:54-65 | where nothing fails, the j-th record built from the concrete store is a hash exactly when the chunk was known, in the sense of Dedup.HitIff |
| ChunkerImpl.Connection.EncodeChunk | module1.c:54-70 | one chunk goes to the store and its record to the end of the pending list, unless no packet buffer is to be had |
| ChunkerImpl.Connection.EmitBuffer | module1.c:46-75 | emitting encodes exactly the buffered bytes, gives the buffer back to the pool, stops the timer and resets the detector |
| ChunkerImpl.Connection.AddData | module1.c:108-163 | takes all bytes exactly as the value model does, or stops exactly where neither connection nor pool has a buffer left, which is one dry step of the value model on the bytes taken, leaving timer and buffer consistent |
| ChunkerImpl.Connection.TimerCheck | module1.c:165-174 | is one tick of the value model and gives the buffer back when it emits |
| ChunkerImpl.Connection.FlushChunk | module1.c:176-183 | emits what waits, once |
| ChunkerImpl.Connection.TakePending | module1.c:185-195 | what was taken before, then this, is all records in the order they were built |
| ChunkerImpl.AddDataAmong | module1.c:22-43 | with any number of connections on one pool, a call for one leaves the others' state and bytes alone, and no two ever hold the same buffer (also module1.c:108-163) |
| ChunkerImpl.TimerCheckAmong | module1.c:165-174 | the same for a tick |
| ChunkerImpl.Receive | BYTE_CACHE_SIZING_AND_LATENCY.md:203-210 | the receiver's find-then-read on the concrete store decodes as the value model does |
| MemPool.RunKeepsPartition | MemPool.c:49-116 | in every run of gets and puts, with units returned in any order, every unit is on exactly one of the two lists, once |
| MemPool.GetFailsOnlyWhenAllLive | MemPool.c:58-61 | get fails if and only if all units are live; otherwise the unit handed out was not live |
| MemPool.PutRemovesOne | MemPool.c:86-107 | put takes exactly the one unit off the alloc list, wherever it hung, and the others keep their order |
| MemPool.PutUndoesGet | MemPool.c:63-107 | returning the unit just handed out gives back both lists as they were |
| MemPool.PartitionCovers | MemPool.c:29-37 | the two lists leave no unit of the block out |
| MemPool.LiveBuffersNeverOverlap | MemPool.c:29-31 | whatever was got and put before, the memory of any two live units is disjoint (also MemPool.c:78) |
| MemPool.PutRecognisesUnits | MemPool.c:83-84 | the range test takes a unit's address for its own if and only if units have a size or the unit is not the last |
| MemPool.Unlink | MemPool.c:96-101 | unlinking a unit from any position leaves a well-formed doubly linked list of the others in order |
| MemPool.MoveAny | MemPool.c:96-107 | moving a unit from any position of one list to the front of another leaves both well-formed; done to a unit that is on the other list already, it moves there to the front or, if it is there, loops on itself and hands its successor to the first list |
| MemPool.MoveFirst | MemPool.c:63-72 | moving the first unit of one list to the front of another leaves both well-formed |
| MemPool.Pool.Alloc | MemPool.c:12-42 | the block is cut into num units, all free, linked last first, with the length counters set to match |
| MemPool.Pool.Get | MemPool.c:49-79 | hands out the address behind the links of the first free unit or 0, keeps both lists well-formed, disjoint and complete and the counters equal to unit size times live units and the rest of the block |
| MemPool.Pool.Put | MemPool.c:81-116 | returns a live unit to the free list with all that Get keeps, and leaves any address outside the block to free(); what it does to the lists and counters when the unit is free already is stated for every position |
| Checksum.FoldIs | app_thread (1).c:1404-1405 | folding keeps the sum modulo 65535 and gives 0 only for 0 (section 1 of RFC 1071) |
| Checksum.FoldLoop | app_thread (1).c:1404-1405 | the loop ends and computes that fold |
| Checksum.SealedSums | app_thread (1).c:3393-3412 | a buffer with its checksum filled in sums to 0xFFFF, whatever else enters the sum |
| Checksum.SealedIsStable | app_thread (1).c:3393-3412 | the checksum that stood there before does not enter the new one |
| Checksum.OddIsPadded | app_thread (1).c:1390-1391 | a stretch of odd length sums as with a zero byte behind it (section 1 of RFC 1071; also app_thread (1).c:3444-3446) |
| Checksum.SumIsByteSum | app_thread (1).c:1385-1391 | the sum adds up every byte, those at even positions as the high half of a word |
| TcpChecksum.Verify | app_thread (1).c:1371-1422 | the loops over the segment and the pseudo header with 64-bit wrap-around decide exactly the acceptance predicate |
| TcpChecksum.AcceptsIff | app_thread (1).c:1384-1420 | for every total length, a segment is accepted if and only if pseudo header plus segment sum to a positive multiple of 65535, or to -1, which only a total length below 20 gives |
| TcpChecksum.AcceptsByPseudoHeader | app_thread (1).c:1392-1402 | for total lengths from 20 on, a segment is accepted if and only if the 12 bytes of the pseudo header of section 3.1 of RFC 793, laid in front of it, make a byte string that folds to 0xFFFF |
| TcpChecksum.OddSegmentIsPadded | app_thread (1).c:1390-1391 | a segment of odd length is accepted if and only if it is with a zero byte behind it, under the same pseudo header |
| TcpChecksum.OneWordChange | app_thread (1).c:1384-1420 | for every total length, changing one aligned word of an accepted segment is accepted if and only if the word is the same, or the sum was positive, 0x0000 and 0xFFFF were swapped and the sum stays positive |
| TcpChecksum.LastByteChange | app_thread (1).c:1390-1391 | changing the odd last byte of an accepted segment is always noticed, for every total length |
| TcpChecksum.CalledAcceptsIff | app_thread (1).c:2737 | for a TCP segment of the length its own header's total length gives, acceptance means a positive multiple of 65535, or that segment words, addresses and total length add up to 13 (also app_thread (1).c:1371-1422) |
| TcpChecksum.ShortTotalAccepted | app_thread (1).c:1371-1422 | such a segment: total length 13, 65529 bytes and both addresses zero |
| TcpChecksum.SumBytes | app_thread (1).c:1385-1391 | the word loop with its odd tail computes the sum of the words, for any length |
| TcpChecksum.Calculate | app_thread (1).c:3363-3465 | the whole routine in place gives the packet with every checksum filled in, plain or with any of the GRE lengths |
| TcpChecksum.HeaderSum | app_thread (1).c:3393-3402 | nine words added one by one are the sum of the header with the checksum word zero |
| TcpChecksum.FillIpChecksum | app_thread (1).c:3391-3412 | the checksum stored in place is the one that closes the header's sum, and no other byte changes |
| TcpChecksum.FillTcpChecksum | app_thread (1).c:3439-3464 | zeroing the field, summing segment and pseudo header and storing the complement fills in the segment's checksum |
| TcpChecksum.CalculatedVerifies | app_thread (1).c:3363-3465 | for every packet with IHL 5 and TCP length at least 20, odd or even, GRE or not, what was calculated is accepted by the verifier (also app_thread (1).c:1371-1422) |
| TcpChecksum.CalculateThenVerify | app_thread (1).c:3363-3465 | the two routines one after the other on one buffer, the second fed with the 32-bit addresses and lengths read back from it, always end in a match (also app_thread (1).c:1371-1422) |
| TcpChecksum.OnlyChecksumsChange | app_thread (1).c:3363-3465 | no byte outside the header and segment checksums changes |
| TcpChecksum.HeadersSumUp | app_thread (1).c:3391-3436 | afterwards the outer and, under GRE, the inner IP header sum to 0xFFFF |
| TcpChecksum.SegmentSumsUp | app_thread (1).c:3439-3464 | afterwards the pseudo header of the inner IP header in front of the segment folds to 0xFFFF, plain or behind GRE, odd or even |
| TcpChecksum.GreLenIs | app_thread (1).c:808-815 | the inner header stands behind 20 bytes of outer header, 4 of GRE, and 4 each for checksum, key and sequence number, as the first GRE byte announces them, whatever its other bits |
| Cbc.DecryptUndoesEncrypt | main (1).c:729-740 | decryption with the same key and IV gives back any padded plaintext, for every block permutation (section 6.2 of NIST SP 800-38A) |
| Cbc.EncryptBlock | main (1).c:729-740 | block j of the ciphertext is the permutation of block j of the plaintext added to the ciphertext block before it, or to the IV (section 6.2 of NIST SP 800-38A) |
| Cbc.PaddingIs | main (1).c:600-607 | fewer than 16 zero bytes are added, and what is encrypted is whole blocks |
| Cbc.DecryptPrefix | main_transport.c:482-490 | later ciphertext does not influence earlier plaintext |
| Cbc.XorTwice | main (1).c:729-740 | exclusive or with the same bits twice is the identity, bit by bit |
| PacketBuffer.Mbuf.Adj | main (1).c:947-953 | drops bytes at the front, or changes nothing when there are too few |
| PacketBuffer.Mbuf.Prepend | main (1).c:970-976 | takes headroom into the packet in front of what was there, or changes nothing |
| PacketBuffer.Mbuf.Append | main (1).c:600-606 | takes tailroom into the packet behind what was there, or changes nothing |
| PacketBuffer.Mbuf.Trim | main (1).c:1227-1228 | drops bytes at the end, or changes nothing |
| PacketBuffer.Mbuf.Move | main_transport.c:784-785 | an overlapping move replaces the target by what the source was before |
| Tunnel.DecapUndoesEncap | main (1).c:922-1149 | decapsulation and IV strip give back the frame with type IPv4, the very IV and the very epoch |
| Tunnel.ReceiveUndoesSent | main (1).c:549-773 | pad, encrypt, encapsulate, decapsulate, strip, decrypt and trim together only trim the padded frame, for every key the receiver selects by the epoch in the header (also main (1).c:1933-1975) |
| Tunnel.ReceivesByEpoch | main (1).c:1907-1975 | what the receiver makes of a sent packet is decided by the epoch in its header alone: dropped, or decrypted under the session of that epoch, whichever key encrypted it |
| Tunnel.DroppedIff | main (1).c:1110-1149 | a packet from the WAN is dropped if and only if it is shorter than 58 bytes, not UDP, or of an epoch the port neither has a session for nor is in (also main (1).c:1907-1923) |
| Tunnel.TrimOfPadded | main (1).c:1222-1228 | what the trim does to a padded frame, for every number of trailing bytes and with 32-bit wrap-around |
| Tunnel.EndToEnd | main (1).c:549-773 | Ethernet header and inner datagram of every IPv4 frame come through; the frame itself if and only if nothing trails the datagram, or at least 16 bytes do and no padding was needed (also main (1).c:922-1149, main (1).c:1209-1229, main (1).c:1933-1975) |
| Tunnel.OuterLengths | main (1).c:1003-1048 | the outer lengths are those of the packet modulo 2^16, and tell the truth if and only if the padded inner packet has at most 65491 bytes |
| Tunnel.OuterHeaderSums | main (1).c:1026-1029 | the outer IP header sums to 0xFFFF |
| Tunnel.OuterHeaderOnWire | main (1).c:984-1066 | every fixed field of the outer headers, the addresses, ports, IV and payload read back from their wire positions |
| TunnelImpl.Enqueue | main (1).c:549-773 | pads in place, selects the session of the epoch, and keeps for encryption the IV it gave the device; fails exactly below 14 bytes or without tailroom |
| TunnelImpl.Encap | main (1).c:922-1070 | sliding the window and writing the headers in place gives exactly the encapsulated packet; fails exactly below 14 bytes or below 44 bytes of headroom, and what is left then is stated |
| TunnelImpl.Decap | main (1).c:1109-1149 | in place gives the decapsulated packet and the epoch; otherwise nothing changes |
| TunnelImpl.StripIv | main (1).c:1933-1975 | takes the IV out in place and returns it; otherwise nothing changes |
| TunnelImpl.TrimPadding | main (1).c:1222-1228 | cuts the padding as the value model says |
| TunnelImpl.SendSide | main (1).c:2034-2048 | the steps of the encrypting box in order send exactly the modelled packet, and the exact room they need is stated (also main (1).c:1160-1199) |
| TunnelImpl.ReceiveSide | main (1).c:1896-1980 | the steps of the decrypting box in order give exactly what the value model receives, dropping exactly what it drops (also main (1).c:1209-1229) |
| Transport.DecapUndoesEncap | main_transport.c:749-888 | without encryption in between, decapsulation gives back the length and the moved bytes, and, without IP options, Ethernet header and datagram if and only if the header checksum was the canonical one, whatever trails the datagram |
| Transport.TooLongIsDropped | main_transport.c:806-811 | a frame whose length field cannot take the overhead is sent with a wrapped length and dropped by the receiver (also main_transport.c:868-870) |
| Transport.LengthsOnWire | main_transport.c:787-809 | IP and UDP length fields of the encapsulated packet announce the datagram plus the overhead, and ports and protocol stand where the receiver reads them |
| Transport.NotOursIff | main_transport.c:854-869 | a readable packet is refused if and only if it is not UDP or its length field announces less than 26 bytes behind the IP header |
| Transport.PatchTwice | main_transport.c:806-811 | of two rewrites of protocol, length and checksum the second alone counts (also main_transport.c:880-885) |
| Transport.DecappedIs | main_transport.c:842-888 | closing the gap over n announced bytes of a longer body keeps these n and replaces the rest by what stood 26 bytes before |
| Transport.ReceiveIs | main_transport.c:490-537 | what the receiver gets, for every key, IV, length, options and trailing bytes: a header, the restored one if there are no options, and the decryption, under the 16 bytes that stand where it reads the IV, of a ciphertext whose bytes behind the moved ones were replaced, trimmed (also main_transport.c:842-935, main_transport.c:1384-1406) |
| Transport.WholeBlocksRestored | main_transport.c:490-537 | every whole 16-byte block of what is moved comes through from the second on, and the first if and only if the 16 bytes the receiver reads are the IV the sender wrote; the length comes through if nothing trailed the datagram; without options the IV is the right one, and all blocks and the restored header come through (also main_transport.c:749-935, main_transport.c:1384-1406) |
| Transport.FirstBlockIff | main_transport.c:1384-1396 | the first block of what is moved comes through under every key and IV if and only if there are no IP options (also main_transport.c:593-601) |
| Transport.OptionsGarbleFirstByte | main_transport.c:1384-1396 | for every frame with an IHL of 6 and at least a block to move, without encryption and with an IV whose first and fifth byte differ, the first byte behind the fixed header comes out wrong (also main_transport.c:593-601) |
| Transport.PartialBlockLost | main_transport.c:490-537 | for every datagram with IP options or with a partial last block, whatever trails it, there are a key and an IV under which it is not restored (also main_transport.c:749-888) |
| Transport.RestoredIff | main_transport.c:490-537 | Ethernet header and datagram survive every key and IV if and only if there are no IP options, the header checksum is canonical and the transport part is a multiple of 16 bytes, whatever trails the datagram (also main_transport.c:749-935) |
| Transport.WholeFrameIff | main_transport.c:916-935 | a frame that ends with its datagram comes back byte for byte if and only if the datagram does |
| TransportImpl.PatchHeader | main_transport.c:806-811 | rewriting protocol, length and checksum in place is the rewrite of the value model, with or without IP options, whether or not the library sums these |
| TransportImpl.Encap | main_transport.c:749-814 | append, overlapping move and header writes in place give exactly the encapsulated packet; fails exactly without 26 bytes of tailroom |
| TransportImpl.Decapsulate | main_transport.c:842-888 | the overlapping move back and the trim in place give exactly the decapsulated packet, or nothing changes |
| TransportImpl.Enqueue | main_transport.c:466-620 | pads from the offset of the direction, and when encrypting writes the IV into the packet and the 16 bytes in front of it; no other byte in front of the packet or behind the padding changes, and nothing at all on failure |
| TransportImpl.SendSide | main_transport.c:1348-1354 | the steps of the encrypting box in order send exactly the modelled packet |
| TransportImpl.ReceiveSide | main_transport.c:1378-1406 | the IV is read behind the IP options, before the move overwrites it, and the steps give exactly what the value model receives (also main_transport.c:916-935) |
| KeyRotation.TickSyncsIff | main (1).c:1650-1713 | after its tick an lcore holds the shared key if and only if the poll brought an install or nothing, or the lcore held it before |
| KeyRotation.StepKeepsInv | main (1).c:1308-1372 | a tick keeps applied numbers, the shared number and the keys held in step if and only if its poll brought an install or nothing, or nothing was shared yet, or the lcore held the shared key (also main (1).c:1650-1713) |
| KeyRotation.AppliedIsInSync | main (1).c:1650-1713 | in every interleaving of ticks, an lcore whose applied number equals g_shared_seq holds exactly the shared epoch and key as current on every port |
| KeyRotation.OneTickEachAgrees | main (1).c:1650-1713 | one tick of each lcore after the last install, in any order and with any further ticks, makes all of them agree |
| KeyRotation.AcceptsOverlap | main (1).c:1637-1640 | a session table that was told of an install, behind which only retirements came, accepts the new epoch under the new key, the epoch that was current before under its own key until the first retirement, and no other (also main (1).c:1364-1373) |
| KeyRotation.OverlapInRun | main (1).c:1650-1713 | the same for every cipher port of every lcore in every interleaving of ticks, whether its lcore received the key itself or caught up with it |
| KeyRotation.CatchUpOverlaps | main (1).c:1663-1690 | one tick that catches up leaves every cipher port accepting the shared epoch and the one it had, each under its key |
| KeyRotation.PollWithoutInstallSticks | main (1).c:1655-1661 | a poll that brings something but no install leaves an lcore that had not caught up believing it has |
| KeyRotation.StuckStays | main (1).c:1663-1677 | such an lcore stays without the key through all ticks of all lcores and all retire messages until the next install |
| KeyRotation.MissedKey | main (1).c:1650-1713 | two lcores and two ticks that lead there |
| KeyRotation.EpochFFIsNotShared | main (1).c:1665-1666 | a key with epoch 0xFF reaches no lcore but the one that received it, however the lcores tick until the next message |
| KeyEpochs.EpochIs | key_sender_server (1).c:191-194 | the n-th delivered key carries epoch n mod 255, never 0xFF |
| KeyEpochs.AcceptsAfterInstall | main (1).c:1637-1640 | over every run of a port: with r the last key installed and q the one current then, the port accepts exactly the epochs of r and, with no retirement since, of q, under their own keys |
| KeyEpochs.LookupFindsKey | main (1).c:1907-1923 | after any run, a port whose last install brought key r while q was current accepts a packet fewer than 255 rotations from both if and only if it holds its key, q until a retirement only, and then selects that key |
| KeyEpochs.WrongKeyAt254 | main (1).c:1907-1923 | after any run that leaves a port with a key and the one before it, the packet 254 keys ahead is taken for one of the key before |
| KeyEpochs.WrongKeyIff | main (1).c:1907-1923 | after any run and for all numbers r, q and s: a port selects a wrong key for a packet of key s if and only if s is not r but congruent to it modulo 255, or, with no retirement since, s is not q but congruent to it and not to r |
| KeyEpochs.PacketsConserved | main (1).c:493-546 | over every run of a port with a device that takes any prefix of a burst, the packets sent, inside the device, waiting and refused are exactly those put in, each once and under the key current then, and none overtakes another (also main (1).c:549-773) |
| KeyEpochs.PacketHistory | main (1).c:1195-1198 | in every such run, every packet sent was put in by an earlier operation and encrypted under the key current then, and stamped with the epoch of the key current when it came back (also main (1).c:549-773) |
| KeyEpochs.StampIsRightIff | main (1).c:1195-1198 | in every run of enqueues, bursts, dequeues, installs of any keys and retirements on a port's session table, a packet's stamp names the key that encrypted it if and only if the numbers of the keys current at its own enqueue and dequeue are congruent modulo 255 (also main (1).c:2034-2048) |
| KeyEpochs.StampAndInstalls | main (1).c:1195-1198 | with installs that bring ever later keys: within 255 key numbers the stamp is right if and only if there was no install in between, and if none skips a key, if and only if they are a multiple of 255 (also main (1).c:1663-1690) |
| KeyEpochs.StraddlingRun | main (1).c:1195-1198 | enqueue, burst, install, dequeue: a packet with a wrong stamp |
| KeyEpochs.ReceivesUnderStamp | main (1).c:1907-1975 | for a receiver reached by any operations, with r installed last and q current then, and for all s and t: it decrypts a packet of key s with the stamp of key t under r if t is congruent to r modulo 255, else, until a retirement, under q if it is congruent to q, and drops it otherwise, whichever key encrypted it (also main (1).c:549-773) |
| KeyEpochs.StraddlingPacketGarbled | main (1).c:1907-1975 | two ciphers under which such a packet is delivered with a wrong first byte by a receiver reached by any operations that end with the install, for every frame whose first and sixteenth datagram bytes differ |
| KeyEpochs.AcrossRotation | main (1).c:549-773 | a packet with no install while it was in the device, fewer than 255 keys away from both of the receiver, which any operations may have led to: delivered whole under the key last installed or, until a retirement, under the one current before, and dropped otherwise, never decrypted under another (also main (1).c:1907-1975) |
| KeyRotationImpl.LcoreState.DrainTick | main (1).c:1650-1713 | the tick on the shared globals and the port array is one step of the model |
| KeyRotationImpl.LcoreState.InstallCallback | main (1).c:1308-1362 | shares the key, bumps the number and rotates the own ports as one delivery |
| KeyRotationImpl.LcoreState.RotateAll | main (1).c:1332-1354 | the loop rotates exactly the cipher ports |
| Classifier.Scan | app_thread (1).c:302-365 | the loop finds the first full match among the first max(1, firewall_entries_cnt) enabled rules and the last address match up to it (also app_thread (1).c:445-521) |
| Classifier.ExaminedCount | app_thread (1).c:359-363 | the rules looked at are the first cnt enabled ones, one when cnt is 0, all when there are fewer |
| Classifier.ExactRule | app_thread (1).c:314-352 | a rule with every field set and whole addresses fits its own flow and no other |
| Classifier.ZeroIsAny | app_thread (1).c:314-352 | a field that is zero in a rule may be anything in the packet, the VLAN only in the scan for connections (also app_thread (1).c:466-520) |
| Classifier.OnlyUnderMask | app_thread (1).c:327-341 | of each address exactly the bits under its own mask decide |
| Classifier.FwLookup | app_thread (1).c:176-365 | for every kind of frame and every QoS mode the scan sees the fields that mode prescribes, or the default queue is taken |
| FrameFields.PlainParsed | app_thread (1).c:226-262 | the fields a sender puts into an untagged frame are those the lookup reads from its bytes |
| FrameFields.TaggedParsed | app_thread (1).c:206-220 | the same behind a VLAN tag |
| FrameFields.GreParsed | app_thread (1).c:235-256 | the same for outer and inner header behind GRE, with any of its optional fields |
| FrameFields.LookupFrame | app_thread (1).c:176-365 | the lookup on the bytes of a frame finds what the rules say about the fields in them |
| FrameFields.TaggedLookup | app_thread (1).c:206-220 | from the bytes of any tagged frame to the rule found: the first match for the low 12 bits of the tag, the own protocol, source and destination address and port, and the DSCP left over from before |
| FrameFields.PlainLookup | app_thread (1).c:226-297 | from the bytes of any untagged frame that is not GRE: the first match for VLAN 1 and its own fields, in every mode |
| FrameFields.GreLookup | app_thread (1).c:235-297 | from the bytes of any frame behind GRE with any optional fields: mode 0 takes all from the inner header, mode 1 its protocol with the outer addresses and DSCP, any other all but the ports from the outer header; the ports are the inner ones in every mode |
| FrameFields.OtherLookup | app_thread (1).c:201-205 | any frame that is neither IPv4 nor tagged takes the default queue (also app_thread (1).c:293-297) |
| FrameFields.FlipIsLoad | app_thread (1).c:436-439 | the flip of a number held by the proxy is what the host loads from the bytes that number is sent as |
| Classifier.GetPktSched | app_thread (1).c:367-412 | pipe and class are those of the match, else of the fallback site with the default class |
| Classifier.TcpQosQueue | app_thread (1).c:415-582 | from raw DSCP, addresses and ports, masked and flipped to host order as the program does, the queue id is that of the proxy's own scan |
| Classifier.DecodeUndoesQueueId | app_thread (1).c:577 | division and remainder give back pipe and class if and only if the class is below 16 (also app_thread (1).c:3187-3188) |
| Classifier.ScansAgreeIff | app_thread (1).c:302-365 | the two scans find the same rule if and only if every examined rule that fits the flow by its VLAN 0 wildcard alone comes after an examined rule that fits without it (also app_thread (1).c:445-521) |
| Classifier.WildcardTable | app_thread (1).c:302-365 | a table of one rule on which the scans differ, and with them the traffic class (also app_thread (1).c:445-521) |
| Classifier.SameQueue | app_thread (1).c:176-412 | both scans yield the same rule, fallback site, pipe and class for a flow if no rule has VLAN 0 and every class fits a pipe (also app_thread (1).c:415-582, app_thread (1).c:3187-3188) |
| FrameFields.SegmentsKeepTheirQueue | app_thread (1).c:176-412 | a segment sent with the numbers of a connection is given, from its bytes and in every mode, the rule, fallback site, pipe and class the connection got from its numbers, if no rule has VLAN 0 and every class fits a pipe (also app_thread (1).c:415-582) |
| FrameFields.InnerSegmentsKeepTheirQueue | app_thread (1).c:235-276 | the same for a segment behind GRE in mode 0 (also app_thread (1).c:415-582) |
| Burst.RunConserves | main (1).c:493-546 | over every run with a device that takes any prefix, every item given was taken, freed or waits, exactly once and in order, the statistics count them, and fewer than a burst wait (also main (1).c:776-822) |
| Burst.WaitsForBurst | main (1).c:523-546 | over every run, nothing leaves but in bursts of 32 or by a drain: what waits is the number of items given since the last drain, modulo 32 |
| Burst.FlushFates | main (1).c:493-519 | of one burst exactly the first items, as many as the device takes, are sent, and every other is freed |
| Burst.BurstBuffer.SendBurst | main (1).c:493-519 | taken and freed items and both counters are exactly those of the device's prefix (also main (1).c:776-797) |
| Burst.BurstBuffer.SendItem | main (1).c:523-546 | putting an item in, and sending a full buffer, is one step of the model (also main (1).c:800-822) |
| Burst.BurstBuffer.Drain | main (1).c:1727-1744 | the drain empties the buffer as the model does |
| Burst.ThreadConf.SendBurst | app_thread (1).c:3247-3263 | ends whenever the device makes progress again and again, and then everything in the table was taken in order |
| Burst.ThreadConf.SendPackets | app_thread (1).c:3267-3285 | nothing is lost and the order is kept: taken before, waiting before and given are taken now, then waiting now |
| Burst.WholeBursts | app_thread (1).c:3273-3284 | what is left waiting is the number of packets modulo the burst size, so everything else went out in whole bursts |
| CtrlBridge.PuntUndoesTag | ctrl_bridge (1).c:118-233 | for every frame of at least 14 bytes the tagged frame is control traffic, and punting it gives back the very frame |
| CtrlBridge.EtherTypeDecides | ctrl_bridge (1).c:118-126 | a frame of any length is control traffic if and only if it has 14 bytes and the type 0x88B5 in network order |
| CtrlBridge.TaggedOnWire | ctrl_bridge (1).c:212-233 | the tagged frame byte by byte: addresses, 0x88B5, the original type, the rest |
| CtrlBridge.TunnelIsNotCtrl | ctrl_bridge (1).c:118-126 | a packet from the tunnel is never taken for control traffic (also main (1).c:984-992) |
| CtrlBridge.Tag | ctrl_bridge (1).c:212-233 | prepending two bytes and rewriting in place gives exactly the tagged frame |
| CtrlBridge.Punt | ctrl_bridge (1).c:135-182 | the frame is sent, restored in place, or freed, and exactly one of the two: sent if and only if the bridge is ready, the frame has 16 bytes and the device takes it |
| CtrlBridge.IsCtrlFrame | ctrl_bridge (1).c:118-126 | decides the classification for frames of any length |
| CtrlBridge.TagAll | ctrl_bridge (1).c:206-236 | the batch loop queues exactly the frames that can be tagged, in order and tagged, and frees the others |
| CtrlBridge.PumpEgress | ctrl_bridge (1).c:192-251 | for every batch and every partial send each buffer is sent or freed exactly once, and what is sent is a prefix of the survivors in order |
| CtrlBridge.KeptAndNot | ctrl_bridge (1).c:206-236 | survivors and rejected frames together are the batch, each as often as in it |
| CtrlBridge.KeptInOrder | ctrl_bridge (1).c:206-236 | each survivor stands behind exactly the survivors that came before it |
| AesCore.RunKeepsInv | aes_core_encrypt.v:80-161 | in every run, resets at any edge included, the last-round flag is up exactly when round 10 is captured, done is up only in the idle state, and ke_busy exactly in key generation |
| AesCore.OnePulsePerStart | aes_core_encrypt.v:80-161 | in every run there are as many cycles with done up as starts were accepted, but for those a reset broke off and the one still at work |
| AesCore.BusyIgnoresStart | aes_core_encrypt.v:100-108 | a start while busy, with any key and plaintext, changes no register |
| AesCore.Waits | aes_core_encrypt.v:110-124 | until ke_done the latched key and plaintext stay, done is down and ke_start is pulsed for one cycle |
| AesCore.ReachesRound | aes_core_encrypt.v:126-150 | each round is captured two edges after the one before, with its own round key and the flag for round 10 only |
| AesCore.DonePulse | aes_core_encrypt.v:100-156 | done rises at exactly the 21st edge after the one that accepts ke_done, for one cycle, with the ten rounds over the round keys as they were sampled |
| AesCore.CoreComputesCipher | aes_core_encrypt.v:100-156 | with the same round keys on the wires from ke_done on, the ciphertext is the cipher of section 5.1 of FIPS 197 under these, whether or not they belong to the latched key |
| AesCore.DoneTakenAtOnce | aes_core_encrypt.v:110-124 | after a start accepted at edge t, ke_done is taken at edge t + 2 if and only if it is high there |
| AesCore.StaleKeysUsed | aes_core_encrypt.v:110-124 | ke_done high at that edge with another key's round keys on the wires: the ciphertext is the one under those |
| AesCore.StaleKeysWrong | aes_core_encrypt.v:110-124 | for any two keys with different expansions and any plaintexts, two encryptions in a row with ke_done and the first key's round keys kept up: the first ciphertext is the first key's, and for some round function the second is not the second key's |
| AesCore.RightForEveryRoundIff | aes_core_encrypt.v:100-156 | the ciphertext is the cipher under given round keys for every round function if and only if the sampled round keys are these |
| AesCore.OwnKeysSuffice | aes_core_encrypt.v:110-156 | ke_done low at edge t + 2 and later high only with the latched key's expansion on the wires gives the latched key's ciphertext |
| AesCore.Core.Clock | aes_core_encrypt.v:80-161 | the register updates of one edge, reset included, are one step of the model |

## Left out

- DPDK set-up, link status, lcore assignment, command line, statistics output, ARP and MAC rewriting: plumbing.
- Fragmentation and reassembly (tf_* calls) and everything after them in the frame's way: their code is not part of this model.
- keyd.c and the key senders beyond the epoch counter, and host scripts: sockets, TLS and serial I/O.
- Null arguments, and the guards for them, in the store, chunker and pool calls.
- The chain of packet segments given to module1_add_data is one byte sequence, and the pending TLV chain is a sequence of records; allocation of packet buffers is one yes or no per chunk.
- Other connections' store calls inside one module1_add_data call: the store is touched by one call at a time.
- module4_lookup_and_build_tlv with peer_cold set: the peer is taken to be warm.
- TLV headers and the receiver's parser: a HIT is its hash and a MISS its data.
- CHUNK_SIZE is the 4096 bytes BYTE_CACHE_SIZING_AND_LATENCY.md:284-287 gives; the lemmas about sizes use it only as a bound. MAX_CHUNKS and the record header size stand for the constants of module2.h.
- File offsets and pool sizes are unbounded integers; so are the 64-bit statistics of bursts, the counters of drops and the size arithmetic of mpool_alloc.
- fseek and fflush never fail; a failed seek would end the rebuild early.
- Spinlocks are atomic sections; weak-memory effects and torn reads of g_shared_key are not modelled.
- Hash, AEAD and XTS chains in the enqueue functions, and sessions other than cipher-only CBC with digest length 0.
- What happens to an mbuf the tunnel code returns on without freeing.
- Multi-segment packets: a packet is one segment, so data_len and pkt_len are the same number.
- Tunnel.EndToEnd: assumes an IPv4 frame whose total length is at most the bytes behind the Ethernet header; a frame of another type comes out as IPv4, which Tunnel.DecapUndoesEncap states.
- Transport.RestoredIff: assumes room in the length field; without it Transport.TooLongIsDropped says what happens. Frames with an IHL below 5 or with less than their header announces are malformed, and the moves of the program read past the packet.
- Transport.DecapUndoesEncap: says of a datagram with IP options only that the moved bytes come back; the rest comes back by coincidence if at all.
- MemPool.Pool.Put: requires that an address inside the block is that of one of its units, live or not; the program takes any such address for one.
- TransportImpl.ReceiveSide: requires that the buffer, not the packet, holds the bytes the IV is read from, as every buffer of the program does.
- TransportImpl.Encap: requires that the announced datagram is in the packet, and IHL 5 or more, as the other methods there do.
- TcpChecksum.Calculate: requires an inner total length of at least 40; below that the program writes outside the segment.
- KeyRotation.AppliedIsInSync: assumes that cs_rotate succeeds, that a poll with a positive result ran an install, that no epoch is 0xFF and that fewer than 2^32 installs happen between two catch-ups of an lcore; what happens without the second and third is stated by other lemmas.
- KeyEpochs.LookupFindsKey: the pre-shared bootstrap key, which also has epoch 0, is not numbered.
- Rate_config of tcp_qos_queue, RTP detection, compression, and the TCP stack behind tcp_input.
- FrameFields.LookupFrame: requires that the buffer holds every byte the lookup reads; the program reads them whatever the packet's length.
- AES S-box, key expansion and the round itself; the asynchronous reset acts at clock edges only.
- cb_pump_egress and cb_punt_to_kernel before initialisation only return or free, which is modelled for the latter.
