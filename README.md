# pcfs core, modelled in Dafny

pcfs is a distributed file store built on a Byzantine-fault-tolerant Raft engine. A metadata group
replicates volumes, directories, file metadata, write locks and block records. Storage hosts ("stash"
nodes) keep the bytes of the blocks. A client file stream turns reads and writes at an offset into
block operations.

This project models the core of that system as deterministic operations over an abstract key-value
store. Every network and consensus call is an oracle: a function passed in or held in a datatype.

- `wrappers.dfy` (`Wrappers`): `Option`, `Result` and the error kinds. `Crashed` stands for a Go panic.
- `bytes.dfy` (`Bytes`): `byte`, `u32` and `u64`, and big-endian fixed-width encodings with their
  injectivity.
- `messages.dfy` (`Messages`): the protobuf messages as datatypes, the kind tags
  (server/contracts.go:22-28) and the size bounds (server/contracts.go:19-20).
- `store.dfy` (`Store`): the key layout and the typed accessors of server/store.go. A transaction is a
  `map` from key bytes to a stored entity.
- `contracts.dfy` (`Contracts`): the state-machine contracts of server/contracts.go.
  - Each transaction is a function from the store to a new store or an error.
  - Class `Node` holds the replicated store (`db`) and the node-local cache of block confirmations
    (`pending`).
  - A handler commits its transaction only when it succeeds, so the store is all-or-nothing.
- `storage.dfy` (`Storage`): the storage-node RPCs of server/storage.go.
  - The plain lookups.
  - `ListDirectory`, whose walk and listing loops are proved against a recursive specification.
  - `AppendToBlock` and `CreateBlock`.
- `consensus.dfy` (`Consensus`): the tally of `GroupMajorityResponse`. Its loop is proved against
  `Hashes` and `Votes`.
- `encoding.dfy` (`Encoding`): `HashHostStash`, a concatenating fold over an abstract encoder.
- `filestream.dfy` (`FileStream`): the client stream of drone/storage/model.go.
  - Class `FileStream` has the fields `offset`, `meta`, `current` (the buffered block) and `dirty`.
  - The `Network` datatype holds the answers the group gives it.
  - `newBlock`, `ensureBlock` and `getBlock` are proved against the specification functions
    `NewBlockSpec`, `EnsureSpec` and `FetchSpec`.

Several defects are modelled as written, because their behaviour is defined:

- The lock owner is never recorded (`AcquireAfterAcquire`).
- `NewVolume` replies success when the root directory fails to encode.
- `NewVolume` never links `RootDir`, and `ListDirectory` walks from the stored `rootDir`.
- `AppendToBlock` writes every byte to one position.
- `Read` copies byte `i` of the block.
- Offsets are truncated to 32 bits.
- `ensureBlock`'s errors are ignored by `Read` and `Write`. When it fails without crashing, the old block
  stays buffered, and `Write` stores the byte into that other block and marks it dirty
  (drone/storage/model.go:282-288, `ReadStep.ensured` and `WriteStep.ensured`).
- `ListDirectory` never sets the response's `Volume` (`ListDirectoryResolves`), so opening a missing file
  crashes when the stream touches it (`NewStream`).
- The stream lists the directory part of its path, which ends in '/'. `ListDirectory` splits that path
  into parts whose last part is empty (`SplitTrailingSep`), and walks into a child with an empty name.

Where Go dereferences nil or panics, the model returns `Err(Crashed(..))`. The two inverted error tests
are the exceptions: there the model uses the intended behaviour, and each is listed under Findings.
The crash sites include:

- The suggestion callback of `newBlock` (drone/storage/model.go:110-127). It runs once for each group
  member the quorum reader reaches (`Network.membersReached`, server/consensus.go:23-35).
  - It reads the replication factor of the stream's volume, so a missing volume crashes.
  - It reads the nodes of a failed member's nil reply (`Network.suggestReplies`).
  - It hashes the nodes with `HashHostStash`, which panics when a host fails to encode
    (drone/storage/encoding.go:8-19, `Network.marshalHost`).
  - When no member is reached, the callback never runs, and `newBlock` fails with the null-suggestion
    error (drone/storage/model.go:128-132).
- A suggested host with no client (drone/storage/model.go:143-144, `Network.hostReachable`).
- A `NewDirectory` contract without a directory message (server/contracts.go:95-96). The handler sets
  the key of the nil directory.

Where the design description and the code disagree, the model follows the code:

- `NewDirectory` does not check for an existing child with the same key.
- Write-lock renewal by the same owner fails, because the owner is not stored.
- A decode failure in `NewDirectory` replies `[1]`, not `[0]`.

## Model

| member | source | states |
|---|---|---|
| Store.DBKeyInjective | server/store.go:12-14 | a store key is the (group, kind) prefix followed by the key, so two keys are equal iff group, kind and suffix are all equal |
| Store.FileKeyDistinctIndices | server/store.go:16-19 | the file key depends only on (volume, path, index); with a collision-free hash, touches at different log indices get different keys |
| Store.BlockDBKeyInjective | server/store.go:21-24 | block keys of distinct (group, file, index) differ |
| Store.BlockDBKeyIsolated | server/store.go:21-24 | every block key lies under group 3 and kind BLOCKS, whatever group is passed, so it never equals a key of another group or kind |
| Store.GetDirectory | server/store.go:26-44 | an absent key gives KeyNotFound; a result is the directory stored under that key |
| Store.SetDirectory | server/store.go:46-54 | Set then Get of the directory's own key returns it; every other key is unchanged |
| Store.GetWriteLock | server/store.go:56-74 | the intended lookup: KeyNotFound when absent, otherwise the stored lock |
| Store.GetWriteLockAsWrittenNeverFindsLock | server/store.go:56-74 | as written, a stored lock comes back as a nil lock with a nil error, and a missing one panics |
| Store.SetWriteLock | server/store.go:76-84 | Set then Get returns the lock; only the lock's key changes |
| Store.ReleaseWriteLock | server/store.go:86-89 | deletes exactly the lock key for `lock.key` in the group |
| Store.GetFile | server/store.go:91-109 | an absent key gives KeyNotFound; a result is the stored FileMeta |
| Store.SetFile | server/store.go:111-119 | Set then Get returns the file; only the file's key changes |
| Store.GetVolume | server/store.go:121-139 | an absent key gives KeyNotFound; a result is the stored volume |
| Store.GetBlockData | server/store.go:141-160 | an absent block key gives KeyNotFound; a result is the stored block |
| Store.SetBlock | server/store.go:162-171 | stores under the key built from the block's own (group, file, index); Get returns it; nothing else changes |
| Store.GetHostStash | server/store.go:173-191 | an absent key gives KeyNotFound; a result is the stored host stash |
| Store.SetHostStash | server/store.go:193-201 | stores under the host id's key; Get returns it; nothing else changes |
| Store.OtherKindUnchanged | server/store.go:12-14 | writing one (group, kind, key) leaves every key of another kind as it was |
| Contracts.NormalizeVolume | server/contracts.go:36-50 | the key is IdFromName of the name; replications end in [5, 32] and block size in [1 KB, 10 MB]; in-range values are kept; out-of-range values go to the nearer bound |
| Contracts.NewVolumeTxn | server/contracts.go:66-85 | succeeds iff neither the volume key nor the root-directory key exists; then it writes the volume and an empty root directory keyed by the volume key, and changes nothing else |
| Contracts.Node.NewVolume | server/contracts.go:30-86 | a decode or volume-encode failure replies [0] and writes nothing; a root-directory encode failure replies [1] and writes nothing; otherwise it commits NewVolumeTxn and replies [1], or keeps the store and replies [0] |
| Contracts.Token | server/contracts.go:98 | a child token is the type byte followed by the child key |
| Contracts.NewDirectoryTxnEffect | server/contracts.go:99-111 | fails iff the parent is missing; otherwise the parent gains exactly one `[DIR] ++ key` token, the new directory is stored, and no other key changes |
| Contracts.Node.NewDirectory | server/contracts.go:88-119 | the new key is SHA-1(parent key ++ entry hash) with an empty child list; the transaction is all-or-nothing; a decode failure replies [1]; a contract without a directory message crashes and writes nothing, and no other case crashes |
| Contracts.AcquireLockTxn | server/contracts.go:128-146 | fails iff the file is missing or a stored lock's owner differs from the requester; otherwise a lock with owner 0 is stored and only the lock key changes |
| Contracts.AcquireAfterAcquire | server/contracts.go:128-138 | after one acquire, a second succeeds iff the requester is client 0, because the owner is never recorded |
| Contracts.ReleaseLockTxn | server/contracts.go:163-171 | fails iff no lock is stored; otherwise it deletes exactly that lock key |
| Contracts.AcquireThenRelease | server/contracts.go:121-179 | a lock just acquired can be released; afterwards no lock is stored and a second release fails |
| Contracts.Node.AcquireFileWriteLock | server/contracts.go:121-154 | commits AcquireLockTxn and replies [1], or replies [0] with the store unchanged |
| Contracts.Node.ReleaseFileWriteLock | server/contracts.go:156-179 | commits ReleaseLockTxn and replies [1], or replies [0] with the store unchanged |
| Contracts.TouchFileTxnEffect | server/contracts.go:188-213 | fails iff the volume is missing; an existing directory gains one FILE token and a missing one is skipped; an existing FileMeta is untouched; a new one has no blocks, size 0, the volume's block size and both timestamps equal to the client time; no key other than the file's and the directory's changes |
| Contracts.Node.TouchFile | server/contracts.go:181-221 | the file key is FileKey(volume, dir, entry index); the transaction is all-or-nothing |
| Contracts.Confirm | server/contracts.go:237-246 | the cache gains exactly the key (group, index, file); its set becomes exactly the old set (empty when absent) plus the node id; every other entry is unchanged |
| Contracts.ConfirmAllConfirms | server/contracts.go:237-246 | a series of confirmations adds the key iff the series is non-empty; its set becomes exactly the old set plus the confirming ids; every other entry is unchanged |
| Contracts.ConfirmAllThenAllConfirmed | server/contracts.go:237-246 | after a series of confirmations, every named host is in the pending set (the commit's check) iff each was already in it or confirmed in the series; from a cache without the key, iff each confirmed in the series |
| Contracts.Node.ConfirmBlock | server/contracts.go:229-248 | only the pending cache changes (by Confirm); the store is untouched; the reply is [1] after a successful decode |
| Contracts.Node.Expire | server/contracts.go:238-245 | eviction of one pending entry leaves the store and the other entries unchanged |
| Contracts.AppendBlockTxn | server/contracts.go:279-295 | succeeds iff the file exists and the index equals its block count; appends exactly one block whose hosts are the node ids in order; sets LastModified to the client time and Size to blocks × block size in 64-bit arithmetic; writes only the file key |
| Contracts.CommitAsWrittenNeverAppends | server/contracts.go:281-295 | as written, a file ready for the block is never updated, and the reply carries no bytes |
| Contracts.Node.CommitBlockCreation | server/contracts.go:251-304 | with no pending entry, or an unconfirmed named host, it replies [0] and keeps the entry; otherwise it deletes the entry before the update, so a failing update still consumes it; on success it replies the encoded new FileMeta |
| Storage.GetBlock | server/storage.go:15-31 | succeeds iff a block is stored under the block key, and returns it |
| Storage.GetFileMeta | server/storage.go:33-49 | succeeds iff a FileMeta is stored under the key, and returns it |
| Storage.GetVolumeByName | server/storage.go:51-67 | looks the volume up by IdFromName of its name; succeeds iff it is stored |
| Storage.GetDirectoryRpc | server/storage.go:69-85 | succeeds iff a directory is stored under the key, and returns it |
| Storage.Split | server/storage.go:89 | splitting a path always yields at least one part |
| Storage.SplitTrailingSep | server/storage.go:89 | a path ending in '/' splits into at least two parts, the last one empty |
| Storage.SplitJoin | server/storage.go:89 | joining the parts with '/' gives back the path, and no part contains '/' |
| Storage.FindChildFirst | server/storage.go:101-123 | the walk descends into the first DIR child with that name, skipping DIR tokens whose record is missing; it reports Missing iff no token names such a child and no token is empty (an empty token is a crash) |
| Storage.ListItemsShape | server/storage.go:128-159 | the listing fails iff some token's entry fails (an empty token or a missing child record); otherwise it has one entry per token, in token order |
| Storage.ListItemKind | server/storage.go:132-156 | an entry's type is the token's first byte: DIR gives the child directory, FILE the child file, and any other byte an empty entry |
| Storage.ListDirectoryResolves | server/storage.go:89-163 | a listing exists only for a stored volume (looked up by IdFromName of the first part) and a resolved directory; its key and name are that directory's, and its volume is never set |
| Storage.ListDirectory | server/storage.go:88-167 | the labelled walk and the listing loop compute ListDirectorySpec |
| Storage.Copied | server/storage.go:184-191 | at most all of the data is copied, and only within the block's 32-bit length from the offset |
| Storage.Appended | server/storage.go:184-191 | the intended append keeps the block's length |
| Storage.AppendedNothing | server/storage.go:184-187 | appending no data, or at or past the end of the block, leaves the block as it was |
| Storage.AppendedEffect | server/storage.go:184-191 | the intended append keeps the length, writes the data in order from the offset, changes nothing outside that window, and writes all of it iff it fits |
| Storage.AppendedAsWritten | server/storage.go:184-190 | the append loop as written keeps the block's length |
| Storage.AppendedAsWrittenEffect | server/storage.go:184-190 | as written, only the byte at the offset can change, and it holds the last copied byte |
| Storage.AppendedAsWrittenLosesBytes | server/storage.go:188 | two bytes appended at offset 0 of a three-byte block leave only the second, where the intended append keeps both |
| Storage.AppendToBlock | server/storage.go:172-204 | a missing block returns the error and writes nothing; otherwise it stores the block as written and reports Succeed, remains = len(data) − copied, and the SHA-1 of the new data |
| Storage.ZeroBlock | server/storage.go:213-219 | the new block has the request's group, file and index, and exactly BlockSize zero bytes |
| Storage.CreateBlock | server/storage.go:206-261 | with no majority FileMeta it fails and writes nothing; if the block key exists it reports Succeed false without overwriting; otherwise it inserts the zero block, then submits a confirmation naming this node, and reports Succeed only when the reply byte is 1 |
| Consensus.VotesAreLastResults | server/consensus.go:60-69 | a hash has a value iff some non-nil response has that hash, and the value is the last such result |
| Consensus.NoVotesIffNoResults | server/consensus.go:62-66 | nobody voted iff every response had a nil result |
| Consensus.VoteValuesReceived | server/consensus.go:67-69 | every stored value is one of the received results |
| Consensus.GroupMajorityResponse | server/consensus.go:22-80 | no group members gives nil; the result is nil iff every response is nil; any result was received; if the chosen hash has a value, that value is returned |
| Consensus.GetMajorityFileMeta | server/consensus.go:82-108 | an error exactly when the majority read returned nil, otherwise that FileMeta |
| Encoding.EncodedAppend | drone/storage/encoding.go:15 | one more host extends the output by exactly that host's encoding |
| Encoding.EncodedConcat | drone/storage/encoding.go:10-16 | the output for a concatenated list is the concatenation of the outputs, in list order (the old output is a prefix) |
| Encoding.EncodedFails | drone/storage/encoding.go:12-13 | encoding fails iff the encoder fails on some host; no partial output is returned |
| Encoding.HashHostStash | drone/storage/encoding.go:8-19 | the loop computes Encoded; an empty list gives empty output |
| FileStream.PlacementConcat | drone/storage/model.go:141-151 | placement keeps suggestion order: placing two lists is placing each, concatenated |
| FileStream.PlacementMembers | drone/storage/model.go:141-151 | placement succeeds iff every suggested host is reachable (has a client); the replica set is exactly the suggested hosts whose CreateBlock reported Succeed |
| FileStream.PlacementNone | drone/storage/model.go:141-151 | when no host accepts, the replica set is empty |
| FileStream.NewBlockCommits | drone/storage/model.go:108-188 | a new meta is adopted only after a commit naming the requested index and file and a non-empty set of accepting suggested hosts, answered by a reply longer than one byte |
| FileStream.NewBlockNeedsReplica | drone/storage/model.go:152-154 | with no accepting host, nothing is committed and newBlock fails |
| FileStream.SuggestPanicsIff | drone/storage/model.go:110-127 | the suggestion callback panics iff some reached member's call failed (its nil reply is read) or some host of some member's reply fails to encode in HashHostStash |
| FileStream.NewBlockWithoutVolume | drone/storage/model.go:110-132 | without a volume, newBlock commits nothing; it crashes iff some member is reached, and otherwise fails with the null-suggestion error |
| FileStream.FileStream.NewBlock | drone/storage/model.go:108-188 | fails with the null-suggestion error when no member is reached; crashes on a missing volume, a failed member reply or a host that fails to encode; otherwise asks for 2·Replications hosts (uint32), places, commits and decodes, as NewBlockSpec |
| FileStream.GrowConsecutive | drone/storage/model.go:236-243 | the creation loop asks for consecutive indices, all of them up to the target unless one fails, and the last one asked for is the one that failed |
| FileStream.FetchFlushesFirst | drone/storage/model.go:190-221 | getBlock is a no-op when the block is loaded; it replaces the buffer only after flushing a dirty one to every host of its block; a failed fetch leaves the buffer |
| FileStream.FinishRequests | drone/storage/model.go:236-244 | after the first block exists, indices run from the block count up to the target; a replaced buffer is the target block |
| FileStream.EnsureRequests | drone/storage/model.go:224-247 | ensureBlock targets Offset / BlockSize and does nothing when that block is loaded; it asks for block 0 first when the file has none, then for consecutive indices ending at the target |
| FileStream.QuotRem | drone/storage/model.go:226 | the block index and in-block offset, computed by repeated subtraction of the block size, are the unsigned quotient and remainder of Go's `/` and `%` |
| FileStream.FileStream.LandWrite | drone/storage/model.go:298-326 | a no-op when not dirty; otherwise it sends the buffer to every host of meta.Blocks[index] and clears dirty whatever the hosts answer; a nil buffer or missing record is a crash |
| FileStream.FileStream.GetBlock | drone/storage/model.go:190-222 | computes FetchSpec: flush, then fetch the block by index and file key |
| FileStream.FileStream.GrowBlocks | drone/storage/model.go:236-243 | the creation loop adopts each returned meta and stops at the first failure, as Grow |
| FileStream.FileStream.FinishBlocks | drone/storage/model.go:236-244 | the creation loop from the block count to the target, then the fetch of the target, computes Finish; the cursor is unchanged |
| FileStream.FileStream.EnsureBlock | drone/storage/model.go:224-247 | computes EnsureSpec; a block size of zero is a crash; the cursor is unchanged |
| FileStream.FileStream.EnsureCursorBlock | drone/storage/model.go:224-247 | the call of ensureBlock in Read and Write (drone/storage/model.go:261, 282): meta, buffer and dirty flag become exactly what EnsureSpec gives at the cursor; it reports a crash iff EnsureSpec crashes, and other errors are dropped |
| FileStream.ReadTraceAt | drone/storage/model.go:260-261 | in a Read trace, position k starts from the stream the first k positions left and ensures, by EnsureSpec, the block of cursor orig + k |
| FileStream.ReadTraceSnoc | drone/storage/model.go:260-270 | a Read trace extended by a position that ensures the next cursor's block from the stream the trace left is a Read trace, ending at that ensureBlock's stream |
| FileStream.WriteTraceAt | drone/storage/model.go:281-282 | in a Write trace, position k ensures, by EnsureSpec, the block of cursor orig + k from the stream position k − 1 left: its meta, its updated block, dirty |
| FileStream.WriteTraceSnoc | drone/storage/model.go:281-292 | a Write trace extended by a position that ensures the next cursor's block from the stream the trace left is a Write trace, ending with that position's updated block, dirty |
| FileStream.FileStream.MoveCursor | drone/storage/model.go:268-270 | `fs.Offset++` moves the cursor from orig + n to orig + n + 1 with uint64 wrap-around, and changes nothing else |
| FileStream.FileStream.ReadByte | drone/storage/model.go:262-267 | the in-block offset is uint32(orig + i) % BlockSize; the position stops iff it exceeds the tail; otherwise the byte is byte i of the block; it crashes iff the block size is zero, the buffer is nil, or the offset is within the tail and i is past the block's data |
| FileStream.FileStream.ReadPosition | drone/storage/model.go:261-267 | one Read position: it crashes iff EnsureSpec crashes for the stream before it at cursor orig + i, or the byte part crashes on the stream EnsureSpec gives; otherwise meta, buffer and dirty flag become that stream; the position stops iff the in-block offset exceeds the tail of that block, and otherwise reads byte i of it |
| FileStream.FileStream.ReadNext | drone/storage/model.go:261-270 | one pass of the Read loop: a crash at position i changes no byte of the buffer, keeps the bytes copied so far, and is a crash of that position; a stop leaves the buffer and reaches the stop position; otherwise the trace and the copied prefix grow by one position |
| FileStream.ReadEachNoCrash | drone/storage/model.go:260-270 | no position a Read got through would crash |
| FileStream.StopNoCrash | drone/storage/model.go:261-266 | the position where a Read stops does not crash |
| FileStream.ReadStops | drone/storage/model.go:261-266 | a position that ensured its block from the stream the earlier positions left and found its in-block offset past the tail is where the Read stops |
| FileStream.ReadContinues | drone/storage/model.go:261-267 | a position that does not stop reads byte i of its block and extends the Read trace, leaving the stream its ensureBlock left |
| FileStream.FileStream.StoreRead | drone/storage/model.go:267-270 | `(*bytes)[i] = …` then `fs.Offset++` unless last: the copied prefix grows by the position's byte, the rest of the buffer and the stream stay, and the cursor moves to orig + i + 1 only before the last position |
| FileStream.FileStream.ReadLoop | drone/storage/model.go:260-272 | the Read loop: the count, the bytes copied, the trace, the stop position and the final stream and cursor, as Read; a crash is the crash of a position k < len(buffer), after positions 0 .. k − 1 read their bytes |
| FileStream.FileStream.WriteByte | drone/storage/model.go:283-289 | marks the stream dirty and stores the byte at uint32(orig + i) % BlockSize of the buffer, raising the tail by one only past it; it crashes iff the block size is zero, the buffer is nil, or that offset is past the block's data |
| FileStream.FileStream.WritePosition | drone/storage/model.go:282-289 | one Write position: it crashes iff EnsureSpec crashes for the stream before it at cursor orig + i, or the byte part crashes on the stream EnsureSpec gives; otherwise that block with the byte stored at the in-block offset becomes the buffer, dirty, with the meta ensureBlock left |
| FileStream.WroteEachNoCrash | drone/storage/model.go:281-292 | no position a Write got through would crash |
| FileStream.FileStream.WriteLoop | drone/storage/model.go:281-294 | the Write loop: the count, the bytes stored, the trace and the final stream and cursor, as Write; a crash is the crash of a position k < len(buffer), after positions 0 .. k − 1 stored their bytes |
| FileStream.FileStream.Seek | drone/storage/model.go:249-252 | sets the cursor, then ensures its block |
| FileStream.FileStream.Read | drone/storage/model.go:254-273 | a nil buffer errors and changes nothing; otherwise every other error is a crash at a position k < len(buffer), after positions 0 .. k − 1 each ensured their block and copied their byte into the buffer, so none of them crashed (ReadEachNoCrash); otherwise it returns a count n ≤ len(buffer) and leaves the rest of the buffer; each position k first ensures, by EnsureSpec, the block of cursor orig + k on the stream position k − 1 left, then copies byte k of that block (as written) with its in-block offset uint32(orig + k) % BlockSize within the tail; n < len(buffer) iff a position found the offset past the tail, and then the stream is what that position's ensureBlock left; otherwise it is what the last position left; Offset = orig + n − 1 when it did not stop early, else orig + n |
| FileStream.FileStream.Write | drone/storage/model.go:275-295 | a nil buffer errors and changes nothing; otherwise every other error is a crash at a position k < len(buffer), after positions 0 .. k − 1 each ensured their block and stored their byte in it, so none of them crashed (WroteEachNoCrash); otherwise it returns n = len(buffer); each position k first ensures, by EnsureSpec, the block of cursor orig + k on the stream position k − 1 left (its meta, its updated block, dirty), then stores byte k at Data[uint32(orig + k) % BlockSize] of the buffered block, changing no other byte and raising the tail by one only past it; the final stream is the last position's meta with its updated block, dirty; Offset = orig + n − 1 |
| FileStream.SplitPathParts | drone/storage/model.go:57 | the directory and the name give back the path; the name has no '/'; the directory is empty or ends with '/' |
| FileStream.FindFileFirst | drone/storage/model.go:62-73 | the stream opens the first FILE entry with that name, and finds one iff such an entry exists |
| FileStream.OpenedFinds | drone/storage/model.go:56-83 | an opened stream holds a FILE entry named by the path's last part, found in the directory listing of some attempt between the first and the last retry, with that listing's volume |
| FileStream.NewStream | drone/storage/model.go:56-83 | an existing file opens at offset 0 with no buffer and clean; a missing one is touched in the listed volume and directory, then retried; a failed or unlisted directory, or a failed touch, is an error; the outcome over all retries is Opened: it opens iff Opened does, with its meta and volume, and otherwise returns Opened's error |

## Left out

- Network and consensus answers are oracles that are deterministic in their request. `Network.ls`
  also takes an attempt number, so that a listing may change after a touch. The group cannot give
  different answers to the same request at different times.
- The goroutine fan-out, channels and 10-second timers of `GroupMajorityResponse`
  (server/consensus.go:29-59) are not modelled. So is `GetPeerRPC`. The tally receives the responses in
  arrival order, and a timed-out member contributes a nil result.
- The five-minute expiry of the pending cache is not modelled as a clock. `Node.Expire` models it as an
  eviction the environment may perform at any time.
- Wall-clock times (`time.Now`) are parameters: `now` in the stream, and `clientTime` in the contracts.
  One call of Seek, Read or Write uses one timestamp for all the blocks it creates. One call of
  `NewStream` uses one timestamp for the touch of every retry.
- Protobuf encoding and decoding are abstract:
  - A contract argument that fails to decode is `None`.
  - Encoding failures in `NewVolume` are the flags `volumeEncodes` and `rootDirEncodes`.
  - The reply of a successful commit is `Node.marshalMeta`.
  - The stream decodes with `Network.decodeMeta`.
  - Encoding the confirmation and commit contracts is taken to succeed.
- SHA-1 and `IdFromName` are the fields of `Crypto`. `HashData` and `PickMajority` are parameters.
- The consensus library's key prefix is taken to be the 8-byte big-endian group followed by the
  4-byte big-endian kind, and `U64Bytes` to be the 8-byte big-endian encoding of a uint64. Neither
  function is part of this model. The key-injectivity lemmas rely on that fixed width.
- The `DirectoryItem` type enum is taken to be FILE = 0 and DIR = 1, the values protobuf gives the
  first two enum members. The generated protobuf code is not part of this model.
- The storage engine is a map. A write to it is taken not to fail.
- `StashVal` values use kind tag 6 (`STASH`), which is not defined in the modelled files.
- `RandId`, which uses randomness, is not part of this model.
- These stubs are not modelled: `SuggestBlockStash` (an empty body), `DeleteBlock` (unimplemented), and
  `Mkdir`, `Rm`, `Rmr` and `Mv`.
- The demo `PCFS.NewVolume` and `PCFS.Ls` are not modelled. `Ls` is the `Network.ls` oracle.
- client/model.go, bootstrap, configuration, signals and logging are not part of this model.
- FileStream.FileStream.EnsureBlock: the loop index is unbounded, so a target of 2^64 − 1 ends the loop
  instead of wrapping the uint64 index forever.
- FileStream.NewStream: the touch-and-retry recursion is bounded by `fuel`. Running out of retries is
  reported as an error, whereas the code retries without bound.
- Contracts.Node.CommitBlockCreation: the handler decodes a `ConfirmBlockCreationContract`
  (server/contracts.go:253), and the stream encodes a `CommitBlockContract`
  (drone/storage/model.go:155). Both are typed here as `Messages.CommitBlockContract`, so the two
  messages are taken to be wire-compatible. The generated protobuf code is not part of this model.
- FileStream.NewBlockSpec: the members' replies to SuggestBlockStash (`Network.suggestReplies`) and the
  majority answer (`Network.suggest`) are separate oracles. The model does not derive the majority from
  the replies, which is the tally of `GroupMajorityResponse` (`Consensus`). Nor does it require the
  replies to be non-empty when `membersReached` holds.
- FileStream.FileStream.NewBlock: the id recorded for a replica is the suggested `HostId`, taken to
  equal the id of the host record found for it.
- Consensus.GroupMajorityResponse: when the chosen hash has no value, the code returns the first value
  in Go's unspecified map order. The contract says only that some received value is returned.
- Storage.AppendToBlock: `remains` is reduced modulo 2^64. The code converts a non-negative int
  difference to uint64.

## Findings

| source | as written | input that shows it | evidently intended | confidence | as-written member | corrected member |
|---|---|---|---|---|---|---|
| server/store.go:56-74 | both error tests are inverted (`err == nil`), so the lookup returns early on success | a stored lock gives back (nil, nil), so AcquireFileWriteLock dereferences nil; a missing lock calls `Value()` on a nil item | return the lock, or KeyNotFound when it is absent | high, not executed | Store.GetWriteLockAsWrittenNeverFindsLock | Store.GetWriteLock |
| server/contracts.go:281-295 | the file update runs only in the branch where `GetFile` failed | a file with 0 blocks and a commit for index 0: nothing is written and the reply is empty | append the block to the found file and reply the new FileMeta | high, not executed | Contracts.CommitAsWrittenNeverAppends | Contracts.AppendBlockTxn |
| server/storage.go:184-190 | every copied byte is written to `Data[offset]` | block [0,0,0], offset 0, data [1,2] becomes [2,0,0] | [1,2,0]: byte k at `Data[offset + k]` | high, not executed | Storage.AppendedAsWrittenLosesBytes | Storage.AppendedEffect |
