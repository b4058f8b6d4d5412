/**
 * Metadata key layout and the typed accessors over one transaction of the node's
 * key-value store (server/store.go). A transaction is a map from key bytes to the
 * stored entity; decoding an item as the wrong kind of entity fails.
 */
module Store {
  import opened Bytes
  import opened Wrappers
  import opened Messages

  /** The hash functions the core calls: SHA-1, and `IdFromName` (SHA-1 of a name's bytes). */
  datatype Crypto = Crypto(sha1: Bytes -> Bytes, idFromName: string -> Bytes)

  datatype Value =
    | VolumeVal(volume: Volume)
    | DirectoryVal(dir: Directory)
    | LockVal(lock: FileWriteLock)
    | FileVal(file: FileMeta)
    | BlockVal(block: BlockData)
    | StashVal(stash: HostStash)

  type Txn = map<Bytes, Value>

  /** The consensus library's key prefix for (group, kind): the group's and the kind's fixed-width encodings. */
  function KeyPrefix(group: u64, t: u32): (r: Bytes)
    ensures |r| == 12
  {
    U64Bytes(group) + U32Bytes(t)
  }

  /** The store key of the entity `key` of kind `t` in `group`. */
  function DBKey(group: u64, t: u32, key: Bytes): Bytes
  {
    KeyPrefix(group, t) + key
  }

  /** Distinct (group, kind, key) triples never share a store key. */
  lemma DBKeyInjective(g1: u64, t1: u32, k1: Bytes, g2: u64, t2: u32, k2: Bytes)
    ensures DBKey(g1, t1, k1) == DBKey(g2, t2, k2) <==> g1 == g2 && t1 == t2 && k1 == k2
  {
    ConcatEqual(KeyPrefix(g1, t1), k1, KeyPrefix(g2, t2), k2);
    ConcatEqual(U64Bytes(g1), U32Bytes(t1), U64Bytes(g2), U32Bytes(t2));
    U64BytesInjective(g1, g2);
    U32BytesInjective(t1, t2);
  }

  /** The key of a file: SHA-1 of volume ++ path ++ the log index. */
  function FileKey(crypto: Crypto, volume: Bytes, path: Bytes, index: u64): Bytes
  {
    crypto.sha1(volume + path + U64Bytes(index))
  }

  /** Touches of one (volume, directory) at different log indices hash different inputs, so with a
      collision-free hash they get different file keys. */
  lemma FileKeyDistinctIndices(crypto: Crypto, volume: Bytes, path: Bytes, i: u64, j: u64)
    requires forall a: Bytes, b: Bytes :: crypto.sha1(a) == crypto.sha1(b) ==> a == b
    ensures FileKey(crypto, volume, path, i) == FileKey(crypto, volume, path, j) <==> i == j
  {
    ConcatEqual(volume + path, U64Bytes(i), volume + path, U64Bytes(j));
    U64BytesInjective(i, j);
  }

  /** The key of a block's content: always group 3 and kind BLOCKS, whatever group the block belongs to. */
  function BlockDBKey(group: u64, file: Bytes, index: u64): Bytes
  {
    DBKey(3, BLOCKS, U64Bytes(group) + U64Bytes(index) + file)
  }

  lemma BlockDBKeyInjective(g1: u64, f1: Bytes, i1: u64, g2: u64, f2: Bytes, i2: u64)
    ensures BlockDBKey(g1, f1, i1) == BlockDBKey(g2, f2, i2) <==> g1 == g2 && f1 == f2 && i1 == i2
  {
    DBKeyInjective(3, BLOCKS, U64Bytes(g1) + U64Bytes(i1) + f1, 3, BLOCKS, U64Bytes(g2) + U64Bytes(i2) + f2);
    ConcatEqual(U64Bytes(g1), U64Bytes(i1) + f1, U64Bytes(g2), U64Bytes(i2) + f2);
    ConcatEqual(U64Bytes(i1), f1, U64Bytes(i2), f2);
    assert U64Bytes(g1) + U64Bytes(i1) + f1 == U64Bytes(g1) + (U64Bytes(i1) + f1);
    assert U64Bytes(g2) + U64Bytes(i2) + f2 == U64Bytes(g2) + (U64Bytes(i2) + f2);
    U64BytesInjective(g1, g2);
    U64BytesInjective(i1, i2);
  }

  /** A block key lies under group 3 and kind BLOCKS: no metadata key of another group or kind equals it. */
  lemma BlockDBKeyIsolated(group: u64, file: Bytes, index: u64, g: u64, t: u32, k: Bytes)
    requires g != 3 || t != BLOCKS
    ensures BlockDBKey(group, file, index) != DBKey(g, t, k)
  {
    DBKeyInjective(3, BLOCKS, U64Bytes(group) + U64Bytes(index) + file, g, t, k);
  }

  /** `t2` agrees with `t1` on every key except `k`. */
  ghost predicate SameExcept(t1: Txn, t2: Txn, k: Bytes)
  {
    forall k' :: k' != k ==> (k' in t1 <==> k' in t2) && (k' in t1 ==> t1[k'] == t2[k'])
  }

  function GetDirectory(txn: Txn, group: u64, key: Bytes): (r: Result<Directory>)
    ensures DBKey(group, DIRECTORY, key) !in txn ==> r == Err(KeyNotFound)
    ensures r.Ok? ==> DBKey(group, DIRECTORY, key) in txn && txn[DBKey(group, DIRECTORY, key)] == DirectoryVal(r.value)
  {
    var k := DBKey(group, DIRECTORY, key);
    if k !in txn then Err(KeyNotFound)
    else if txn[k].DirectoryVal? then Ok(txn[k].dir) else Err(Undecodable)
  }

  /** Stores a directory under its own key; a later get of that key yields it. */
  function SetDirectory(txn: Txn, group: u64, dir: Directory): (r: Txn)
    ensures GetDirectory(r, group, dir.key) == Ok(dir)
    ensures SameExcept(txn, r, DBKey(group, DIRECTORY, dir.key))
  {
    txn[DBKey(group, DIRECTORY, dir.key) := DirectoryVal(dir)]
  }

  /** Looks up a file's write lock, as the code evidently intends (see GetWriteLockAsWritten). */
  function GetWriteLock(txn: Txn, group: u64, key: Bytes): (r: Result<FileWriteLock>)
    ensures DBKey(group, FILE_LOCK, key) !in txn ==> r == Err(KeyNotFound)
    ensures r.Ok? ==> DBKey(group, FILE_LOCK, key) in txn && txn[DBKey(group, FILE_LOCK, key)] == LockVal(r.value)
  {
    var k := DBKey(group, FILE_LOCK, key);
    if k !in txn then Err(KeyNotFound)
    else if txn[k].LockVal? then Ok(txn[k].lock) else Err(Undecodable)
  }

  /** What the Go lookup does with its two inverted error tests. */
  datatype LockLookupAsWritten =
    | NilLockNilError   // returns (nil, nil): the caller then dereferences a nil lock
    | Panics            // calls Value() on the nil item of a missing key

  function GetWriteLockAsWritten(txn: Txn, group: u64, key: Bytes): (r: LockLookupAsWritten)
  {
    if DBKey(group, FILE_LOCK, key) in txn then NilLockNilError else Panics
  }

  /** As written, the lock lookup never yields a lock: a stored lock comes back as nil with no error,
      and a missing one makes it panic, where the intended lookup returns the lock or KeyNotFound. */
  lemma GetWriteLockAsWrittenNeverFindsLock(txn: Txn, group: u64, lock: FileWriteLock)
    ensures var t := SetWriteLock(txn, group, lock);
            GetWriteLock(t, group, lock.key) == Ok(lock) && GetWriteLockAsWritten(t, group, lock.key) == NilLockNilError
    ensures var t := ReleaseWriteLock(txn, group, lock);
            GetWriteLock(t, group, lock.key) == Err(KeyNotFound) && GetWriteLockAsWritten(t, group, lock.key) == Panics
  {
  }

  function SetWriteLock(txn: Txn, group: u64, lock: FileWriteLock): (r: Txn)
    ensures GetWriteLock(r, group, lock.key) == Ok(lock)
    ensures SameExcept(txn, r, DBKey(group, FILE_LOCK, lock.key))
  {
    txn[DBKey(group, FILE_LOCK, lock.key) := LockVal(lock)]
  }

  /** Deletes exactly the lock key named by `lock.key` in `group`. */
  function ReleaseWriteLock(txn: Txn, group: u64, lock: FileWriteLock): (r: Txn)
    ensures DBKey(group, FILE_LOCK, lock.key) !in r
    ensures SameExcept(txn, r, DBKey(group, FILE_LOCK, lock.key))
  {
    txn - {DBKey(group, FILE_LOCK, lock.key)}
  }

  function GetFile(txn: Txn, group: u64, key: Bytes): (r: Result<FileMeta>)
    ensures DBKey(group, FILE_META, key) !in txn ==> r == Err(KeyNotFound)
    ensures r.Ok? ==> DBKey(group, FILE_META, key) in txn && txn[DBKey(group, FILE_META, key)] == FileVal(r.value)
  {
    var k := DBKey(group, FILE_META, key);
    if k !in txn then Err(KeyNotFound)
    else if txn[k].FileVal? then Ok(txn[k].file) else Err(Undecodable)
  }

  function SetFile(txn: Txn, group: u64, file: FileMeta): (r: Txn)
    ensures GetFile(r, group, file.key) == Ok(file)
    ensures SameExcept(txn, r, DBKey(group, FILE_META, file.key))
  {
    txn[DBKey(group, FILE_META, file.key) := FileVal(file)]
  }

  function GetVolume(txn: Txn, group: u64, key: Bytes): (r: Result<Volume>)
    ensures DBKey(group, VOLUMES, key) !in txn ==> r == Err(KeyNotFound)
    ensures r.Ok? ==> DBKey(group, VOLUMES, key) in txn && txn[DBKey(group, VOLUMES, key)] == VolumeVal(r.value)
  {
    var k := DBKey(group, VOLUMES, key);
    if k !in txn then Err(KeyNotFound)
    else if txn[k].VolumeVal? then Ok(txn[k].volume) else Err(Undecodable)
  }

  function GetBlockData(txn: Txn, group: u64, file: Bytes, index: u64): (r: Result<BlockData>)
    ensures BlockDBKey(group, file, index) !in txn ==> r == Err(KeyNotFound)
    ensures r.Ok? ==> BlockDBKey(group, file, index) in txn && txn[BlockDBKey(group, file, index)] == BlockVal(r.value)
  {
    var k := BlockDBKey(group, file, index);
    if k !in txn then Err(KeyNotFound)
    else if txn[k].BlockVal? then Ok(txn[k].block) else Err(Undecodable)
  }

  /** Stores a block under the key built from its own group, file and index. */
  function SetBlock(txn: Txn, block: BlockData): (r: Txn)
    ensures GetBlockData(r, block.group, block.file, block.index) == Ok(block)
    ensures SameExcept(txn, r, BlockDBKey(block.group, block.file, block.index))
  {
    txn[BlockDBKey(block.group, block.file, block.index) := BlockVal(block)]
  }

  function GetHostStash(txn: Txn, group: u64, nodeId: u64): (r: Result<HostStash>)
    ensures DBKey(group, STASH, U64Bytes(nodeId)) !in txn ==> r == Err(KeyNotFound)
    ensures r.Ok? ==> DBKey(group, STASH, U64Bytes(nodeId)) in txn && txn[DBKey(group, STASH, U64Bytes(nodeId))] == StashVal(r.value)
  {
    var k := DBKey(group, STASH, U64Bytes(nodeId));
    if k !in txn then Err(KeyNotFound)
    else if txn[k].StashVal? then Ok(txn[k].stash) else Err(Undecodable)
  }

  function SetHostStash(txn: Txn, group: u64, host: HostStash): (r: Txn)
    ensures GetHostStash(r, group, host.hostId) == Ok(host)
    ensures SameExcept(txn, r, DBKey(group, STASH, U64Bytes(host.hostId)))
  {
    txn[DBKey(group, STASH, U64Bytes(host.hostId)) := StashVal(host)]
  }

  /** Writing an entity of one kind leaves every lookup of another kind unchanged. */
  lemma OtherKindUnchanged(t1: Txn, t2: Txn, group: u64, t: u32, key: Bytes, g: u64, t': u32, k: Bytes)
    requires SameExcept(t1, t2, DBKey(group, t, key))
    requires t' != t
    ensures DBKey(g, t', k) in t1 <==> DBKey(g, t', k) in t2
    ensures DBKey(g, t', k) in t1 ==> t1[DBKey(g, t', k)] == t2[DBKey(g, t', k)]
  {
    DBKeyInjective(group, t, key, g, t', k);
  }
}
