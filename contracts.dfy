/**
 * The state-machine contracts of a metadata group (server/contracts.go). Each handler runs once per
 * committed log entry; its argument arrives encoded, and `None` stands for an argument that fails to
 * decode. Each handler's transaction is a function from the store to a new store or an error: the
 * handler commits the new store on success and keeps the old one on error (all or nothing).
 */
module Contracts {
  import opened Bytes
  import opened Wrappers
  import opened Messages
  import opened Store

  /** Key of the node-local cache of block confirmations: (group, block index, file key). */
  datatype PendingKey = PendingKey(group: u64, index: u64, file: Bytes)

  type Pending = map<PendingKey, set<u64>>

  function Clamp(x: u32, lo: u32, hi: u32): u32
    requires lo <= hi
  {
    var y := if x > hi then hi else x;
    if y < lo then lo else y
  }

  /** The volume NewVolume stores: keyed by `key`, its replication factor and block size clamped. */
  function NormalizeVolume(v: Volume, key: Bytes): (r: Volume)
    ensures r.key == key && r.name == v.name && r.rootDir == v.rootDir
    ensures MIN_REPLICATIONS <= r.replications <= MAX_REPLICATIONS
    ensures KB <= r.blockSize <= MB10
    ensures MIN_REPLICATIONS <= v.replications <= MAX_REPLICATIONS ==> r.replications == v.replications
    ensures v.replications < MIN_REPLICATIONS ==> r.replications == MIN_REPLICATIONS
    ensures v.replications > MAX_REPLICATIONS ==> r.replications == MAX_REPLICATIONS
    ensures KB <= v.blockSize <= MB10 ==> r.blockSize == v.blockSize
    ensures v.blockSize < KB ==> r.blockSize == KB
    ensures v.blockSize > MB10 ==> r.blockSize == MB10
  {
    v.(key := key,
       replications := Clamp(v.replications, MIN_REPLICATIONS, MAX_REPLICATIONS),
       blockSize := Clamp(v.blockSize, KB, MB10))
  }

  /** The NewVolume transaction: refuses when the volume or its root directory exists, else writes both. */
  function NewVolumeTxn(txn: Txn, group: u64, volume: Volume): (r: Result<Txn>)
    ensures r.Ok? <==> DBKey(group, VOLUMES, volume.key) !in txn && DBKey(group, DIRECTORY, volume.key) !in txn
    ensures r.Ok? ==> GetVolume(r.value, group, volume.key) == Ok(volume)
    ensures r.Ok? ==> GetDirectory(r.value, group, volume.key) == Ok(Directory(volume.key, "", []))
    ensures r.Ok? ==> r.value.Keys == txn.Keys + {DBKey(group, VOLUMES, volume.key), DBKey(group, DIRECTORY, volume.key)}
    ensures r.Ok? ==> forall k :: k in txn ==> r.value[k] == txn[k]
  {
    var volKey := DBKey(group, VOLUMES, volume.key);
    var rootKey := DBKey(group, DIRECTORY, volume.key);
    if volKey in txn then Err(Refused("volume existed"))
    else if rootKey in txn then Err(Refused("volume root dir existed"))
    else
      DBKeyInjective(group, VOLUMES, volume.key, group, DIRECTORY, volume.key);
      Ok(txn[volKey := VolumeVal(volume)][rootKey := DirectoryVal(Directory(volume.key, "", []))])
  }

  /** The key NewDirectory gives a new directory: SHA-1 of the parent key ++ the log entry's hash. */
  function NewDirectoryKey(crypto: Crypto, parentKey: Bytes, entryHash: Bytes): Bytes
  {
    crypto.sha1(parentKey + entryHash)
  }

  /** The token a directory's child list holds for a child of the given type. */
  function Token(tag: byte, key: Bytes): (r: Bytes)
    ensures |r| == |key| + 1 && r[0] == tag && r[1..] == key
  {
    [tag] + key
  }

  /** The NewDirectory transaction: stores `dir`, then the parent with one more DIR token. */
  function NewDirectoryTxn(txn: Txn, group: u64, parentKey: Bytes, dir: Directory): (r: Result<Txn>)
  {
    match GetDirectory(txn, group, parentKey)
    case Err(e) => Err(e)
    case Ok(parent) =>
      var parent' := parent.(files := parent.files + [Token(DIR_TAG, dir.key)]);
      Ok(SetDirectory(SetDirectory(txn, group, dir), group, parent'))
  }

  /** NewDirectory fails, writing nothing, exactly when the parent is missing; otherwise the parent gains
      exactly one token, `[DIR] ++ key` of the new directory, which is stored (empty) under its key. */
  lemma NewDirectoryTxnEffect(txn: Txn, group: u64, parentKey: Bytes, dir: Directory)
    ensures NewDirectoryTxn(txn, group, parentKey, dir).Ok? <==> GetDirectory(txn, group, parentKey).Ok?
    ensures GetDirectory(txn, group, parentKey).Ok? ==>
      var parent := GetDirectory(txn, group, parentKey).value;
      var t := NewDirectoryTxn(txn, group, parentKey, dir).value;
      && GetDirectory(t, group, parent.key) == Ok(parent.(files := parent.files + [Token(DIR_TAG, dir.key)]))
      && (dir.key != parent.key ==> GetDirectory(t, group, dir.key) == Ok(dir))
      && (forall k :: k != DBKey(group, DIRECTORY, dir.key) && k != DBKey(group, DIRECTORY, parent.key) ==>
            (k in t <==> k in txn) && (k in txn ==> t[k] == txn[k]))
  {
    if GetDirectory(txn, group, parentKey).Ok? {
      var parent := GetDirectory(txn, group, parentKey).value;
      var t1 := SetDirectory(txn, group, dir);
      var parent' := parent.(files := parent.files + [Token(DIR_TAG, dir.key)]);
      if dir.key != parent.key {
        DBKeyInjective(group, DIRECTORY, dir.key, group, DIRECTORY, parent.key);
        assert GetDirectory(SetDirectory(t1, group, parent'), group, dir.key) == GetDirectory(t1, group, dir.key);
      }
    }
  }

  /** The AcquireFileWriteLock transaction. The stored lock never records an owner, so it holds owner 0. */
  function AcquireLockTxn(txn: Txn, group: u64, key: Bytes, clientId: u64): (r: Result<Txn>)
    ensures r.Ok? <==>
      && GetFile(txn, group, key).Ok?
      && (GetWriteLock(txn, group, key) == Err(KeyNotFound)
          || (GetWriteLock(txn, group, key).Ok? && GetWriteLock(txn, group, key).value.owner == clientId))
    ensures r.Ok? ==> GetWriteLock(r.value, group, key) == Ok(FileWriteLock(group, key, 0))
    ensures r.Ok? ==> SameExcept(txn, r.value, DBKey(group, FILE_LOCK, key))
  {
    var newLock := FileWriteLock(group, key, 0);
    match GetFile(txn, group, key)
    case Err(e) => Err(e)
    case Ok(_) =>
      match GetWriteLock(txn, group, key)
      case Err(KeyNotFound) => Ok(SetWriteLock(txn, group, newLock))
      case Err(e) => Err(e)
      case Ok(lock) =>
        if lock.owner != clientId then Err(Refused("lock already acquired"))
        else Ok(SetWriteLock(txn, group, newLock))
  }

  /** Because the owner is never recorded, once a lock is taken only client 0 can take it again:
      renewal by the same nonzero client is refused. */
  lemma {:induction false} AcquireAfterAcquire(txn: Txn, group: u64, key: Bytes, c1: u64, c2: u64)
    requires AcquireLockTxn(txn, group, key, c1).Ok?
    ensures AcquireLockTxn(AcquireLockTxn(txn, group, key, c1).value, group, key, c2).Ok? <==> c2 == 0
  {
    var t := AcquireLockTxn(txn, group, key, c1).value;
    OtherKindUnchanged(txn, t, group, FILE_LOCK, key, group, FILE_META, key);
    assert GetFile(t, group, key) == GetFile(txn, group, key);
  }

  /** The ReleaseFileWriteLock transaction: refuses when no lock is stored, else deletes it. */
  function ReleaseLockTxn(txn: Txn, group: u64, key: Bytes): (r: Result<Txn>)
    ensures r.Ok? <==> GetWriteLock(txn, group, key).Ok?
    ensures r.Ok? ==> var lock := GetWriteLock(txn, group, key).value;
      DBKey(group, FILE_LOCK, lock.key) !in r.value && SameExcept(txn, r.value, DBKey(group, FILE_LOCK, lock.key))
  {
    match GetWriteLock(txn, group, key)
    case Err(KeyNotFound) => Err(Refused("cannot find the lock"))
    case Err(e) => Err(e)
    case Ok(lock) => Ok(ReleaseWriteLock(txn, group, lock))
  }

  /** A lock just acquired can be released, and releasing it leaves no lock behind; a second release fails. */
  lemma {:induction false} AcquireThenRelease(txn: Txn, group: u64, key: Bytes, c: u64)
    requires AcquireLockTxn(txn, group, key, c).Ok?
    ensures ReleaseLockTxn(AcquireLockTxn(txn, group, key, c).value, group, key).Ok?
    ensures var t := ReleaseLockTxn(AcquireLockTxn(txn, group, key, c).value, group, key).value;
      GetWriteLock(t, group, key) == Err(KeyNotFound) && ReleaseLockTxn(t, group, key).Err?
  {
    var t1 := AcquireLockTxn(txn, group, key, c).value;
    assert GetWriteLock(t1, group, key).value.key == key;
  }

  /** The FileMeta TouchFile creates: no blocks, size 0, both timestamps the client's time. */
  function NewFileMeta(c: TouchFileContract, fileKey: Bytes, blockSize: u32): FileMeta
  {
    FileMeta(fileKey, c.name, blockSize, [], 0, c.clientTime, c.clientTime)
  }

  /** The TouchFile transaction. */
  function TouchFileTxn(txn: Txn, group: u64, c: TouchFileContract, fileKey: Bytes): (r: Result<Txn>)
  {
    match GetVolume(txn, group, c.volume)
    case Err(_) => Err(Refused("cannot find volume for touch file"))
    case Ok(vol) =>
      var t1 :=
        match GetDirectory(txn, group, c.dir)
        case Ok(dir) => SetDirectory(txn, group, dir.(files := dir.files + [Token(FILE_TAG, fileKey)]))
        case Err(_) => txn;
      if GetFile(t1, group, fileKey) == Err(KeyNotFound)
      then Ok(SetFile(t1, group, NewFileMeta(c, fileKey, vol.blockSize)))
      else Ok(t1)
  }

  /** TouchFile fails exactly when the volume is missing. Otherwise an existing directory gains one FILE
      token (a missing one is skipped), an existing FileMeta is left as it is, a missing one is created
      empty with the volume's block size, and no other store key changes. */
  lemma TouchFileTxnEffect(txn: Txn, group: u64, c: TouchFileContract, fileKey: Bytes)
    ensures TouchFileTxn(txn, group, c, fileKey).Ok? <==> GetVolume(txn, group, c.volume).Ok?
    ensures GetVolume(txn, group, c.volume).Ok? ==>
      var t := TouchFileTxn(txn, group, c, fileKey).value;
      var vol := GetVolume(txn, group, c.volume).value;
      && (GetDirectory(txn, group, c.dir).Ok? ==>
            var dir := GetDirectory(txn, group, c.dir).value;
            GetDirectory(t, group, dir.key) == Ok(dir.(files := dir.files + [Token(FILE_TAG, fileKey)])))
      && (GetDirectory(txn, group, c.dir).Err? ==>
            forall k :: GetDirectory(t, group, k) == GetDirectory(txn, group, k))
      && (GetFile(txn, group, fileKey).Ok? ==> GetFile(t, group, fileKey) == GetFile(txn, group, fileKey))
      && (GetFile(txn, group, fileKey) == Err(KeyNotFound) ==>
            GetFile(t, group, fileKey) == Ok(NewFileMeta(c, fileKey, vol.blockSize)))
    ensures GetVolume(txn, group, c.volume).Ok? ==>
      var t := TouchFileTxn(txn, group, c, fileKey).value;
      var dirKey := DBKey(group, DIRECTORY, if GetDirectory(txn, group, c.dir).Ok? then GetDirectory(txn, group, c.dir).value.key else c.dir);
      forall k' :: k' != DBKey(group, FILE_META, fileKey) && k' != dirKey ==>
        (k' in t <==> k' in txn) && (k' in txn ==> t[k'] == txn[k'])
  {
    if GetVolume(txn, group, c.volume).Ok? {
      var vol := GetVolume(txn, group, c.volume).value;
      var t1 :=
        match GetDirectory(txn, group, c.dir)
        case Ok(dir) => SetDirectory(txn, group, dir.(files := dir.files + [Token(FILE_TAG, fileKey)]))
        case Err(_) => txn;
      var t := TouchFileTxn(txn, group, c, fileKey).value;
      if GetDirectory(txn, group, c.dir).Ok? {
        var dir := GetDirectory(txn, group, c.dir).value;
        OtherKindUnchanged(txn, t1, group, DIRECTORY, dir.key, group, FILE_META, fileKey);
        if GetFile(t1, group, fileKey) == Err(KeyNotFound) {
          OtherKindUnchanged(t1, t, group, FILE_META, fileKey, group, DIRECTORY, dir.key);
        }
      } else {
        forall k ensures GetDirectory(t, group, k) == GetDirectory(txn, group, k) {
          if GetFile(t1, group, fileKey) == Err(KeyNotFound) {
            OtherKindUnchanged(t1, t, group, FILE_META, fileKey, group, DIRECTORY, k);
          }
        }
      }
    }
  }

  /** Every id of `ids` is in `confirmed`. */
  predicate AllConfirmed(ids: seq<u64>, confirmed: set<u64>)
  {
    forall j :: 0 <= j < |ids| ==> ids[j] in confirmed
  }

  /** The hosts that have confirmed the block named by `k` (none when the cache has no entry for it). */
  function Confirmed(pending: Pending, k: PendingKey): set<u64>
  {
    if k in pending then pending[k] else {}
  }

  /** The pending cache after `nodeId` confirms the block named by `k`. */
  function Confirm(pending: Pending, k: PendingKey, nodeId: u64): (r: Pending)
    ensures r.Keys == pending.Keys + {k}
    ensures r[k] == Confirmed(pending, k) + {nodeId}
    ensures forall k' :: k' in pending && k' != k ==> r[k'] == pending[k']
  {
    pending[k := Confirmed(pending, k) + {nodeId}]
  }

  /** The pending cache after each of `ids` confirmed the block named by `k`, in order. */
  function ConfirmAll(pending: Pending, k: PendingKey, ids: seq<u64>): Pending
    decreases |ids|
  {
    if ids == [] then pending else ConfirmAll(Confirm(pending, k, ids[0]), k, ids[1..])
  }

  /** Confirming each of `ids` adds exactly those ids to the entry of `k` (creating it if there are any),
      and leaves every other entry as it was. */
  lemma {:induction false} ConfirmAllConfirms(pending: Pending, k: PendingKey, ids: seq<u64>)
    ensures var r := ConfirmAll(pending, k, ids);
      && r.Keys == pending.Keys + (if ids == [] then {} else {k})
      && Confirmed(r, k) == Confirmed(pending, k) + (set j | 0 <= j < |ids| :: ids[j])
      && forall k' :: k' in pending && k' != k ==> r[k'] == pending[k']
    decreases |ids|
  {
    if ids != [] {
      var p1 := Confirm(pending, k, ids[0]);
      ConfirmAllConfirms(p1, k, ids[1..]);
      var head, tail := set j | 0 <= j < |ids| :: ids[j], set j | 0 <= j < |ids[1..]| :: ids[1..][j];
      assert head == {ids[0]} + tail by {
        forall x | x in head ensures x in {ids[0]} + tail {
          var j :| 0 <= j < |ids| && ids[j] == x;
          if j > 0 { assert ids[1..][j - 1] == x; }
        }
        forall x | x in tail ensures x in head {
          var j :| 0 <= j < |ids[1..]| && ids[1..][j] == x;
          assert ids[j + 1] == x;
        }
      }
    }
  }

  /** After each of `ids` confirmed the block named by `k`, the commit's check that all of `named` confirmed
      passes exactly when each named host had confirmed before or is among `ids`; from a cache with no
      entry for `k`, exactly when each named host is among `ids`. */
  lemma ConfirmAllThenAllConfirmed(pending: Pending, k: PendingKey, ids: seq<u64>, named: seq<u64>)
    ensures AllConfirmed(named, Confirmed(ConfirmAll(pending, k, ids), k)) <==>
      forall j :: 0 <= j < |named| ==> named[j] in Confirmed(pending, k) || named[j] in ids
    ensures k !in pending ==>
      (AllConfirmed(named, Confirmed(ConfirmAll(pending, k, ids), k)) <==> forall j :: 0 <= j < |named| ==> named[j] in ids)
  {
    ConfirmAllConfirms(pending, k, ids);
    var added := set j | 0 <= j < |ids| :: ids[j];
    forall x ensures x in added <==> x in ids {
      if x in ids {
        var j :| 0 <= j < |ids| && ids[j] == x;
      }
    }
  }

  /** Size as the code computes it: number of blocks times block size, in 64-bit arithmetic. */
  function FileSize(blocks: nat, blockSize: u32): u64
  {
    (blocks * blockSize) % U64_LIMIT
  }

  /** The file update of CommitBlockCreation, as evidently intended: the found file gets the new block. */
  function AppendBlockTxn(txn: Txn, group: u64, fileKey: Bytes, index: u64, hosts: seq<u64>, clientTime: u64)
    : (r: Result<(Txn, FileMeta)>)
    ensures r.Ok? <==> GetFile(txn, group, fileKey).Ok? && |GetFile(txn, group, fileKey).value.blocks| == index
    ensures r.Ok? ==>
      var file := GetFile(txn, group, fileKey).value;
      var (t, meta) := r.value;
      && |meta.blocks| == index + 1
      && meta.blocks[..index] == file.blocks
      && meta.blocks[index] == Block(hosts)
      && meta.lastModified == clientTime
      && meta.size == FileSize(index + 1, file.blockSize)
      && meta.key == file.key && meta.name == file.name && meta.blockSize == file.blockSize
      && meta.createdAt == file.createdAt
      && GetFile(t, group, file.key) == Ok(meta)
      && SameExcept(txn, t, DBKey(group, FILE_META, file.key))
  {
    match GetFile(txn, group, fileKey)
    case Err(e) => Err(e)
    case Ok(file) =>
      if |file.blocks| != index then Err(Refused("new block index not match next index"))
      else
        var blocks := file.blocks + [Block(hosts)];
        var meta := file.(blocks := blocks, lastModified := clientTime, size := FileSize(|blocks|, file.blockSize));
        assert meta.blocks[..index] == file.blocks;
        Ok((SetFile(txn, group, meta), meta))
  }

  /** What the Go closure of CommitBlockCreation does: it uses the file only where the lookup failed. */
  datatype CommitAsWritten = Committed(txn: Txn, reply: Bytes) | CommitPanics

  function CommitFileUpdateAsWritten(txn: Txn, group: u64, fileKey: Bytes): CommitAsWritten
  {
    match GetFile(txn, group, fileKey)
    case Err(_) => CommitPanics          // reads the blocks of a nil file
    case Ok(_) => Committed(txn, [])     // returns the nil error; marshalling the nil result gives no bytes
  }

  /** For a file that is ready for block `index`, the intended update appends the block, whereas the
      code as written commits nothing and replies with no bytes, which the client reads as failure. */
  lemma {:induction false} CommitAsWrittenNeverAppends(txn: Txn, group: u64, fileKey: Bytes, index: u64, hosts: seq<u64>, t: u64)
    requires GetFile(txn, group, fileKey).Ok? && |GetFile(txn, group, fileKey).value.blocks| == index
    ensures CommitFileUpdateAsWritten(txn, group, fileKey) == Committed(txn, [])
    ensures AppendBlockTxn(txn, group, fileKey, index, hosts, t).Ok?
    ensures |AppendBlockTxn(txn, group, fileKey, index, hosts, t).value.1.blocks|
            == |GetFile(txn, group, fileKey).value.blocks| + 1
  {
  }

  /** A metadata node: its replicated store and its local cache of block confirmations. */
  class Node {
    var db: Txn
    var pending: Pending
    /** This node's id in the consensus engine. */
    const id: u64
    const crypto: Crypto
    /** The encoder of the FileMeta a successful commit replies with. */
    const marshalMeta: FileMeta -> Bytes

    constructor (id: u64, crypto: Crypto, marshalMeta: FileMeta -> Bytes, db: Txn)
      ensures this.db == db && pending == map[]
      ensures this.id == id && this.crypto == crypto && this.marshalMeta == marshalMeta
    {
      this.id := id;
      this.db := db;
      this.pending := map[];
      this.crypto := crypto;
      this.marshalMeta := marshalMeta;
    }

    /** `volumeEncodes` and `rootDirEncodes` are the outcomes of encoding the two records. */
    method NewVolume(arg: Option<Volume>, entry: LogEntry, volumeEncodes: bool, rootDirEncodes: bool)
      returns (reply: Bytes)
      modifies this
      ensures pending == old(pending)
      ensures arg.None? ==> reply == [0] && db == old(db)
      ensures arg.Some? ==>
        var volume := NormalizeVolume(arg.value, crypto.idFromName(arg.value.name));
        if !volumeEncodes then reply == [0] && db == old(db)
        else if !rootDirEncodes then reply == [1] && db == old(db)  // the code replies success here
        else match NewVolumeTxn(old(db), entry.group, volume)
          case Ok(t) => reply == [1] && db == t
          case Err(_) => reply == [0] && db == old(db)
    {
      if arg.None? {
        return [0];
      }
      var volume := NormalizeVolume(arg.value, crypto.idFromName(arg.value.name));
      if !volumeEncodes {
        return [0];
      }
      if !rootDirEncodes {
        return [1];
      }
      var r := NewVolumeTxn(db, entry.group, volume);
      if r.Ok? {
        db := r.value;
        reply := [1];
      } else {
        reply := [0];
      }
    }

    /** A decode failure replies the DIR type byte (1), as the code does. A contract without a directory
        message is a crash (the handler sets the key of a nil directory), and nothing is written. */
    method NewDirectory(arg: Option<NewDirectoryContract>, entry: LogEntry) returns (reply: Result<Bytes>)
      modifies this
      ensures pending == old(pending)
      ensures arg.None? ==> reply == Ok([DIR_TAG]) && db == old(db)
      ensures arg.Some? && arg.value.dir.None? ==> reply.Err? && reply.error.Crashed? && db == old(db)
      ensures reply.Err? ==> arg.Some? && arg.value.dir.None?
      ensures arg.Some? && arg.value.dir.Some? ==>
        var c := arg.value;
        var dir := c.dir.value.(key := NewDirectoryKey(crypto, c.parentDir, entry.hash), files := []);
        match NewDirectoryTxn(old(db), entry.group, c.parentDir, dir)
        case Ok(t) => reply == Ok([1]) && db == t
        case Err(_) => reply == Ok([0]) && db == old(db)
    {
      if arg.None? {
        return Ok([DIR_TAG]);
      }
      var c := arg.value;
      if c.dir.None? {
        return Err(Crashed("directory of the contract is nil"));
      }
      var dir := c.dir.value.(key := NewDirectoryKey(crypto, c.parentDir, entry.hash), files := []);
      var r := NewDirectoryTxn(db, entry.group, c.parentDir, dir);
      if r.Ok? {
        db := r.value;
        reply := Ok([1]);
      } else {
        reply := Ok([0]);
      }
    }

    method AcquireFileWriteLock(arg: Option<LockContract>, entry: LogEntry) returns (reply: Bytes)
      modifies this
      ensures pending == old(pending)
      ensures arg.None? ==> reply == [0] && db == old(db)
      ensures arg.Some? ==>
        match AcquireLockTxn(old(db), entry.group, arg.value.key, entry.clientId)
        case Ok(t) => reply == [1] && db == t
        case Err(_) => reply == [0] && db == old(db)
    {
      if arg.None? {
        return [0];
      }
      var r := AcquireLockTxn(db, entry.group, arg.value.key, entry.clientId);
      if r.Ok? {
        db := r.value;
        reply := [1];
      } else {
        reply := [0];
      }
    }

    method ReleaseFileWriteLock(arg: Option<LockContract>, entry: LogEntry) returns (reply: Bytes)
      modifies this
      ensures pending == old(pending)
      ensures arg.None? ==> reply == [0] && db == old(db)
      ensures arg.Some? ==>
        match ReleaseLockTxn(old(db), entry.group, arg.value.key)
        case Ok(t) => reply == [1] && db == t
        case Err(_) => reply == [0] && db == old(db)
    {
      if arg.None? {
        return [0];
      }
      var r := ReleaseLockTxn(db, entry.group, arg.value.key);
      if r.Ok? {
        db := r.value;
        reply := [1];
      } else {
        reply := [0];
      }
    }

    /** The new file's key depends only on the volume, the directory and the log index. */
    method TouchFile(arg: Option<TouchFileContract>, entry: LogEntry) returns (reply: Bytes)
      modifies this
      ensures pending == old(pending)
      ensures arg.None? ==> reply == [0] && db == old(db)
      ensures arg.Some? ==>
        var c := arg.value;
        match TouchFileTxn(old(db), entry.group, c, FileKey(crypto, c.volume, c.dir, entry.index))
        case Ok(t) => reply == [1] && db == t
        case Err(_) => reply == [0] && db == old(db)
    {
      if arg.None? {
        return [0];
      }
      var c := arg.value;
      var fileKey := FileKey(crypto, c.volume, c.dir, entry.index);
      var r := TouchFileTxn(db, entry.group, c, fileKey);
      if r.Ok? {
        db := r.value;
        reply := [1];
      } else {
        reply := [0];
      }
    }

    /** Records in the local cache that `nodeId` holds the block; the store is not touched. */
    method ConfirmBlock(arg: Option<ConfirmBlockContract>, entry: LogEntry) returns (reply: Bytes)
      modifies this
      ensures db == old(db)
      ensures arg.None? ==> reply == [0] && pending == old(pending)
      ensures arg.Some? ==>
        reply == [1] &&
        pending == Confirm(old(pending), PendingKey(entry.group, arg.value.index, arg.value.file), arg.value.nodeId)
    {
      if arg.None? {
        return [0];
      }
      var c := arg.value;
      pending := Confirm(pending, PendingKey(entry.group, c.index, c.file), c.nodeId);
      reply := [1];
    }

    /** The cache entry for `k` expires (after five minutes in the code). */
    method Expire(k: PendingKey)
      modifies this
      ensures db == old(db) && pending == old(pending) - {k}
    {
      pending := pending - {k};
    }

    /** Commits a block every named host confirmed. The cache entry is consumed before the file update,
        so an update that then fails still uses it up. */
    method CommitBlockCreation(arg: Option<CommitBlockContract>, entry: LogEntry) returns (reply: Bytes)
      modifies this
      ensures arg.None? ==> reply == [0] && db == old(db) && pending == old(pending)
      ensures arg.Some? ==>
        var c := arg.value;
        var k := PendingKey(entry.group, c.index, c.file);
        if k !in old(pending) || !AllConfirmed(c.nodeIds, old(pending)[k]) then
          reply == [0] && db == old(db) && pending == old(pending)
        else
          && pending == old(pending) - {k}
          && match AppendBlockTxn(old(db), entry.group, c.file, c.index, c.nodeIds, c.clientTime)
             case Ok((t, meta)) => db == t && reply == marshalMeta(meta)
             case Err(_) => db == old(db) && reply == [0]
    {
      if arg.None? {
        return [0];
      }
      var c := arg.value;
      var k := PendingKey(entry.group, c.index, c.file);
      if k !in pending {
        return [0];
      }
      var confirmed := pending[k];
      var hosts: seq<u64> := [];
      var i := 0;
      while i < |c.nodeIds|
        invariant 0 <= i <= |c.nodeIds|
        invariant hosts == c.nodeIds[..i]
        invariant AllConfirmed(hosts, confirmed)
      {
        if c.nodeIds[i] !in confirmed {
          return [0];
        }
        hosts := hosts + [c.nodeIds[i]];
        i := i + 1;
      }
      assert hosts == c.nodeIds;
      pending := pending - {k};
      var r := AppendBlockTxn(db, entry.group, c.file, c.index, hosts, c.clientTime);
      if r.Ok? {
        db := r.value.0;
        reply := marshalMeta(r.value.1);
      } else {
        reply := [0];
      }
    }
  }
}
