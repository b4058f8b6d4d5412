/**
 * The protobuf messages the core exchanges and stores, as values.
 * Marshalling is not modelled byte for byte: a stored or sent message is the value itself.
 */
module Messages {
  import opened Bytes
  import opened Wrappers

  /** Entity kind tags that, with the group, prefix every metadata key (server/contracts.go:22-28). */
  const VOLUMES: u32 := 1
  const DIRECTORY: u32 := 2
  const FILE_LOCK: u32 := 3
  const FILE_META: u32 := 4
  const BLOCKS: u32 := 5
  /** Kind tag of host stash records; it is declared outside the modelled files, and the model fixes it to 6. */
  const STASH: u32 := 6

  /** Policy bounds on a volume's block size and replication factor (server/contracts.go:19-20, 39-50). */
  const KB: u32 := 1024
  const MB10: u32 := 10 * 1024 * 1024
  const MIN_REPLICATIONS: u32 := 5
  const MAX_REPLICATIONS: u32 := 32

  /** First byte of a directory token: the `DirectoryItem` type enum (FILE = 0, DIR = 1). */
  const FILE_TAG: byte := 0
  const DIR_TAG: byte := 1

  datatype Volume = Volume(name: string, key: Bytes, replications: u32, blockSize: u32, rootDir: Bytes)

  /** A directory; `files` holds tokens `[type] ++ childKey` in insertion order. */
  datatype Directory = Directory(key: Bytes, name: string, files: seq<Bytes>)

  /** A committed block of a file: the ids of the hosts holding a replica. Its index is its position. */
  datatype Block = Block(hosts: seq<u64>)

  datatype FileMeta = FileMeta(
    key: Bytes, name: string, blockSize: u32, blocks: seq<Block>,
    size: u64, lastModified: u64, createdAt: u64)

  datatype FileWriteLock = FileWriteLock(group: u64, key: Bytes, owner: u64)

  /** Block content kept on a storage node; `tail` is the high-water mark of written bytes. */
  datatype BlockData = BlockData(group: u64, file: Bytes, index: u64, data: Bytes, tail: u32)

  datatype HostStash = HostStash(hostId: u64, capacity: u64, used: u64, owner: u64)

  datatype WriteResult = WriteResult(succeed: bool, remains: u64, blockHash: Bytes)

  /** One entry of a directory listing. `Other` is the nil item a token of unknown type yields. */
  datatype DirectoryItem = DirItem(dir: Directory) | FileItem(file: FileMeta) | Other

  /** `volume` is never filled in by the server. */
  datatype ListDirectoryResponse =
    ListDirectoryResponse(key: Bytes, name: string, items: seq<DirectoryItem>, volume: Option<Volume>)

  /** What a contract handler sees of the committed log entry. */
  datatype LogEntry = LogEntry(group: u64, clientId: u64, index: u64, hash: Bytes)

  /** `dir` is None when the contract carries no directory message. */
  datatype NewDirectoryContract = NewDirectoryContract(parentDir: Bytes, dir: Option<Directory>)
  datatype LockContract = LockContract(key: Bytes)
  datatype TouchFileContract = TouchFileContract(clientTime: u64, name: string, dir: Bytes, volume: Bytes)
  datatype ConfirmBlockContract = ConfirmBlockContract(nodeId: u64, index: u64, file: Bytes)
  datatype CommitBlockContract = CommitBlockContract(index: u64, clientTime: u64, nodeIds: seq<u64>, file: Bytes)

  datatype CreateBlockRequest = CreateBlockRequest(group: u64, index: u64, file: Bytes)
  datatype AppendToBlockRequest = AppendToBlockRequest(group: u64, file: Bytes, index: u64, offset: u32, data: Bytes)
}
