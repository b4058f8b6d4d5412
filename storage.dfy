/**
 * The storage-node RPC service (server/storage.go): lookups in the node's own store, the directory
 * listing, and the block operations of a stash host.
 */
module Storage {
  import opened Bytes
  import opened Wrappers
  import opened Messages
  import opened Store
  import opened Consensus
  import opened Contracts

  /** GetBlock: the block stored for (group, file, index), or an error. */
  function GetBlock(txn: Txn, group: u64, file: Bytes, index: u64): (r: Result<BlockData>)
    ensures r.Ok? <==> BlockDBKey(group, file, index) in txn && txn[BlockDBKey(group, file, index)].BlockVal?
    ensures r.Ok? ==> txn[BlockDBKey(group, file, index)] == BlockVal(r.value)
  {
    match GetBlockData(txn, group, file, index)
    case Ok(b) => Ok(b)
    case Err(_) => Err(Refused("cannot get the block"))
  }

  /** GetFileMeta: the file stored under `file` in `group`, or an error. */
  function GetFileMeta(txn: Txn, group: u64, file: Bytes): (r: Result<FileMeta>)
    ensures r.Ok? <==> DBKey(group, FILE_META, file) in txn && txn[DBKey(group, FILE_META, file)].FileVal?
    ensures r.Ok? ==> txn[DBKey(group, FILE_META, file)] == FileVal(r.value)
  {
    match GetFile(txn, group, file)
    case Ok(f) => Ok(f)
    case Err(_) => Err(Refused("cannot get the file"))
  }

  /** GetVolume: the volume stored under the id of `name`, or an error. */
  function GetVolumeByName(txn: Txn, crypto: Crypto, group: u64, name: string): (r: Result<Volume>)
    ensures var k := DBKey(group, VOLUMES, crypto.idFromName(name));
      (r.Ok? <==> k in txn && txn[k].VolumeVal?) && (r.Ok? ==> txn[k] == VolumeVal(r.value))
  {
    match Store.GetVolume(txn, group, crypto.idFromName(name))
    case Ok(v) => Ok(v)
    case Err(_) => Err(Refused("cannot get the volume"))
  }

  /** GetDirectory: the directory stored under `key` in `group`, or an error. */
  function GetDirectoryRpc(txn: Txn, group: u64, key: Bytes): (r: Result<Directory>)
    ensures r.Ok? <==> DBKey(group, DIRECTORY, key) in txn && txn[DBKey(group, DIRECTORY, key)].DirectoryVal?
    ensures r.Ok? ==> txn[DBKey(group, DIRECTORY, key)] == DirectoryVal(r.value)
  {
    match Store.GetDirectory(txn, group, key)
    case Ok(d) => Ok(d)
    case Err(_) => Err(Refused("cannot get the dir"))
  }

  /** The parts of `s` between occurrences of `sep` (Go's strings.Split): always at least one. */
  function Split(s: string, sep: char): (r: seq<string>)
    ensures |r| >= 1
    decreases |s|
  {
    if s == [] then [[]]
    else
      var rest := Split(s[1..], sep);
      if s[0] == sep then [[]] + rest else [[s[0]] + rest[0]] + rest[1..]
  }

  /** A path ending in the separator splits into at least two parts, the last of them empty. */
  lemma {:induction false} SplitTrailingSep(s: string, sep: char)
    requires |s| > 0 && s[|s| - 1] == sep
    ensures |Split(s, sep)| >= 2 && Split(s, sep)[|Split(s, sep)| - 1] == []
    decreases |s|
  {
    if |s| > 1 {
      SplitTrailingSep(s[1..], sep);
    }
  }

  function Join(parts: seq<string>, sep: char): string
    requires |parts| >= 1
    decreases |parts|
  {
    if |parts| == 1 then parts[0] else parts[0] + [sep] + Join(parts[1..], sep)
  }

  /** Splitting loses nothing: the parts joined by the separator give back the path, and no part holds it. */
  lemma {:induction false} SplitJoin(s: string, sep: char)
    ensures Join(Split(s, sep), sep) == s
    ensures forall i :: 0 <= i < |Split(s, sep)| ==> sep !in Split(s, sep)[i]
    decreases |s|
  {
    if s != [] {
      var rest := Split(s[1..], sep);
      SplitJoin(s[1..], sep);
      if s[0] == sep {
        assert Split(s, sep)[1..] == rest;
      } else {
        var r := Split(s, sep);
        if |rest| == 1 {
          assert r == [[s[0]] + rest[0]];
        } else {
          assert r[1..] == rest[1..];
          assert Join(rest, sep) == rest[0] + [sep] + Join(rest[1..], sep);
        }
      }
    }
  }

  /** Outcome of looking for a sub-directory by name among a directory's tokens. */
  datatype Search = Found(key: Bytes) | Missing | EmptyToken

  /** Whether `token` names a DIR child whose record exists and is called `name`. */
  ghost predicate NamesDir(txn: Txn, group: u64, token: Bytes, name: string)
  {
    |token| > 0 && token[0] == DIR_TAG && Store.GetDirectory(txn, group, token[1..]).Ok?
    && Store.GetDirectory(txn, group, token[1..]).value.name == name
  }

  /** The first DIR child named `name`; DIR tokens whose record is missing are skipped. */
  function FindChild(txn: Txn, group: u64, tokens: seq<Bytes>, name: string): Search
    decreases |tokens|
  {
    if tokens == [] then Missing
    else if |tokens[0]| == 0 then EmptyToken
    else if tokens[0][0] == DIR_TAG && Store.GetDirectory(txn, group, tokens[0][1..]).Ok?
            && Store.GetDirectory(txn, group, tokens[0][1..]).value.name == name
    then Found(Store.GetDirectory(txn, group, tokens[0][1..]).value.key)
    else FindChild(txn, group, tokens[1..], name)
  }

  /** FindChild returns the key of the first token naming such a directory, reports an empty token met
      before it, and finds nothing only if no token names one. */
  lemma {:induction false} FindChildFirst(txn: Txn, group: u64, tokens: seq<Bytes>, name: string)
    ensures FindChild(txn, group, tokens, name).Found? ==>
      exists j :: 0 <= j < |tokens| && NamesDir(txn, group, tokens[j], name)
        && FindChild(txn, group, tokens, name).key == Store.GetDirectory(txn, group, tokens[j][1..]).value.key
        && forall j' :: 0 <= j' < j ==> |tokens[j']| > 0 && !NamesDir(txn, group, tokens[j'], name)
    ensures FindChild(txn, group, tokens, name) == Missing <==>
      forall j :: 0 <= j < |tokens| ==> |tokens[j]| > 0 && !NamesDir(txn, group, tokens[j], name)
    decreases |tokens|
  {
    if tokens != [] && |tokens[0]| > 0 && !NamesDir(txn, group, tokens[0], name) {
      FindChildFirst(txn, group, tokens[1..], name);
      var r := FindChild(txn, group, tokens, name);
      if r.Found? {
        var j :| 0 <= j < |tokens[1..]| && NamesDir(txn, group, tokens[1..][j], name)
          && r.key == Store.GetDirectory(txn, group, tokens[1..][j][1..]).value.key
          && forall j' :: 0 <= j' < j ==> |tokens[1..][j']| > 0 && !NamesDir(txn, group, tokens[1..][j'], name);
        assert NamesDir(txn, group, tokens[j + 1], name);
        forall j' | 0 <= j' < j + 1 ensures |tokens[j']| > 0 && !NamesDir(txn, group, tokens[j'], name) {
          if j' > 0 { assert tokens[j'] == tokens[1..][j' - 1]; }
        }
      }
      if forall j :: 0 <= j < |tokens[1..]| ==> |tokens[1..][j]| > 0 && !NamesDir(txn, group, tokens[1..][j], name) {
        forall j | 0 <= j < |tokens| ensures |tokens[j]| > 0 && !NamesDir(txn, group, tokens[j], name) {
          if j > 0 { assert tokens[j] == tokens[1..][j - 1]; }
        }
      } else {
        var j :| 0 <= j < |tokens[1..]| && !(|tokens[1..][j]| > 0 && !NamesDir(txn, group, tokens[1..][j], name));
        assert tokens[j + 1] == tokens[1..][j];
      }
    } else if tokens != [] && |tokens[0]| > 0 {
      assert NamesDir(txn, group, tokens[0], name);
    }
  }

  /** The key reached from directory `key` by descending through `segments`, one name at a time. */
  function Walk(txn: Txn, group: u64, key: Bytes, segments: seq<string>): Result<Bytes>
    decreases |segments|
  {
    if segments == [] then Ok(key)
    else
      match Store.GetDirectory(txn, group, key)
      case Err(e) => Err(e)
      case Ok(dir) =>
        match FindChild(txn, group, dir.files, segments[0])
        case Found(k) => Walk(txn, group, k, segments[1..])
        case Missing => Err(Refused("cannot find dir"))
        case EmptyToken => Err(Crashed("empty directory token"))
  }

  /** The listing entry of one token: its type is the token's first byte, its record must exist. */
  function ListItem(txn: Txn, group: u64, token: Bytes): Result<DirectoryItem>
  {
    if |token| == 0 then Err(Crashed("empty directory token"))
    else if token[0] == DIR_TAG then
      match Store.GetDirectory(txn, group, token[1..])
      case Ok(d) => Ok(DirItem(d))
      case Err(e) => Err(e)
    else if token[0] == FILE_TAG then
      match GetFile(txn, group, token[1..])
      case Ok(f) => Ok(FileItem(f))
      case Err(e) => Err(e)
    else Ok(Other)
  }

  function ListItems(txn: Txn, group: u64, tokens: seq<Bytes>): Result<seq<DirectoryItem>>
    decreases |tokens|
  {
    if tokens == [] then Ok([])
    else
      match ListItem(txn, group, tokens[0])
      case Err(e) => Err(e)
      case Ok(item) =>
        match ListItems(txn, group, tokens[1..])
        case Err(e) => Err(e)
        case Ok(rest) => Ok([item] + rest)
  }

  /** The listing fails exactly when some token's entry fails (an empty token or a missing child);
      otherwise it has one entry per token, in token order, each that token's entry. */
  lemma {:induction false} ListItemsShape(txn: Txn, group: u64, tokens: seq<Bytes>)
    ensures ListItems(txn, group, tokens).Err? <==> exists j :: 0 <= j < |tokens| && ListItem(txn, group, tokens[j]).Err?
    ensures ListItems(txn, group, tokens).Ok? ==>
      var items := ListItems(txn, group, tokens).value;
      |items| == |tokens| && forall j :: 0 <= j < |tokens| ==> ListItem(txn, group, tokens[j]) == Ok(items[j])
    decreases |tokens|
  {
    if tokens != [] {
      ListItemsShape(txn, group, tokens[1..]);
      forall j | 0 < j < |tokens| ensures tokens[j] == tokens[1..][j - 1] { }
      if ListItem(txn, group, tokens[0]).Err? {
        assert ListItem(txn, group, tokens[0]).Err?;
      } else if ListItems(txn, group, tokens[1..]).Err? {
        var j :| 0 <= j < |tokens[1..]| && ListItem(txn, group, tokens[1..][j]).Err?;
        assert ListItem(txn, group, tokens[j + 1]).Err?;
      }
    }
  }

  /** Entry kinds follow the first byte of the token: DIR gives the child directory, FILE the child file. */
  lemma ListItemKind(txn: Txn, group: u64, token: Bytes)
    requires ListItem(txn, group, token).Ok?
    ensures |token| > 0
    ensures token[0] == DIR_TAG ==> ListItem(txn, group, token) == Ok(DirItem(Store.GetDirectory(txn, group, token[1..]).value))
    ensures token[0] == FILE_TAG ==> ListItem(txn, group, token) == Ok(FileItem(GetFile(txn, group, token[1..]).value))
    ensures token[0] != DIR_TAG && token[0] != FILE_TAG ==> ListItem(txn, group, token) == Ok(Other)
  {
  }

  /** The response ListDirectory gives for `path` (its first part names the volume). */
  function ListDirectorySpec(txn: Txn, crypto: Crypto, group: u64, path: string): Result<ListDirectoryResponse>
  {
    var parts := Split(path, '/');
    match Store.GetVolume(txn, group, crypto.idFromName(parts[0]))
    case Err(e) => Err(e)
    case Ok(volume) =>
      match Walk(txn, group, volume.rootDir, parts[1..])
      case Err(e) => Err(e)
      case Ok(key) =>
        match Store.GetDirectory(txn, group, key)
        case Err(_) => Err(Refused("cannot get dir for target dir"))
        case Ok(dir) =>
          match ListItems(txn, group, dir.files)
          case Err(e) => Err(e)
          case Ok(items) => Ok(ListDirectoryResponse(dir.key, dir.name, items, None))
  }

  /** A listing is only produced for a volume that exists, and carries the resolved directory's key and name;
      it never carries the volume itself. */
  lemma ListDirectoryResolves(txn: Txn, crypto: Crypto, group: u64, path: string)
    requires ListDirectorySpec(txn, crypto, group, path).Ok?
    ensures var parts := Split(path, '/');
      var vol := Store.GetVolume(txn, group, crypto.idFromName(parts[0]));
      && vol.Ok?
      && Walk(txn, group, vol.value.rootDir, parts[1..]).Ok?
      && var dir := Store.GetDirectory(txn, group, Walk(txn, group, vol.value.rootDir, parts[1..]).value);
      && dir.Ok?
      && var res := ListDirectorySpec(txn, crypto, group, path).value;
      && res.key == dir.value.key && res.name == dir.value.name && res.volume.None?
      && ListItems(txn, group, dir.value.files) == Ok(res.items)
  {
  }

  function Prefixed(prefix: seq<DirectoryItem>, r: Result<seq<DirectoryItem>>): Result<seq<DirectoryItem>>
  {
    match r
    case Ok(items) => Ok(prefix + items)
    case Err(e) => Err(e)
  }

  lemma PrefixedEmpty(r: Result<seq<DirectoryItem>>)
    ensures Prefixed([], r) == r
  {
    if r.Ok? { assert [] + r.value == r.value; }
  }

  lemma PrefixedAppend(items: seq<DirectoryItem>, item: DirectoryItem, r: Result<seq<DirectoryItem>>)
    ensures Prefixed(items, Prefixed([item], r)) == Prefixed(items + [item], r)
  {
    if r.Ok? { assert items + ([item] + r.value) == (items + [item]) + r.value; }
  }

  /** ListDirectory, proved to compute ListDirectorySpec. */
  method ListDirectory(txn: Txn, crypto: Crypto, group: u64, path: string) returns (r: Result<ListDirectoryResponse>)
    ensures r == ListDirectorySpec(txn, crypto, group, path)
  {
    var parts := Split(path, '/');
    var vr := Store.GetVolume(txn, group, crypto.idFromName(parts[0]));
    if vr.Err? {
      return Err(vr.error);
    }
    var parentKey := vr.value.rootDir;
    var i := 1;
    while i < |parts|
      invariant 1 <= i <= |parts|
      invariant Walk(txn, group, vr.value.rootDir, parts[1..]) == Walk(txn, group, parentKey, parts[i..])
    {
      assert parts[i..][0] == parts[i] && parts[i..][1..] == parts[i + 1..];
      var pr := Store.GetDirectory(txn, group, parentKey);
      if pr.Err? {
        return Err(pr.error);
      }
      ghost var cur := parentKey;
      var files := pr.value.files;
      var found := false;
      var j := 0;
      while j < |files| && !found
        invariant 0 <= j <= |files|
        invariant !found ==> parentKey == cur && FindChild(txn, group, files, parts[i]) == FindChild(txn, group, files[j..], parts[i])
        invariant found ==> FindChild(txn, group, files, parts[i]) == Found(parentKey)
      {
        assert files[j..][0] == files[j] && files[j..][1..] == files[j + 1..];
        var token := files[j];
        if |token| == 0 {
          return Err(Crashed("empty directory token"));
        }
        if token[0] == DIR_TAG {
          var sr := Store.GetDirectory(txn, group, token[1..]);
          if sr.Ok? && sr.value.name == parts[i] {
            parentKey := sr.value.key;
            found := true;
          }
        }
        j := j + 1;
      }
      if !found {
        assert files[j..] == [];
        return Err(Refused("cannot find dir"));
      }
      i := i + 1;
    }
    assert parts[i..] == [];
    var dr := Store.GetDirectory(txn, group, parentKey);
    if dr.Err? {
      return Err(Refused("cannot get dir for target dir"));
    }
    var dir := dr.value;
    var items: seq<DirectoryItem> := [];
    var j := 0;
    assert dir.files[0..] == dir.files;
    PrefixedEmpty(ListItems(txn, group, dir.files));
    while j < |dir.files|
      invariant 0 <= j <= |dir.files|
      invariant ListItems(txn, group, dir.files) == Prefixed(items, ListItems(txn, group, dir.files[j..]))
    {
      assert dir.files[j..][0] == dir.files[j] && dir.files[j..][1..] == dir.files[j + 1..];
      var token := dir.files[j];
      if |token| == 0 {
        return Err(Crashed("empty directory token"));
      }
      var item: DirectoryItem;
      if token[0] == DIR_TAG {
        var sr := Store.GetDirectory(txn, group, token[1..]);
        if sr.Err? {
          return Err(sr.error);
        }
        item := DirItem(sr.value);
      } else if token[0] == FILE_TAG {
        var fr := GetFile(txn, group, token[1..]);
        if fr.Err? {
          return Err(fr.error);
        }
        item := FileItem(fr.value);
      } else {
        item := Other;
      }
      assert ListItem(txn, group, token) == Ok(item);
      PrefixedAppend(items, item, ListItems(txn, group, dir.files[j + 1..]));
      items := items + [item];
      j := j + 1;
    }
    assert dir.files[j..] == [] && items + [] == items;
    return Ok(ListDirectoryResponse(dir.key, dir.name, items, None));
  }

  /** How many bytes AppendToBlock copies: from `offset` up to the block length as a uint32, at most all of `data`. */
  function Copied(dataLen: nat, blockLen: nat, offset: u32): (c: nat)
    ensures c <= dataLen
    ensures c > 0 ==> offset as int + c <= blockLen % U32_LIMIT
  {
    var n := blockLen % U32_LIMIT;
    if offset as int < n then (if dataLen < n - offset as int then dataLen else n - offset as int) else 0
  }

  /** The block contents after an append: `data` laid over the block from `offset`, as far as it fits. */
  function Appended(block: Bytes, offset: u32, data: Bytes): (r: Bytes)
    ensures |r| == |block|
  {
    var c := Copied(|data|, |block|, offset);
    seq(|block|, k requires 0 <= k < |block| => if offset as int <= k < offset as int + c then data[k - offset as int] else block[k])
  }

  /** An append keeps everything outside the written window, writes `data` in order inside it, and writes
      all of `data` exactly when it fits before the end of the block. */
  lemma AppendedEffect(block: Bytes, offset: u32, data: Bytes)
    requires |block| < U32_LIMIT
    ensures var c := Copied(|data|, |block|, offset);
      && (c == |data| <==> offset as int + |data| <= |block| || |data| == 0)
      && (forall k :: 0 <= k < |data| && offset as int + k < |block| ==> Appended(block, offset, data)[offset as int + k] == data[k])
      && (forall k :: 0 <= k < |block| && !(offset as int <= k < offset as int + |data|) ==> Appended(block, offset, data)[k] == block[k])
  {
  }

  /** Appending nothing, or appending at or past the end, leaves the block as it was. */
  lemma AppendedNothing(block: Bytes, offset: u32, data: Bytes)
    requires |data| == 0 || offset as int >= |block|
    ensures Appended(block, offset, data) == block
  {
  }

  /** The loop of server/storage.go:184-190 as written: every copied byte lands on `Data[offset]`. */
  function AppendedAsWritten(block: Bytes, offset: u32, data: Bytes): (r: Bytes)
    ensures |r| == |block|
  {
    var c := Copied(|data|, |block|, offset);
    if c == 0 then block else block[offset := data[c - 1]]
  }

  /** As written, an append changes at most the byte at `offset`, which ends up holding the last copied byte. */
  lemma AppendedAsWrittenEffect(block: Bytes, offset: u32, data: Bytes)
    ensures forall k :: 0 <= k < |block| && k != offset as int ==> AppendedAsWritten(block, offset, data)[k] == block[k]
    ensures var c := Copied(|data|, |block|, offset);
      c > 0 ==> AppendedAsWritten(block, offset, data)[offset] == data[c - 1]
  {
  }

  /** Two bytes appended at offset 0 of a three-byte block: as written only the last one survives, where
      the intended append keeps both. */
  lemma AppendedAsWrittenLosesBytes()
    ensures AppendedAsWritten([0, 0, 0], 0, [1, 2]) == [2, 0, 0]
    ensures Appended([0, 0, 0], 0, [1, 2]) == [1, 2, 0]
    ensures AppendedAsWritten([0, 0, 0], 0, [1, 2]) != Appended([0, 0, 0], 0, [1, 2])
  {
    assert Copied(2, 3, 0) == 2;
    assert Appended([0, 0, 0], 0, [1, 2])[0] == 1;
  }

  /** AppendToBlock, as written: copies as many bytes as fit from `req.offset`, every one of them onto the
      byte at `req.offset`, stores the block back and reports how many bytes did not fit. */
  method AppendToBlock(node: Node, req: AppendToBlockRequest) returns (r: Result<WriteResult>)
    modifies node
    ensures node.pending == old(node.pending)
    ensures match GetBlockData(old(node.db), req.group, req.file, req.index)
      case Err(e) => r == Err(e) && node.db == old(node.db)
      case Ok(block) =>
        var newData := AppendedAsWritten(block.data, req.offset, req.data);
        var c := Copied(|req.data|, |block.data|, req.offset);
        && node.db == SetBlock(old(node.db), block.(data := newData))
        && r == Ok(WriteResult(true, (|req.data| - c) % U64_LIMIT, node.crypto.sha1(newData)))
  {
    var br := GetBlockData(node.db, req.group, req.file, req.index);
    if br.Err? {
      return Err(br.error);
    }
    var block := br.value;
    var buf := new byte[|block.data|](k requires 0 <= k < |block.data| => block.data[k]);
    var n := |block.data| % U32_LIMIT;
    var i: nat := req.offset as nat;
    var dataIdx := 0;
    while i < n
      invariant dataIdx <= |req.data| && i == req.offset as int + dataIdx
      invariant dataIdx > 0 ==> i <= n
      invariant forall k :: 0 <= k < buf.Length && k != req.offset as int ==> buf[k] == block.data[k]
      invariant buf.Length == |block.data|
      invariant req.offset as int < buf.Length ==>
        buf[req.offset] == if dataIdx > 0 then req.data[dataIdx - 1] else block.data[req.offset]
      modifies buf
      decreases n - i
    {
      if dataIdx == |req.data| {
        break;
      }
      buf[req.offset] := req.data[dataIdx];
      dataIdx := dataIdx + 1;
      i := i + 1;
    }
    assert dataIdx == Copied(|req.data|, |block.data|, req.offset);
    var newData := buf[..];
    assert newData == AppendedAsWritten(block.data, req.offset, req.data);
    node.db := SetBlock(node.db, block.(data := newData));
    r := Ok(WriteResult(true, (|req.data| - dataIdx) % U64_LIMIT, node.crypto.sha1(newData)));
  }

  /** The empty block CreateBlock stores: `blockSize` zero bytes. */
  function ZeroBlock(req: CreateBlockRequest, blockSize: u32): (b: BlockData)
    ensures b.group == req.group && b.file == req.file && b.index == req.index
    ensures |b.data| == blockSize as int && forall k :: 0 <= k < |b.data| ==> b.data[k] == 0
  {
    BlockData(req.group, req.file, req.index, seq(blockSize as int, _ => 0), 0)
  }

  /** CreateBlock. `tally` is the group's majority answer for the file (see GetMajorityFileMeta) and `exec`
      the consensus round that runs CONFIRM_BLOCK for this node. */
  method CreateBlock(node: Node, req: CreateBlockRequest, tally: Option<FileMeta>,
                     exec: ConfirmBlockContract -> Option<Bytes>)
    returns (res: Option<WriteResult>, err: Option<Error>)
    modifies node
    ensures node.pending == old(node.pending)
    ensures tally.None? ==> res.None? && err.Some? && node.db == old(node.db)
    ensures tally.Some? && BlockDBKey(req.group, req.file, req.index) in old(node.db) ==>
      res == Some(WriteResult(false, 0, [])) && err.Some? && node.db == old(node.db)
    ensures tally.Some? && BlockDBKey(req.group, req.file, req.index) !in old(node.db) ==>
      && node.db == SetBlock(old(node.db), ZeroBlock(req, tally.value.blockSize))
      && GetBlockData(node.db, req.group, req.file, req.index) == Ok(ZeroBlock(req, tally.value.blockSize))
      && var reply := exec(ConfirmBlockContract(node.id, req.index, req.file));
      if reply.None? || |reply.value| == 0 then res.None? && err.Some? && err.value.Crashed?
      else if reply.value[0] == 1 then res == Some(WriteResult(true, 0, [])) && err.None?
      else res.None? && err.Some? && err.value.Refused?
  {
    var mr := GetMajorityFileMeta(tally);
    if mr.Err? {
      return None, Some(mr.error);
    }
    var key := BlockDBKey(req.group, req.file, req.index);
    if key in node.db {
      return Some(WriteResult(false, 0, [])), Some(Refused("block already exists"));
    }
    node.db := SetBlock(node.db, ZeroBlock(req, mr.value.blockSize));
    var reply := exec(ConfirmBlockContract(node.id, req.index, req.file));
    if reply.None? {
      return None, Some(Crashed("confirm block command failed"));
    }
    if |reply.value| == 0 {
      return None, Some(Crashed("empty confirm block reply"));
    }
    if reply.value[0] == 1 {
      return Some(WriteResult(true, 0, [])), None;
    }
    return None, Some(Refused("confirm block failed"));
  }
}
