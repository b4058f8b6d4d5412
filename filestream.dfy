/**
 * The client file stream (drone/storage/model.go): a cursor over a file's blocks with one buffered block,
 * creating missing blocks through the placement protocol and flushing the buffer to its hosts.
 * Every network call is an answer of the `Network` oracle.
 */
module FileStream {
  import opened Bytes
  import opened Wrappers
  import opened Messages
  import opened Encoding

  // The errors the stream reports, with the code's messages; a Crashed one stands for a panic.
  const HOST_UNREACHABLE := "host unreachable"
  const NULL_SUGGESTION := "cannot get new block suggestion, it's null"
  const NO_VOLUME := "stream has no volume"
  const SUGGEST_PANIC := "suggestion callback panics"
  const NO_REPLICAS := "cannot get replica servers"
  const COMMIT_UNANSWERED := "cannot commit block contract"
  const COMMIT_FAILED := "commit block contract failed"
  const UNDECODABLE_META := "cannot decode new meta"
  const LAND_NIL_BLOCK := "cannot land write, block data is nil"
  const BLOCK_RECORD_MISSING := "block index out of range"
  const NO_BLOCK_DATA := "cannot get block data"
  const DIVIDE_BY_ZERO := "integer divide by zero"
  const NIL_BLOCK := "block data is nil"
  const INDEX_OUT_OF_RANGE := "index out of range"
  const NIL_BUFFER := "need a sized byte buffer"
  const NO_DIR := "cannot found dir for stream"
  const LISTING_NO_VOLUME := "listing has no volume"
  const TOUCH_UNANSWERED := "cannot touch file"
  const EMPTY_TOUCH_REPLY := "empty touch file reply"
  const TOUCH_FAILED := "touch file failed"
  const RETRIES_EXHAUSTED := "retry limit reached"

  /** The answers the group gives the client. Each is a function of its request. */
  datatype Network = Network(
    /** Whether the quorum reader finds a member of the group with a client, so that the SuggestBlockStash
        callback runs at all (server/consensus.go:23-35). */
    membersReached: bool,
    /** The replies of the members the callback reaches to SuggestBlockStash for `num` hosts (None: the
        call failed, and the callback reads the nodes of the nil reply). */
    suggestReplies: u32 -> seq<Option<seq<HostStash>>>,
    /** The encoding of one HostStash (None: the encoder fails, and HashHostStash panics). */
    marshalHost: HostStash -> Option<Bytes>,
    /** The majority answer to SuggestBlockStash for `num` hosts (None: no majority). */
    suggest: u32 -> Option<seq<HostStash>>,
    /** Whether the consensus engine holds a record of the host with this id and a client connection to
        it can be opened; otherwise the code calls through a nil record or a nil client. */
    hostReachable: u64 -> bool,
    /** The reply of host `id` to CreateBlock (None: the call failed). */
    createBlock: (u64, CreateBlockRequest) -> Option<WriteResult>,
    /** The reply to a COMMIT_BLOCK command (None: the command failed). */
    commit: CommitBlockContract -> Option<Bytes>,
    /** Decoding of an encoded FileMeta. */
    decodeMeta: Bytes -> Option<FileMeta>,
    /** The majority answer to GetBlock(index, file). */
    getBlock: (u64, Bytes) -> Option<BlockData>,
    /** The majority answer to ListDirectory(path) at the given attempt. */
    ls: (string, nat) -> Option<ListDirectoryResponse>,
    /** The reply to a TOUCH_FILE command (None: the command failed). */
    touch: TouchFileContract -> Option<Bytes>
  )

  predicate Succeeds(net: Network, id: u64, req: CreateBlockRequest)
  {
    net.createBlock(id, req).Some? && net.createBlock(id, req).value.succeed
  }

  /** The ids of the suggested hosts on which CreateBlock succeeded, in suggestion order. An unreachable
      host is a crash (the code calls through a nil host record or a nil client). */
  function Placement(net: Network, hosts: seq<HostStash>, req: CreateBlockRequest): Result<seq<u64>>
    decreases |hosts|
  {
    if hosts == [] then Ok([])
    else
      match Placement(net, hosts[..|hosts| - 1], req)
      case Err(e) => Err(e)
      case Ok(ids) =>
        var h := hosts[|hosts| - 1];
        if !net.hostReachable(h.hostId) then Err(Crashed(HOST_UNREACHABLE))
        else if Succeeds(net, h.hostId, req) then Ok(ids + [h.hostId]) else Ok(ids)
  }

  /** Placement over two lists is placement over each, concatenated: suggestion order is kept. */
  lemma {:induction false} PlacementConcat(net: Network, a: seq<HostStash>, b: seq<HostStash>, req: CreateBlockRequest)
    ensures Placement(net, a + b, req).Ok? <==> Placement(net, a, req).Ok? && Placement(net, b, req).Ok?
    ensures Placement(net, a + b, req).Ok? ==>
      Placement(net, a + b, req).value == Placement(net, a, req).value + Placement(net, b, req).value
    ensures Placement(net, a, req).Err? ==> Placement(net, a + b, req) == Placement(net, a, req)
    decreases |b|
  {
    if b == [] {
      assert a + b == a;
    } else {
      var b', h := b[..|b| - 1], b[|b| - 1];
      assert (a + b)[..|a + b| - 1] == a + b';
      assert (a + b)[|a + b| - 1] == h;
      PlacementConcat(net, a, b', req);
      if Placement(net, a + b, req).Ok? && Succeeds(net, h.hostId, req) {
        var x, y := Placement(net, a, req).value, Placement(net, b', req).value;
        assert x + y + [h.hostId] == x + (y + [h.hostId]);
      }
    }
  }

  /** Placement succeeds exactly when every suggested host is reachable; it then holds the id of every
      suggested host whose CreateBlock succeeded and nothing else, and at most one id per suggestion. */
  lemma {:induction false} PlacementMembers(net: Network, hosts: seq<HostStash>, req: CreateBlockRequest)
    ensures Placement(net, hosts, req).Ok? <==> forall j :: 0 <= j < |hosts| ==> net.hostReachable(hosts[j].hostId)
    ensures Placement(net, hosts, req).Ok? ==>
      && |Placement(net, hosts, req).value| <= |hosts|
      && forall x :: x in Placement(net, hosts, req).value <==>
           exists j :: 0 <= j < |hosts| && hosts[j].hostId == x && Succeeds(net, x, req)
    decreases |hosts|
  {
    if hosts != [] {
      var init, h := hosts[..|hosts| - 1], hosts[|hosts| - 1];
      PlacementMembers(net, init, req);
      forall j | 0 <= j < |init| ensures init[j] == hosts[j] { }
      if Placement(net, hosts, req).Ok? {
        var ids := Placement(net, hosts, req).value;
        forall x ensures x in ids <==> exists j :: 0 <= j < |hosts| && hosts[j].hostId == x && Succeeds(net, x, req) {
          if x in ids && x !in Placement(net, init, req).value {
            assert hosts[|hosts| - 1].hostId == x;
          }
          if exists j :: 0 <= j < |hosts| && hosts[j].hostId == x && Succeeds(net, x, req) {
            var j :| 0 <= j < |hosts| && hosts[j].hostId == x && Succeeds(net, x, req);
            if j < |init| {
              assert init[j].hostId == x;
            }
          }
        }
      } else if Placement(net, init, req).Ok? {
        assert !net.hostReachable(hosts[|hosts| - 1].hostId);
      } else {
        var j :| 0 <= j < |init| && !net.hostReachable(init[j].hostId);
        assert !net.hostReachable(hosts[j].hostId);
      }
    }
  }

  /** The number of hosts newBlock asks for: twice the volume's replication factor, as a uint32. */
  function SuggestNum(v: Volume): u32
  {
    (v.replications as int * 2 % U32_LIMIT) as u32
  }

  /** Whether the SuggestBlockStash callback panics on one of the members' replies: it reads the nodes of a
      nil reply, and HashHostStash panics on a host that does not encode. */
  function SuggestPanics(replies: seq<Option<seq<HostStash>>>, marshal: HostStash -> Option<Bytes>): bool
    decreases |replies|
  {
    replies != [] && (replies[0].None? || Encoded(replies[0].value, marshal).None? || SuggestPanics(replies[1..], marshal))
  }

  /** The callback panics exactly when some member's call failed or some host of some member's reply does
      not encode. */
  lemma {:induction false} SuggestPanicsIff(replies: seq<Option<seq<HostStash>>>, marshal: HostStash -> Option<Bytes>)
    ensures SuggestPanics(replies, marshal) <==>
      exists k :: 0 <= k < |replies| &&
        (replies[k].None? || exists j :: 0 <= j < |replies[k].value| && marshal(replies[k].value[j]).None?)
    decreases |replies|
  {
    if replies != [] {
      SuggestPanicsIff(replies[1..], marshal);
      if replies[0].Some? {
        EncodedFails(replies[0].value, marshal);
      }
      if exists k :: 0 <= k < |replies| &&
           (replies[k].None? || exists j :: 0 <= j < |replies[k].value| && marshal(replies[k].value[j]).None?) {
        var k :| 0 <= k < |replies| &&
          (replies[k].None? || exists j :: 0 <= j < |replies[k].value| && marshal(replies[k].value[j]).None?);
        if k > 0 {
          assert replies[1..][k - 1] == replies[k];
        }
      }
      if SuggestPanics(replies[1..], marshal) {
        var k :| 0 <= k < |replies[1..]| &&
          (replies[1..][k].None? || exists j :: 0 <= j < |replies[1..][k].value| && marshal(replies[1..][k].value[j]).None?);
        assert replies[k + 1] == replies[1..][k];
      }
    }
  }

  /** The outcome of newBlock: the adopted meta or an error, and the commit contract it submitted. */
  datatype Placed = Placed(meta: Result<FileMeta>, sent: Option<CommitBlockContract>)

  /** newBlock: ask for twice the volume's replication factor of hosts, create the block on each, commit
      the hosts that accepted it, and decode the new file meta from the reply. */
  function NewBlockSpec(net: Network, volume: Option<Volume>, group: u64, file: Bytes, index: u64, now: u64): Placed
  {
    if !net.membersReached then Placed(Err(Refused(NULL_SUGGESTION)), None)
    else if volume.None? then Placed(Err(Crashed(NO_VOLUME)), None)
    else if SuggestPanics(net.suggestReplies(SuggestNum(volume.value)), net.marshalHost) then
      Placed(Err(Crashed(SUGGEST_PANIC)), None)
    else
      match net.suggest(SuggestNum(volume.value))
      case None => Placed(Err(Refused(NULL_SUGGESTION)), None)
      case Some(hosts) =>
        match Placement(net, hosts, CreateBlockRequest(group, index, file))
        case Err(e) => Placed(Err(e), None)
        case Ok(replicas) =>
          if replicas == [] then Placed(Err(Refused(NO_REPLICAS)), None)
          else
            var contract := CommitBlockContract(index, now, replicas, file);
            match net.commit(contract)
            case None => Placed(Err(Refused(COMMIT_UNANSWERED)), Some(contract))
            case Some(reply) =>
              if |reply| <= 1 then Placed(Err(Refused(COMMIT_FAILED)), Some(contract))
              else match net.decodeMeta(reply)
                case None => Placed(Err(Refused(UNDECODABLE_META)), Some(contract))
                case Some(m) => Placed(Ok(m), Some(contract))
  }

  /** A new block is adopted only after a commit naming the requested index and file and a non-empty set
      of hosts that each accepted the block, answered by a reply longer than one byte. */
  lemma NewBlockCommits(net: Network, volume: Option<Volume>, group: u64, file: Bytes, index: u64, now: u64)
    ensures var p := NewBlockSpec(net, volume, group, file, index, now);
      p.meta.Ok? ==>
        && net.membersReached && volume.Some?
        && !SuggestPanics(net.suggestReplies(SuggestNum(volume.value)), net.marshalHost)
        && var hosts := net.suggest(SuggestNum(volume.value));
        && hosts.Some?
        && p.sent.Some? && p.sent.value.index == index && p.sent.value.file == file && p.sent.value.clientTime == now
        && p.sent.value.nodeIds != []
        && (forall x :: x in p.sent.value.nodeIds ==>
              exists j :: 0 <= j < |hosts.value| && hosts.value[j].hostId == x && Succeeds(net, x, CreateBlockRequest(group, index, file)))
        && |net.commit(p.sent.value).value| > 1
        && p.meta.value == net.decodeMeta(net.commit(p.sent.value).value).value
  {
    var p := NewBlockSpec(net, volume, group, file, index, now);
    if p.meta.Ok? {
      var hosts := net.suggest(SuggestNum(volume.value));
      PlacementMembers(net, hosts.value, CreateBlockRequest(group, index, file));
    }
  }

  /** Without a host that accepted the block nothing is committed and the call fails. */
  lemma NewBlockNeedsReplica(net: Network, volume: Option<Volume>, group: u64, file: Bytes, index: u64, now: u64)
    requires net.membersReached && volume.Some?
    requires !SuggestPanics(net.suggestReplies(SuggestNum(volume.value)), net.marshalHost)
    requires var hosts := net.suggest(SuggestNum(volume.value));
      hosts.Some? && forall j :: 0 <= j < |hosts.value| ==>
        net.hostReachable(hosts.value[j].hostId) && !Succeeds(net, hosts.value[j].hostId, CreateBlockRequest(group, index, file))
    ensures NewBlockSpec(net, volume, group, file, index, now) == Placed(Err(Refused(NO_REPLICAS)), None)
  {
    var hosts := net.suggest(SuggestNum(volume.value)).value;
    PlacementNone(net, hosts, CreateBlockRequest(group, index, file));
  }

  /** A stream without a volume crashes in newBlock only when some member's callback runs, since the
      callback is what reads the replication factor; when no member is reached, newBlock fails with the
      null-suggestion error instead. */
  lemma NewBlockWithoutVolume(net: Network, group: u64, file: Bytes, index: u64, now: u64)
    ensures NewBlockSpec(net, None, group, file, index, now).sent.None?
    ensures NewBlockSpec(net, None, group, file, index, now).meta ==
      if net.membersReached then Err(Crashed(NO_VOLUME))
      else Err(Refused(NULL_SUGGESTION))
  {
  }

  lemma {:induction false} PlacementNone(net: Network, hosts: seq<HostStash>, req: CreateBlockRequest)
    requires forall j :: 0 <= j < |hosts| ==> net.hostReachable(hosts[j].hostId) && !Succeeds(net, hosts[j].hostId, req)
    ensures Placement(net, hosts, req) == Ok([])
    decreases |hosts|
  {
    if hosts != [] {
      PlacementNone(net, hosts[..|hosts| - 1], req);
    }
  }

  /** Go's unsigned `a / b`, by repeated subtraction. */
  function Quot(a: nat, b: nat): (q: nat)
    requires b > 0
    ensures q <= a
    decreases a
  {
    if a < b then 0 else 1 + Quot(a - b, b)
  }

  /** Go's unsigned `a % b`, by repeated subtraction. */
  function Rem(a: nat, b: nat): (r: nat)
    requires b > 0
    ensures r < b && r <= a
    decreases a
  {
    if a < b then a else Rem(a - b, b)
  }

  /** Repeated subtraction computes the quotient and the remainder of Euclidean division. */
  lemma {:induction false} QuotRem(a: nat, b: nat)
    requires b > 0
    ensures Quot(a, b) == a / b && Rem(a, b) == a % b
    decreases a
  {
    if a >= b {
      QuotRem(a - b, b);
      var q, r := (a - b) / b, (a - b) % b;
      assert a == b * (q + 1) + r && 0 <= r < b;
      DivModUnique(a, b, q + 1, r);
    }
  }

  /** Euclidean division has exactly one quotient and remainder. */
  lemma DivModUnique(a: int, b: int, q: int, r: int)
    requires b > 0 && a == b * q + r && 0 <= r < b
    ensures a / b == q && a % b == r
  {
    var q', r' := a / b, a % b;
    assert a == b * q' + r' && 0 <= r' < b;
    if q' < q {
      assert b * q >= b * (q' + 1) by { MulMonotone(b, q' + 1, q); }
    } else if q < q' {
      assert b * q' >= b * (q + 1) by { MulMonotone(b, q + 1, q'); }
    }
  }

  lemma MulMonotone(b: int, x: int, y: int)
    requires b > 0 && x <= y
    ensures b * x <= b * y
  {
  }

  /** The outcome of the block-creation loop of ensureBlock: the last adopted meta, the error that stopped
      it if any, and the indices it asked newBlock for. */
  datatype Grown = Grown(meta: FileMeta, err: Option<Error>, requested: seq<nat>)

  /** Create blocks `i`, `i + 1`, ... up to `target`, each with the meta the previous one returned. */
  function Grow(net: Network, volume: Option<Volume>, group: u64, meta: FileMeta, i: nat, target: u64, now: u64): Grown
    decreases target as int + 1 - i
  {
    if i > target as int then Grown(meta, None, [])
    else
      var p := NewBlockSpec(net, volume, group, meta.key, i as u64, now);
      if p.meta.Err? then Grown(meta, Some(p.meta.error), [i])
      else
        var g := Grow(net, volume, group, p.meta.value, i + 1, target, now);
        Grown(g.meta, g.err, [i] + g.requested)
  }

  /** One created block: the loop goes on from the next index with the meta newBlock returned. */
  lemma GrowCreated(net: Network, volume: Option<Volume>, group: u64, meta: FileMeta, i: nat, target: u64, now: u64,
                    m: FileMeta)
    requires i <= target as int
    requires NewBlockSpec(net, volume, group, meta.key, i as u64, now).meta == Ok(m)
    ensures var g := Grow(net, volume, group, m, i + 1, target, now);
      Grow(net, volume, group, meta, i, target, now) == Grown(g.meta, g.err, [i] + g.requested)
  {
  }

  /** A failed creation ends the loop with the meta it had, that error, and the failed index. */
  lemma GrowFailed(net: Network, volume: Option<Volume>, group: u64, meta: FileMeta, i: nat, target: u64, now: u64)
    requires i <= target as int
    requires NewBlockSpec(net, volume, group, meta.key, i as u64, now).meta.Err?
    ensures Grow(net, volume, group, meta, i, target, now) ==
      Grown(meta, Some(NewBlockSpec(net, volume, group, meta.key, i as u64, now).meta.error), [i])
  {
  }

  /** The loop asks for consecutive indices from `i`; it asks for every index up to `target` unless it stops
      at an error, and then the last index it asked for is the one that failed. */
  lemma {:induction false} GrowConsecutive(net: Network, volume: Option<Volume>, group: u64, meta: FileMeta, i: nat, target: u64, now: u64)
    ensures var g := Grow(net, volume, group, meta, i, target, now);
      && (forall k :: 0 <= k < |g.requested| ==> g.requested[k] == i + k)
      && (g.err.None? ==> |g.requested| == if i > target as int then 0 else target as int + 1 - i)
      && (g.err.Some? ==>
            && 1 <= |g.requested| <= target as int + 1 - i
            && NewBlockSpec(net, volume, group, g.meta.key, g.requested[|g.requested| - 1] as u64, now).meta == Err(g.err.value))
    decreases target as int + 1 - i
  {
    if i <= target as int {
      var p := NewBlockSpec(net, volume, group, meta.key, i as u64, now);
      if p.meta.Ok? {
        GrowConsecutive(net, volume, group, p.meta.value, i + 1, target, now);
        var g := Grow(net, volume, group, p.meta.value, i + 1, target, now);
        forall k | 0 < k < 1 + |g.requested| ensures ([i] + g.requested)[k] == i + k {
          assert ([i] + g.requested)[k] == g.requested[k - 1];
        }
      }
    }
  }

  /** What LandWrite does to a stream: Ok(hosts the buffer was sent to), or a crash. */
  function LandSpec(net: Network, meta: FileMeta, current: Option<BlockData>, dirty: bool): Result<seq<u64>>
  {
    if !dirty then Ok([])
    else if current.None? then Err(Crashed(LAND_NIL_BLOCK))
    else if current.value.index as int >= |meta.blocks| then Err(Crashed(BLOCK_RECORD_MISSING))
    else
      var hosts := meta.blocks[current.value.index].hosts;
      if forall k :: 0 <= k < |hosts| ==> net.hostReachable(hosts[k]) then Ok(hosts)
      else Err(Crashed(HOST_UNREACHABLE))
  }

  /** The buffer, dirty flag, outcome and flush targets of getBlock. */
  datatype Fetched = Fetched(current: Option<BlockData>, dirty: bool, r: Result<()>, sentTo: seq<u64>)

  function FetchSpec(net: Network, meta: FileMeta, current: Option<BlockData>, dirty: bool, index: u64): Fetched
  {
    if current.Some? && current.value.index == index then Fetched(current, dirty, Ok(()), [])
    else
      match LandSpec(net, meta, current, dirty)
      case Err(e) => Fetched(current, dirty, Err(e), [])
      case Ok(sent) =>
        match net.getBlock(index, meta.key)
        case None => Fetched(current, false, Err(Refused(NO_BLOCK_DATA)), sent)
        case Some(b) => Fetched(Some(b), false, Ok(()), sent)
  }

  /** getBlock only replaces the buffer after flushing a dirty one to every host of its block, and a
      failed fetch leaves the buffer as it was. */
  lemma FetchFlushesFirst(net: Network, meta: FileMeta, current: Option<BlockData>, dirty: bool, index: u64)
    ensures var f := FetchSpec(net, meta, current, dirty, index);
      && (f.current != current ==>
            && f.current == net.getBlock(index, meta.key) && f.r.Ok? && !f.dirty
            && (dirty ==> current.Some? && current.value.index as int < |meta.blocks|
                          && f.sentTo == meta.blocks[current.value.index].hosts))
      && (net.getBlock(index, meta.key).None? ==> f.current == current)
      && (current.Some? && current.value.index == index ==> f == Fetched(current, dirty, Ok(()), []))
  {
  }

  /** The state ensureBlock leaves: meta, buffer, dirty flag, outcome and the indices given to newBlock. */
  datatype Ensured = Ensured(meta: FileMeta, current: Option<BlockData>, dirty: bool, r: Result<()>, requested: seq<nat>)

  /** The part of ensureBlock after the first block exists: create the blocks up to `target`, then load it.
      A failure to load is not reported; a crash is. */
  function Finish(net: Network, volume: Option<Volume>, group: u64, meta: FileMeta, current: Option<BlockData>,
                  dirty: bool, target: u64, now: u64): Ensured
  {
    var g := Grow(net, volume, group, meta, |meta.blocks|, target, now);
    if g.err.Some? then Ensured(g.meta, current, dirty, Err(g.err.value), g.requested)
    else
      var f := FetchSpec(net, g.meta, current, dirty, target);
      Ensured(g.meta, f.current, f.dirty, if f.r.Err? && f.r.error.Crashed? then f.r else Ok(()), g.requested)
  }

  /** ensureBlock: the block holding `offset` is `offset / blockSize`; if it is not the buffered one, create
      the first block if the file has none, then every block up to it, then load it. */
  function EnsureSpec(net: Network, volume: Option<Volume>, group: u64, meta: FileMeta, current: Option<BlockData>,
                      dirty: bool, offset: u64, now: u64): Ensured
  {
    if meta.blockSize == 0 then Ensured(meta, current, dirty, Err(Crashed(DIVIDE_BY_ZERO)), [])
    else
      var target := Quot(offset as int, meta.blockSize as int) as u64;
      if current.Some? && current.value.index == target then Ensured(meta, current, dirty, Ok(()), [])
      else if |meta.blocks| == 0 then
        match NewBlockSpec(net, volume, group, meta.key, 0, now).meta
        case Err(e) => Ensured(meta, current, dirty, Err(e), [0])
        case Ok(m) =>
          var e := Finish(net, volume, group, m, current, dirty, target, now);
          e.(requested := [0] + e.requested)
      else Finish(net, volume, group, meta, current, dirty, target, now)
  }

  /** After the first block exists, ensureBlock asks for consecutive indices from the number of blocks, up
      to the target unless a creation fails, and a buffer it replaces is the target block as the group
      returns it. */
  lemma FinishRequests(net: Network, volume: Option<Volume>, group: u64, meta: FileMeta, current: Option<BlockData>,
                       dirty: bool, target: u64, now: u64)
    ensures var e := Finish(net, volume, group, meta, current, dirty, target, now);
      && (forall k :: 0 <= k < |e.requested| ==> e.requested[k] == |meta.blocks| + k)
      && (e.r.Ok? && |meta.blocks| <= target as int ==> |e.requested| == target as int + 1 - |meta.blocks|)
      && (e.current != current ==> e.current == net.getBlock(target, e.meta.key))
  {
    GrowConsecutive(net, volume, group, meta, |meta.blocks|, target, now);
    var g := Grow(net, volume, group, meta, |meta.blocks|, target, now);
    if g.err.None? {
      FetchFlushesFirst(net, g.meta, current, dirty, target);
    }
  }

  /** ensureBlock does nothing when the block holding `offset` is buffered; otherwise it asks for block 0
      first when the file has no block, and then for consecutive indices, ending at the target block when
      it succeeds. */
  lemma EnsureRequests(net: Network, volume: Option<Volume>, group: u64, meta: FileMeta, current: Option<BlockData>,
                       dirty: bool, offset: u64, now: u64)
    requires meta.blockSize > 0
    ensures var e := EnsureSpec(net, volume, group, meta, current, dirty, offset, now);
      var target := Quot(offset as int, meta.blockSize as int);
      var pre := if |meta.blocks| == 0 then 1 else 0;
      && (current.Some? && current.value.index as int == target ==> e == Ensured(meta, current, dirty, Ok(()), []))
      && (|meta.blocks| == 0 && e.requested != [] ==> e.requested[0] == 0)
      && (forall k :: pre <= k < |e.requested| ==> e.requested[k] == e.requested[pre] + (k - pre))
      && (e.r.Ok? && |e.requested| > pre ==> e.requested[|e.requested| - 1] == target)
  {
    var target := Quot(offset as int, meta.blockSize as int) as u64;
    if !(current.Some? && current.value.index == target) {
      if |meta.blocks| == 0 {
        var p := NewBlockSpec(net, volume, group, meta.key, 0, now).meta;
        if p.Ok? {
          FinishRequests(net, volume, group, p.value, current, dirty, target, now);
        }
      } else {
        FinishRequests(net, volume, group, meta, current, dirty, target, now);
      }
    }
  }

  /** The part of a stream that ensureBlock and the byte loops change: meta, buffered block, dirty flag. */
  datatype View = View(meta: FileMeta, current: Option<BlockData>, dirty: bool)

  /** The stream as ensureBlock leaves it. */
  function EnsuredView(e: Ensured): View
  {
    View(e.meta, e.current, e.dirty)
  }

  /** One position of a Read: the stream before it, what ensureBlock did at the cursor, the block size and
      in-block offset used, and the buffered block read from. */
  datatype ReadStep = ReadStep(from: View, ensured: Ensured, blockSize: u32, pos: nat, block: BlockData)

  /** One position of a Write: the stream before it, what ensureBlock did at the cursor, the block size and
      in-block offset used, and the buffered block before and after the byte is stored. */
  datatype WriteStep = WriteStep(from: View, ensured: Ensured, blockSize: u32, pos: nat, before: BlockData, after: BlockData)

  /** The stream after a Write position: ensureBlock's meta, the updated block, dirty. */
  function WriteNext(s: WriteStep): View
  {
    View(s.ensured.meta, Some(s.after), true)
  }

  /** `e` is ensureBlock on the stream `from` with the cursor at `at`, and it did not crash (its other errors
      are ignored by Read and Write). */
  ghost predicate EnsuredFor(net: Network, volume: Option<Volume>, group: u64, from: View, at: u64, now: u64, e: Ensured)
  {
    && e == EnsureSpec(net, volume, group, from.meta, from.current, from.dirty, at, now)
    && !(e.r.Err? && e.r.error.Crashed?)
  }

  /** The stream after the Read positions `steps`. */
  function AfterReads(start: View, steps: seq<ReadStep>): View
  {
    if steps == [] then start else EnsuredView(steps[|steps| - 1].ensured)
  }

  /** Each Read position starts from the stream the previous one left, and first ensures the block of the
      cursor, which stands at `orig + k` for position `k`. */
  ghost predicate ReadTrace(net: Network, volume: Option<Volume>, group: u64, start: View, orig: u64, now: u64,
                            steps: seq<ReadStep>)
    decreases |steps|
  {
    steps == [] ||
      var init, s := steps[..|steps| - 1], steps[|steps| - 1];
      && ReadTrace(net, volume, group, start, orig, now, init)
      && s.from == AfterReads(start, init)
      && EnsuredFor(net, volume, group, s.from, Advance(orig, |init|), now, s.ensured)
  }

  /** In a Read trace, position `k` starts from the stream the first `k` positions left and ensures the
      block of the cursor `orig + k`. */
  lemma {:induction false} ReadTraceAt(net: Network, volume: Option<Volume>, group: u64, start: View, orig: u64,
                                       now: u64, steps: seq<ReadStep>, k: nat)
    requires ReadTrace(net, volume, group, start, orig, now, steps)
    requires k < |steps|
    ensures steps[k].from == AfterReads(start, steps[..k])
    ensures EnsuredFor(net, volume, group, steps[k].from, Advance(orig, k), now, steps[k].ensured)
    decreases |steps|
  {
    var init := steps[..|steps| - 1];
    if k < |init| {
      ReadTraceAt(net, volume, group, start, orig, now, init, k);
      assert init[..k] == steps[..k] && init[k] == steps[k];
    } else {
      assert steps[..k] == init;
    }
  }

  /** A Read trace extended by a position that starts from the stream the trace left and ensures the block
      of the next cursor is again a Read trace, leaving the stream that position's ensureBlock left. */
  lemma ReadTraceSnoc(net: Network, volume: Option<Volume>, group: u64, start: View, orig: u64, now: u64,
                      steps: seq<ReadStep>, i: nat, s: ReadStep)
    requires |steps| == i
    requires ReadTrace(net, volume, group, start, orig, now, steps)
    requires s.from == AfterReads(start, steps)
    requires EnsuredFor(net, volume, group, s.from, Advance(orig, i), now, s.ensured)
    ensures ReadTrace(net, volume, group, start, orig, now, steps + [s])
    ensures AfterReads(start, steps + [s]) == EnsuredView(s.ensured)
  {
    assert (steps + [s])[..|steps|] == steps;
  }

  /** Each Write position starts from the stream the previous one left, and first ensures the block of the
      cursor, which stands at `orig + k` for position `k`. */
  ghost predicate WriteTrace(net: Network, volume: Option<Volume>, group: u64, start: View, orig: u64, now: u64,
                            steps: seq<WriteStep>)
    decreases |steps|
  {
    steps == [] ||
      var init, s := steps[..|steps| - 1], steps[|steps| - 1];
      && WriteTrace(net, volume, group, start, orig, now, init)
      && s.from == AfterWrites(start, init)
      && EnsuredFor(net, volume, group, s.from, Advance(orig, |init|), now, s.ensured)
  }

  /** The stream after the Write positions `steps`. */
  function AfterWrites(start: View, steps: seq<WriteStep>): View
  {
    if steps == [] then start else WriteNext(steps[|steps| - 1])
  }

  /** In a Write trace, position `k` starts from the stream the first `k` positions left (for `k > 0`, the
      block position `k - 1` updated, still dirty, with the meta its ensureBlock left) and ensures the block
      of the cursor `orig + k`. */
  lemma {:induction false} WriteTraceAt(net: Network, volume: Option<Volume>, group: u64, start: View, orig: u64,
                                        now: u64, steps: seq<WriteStep>, k: nat)
    requires WriteTrace(net, volume, group, start, orig, now, steps)
    requires k < |steps|
    ensures steps[k].from == AfterWrites(start, steps[..k])
    ensures k > 0 ==> steps[k].from == View(steps[k - 1].ensured.meta, Some(steps[k - 1].after), true)
    ensures EnsuredFor(net, volume, group, steps[k].from, Advance(orig, k), now, steps[k].ensured)
    decreases |steps|
  {
    var init := steps[..|steps| - 1];
    if k < |init| {
      WriteTraceAt(net, volume, group, start, orig, now, init, k);
      assert init[..k] == steps[..k] && init[k] == steps[k];
      if k > 0 { assert init[k - 1] == steps[k - 1]; }
    } else {
      assert steps[..k] == init;
    }
  }

  /** A Write trace extended by a position that starts from the stream the trace left and ensures the block
      of the next cursor is again a Write trace, leaving that position's updated block buffered and dirty. */
  lemma WriteTraceSnoc(net: Network, volume: Option<Volume>, group: u64, start: View, orig: u64, now: u64,
                       steps: seq<WriteStep>, i: nat, s: WriteStep)
    requires |steps| == i
    requires WriteTrace(net, volume, group, start, orig, now, steps)
    requires s.from == AfterWrites(start, steps)
    requires EnsuredFor(net, volume, group, s.from, Advance(orig, i), now, s.ensured)
    ensures WriteTrace(net, volume, group, start, orig, now, steps + [s])
    ensures AfterWrites(start, steps + [s]) == WriteNext(s)
  {
    assert (steps + [s])[..|steps|] == steps;
  }

  /** The stream offset `n` bytes after `orig`, wrapping around like a uint64. */
  function Advance(orig: u64, n: nat): u64
  {
    ((orig as int + n) % U64_LIMIT) as u64
  }

  lemma AdvanceStep(orig: u64, n: nat)
    ensures ((Advance(orig, n) as int + 1) % U64_LIMIT) as u64 == Advance(orig, n + 1)
  {
    var a := orig as int + n;
    var q := a / U64_LIMIT;
    assert a == q * U64_LIMIT + a % U64_LIMIT;
    assert a + 1 == q * U64_LIMIT + (a % U64_LIMIT + 1);
    if a % U64_LIMIT + 1 == U64_LIMIT {
      assert a + 1 == (q + 1) * U64_LIMIT;
    }
  }

  /** A Read position at stream offset `at` read the block ensureBlock left buffered, with that meta's block
      size; it is the position where the read stops when the in-block offset `uint32(at) % blockSize` lies
      past the block's tail. */
  ghost predicate ReadsResident(s: ReadStep, at: int)
  {
    && s.ensured.current == Some(s.block) && s.blockSize == s.ensured.meta.blockSize
    && s.blockSize > 0
    && s.pos == Rem(at % U32_LIMIT, s.blockSize as int)
  }

  /** `s` is the position where a Read that left `steps` behind stops: it starts from the stream those
      positions left, ensures the block of the cursor `orig + |steps|`, and finds the in-block offset past
      the tail of the resident block. */
  ghost predicate StopsAt(net: Network, volume: Option<Volume>, group: u64, start: View, orig: u64, now: u64,
                          steps: seq<ReadStep>, s: ReadStep)
  {
    && s.from == AfterReads(start, steps)
    && EnsuredFor(net, volume, group, s.from, Advance(orig, |steps|), now, s.ensured)
    && ReadsResident(s, orig as int + |steps|)
    && s.pos > s.block.tail as int
  }

  /** A Read position that ensured the block of cursor `orig + |steps|` from the stream the earlier positions
      left and found its in-block offset past the tail is where the Read stops. */
  lemma ReadStops(net: Network, volume: Option<Volume>, group: u64, start: View, orig: u64, now: u64,
                  steps: seq<ReadStep>, i: nat, s: ReadStep)
    requires |steps| == i
    requires s.from == AfterReads(start, steps)
    requires EnsuredFor(net, volume, group, s.from, Advance(orig, i), now, s.ensured)
    requires ReadsResident(s, orig as int + i)
    requires s.pos > s.block.tail as int
    ensures StopsAt(net, volume, group, start, orig, now, steps, s)
  {
  }

  /** A Read position that ensured the block of cursor `orig + |steps|` from the stream the earlier positions
      left and found its in-block offset within the tail read byte `i` of the block and extends the trace. */
  lemma ReadContinues(net: Network, volume: Option<Volume>, group: u64, start: View, orig: u64, now: u64,
                      steps: seq<ReadStep>, i: nat, s: ReadStep, b: byte)
    requires |steps| == i
    requires ReadTrace(net, volume, group, start, orig, now, steps)
    requires s.from == AfterReads(start, steps)
    requires EnsuredFor(net, volume, group, s.from, Advance(orig, i), now, s.ensured)
    requires ReadsResident(s, orig as int + i)
    requires s.pos <= s.block.tail as int
    requires i < |s.block.data| && b == s.block.data[i]
    ensures ReadAt(s, orig as int + i, i, b)
    ensures ReadTrace(net, volume, group, start, orig, now, steps + [s])
    ensures AfterReads(start, steps + [s]) == EnsuredView(s.ensured)
  {
    ReadTraceSnoc(net, volume, group, start, orig, now, steps, i, s);
  }

  /** Position `k` of a Read at stream offset `at` used in-block offset `uint32(at) % blockSize` of the
      resident block, found it within the tail, and copied byte `k` of the block into `b`. */
  ghost predicate ReadAt(s: ReadStep, at: int, k: nat, b: byte)
  {
    && ReadsResident(s, at)
    && s.pos <= s.block.tail as int
    && k < |s.block.data| && b == s.block.data[k]
  }

  /** A Write at stream offset `at` stored `b` at in-block offset `uint32(at) % blockSize` of the block
      ensureBlock left buffered, changing no other byte, raising the tail by one if that offset was past
      it, and keeping the block's identity. */
  ghost predicate WroteAt(s: WriteStep, at: int, b: byte)
  {
    && s.ensured.current == Some(s.before) && s.blockSize == s.ensured.meta.blockSize
    && Stored(s.before, s.after, s.blockSize, s.pos, at, b)
  }

  /** `after` is `before` with `b` stored at in-block offset `pos == uint32(at) % blockSize`, the tail raised
      by one if `pos` was past it, and the same group, file and index. */
  ghost predicate Stored(before: BlockData, after: BlockData, blockSize: u32, pos: nat, at: int, b: byte)
  {
    && blockSize > 0
    && pos == Rem(at % U32_LIMIT, blockSize as int)
    && pos < |before.data|
    && after.data == before.data[pos := b]
    && after.tail as int == (if pos > before.tail as int then before.tail as int + 1 else before.tail as int)
    && after.group == before.group && after.file == before.file && after.index == before.index
  }

  /** Position `k` of a Read that started at stream offset `orig` read `bytes[k]`, for every position. */
  ghost predicate ReadEach(steps: seq<ReadStep>, orig: u64, bytes: seq<byte>)
  {
    |steps| == |bytes| && forall k :: 0 <= k < |steps| ==> ReadAt(steps[k], orig as int + k, k, bytes[k])
  }

  lemma ReadEachSnoc(steps: seq<ReadStep>, orig: u64, bytes: seq<byte>, s: ReadStep, i: nat, b: byte)
    requires ReadEach(steps, orig, bytes) && |steps| == i
    requires ReadAt(s, orig as int + i, i, b)
    ensures ReadEach(steps + [s], orig, bytes + [b])
  {
    forall k | 0 <= k < |steps| + 1
      ensures ReadAt((steps + [s])[k], orig as int + k, k, (bytes + [b])[k])
    {
      if k < |steps| {
        assert (steps + [s])[k] == steps[k] && (bytes + [b])[k] == bytes[k];
      }
    }
  }

  /** Position `k` of a Write that started at stream offset `orig` stored `bytes[k]`, for every position. */
  ghost predicate WroteEach(steps: seq<WriteStep>, orig: u64, bytes: seq<byte>)
  {
    |steps| == |bytes| && forall k :: 0 <= k < |steps| ==> WroteAt(steps[k], orig as int + k, bytes[k])
  }

  /** The byte part of a Read position at stream offset `at` and buffer index `k` panics on the stream `v`:
      the block size is zero, no block is buffered, or the in-block offset lies within the tail and `k` is
      past the block's data. */
  ghost predicate ReadByteCrashes(v: View, at: int, k: nat)
  {
    || v.meta.blockSize == 0 || v.current.None?
    || (Rem(at % U32_LIMIT, v.meta.blockSize as int) <= v.current.value.tail as int && k >= |v.current.value.data|)
  }

  /** The byte part of a Write position at stream offset `at` panics on the stream `v`: the block size is
      zero, no block is buffered, or the in-block offset is past the block's data. */
  ghost predicate WriteByteCrashes(v: View, at: int)
  {
    || v.meta.blockSize == 0 || v.current.None?
    || Rem(at % U32_LIMIT, v.meta.blockSize as int) >= |v.current.value.data|
  }

  /** A Read position from the stream `from` at cursor `orig + k` panics: in ensureBlock, or in its byte
      part on the stream ensureBlock left. */
  ghost predicate ReadCrashesAt(net: Network, volume: Option<Volume>, group: u64, from: View, orig: u64, k: nat, now: u64)
  {
    var e := EnsureSpec(net, volume, group, from.meta, from.current, from.dirty, Advance(orig, k), now);
    (e.r.Err? && e.r.error.Crashed?) || ReadByteCrashes(EnsuredView(e), orig as int + k, k)
  }

  /** A Write position from the stream `from` at cursor `orig + k` panics: in ensureBlock, or in its byte
      part on the stream ensureBlock left. */
  ghost predicate WriteCrashesAt(net: Network, volume: Option<Volume>, group: u64, from: View, orig: u64, k: nat, now: u64)
  {
    var e := EnsureSpec(net, volume, group, from.meta, from.current, from.dirty, Advance(orig, k), now);
    (e.r.Err? && e.r.error.Crashed?) || WriteByteCrashes(EnsuredView(e), orig as int + k)
  }

  /** No position a Read got through panics: each ensured its block without a crash and then read within
      that block. */
  lemma ReadEachNoCrash(net: Network, volume: Option<Volume>, group: u64, start: View, orig: u64, now: u64,
                        steps: seq<ReadStep>, bytes: seq<byte>, k: nat)
    requires ReadTrace(net, volume, group, start, orig, now, steps) && ReadEach(steps, orig, bytes)
    requires k < |steps|
    ensures !ReadCrashesAt(net, volume, group, AfterReads(start, steps[..k]), orig, k, now)
  {
    ReadTraceAt(net, volume, group, start, orig, now, steps, k);
    assert ReadAt(steps[k], orig as int + k, k, bytes[k]);
  }

  /** The position where a Read stops does not panic either: its in-block offset lies past the tail. */
  lemma StopNoCrash(net: Network, volume: Option<Volume>, group: u64, start: View, orig: u64, now: u64,
                    steps: seq<ReadStep>, s: ReadStep)
    requires StopsAt(net, volume, group, start, orig, now, steps, s)
    ensures !ReadCrashesAt(net, volume, group, AfterReads(start, steps), orig, |steps|, now)
  {
  }

  /** No position a Write got through panics: each ensured its block without a crash and then stored its
      byte within that block. */
  lemma WroteEachNoCrash(net: Network, volume: Option<Volume>, group: u64, start: View, orig: u64, now: u64,
                         steps: seq<WriteStep>, bytes: seq<byte>, k: nat)
    requires WriteTrace(net, volume, group, start, orig, now, steps) && WroteEach(steps, orig, bytes)
    requires k < |steps|
    ensures !WriteCrashesAt(net, volume, group, AfterWrites(start, steps[..k]), orig, k, now)
  {
    WriteTraceAt(net, volume, group, start, orig, now, steps, k);
    assert WroteAt(steps[k], orig as int + k, bytes[k]);
  }

  lemma WroteEachSnoc(steps: seq<WriteStep>, orig: u64, bytes: seq<byte>, s: WriteStep, i: nat, b: byte)
    requires WroteEach(steps, orig, bytes) && |steps| == i
    requires WroteAt(s, orig as int + i, b)
    ensures WroteEach(steps + [s], orig, bytes + [b])
  {
    forall k | 0 <= k < |steps| + 1
      ensures WroteAt((steps + [s])[k], orig as int + k, (bytes + [b])[k])
    {
      if k < |steps| {
        assert (steps + [s])[k] == steps[k] && (bytes + [b])[k] == bytes[k];
      }
    }
  }

  class FileStream {
    var offset: u64
    var meta: FileMeta
    var current: Option<BlockData>
    var dirty: bool
    const volume: Option<Volume>
    const net: Network
    /** The group every request of the stream is addressed to. */
    const group: u64

    constructor (net: Network, group: u64, meta: FileMeta, volume: Option<Volume>)
      ensures offset == 0 && this.meta == meta && current.None? && !dirty
      ensures this.volume == volume && this.net == net && this.group == group
    {
      this.offset := 0;
      this.meta := meta;
      this.current := None;
      this.dirty := false;
      this.volume := volume;
      this.net := net;
      this.group := group;
    }

    /** newBlock: returns the adopted meta and the commit contract it submitted. */
    method NewBlock(file: Bytes, index: u64, now: u64) returns (r: Result<FileMeta>, sent: Option<CommitBlockContract>)
      ensures Placed(r, sent) == NewBlockSpec(net, volume, group, file, index, now)
    {
      if !net.membersReached {
        return Err(Refused(NULL_SUGGESTION)), None;
      }
      if volume.None? {
        return Err(Crashed(NO_VOLUME)), None;
      }
      var num := (volume.value.replications as int * 2 % U32_LIMIT) as u32;
      var replies := net.suggestReplies(num);
      var k := 0;
      while k < |replies|
        invariant 0 <= k <= |replies|
        invariant SuggestPanics(replies, net.marshalHost) == SuggestPanics(replies[k..], net.marshalHost)
      {
        assert replies[k..][1..] == replies[k + 1..];
        if replies[k].None? {
          return Err(Crashed(SUGGEST_PANIC)), None;
        }
        var feature := HashHostStash(replies[k].value, net.marshalHost);
        if feature.None? {
          return Err(Crashed(SUGGEST_PANIC)), None;
        }
        k := k + 1;
      }
      var suggestion := net.suggest(num);
      if suggestion.None? {
        return Err(Refused(NULL_SUGGESTION)), None;
      }
      var hosts := suggestion.value;
      var req := CreateBlockRequest(group, index, file);
      var replicas: seq<u64> := [];
      var i := 0;
      while i < |hosts|
        invariant 0 <= i <= |hosts|
        invariant Placement(net, hosts[..i], req) == Ok(replicas)
      {
        assert hosts[..i + 1][..i] == hosts[..i] && hosts[..i + 1][i] == hosts[i];
        if !net.hostReachable(hosts[i].hostId) {
          PlacementConcat(net, hosts[..i + 1], hosts[i + 1..], req);
          assert hosts[..i + 1] + hosts[i + 1..] == hosts;
          return Err(Crashed(HOST_UNREACHABLE)), None;
        }
        var res := net.createBlock(hosts[i].hostId, req);
        if res.Some? && res.value.succeed {
          replicas := replicas + [hosts[i].hostId];
        }
        i := i + 1;
      }
      assert hosts[..i] == hosts;
      if replicas == [] {
        return Err(Refused(NO_REPLICAS)), None;
      }
      var contract := CommitBlockContract(index, now, replicas, file);
      var reply := net.commit(contract);
      if reply.None? {
        return Err(Refused(COMMIT_UNANSWERED)), Some(contract);
      }
      if |reply.value| <= 1 {
        return Err(Refused(COMMIT_FAILED)), Some(contract);
      }
      var decoded := net.decodeMeta(reply.value);
      if decoded.None? {
        return Err(Refused(UNDECODABLE_META)), Some(contract);
      }
      return Ok(decoded.value), Some(contract);
    }

    /** LandWrite: sends a dirty buffer to every host of its block and clears the dirty flag, whatever the
        hosts answer. */
    method LandWrite() returns (r: Result<seq<u64>>)
      modifies this
      ensures r == LandSpec(net, meta, current, old(dirty))
      ensures dirty == (old(dirty) && r.Err?)
      ensures offset == old(offset) && meta == old(meta) && current == old(current)
    {
      if !dirty {
        return Ok([]);
      }
      if current.None? {
        return Err(Crashed(LAND_NIL_BLOCK));
      }
      var index := current.value.index;
      if index as int >= |meta.blocks| {
        return Err(Crashed(BLOCK_RECORD_MISSING));
      }
      var hostIds := meta.blocks[index].hosts;
      var sent: seq<u64> := [];
      var k := 0;
      while k < |hostIds|
        invariant 0 <= k <= |hostIds|
        invariant sent == hostIds[..k]
        invariant forall j :: 0 <= j < k ==> net.hostReachable(hostIds[j])
      {
        if !net.hostReachable(hostIds[k]) {
          return Err(Crashed(HOST_UNREACHABLE));
        }
        sent := sent + [hostIds[k]];
        k := k + 1;
      }
      assert hostIds[..k] == hostIds;
      dirty := false;
      return Ok(sent);
    }

    /** getBlock. */
    method GetBlock(index: u64) returns (r: Result<()>, sentTo: seq<u64>)
      modifies this
      ensures Fetched(current, dirty, r, sentTo) == FetchSpec(net, meta, old(current), old(dirty), index)
      ensures offset == old(offset) && meta == old(meta)
    {
      if current.Some? && current.value.index == index {
        return Ok(()), [];
      }
      var landed := LandWrite();
      if landed.Err? {
        return Err(landed.error), [];
      }
      var block := net.getBlock(index, meta.key);
      if block.None? {
        return Err(Refused(NO_BLOCK_DATA)), landed.value;
      }
      current := Some(block.value);
      return Ok(()), landed.value;
    }

    /** The block-creation loop of ensureBlock. */
    method GrowBlocks(target: u64, now: u64) returns (err: Option<Error>, requested: seq<nat>)
      modifies this
      ensures var g := Grow(net, volume, group, old(meta), |old(meta).blocks|, target, now);
        meta == g.meta && err == g.err && requested == g.requested
      ensures current == old(current) && dirty == old(dirty) && offset == old(offset)
    {
      ghost var g0 := Grow(net, volume, group, meta, |meta.blocks|, target, now);
      requested := [];
      var i: nat := |meta.blocks|;
      while i <= target as int
        invariant current == old(current) && dirty == old(dirty) && offset == old(offset)
        invariant var g := Grow(net, volume, group, meta, i, target, now); g0 == Grown(g.meta, g.err, requested + g.requested)
        decreases target as int + 1 - i
      {
        var m, _ := NewBlock(meta.key, i as u64, now);
        if m.Err? {
          GrowFailed(net, volume, group, meta, i, target, now);
          return Some(m.error), requested + [i];
        }
        GrowCreated(net, volume, group, meta, i, target, now, m.value);
        var g := Grow(net, volume, group, m.value, i + 1, target, now);
        assert requested + ([i] + g.requested) == (requested + [i]) + g.requested;
        requested := requested + [i];
        meta := m.value;
        i := i + 1;
      }
      assert requested + [] == requested;
      return None, requested;
    }

    /** The part of ensureBlock after the first block exists. */
    method FinishBlocks(target: u64, now: u64) returns (r: Result<()>, requested: seq<nat>)
      modifies this
      ensures Ensured(meta, current, dirty, r, requested) ==
        Finish(net, volume, group, old(meta), old(current), old(dirty), target, now)
      ensures offset == old(offset)
    {
      var err;
      err, requested := GrowBlocks(target, now);
      if err.Some? {
        return Err(err.value), requested;
      }
      var fr, _ := GetBlock(target);
      if fr.Err? && fr.error.Crashed? {
        return fr, requested;
      }
      return Ok(()), requested;
    }

    /** ensureBlock. */
    method EnsureBlock(now: u64) returns (r: Result<()>, requested: seq<nat>)
      modifies this
      ensures Ensured(meta, current, dirty, r, requested) ==
        EnsureSpec(net, volume, group, old(meta), old(current), old(dirty), old(offset), now)
      ensures offset == old(offset)
    {
      if meta.blockSize == 0 {
        return Err(Crashed(DIVIDE_BY_ZERO)), [];
      }
      var target := offset / meta.blockSize as u64;
      QuotRem(offset as int, meta.blockSize as int);
      if current.Some? && current.value.index == target {
        return Ok(()), [];
      }
      if |meta.blocks| == 0 {
        var m, _ := NewBlock(meta.key, 0, now);
        if m.Err? {
          return Err(m.error), [0];
        }
        meta := m.value;
        var grown;
        r, grown := FinishBlocks(target, now);
        requested := [0] + grown;
      } else {
        r, requested := FinishBlocks(target, now);
      }
    }

    /** ensureBlock as Read and Write call it: they ignore its errors, so only a crash stops them; the
        stream is left as ensureBlock leaves it either way. */
    method EnsureCursorBlock(now: u64) returns (crash: Option<Error>)
      modifies this
      ensures offset == old(offset)
      ensures var e := EnsureSpec(net, volume, group, old(meta), old(current), old(dirty), old(offset), now);
        && View(meta, current, dirty) == EnsuredView(e)
        && (crash.Some? <==> e.r.Err? && e.r.error.Crashed?)
        && (crash.Some? ==> crash.value == e.r.error)
    {
      var r, _ := EnsureBlock(now);
      crash := if r.Err? && r.error.Crashed? then Some(r.error) else None;
    }

    /** Seek: moves the cursor to `pos` and ensures the block holding it. */
    method Seek(pos: u64, now: u64) returns (r: Result<()>, requested: seq<nat>)
      modifies this
      ensures offset == pos
      ensures Ensured(meta, current, dirty, r, requested) ==
        EnsureSpec(net, volume, group, old(meta), old(current), old(dirty), pos, now)
    {
      offset := pos;
      r, requested := EnsureBlock(now);
    }

    /** `fs.Offset++`: moves the cursor one byte on, wrapping around like a uint64; nothing else changes. */
    method MoveCursor(ghost orig: u64, ghost n: nat)
      modifies this
      requires offset == Advance(orig, n)
      ensures offset == Advance(orig, n + 1)
      ensures meta == old(meta) && current == old(current) && dirty == old(dirty)
    {
      AdvanceStep(orig, n);
      offset := ((offset as int + 1) % U64_LIMIT) as u64;
    }

    /** The byte part of one Read position, on the buffered block: the in-block offset of cursor `orig + i`,
        whether it lies past the tail, and otherwise byte `i` of the block. A zero block size, a nil buffer
        and an index out of range are crashes. */
    method ReadByte(orig: u64, i: nat) returns (crash: Option<Error>, stopped: bool, b: byte, ghost pos: nat)
      ensures crash.Some? <==> ReadByteCrashes(View(meta, current, dirty), orig as int + i, i)
      ensures crash.Some? ==> crash.value.Crashed?
      ensures crash.None? ==>
        && meta.blockSize > 0 && current.Some?
        && pos == Rem((orig as int + i) % U32_LIMIT, meta.blockSize as int)
        && (stopped <==> pos > current.value.tail as int)
        && (!stopped ==> i < |current.value.data| && b == current.value.data[i])
    {
      crash, stopped, b, pos := None, false, 0, 0;
      if meta.blockSize == 0 {
        return Some(Crashed(DIVIDE_BY_ZERO)), stopped, b, pos;
      }
      if current.None? {
        return Some(Crashed(NIL_BLOCK)), stopped, b, pos;
      }
      var offsetInBlock := ((orig as int + i) % U32_LIMIT) % meta.blockSize as int;
      QuotRem((orig as int + i) % U32_LIMIT, meta.blockSize as int);
      pos := offsetInBlock;
      if offsetInBlock > current.value.tail as int {
        return None, true, b, pos;
      }
      if i >= |current.value.data| {
        return Some(Crashed(INDEX_OUT_OF_RANGE)), stopped, b, pos;
      }
      b := current.value.data[i];
    }

    /** One position of Read, at cursor `orig + i`: ensures the block of the cursor, then reads from the
        buffered block, extending the trace of the positions before it. */
    method ReadPosition(orig: u64, i: nat, now: u64, ghost from: View)
      returns (crash: Option<Error>, stopped: bool, b: byte, ghost step: ReadStep)
      modifies this
      requires offset == Advance(orig, i) && View(meta, current, dirty) == from
      ensures offset == old(offset)
      ensures crash.Some? <==> ReadCrashesAt(net, volume, group, from, orig, i, now)
      ensures crash.Some? ==> crash.value.Crashed?
      ensures crash.None? ==>
        && step.from == from
        && EnsuredFor(net, volume, group, step.from, Advance(orig, i), now, step.ensured)
        && View(meta, current, dirty) == EnsuredView(step.ensured)
        && ReadsResident(step, orig as int + i)
        && (stopped <==> step.pos > step.block.tail as int)
        && (!stopped ==> i < |step.block.data| && b == step.block.data[i])
    {
      ghost var e := EnsureSpec(net, volume, group, meta, current, dirty, offset, now);
      stopped, b := false, 0;
      step := ReadStep(from, e, 0, 0, BlockData(0, [], 0, [], 0));
      crash := EnsureCursorBlock(now);
      if crash.Some? {
        return;
      }
      ghost var pos;
      crash, stopped, b, pos := ReadByte(orig, i);
      if crash.Some? {
        return;
      }
      step := ReadStep(from, e, meta.blockSize, pos, current.value);
    }

    /** The rest of a Read position that did not stop: copies the byte into the buffer and moves the cursor
        on, except after the last position. */
    method StoreRead(buf: array<byte>, orig: u64, i: nat, b: byte, ghost steps: seq<ReadStep>, ghost step: ReadStep)
      modifies this, buf
      requires i < buf.Length && |steps| == i && offset == Advance(orig, i)
      requires ReadEach(steps, orig, buf[..i])
      requires ReadAt(step, orig as int + i, i, b)
      ensures ReadEach(steps + [step], orig, buf[..i + 1])
      ensures forall k :: i < k < buf.Length ==> buf[k] == old(buf[k])
      ensures offset == Advance(orig, if i + 1 == buf.Length then i else i + 1)
      ensures meta == old(meta) && current == old(current) && dirty == old(dirty)
    {
      ghost var prefix := buf[..i];
      ReadEachSnoc(steps, orig, prefix, step, i, b);
      buf[i] := b;
      assert buf[..i + 1] == prefix + [b];
      if i < buf.Length - 1 {
        MoveCursor(orig, i);
      }
    }

    /** Position `i` of the Read loop: it panics, or stops, or copies its byte and moves the cursor on. */
    method ReadNext(buf: array<byte>, orig: u64, i: nat, now: u64, ghost start: View, ghost steps: seq<ReadStep>)
      returns (crash: Option<Error>, stopped: bool, ghost step: ReadStep)
      modifies this, buf
      requires i < buf.Length && |steps| == i && offset == Advance(orig, i)
      requires ReadEach(steps, orig, buf[..i])
      requires ReadTrace(net, volume, group, start, orig, now, steps)
      requires View(meta, current, dirty) == AfterReads(start, steps)
      ensures forall k :: i < k < buf.Length ==> buf[k] == old(buf[k])
      ensures crash.Some? || stopped ==> buf[..] == old(buf[..])
      ensures crash.Some? ==>
        && crash.value.Crashed? && ReadCrashesAt(net, volume, group, AfterReads(start, steps), orig, i, now)
        && ReadEach(steps, orig, buf[..i])
      ensures crash.None? && stopped ==>
        && offset == Advance(orig, i)
        && StopsAt(net, volume, group, start, orig, now, steps, step)
        && View(meta, current, dirty) == EnsuredView(step.ensured)
      ensures crash.None? && !stopped ==>
        && ReadEach(steps + [step], orig, buf[..i + 1])
        && ReadTrace(net, volume, group, start, orig, now, steps + [step])
        && View(meta, current, dirty) == AfterReads(start, steps + [step])
        && offset == Advance(orig, if i + 1 == buf.Length then i else i + 1)
    {
      var b;
      crash, stopped, b, step := ReadPosition(orig, i, now, AfterReads(start, steps));
      if crash.Some? {
        return;
      }
      if stopped {
        ReadStops(net, volume, group, start, orig, now, steps, i, step);
        return;
      }
      ReadContinues(net, volume, group, start, orig, now, steps, i, step, b);
      StoreRead(buf, orig, i, b, steps, step);
    }

    /** The loop of Read, from cursor `orig` on a stream that stands at `start`. */
    method ReadLoop(buf: array<byte>, orig: u64, now: u64, ghost start: View)
      returns (r: Result<nat>, ghost steps: seq<ReadStep>, ghost stop: Option<ReadStep>)
      modifies this, buf
      requires offset == orig && View(meta, current, dirty) == start
      ensures r.Err? ==>
        && r.error.Crashed?
        && |steps| < buf.Length && ReadEach(steps, orig, buf[..|steps|])
        && ReadTrace(net, volume, group, start, orig, now, steps)
        && ReadCrashesAt(net, volume, group, AfterReads(start, steps), orig, |steps|, now)
      ensures r.Ok? ==>
        && r.value <= buf.Length
        && ReadEach(steps, orig, buf[..r.value])
        && (forall k :: r.value <= k < buf.Length ==> buf[k] == old(buf[k]))
        && (r.value < buf.Length <==> stop.Some?)
        && ReadTrace(net, volume, group, start, orig, now, steps)
        && (stop.Some? ==> StopsAt(net, volume, group, start, orig, now, steps, stop.value))
        && View(meta, current, dirty) == (if stop.Some? then EnsuredView(stop.value.ensured) else AfterReads(start, steps))
        && offset == Advance(orig, if stop.None? && r.value > 0 then r.value - 1 else r.value)
    {
      steps, stop := [], None;
      var i: nat := 0;
      while i < buf.Length
        invariant i <= buf.Length && |steps| == i
        invariant offset == Advance(orig, if i == buf.Length && i > 0 then i - 1 else i)
        invariant ReadEach(steps, orig, buf[..i])
        invariant forall k :: i <= k < buf.Length ==> buf[k] == old(buf[k])
        invariant ReadTrace(net, volume, group, start, orig, now, steps)
        invariant View(meta, current, dirty) == AfterReads(start, steps)
        decreases buf.Length - i
      {
        var crash, stopped, step := ReadNext(buf, orig, i, now, start, steps);
        if crash.Some? {
          return Err(crash.value), steps, stop;
        }
        if stopped {
          stop := Some(step);
          break;
        }
        steps := steps + [step];
        i := i + 1;
      }
      return Ok(i), steps, stop;
    }

    /** Read: fills `buf` position by position from the buffered block, ensuring the block of the cursor
        before each position, until the in-block offset passes the block's tail. As written, position `i`
        of the buffer takes byte `i` of the block. The cursor moves one byte per position except after
        the last one. A crash (a nil buffer block, an index out of range, a zero block size) is an error. */
    method Read(buf: array?<byte>, now: u64) returns (r: Result<nat>, ghost steps: seq<ReadStep>, ghost stop: Option<ReadStep>)
      modifies this, buf
      ensures buf == null ==>
        r.Err? && r.error.Refused? && offset == old(offset) && meta == old(meta) && current == old(current) && dirty == old(dirty)
      ensures r.Ok? ==> buf != null
      ensures buf != null && r.Err? ==>
        && r.error.Crashed?
        && |steps| < buf.Length && ReadEach(steps, old(offset), buf[..|steps|])
        && ReadTrace(net, volume, group, View(old(meta), old(current), old(dirty)), old(offset), now, steps)
        && ReadCrashesAt(net, volume, group, AfterReads(View(old(meta), old(current), old(dirty)), steps), old(offset), |steps|, now)
      ensures r.Ok? ==>
        && r.value <= buf.Length
        && ReadEach(steps, old(offset), buf[..r.value])
        && (forall k :: r.value <= k < buf.Length ==> buf[k] == old(buf[k]))
        && (r.value < buf.Length <==> stop.Some?)
        && ReadTrace(net, volume, group, View(old(meta), old(current), old(dirty)), old(offset), now, steps)
        && (stop.Some? ==> StopsAt(net, volume, group, View(old(meta), old(current), old(dirty)), old(offset), now, steps, stop.value))
        && View(meta, current, dirty) ==
             (if stop.Some? then EnsuredView(stop.value.ensured) else AfterReads(View(old(meta), old(current), old(dirty)), steps))
        && offset == Advance(old(offset), if stop.None? && r.value > 0 then r.value - 1 else r.value)
    {
      if buf == null {
        return Err(Refused(NIL_BUFFER)), [], None;
      }
      r, steps, stop := ReadLoop(buf, offset, now, View(meta, current, dirty));
    }

    /** The byte part of one Write position, on the buffered block: marks the stream dirty and stores `b` at
        the in-block offset of cursor `orig + i`, raising the tail when the offset passes it. A zero block
        size, a nil buffer and an index out of range are crashes. */
    method WriteByte(orig: u64, i: nat, b: byte) returns (crash: Option<Error>, ghost pos: nat, ghost before: BlockData,
                                                           ghost after: BlockData)
      modifies this
      ensures offset == old(offset) && meta == old(meta) && dirty
      ensures crash.Some? <==> WriteByteCrashes(View(old(meta), old(current), old(dirty)), orig as int + i)
      ensures crash.Some? ==> crash.value.Crashed? && current == old(current)
      ensures crash.None? ==>
        && old(current) == Some(before) && current == Some(after)
        && Stored(before, after, meta.blockSize, pos, orig as int + i, b)
    {
      crash, pos, before, after := None, 0, BlockData(0, [], 0, [], 0), BlockData(0, [], 0, [], 0);
      dirty := true;
      if meta.blockSize == 0 {
        return Some(Crashed(DIVIDE_BY_ZERO)), pos, before, after;
      }
      var offsetInBlock := ((orig as int + i) % U32_LIMIT) % meta.blockSize as int;
      QuotRem((orig as int + i) % U32_LIMIT, meta.blockSize as int);
      pos := offsetInBlock;
      if current.None? {
        return Some(Crashed(NIL_BLOCK)), pos, before, after;
      }
      var block := current.value;
      before := block;
      var tail := if offsetInBlock > block.tail as int then block.tail + 1 else block.tail;
      if offsetInBlock >= |block.data| {
        return Some(Crashed(INDEX_OUT_OF_RANGE)), pos, before, after;
      }
      var updated := block.(data := block.data[offsetInBlock := b], tail := tail);
      current := Some(updated);
      after := updated;
    }

    /** One position of Write, at cursor `orig + i`: ensures the block of the cursor, then stores `b` in the
        buffered block, extending the trace of the positions before it. */
    method WritePosition(orig: u64, i: nat, b: byte, now: u64, ghost from: View) returns (crash: Option<Error>, ghost step: WriteStep)
      modifies this
      requires offset == Advance(orig, i) && View(meta, current, dirty) == from
      ensures offset == old(offset)
      ensures crash.Some? <==> WriteCrashesAt(net, volume, group, from, orig, i, now)
      ensures crash.Some? ==> crash.value.Crashed?
      ensures crash.None? ==>
        && step.from == from
        && EnsuredFor(net, volume, group, step.from, Advance(orig, i), now, step.ensured)
        && WroteAt(step, orig as int + i, b)
        && View(meta, current, dirty) == WriteNext(step)
    {
      ghost var e := EnsureSpec(net, volume, group, meta, current, dirty, offset, now);
      step := WriteStep(from, e, 0, 0, BlockData(0, [], 0, [], 0), BlockData(0, [], 0, [], 0));
      crash := EnsureCursorBlock(now);
      if crash.Some? {
        return;
      }
      ghost var pos, before, after;
      crash, pos, before, after := WriteByte(orig, i, b);
      if crash.Some? {
        return;
      }
      step := WriteStep(from, e, meta.blockSize, pos, before, after);
    }

    /** The loop of Write, from cursor `orig` on a stream that stands at `start`. */
    method WriteLoop(buf: array<byte>, orig: u64, now: u64, ghost start: View)
      returns (r: Result<nat>, ghost steps: seq<WriteStep>)
      modifies this
      requires offset == orig && View(meta, current, dirty) == start
      ensures r.Err? ==>
        && r.error.Crashed?
        && |steps| < buf.Length && WroteEach(steps, orig, buf[..|steps|])
        && WriteTrace(net, volume, group, start, orig, now, steps)
        && WriteCrashesAt(net, volume, group, AfterWrites(start, steps), orig, |steps|, now)
      ensures r.Ok? ==>
        && r.value == buf.Length
        && WroteEach(steps, orig, buf[..])
        && WriteTrace(net, volume, group, start, orig, now, steps)
        && View(meta, current, dirty) == AfterWrites(start, steps)
        && offset == Advance(orig, if r.value > 0 then r.value - 1 else 0)
    {
      steps := [];
      var i: nat := 0;
      while i < buf.Length
        invariant i <= buf.Length && |steps| == i
        invariant offset == Advance(orig, if i == buf.Length && i > 0 then i - 1 else i)
        invariant WroteEach(steps, orig, buf[..i])
        invariant WriteTrace(net, volume, group, start, orig, now, steps)
        invariant View(meta, current, dirty) == AfterWrites(start, steps)
        decreases buf.Length - i
      {
        var crash, step := WritePosition(orig, i, buf[i], now, AfterWrites(start, steps));
        if crash.Some? {
          return Err(crash.value), steps;
        }
        WriteTraceSnoc(net, volume, group, start, orig, now, steps, i, step);
        WroteEachSnoc(steps, orig, buf[..i], step, i, buf[i]);
        assert buf[..i + 1] == buf[..i] + [buf[i]];
        steps := steps + [step];
        if i < buf.Length - 1 {
          MoveCursor(orig, i);
        }
        i := i + 1;
      }
      assert buf[..i] == buf[..];
      return Ok(i), steps;
    }

    /** Write: stores byte `i` of `buf` at in-block offset `uint32(orig + i) % blockSize` of the block of the
        cursor, raising the block's tail by one when that offset passes it, and marks the stream dirty. The
        cursor moves one byte per position except after the last one. */
    method Write(buf: array?<byte>, now: u64) returns (r: Result<nat>, ghost steps: seq<WriteStep>)
      modifies this
      ensures buf == null ==>
        r.Err? && r.error.Refused? && offset == old(offset) && meta == old(meta) && current == old(current) && dirty == old(dirty)
      ensures r.Ok? ==> buf != null
      ensures buf != null && r.Err? ==>
        && r.error.Crashed?
        && |steps| < buf.Length && WroteEach(steps, old(offset), buf[..|steps|])
        && WriteTrace(net, volume, group, View(old(meta), old(current), old(dirty)), old(offset), now, steps)
        && WriteCrashesAt(net, volume, group, AfterWrites(View(old(meta), old(current), old(dirty)), steps), old(offset), |steps|, now)
      ensures r.Ok? ==>
        && r.value == buf.Length
        && WroteEach(steps, old(offset), buf[..])
        && WriteTrace(net, volume, group, View(old(meta), old(current), old(dirty)), old(offset), now, steps)
        && View(meta, current, dirty) == AfterWrites(View(old(meta), old(current), old(dirty)), steps)
        && offset == Advance(old(offset), if r.value > 0 then r.value - 1 else 0)
    {
      if buf == null {
        return Err(Refused(NIL_BUFFER)), [];
      }
      r, steps := WriteLoop(buf, offset, now, View(meta, current, dirty));
    }
  }

  /** Index of the last '/' of `p`, or -1 when it has none. */
  function LastSlash(p: string): (i: int)
    ensures -1 <= i < |p|
    ensures i >= 0 ==> p[i] == '/'
    ensures forall k :: i < k < |p| ==> p[k] != '/'
    decreases |p|
  {
    if p == [] then -1
    else if p[|p| - 1] == '/' then |p| - 1
    else LastSlash(p[..|p| - 1])
  }

  /** Go's path.Split: the directory up to and including the last '/', and the file name after it. */
  function SplitPath(p: string): (string, string)
  {
    var i := LastSlash(p);
    (p[..i + 1], p[i + 1..])
  }

  /** The two parts of a split path give the path back; the name holds no '/', and the directory part is
      empty or ends with '/'. */
  lemma SplitPathParts(p: string)
    ensures SplitPath(p).0 + SplitPath(p).1 == p
    ensures '/' !in SplitPath(p).1
    ensures SplitPath(p).0 == [] || SplitPath(p).0[|SplitPath(p).0| - 1] == '/'
  {
    var i := LastSlash(p);
    var dir, name := p[..i + 1], p[i + 1..];
    assert SplitPath(p) == (dir, name);
    assert dir + name == p;
    forall k | 0 <= k < |name| ensures name[k] != '/' {
      assert name[k] == p[i + 1 + k];
    }
    if dir != [] {
      assert dir[|dir| - 1] == p[i];
    }
  }

  /** The first FILE entry of a listing with the given name. */
  function FindFile(items: seq<DirectoryItem>, name: string): Option<FileMeta>
    decreases |items|
  {
    if items == [] then None
    else if items[0].FileItem? && items[0].file.name == name then Some(items[0].file)
    else FindFile(items[1..], name)
  }

  /** FindFile finds a file exactly when some FILE entry has the name, and then it is the first such one. */
  lemma {:induction false} FindFileFirst(items: seq<DirectoryItem>, name: string)
    ensures FindFile(items, name).None? <==> forall j :: 0 <= j < |items| ==> !(items[j].FileItem? && items[j].file.name == name)
    ensures FindFile(items, name).Some? ==>
      exists j :: 0 <= j < |items| && items[j] == FileItem(FindFile(items, name).value) && FindFile(items, name).value.name == name
        && forall j' :: 0 <= j' < j ==> !(items[j'].FileItem? && items[j'].file.name == name)
    decreases |items|
  {
    if items != [] && !(items[0].FileItem? && items[0].file.name == name) {
      FindFileFirst(items[1..], name);
      forall j | 0 < j < |items| ensures items[j] == items[1..][j - 1] { }
      if FindFile(items, name).Some? {
        var j :| 0 <= j < |items[1..]| && items[1..][j] == FileItem(FindFile(items, name).value)
          && FindFile(items, name).value.name == name
          && forall j' :: 0 <= j' < j ==> !(items[1..][j'].FileItem? && items[1..][j'].file.name == name);
        assert items[j + 1] == FileItem(FindFile(items, name).value);
      }
    } else if items != [] {
      assert items[0] == FileItem(FindFile(items, name).value);
    }
  }

  /** What NewStream opens: the file's meta, the listing's volume, and the attempt whose listing had it. */
  datatype Opening = Opening(meta: FileMeta, volume: Option<Volume>, attempt: nat)

  /** The outcome of NewStream from listing attempt `attempt`: the file when the listing has it; otherwise,
      after a touch the group confirms with a reply starting with 1, the outcome of the next attempt while
      `fuel` lasts. */
  function Opened(net: Network, path: string, now: u64, attempt: nat, fuel: nat): Result<Opening>
    decreases fuel
  {
    var (dir, name) := SplitPath(path);
    match net.ls(dir, attempt)
    case None => Err(Refused(NO_DIR))
    case Some(listing) =>
      match FindFile(listing.items, name)
      case Some(m) => Ok(Opening(m, listing.volume, attempt))
      case None =>
        if listing.volume.None? then Err(Crashed(LISTING_NO_VOLUME))
        else match net.touch(TouchFileContract(now, name, listing.key, listing.volume.value.key))
          case None => Err(Refused(TOUCH_UNANSWERED))
          case Some(reply) =>
            if |reply| == 0 then Err(Crashed(EMPTY_TOUCH_REPLY))
            else if reply[0] != 1 then Err(Refused(TOUCH_FAILED))
            else if fuel == 0 then Err(Refused(RETRIES_EXHAUSTED))
            else Opened(net, path, now, attempt + 1, fuel - 1)
  }

  /** A stream that opens holds a FILE entry named by the path's last part, found in the listing of the
      path's directory at some attempt no later than the retries allow, with that listing's volume. */
  lemma {:induction false} OpenedFinds(net: Network, path: string, now: u64, attempt: nat, fuel: nat)
    ensures Opened(net, path, now, attempt, fuel).Ok? ==>
      var o := Opened(net, path, now, attempt, fuel).value;
      var dir, name := SplitPath(path).0, SplitPath(path).1;
      && attempt <= o.attempt <= attempt + fuel
      && net.ls(dir, o.attempt).Some?
      && FindFile(net.ls(dir, o.attempt).value.items, name) == Some(o.meta)
      && o.volume == net.ls(dir, o.attempt).value.volume
      && o.meta.name == name
    decreases fuel
  {
    var dir, name := SplitPath(path).0, SplitPath(path).1;
    var listing := net.ls(dir, attempt);
    if listing.Some? {
      FindFileFirst(listing.value.items, name);
      if FindFile(listing.value.items, name).None? && fuel > 0 {
        OpenedFinds(net, path, now, attempt + 1, fuel - 1);
      }
    }
  }

  /** NewStream: lists the directory of `path` and opens the file named by its last part; when there is
      none, touches it and retries. `attempt` numbers the listings, whose answers may differ as files are
      created; `fuel` bounds the retries. */
  method NewStream(net: Network, group: u64, path: string, now: u64, attempt: nat, fuel: nat)
    returns (r: Result<FileStream>)
    ensures var (dir, name) := SplitPath(path);
      var listing := net.ls(dir, attempt);
      && (listing.None? ==> r.Err?)
      && (listing.Some? && FindFile(listing.value.items, name).Some? ==>
            && r.Ok? && fresh(r.value)
            && r.value.meta == FindFile(listing.value.items, name).value && r.value.volume == listing.value.volume
            && r.value.offset == 0 && r.value.current.None? && !r.value.dirty
            && r.value.net == net && r.value.group == group)
      && (listing.Some? && FindFile(listing.value.items, name).None? && listing.value.volume.None? ==>
            r.Err? && r.error.Crashed?)
      && (listing.Some? && FindFile(listing.value.items, name).None? && listing.value.volume.Some? ==>
            var reply := net.touch(TouchFileContract(now, name, listing.value.key, listing.value.volume.value.key));
            && (reply.None? ==> r.Err?)
            && (reply.Some? && |reply.value| == 0 ==> r.Err? && r.error.Crashed?)
            && (reply.Some? && |reply.value| > 0 && reply.value[0] != 1 ==> r.Err?))
    ensures match Opened(net, path, now, attempt, fuel)
      case Ok(o) => r.Ok? && r.value.meta == o.meta && r.value.volume == o.volume
      case Err(e) => r == Err(e)
    ensures r.Ok? ==>
      && fresh(r.value) && r.value.meta.name == SplitPath(path).1 && r.value.offset == 0
      && r.value.current.None? && !r.value.dirty && r.value.net == net && r.value.group == group
    decreases fuel
  {
    var (dir, name) := SplitPath(path);
    var listing := net.ls(dir, attempt);
    if listing.None? {
      return Err(Refused(NO_DIR));
    }
    var found := FindFile(listing.value.items, name);
    if found.Some? {
      FindFileFirst(listing.value.items, name);
      var fs := new FileStream(net, group, found.value, listing.value.volume);
      return Ok(fs);
    }
    if listing.value.volume.None? {
      return Err(Crashed(LISTING_NO_VOLUME));
    }
    var reply := net.touch(TouchFileContract(now, name, listing.value.key, listing.value.volume.value.key));
    if reply.None? {
      return Err(Refused(TOUCH_UNANSWERED));
    }
    if |reply.value| == 0 {
      return Err(Crashed(EMPTY_TOUCH_REPLY));
    }
    if reply.value[0] != 1 {
      return Err(Refused(TOUCH_FAILED));
    }
    if fuel == 0 {
      return Err(Refused(RETRIES_EXHAUSTED));
    }
    r := NewStream(net, group, path, now, attempt + 1, fuel - 1);
  }
}
