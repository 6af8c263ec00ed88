/** Properties that relate several calls of the handler: the effects each
    variant may have, the single acceptance of a requested snapshot, and a
    complete inbound snapshot transfer. Calls are taken one after another;
    the model makes no claim about two handlers running at the same time. */
module Sessions {
  import opened P2pTypes
  import opened Messages
  import opened NetAdapter
  import opened Protocol
  import TmpName

  // ---------------------------------------------------------------------
  // Effects permitted per variant

  /** The changes each variant may cause: announcements forward exactly
      their own payload, lookups change nothing, and only the two transfer
      variants report progress or touch files. */
  predicate Permitted(msg: Message, peer: PeerInfo, e: Effect)
  {
    match msg
    case Ping(d, h) => e == PeerDifficulty(peer.addr, d, h)
    case Pong(d, h) => e == PeerDifficulty(peer.addr, d, h)
    case TransactionKernel(k) => e == TxKernelReceived(k, peer)
    case Transaction(tx) => e == TransactionReceived(tx, false)
    case StemTransaction(tx) => e == TransactionReceived(tx, true)
    case Block(b) => e == BlockReceived(b, peer, {})
    case CompactBlock(cb) => e == CompactBlockReceived(cb, peer)
    case Header(header) => e == HeaderReceived(header, peer)
    case Headers(headers) => e == HeadersReceived(headers, peer)
    case PeerAddrs(peers) => e == PeerAddrsReceived(peers)
    case TxHashSetArchive(_, _, bytes) =>
      (e.DownloadUpdate? && e.received == 0 && e.total == bytes) || e.CreateNewFile?
    case Attachment(update) =>
      || (e.DownloadUpdate? && e.start == update.meta.startTime && e.total == update.meta.size)
      || e == TxHashSetWrite(update.meta.hash, FileHandle(update.meta.path, Read), peer)
      || e == RemoveFile(update.meta.path)
    case _ => false
  }

  lemma AttachmentPermitted(update: AttachmentUpdate, peer: PeerInfo, adapter: Adapter, env: Env, node: Node)
    ensures var d := HandleAttachment(update, peer, adapter, env, node);
      forall i :: 0 <= i < |d.log| && IsMutation(d.log[i]) ==> Permitted(Message.Attachment(update), peer, d.log[i])
  {
  }

  lemma ArchivePermitted(height: U64, hash: Hash, bytes: U64, peer: PeerInfo, adapter: Adapter, env: Env, node: Node)
    ensures var d := HandleTxHashSetArchive(height, hash, bytes, adapter, env, node);
      forall i :: 0 <= i < |d.log| && IsMutation(d.log[i]) ==> Permitted(TxHashSetArchive(height, hash, bytes), peer, d.log[i])
  {
  }

  /** The variant table, for the `match message` alone. */
  lemma DispatchOnlyPermittedEffects(msg: Message, peer: PeerInfo, adapter: Adapter, env: Env, node: Node)
    ensures var d := Dispatch(msg, peer, adapter, env, node);
      forall i :: 0 <= i < |d.log| && IsMutation(d.log[i]) ==> Permitted(msg, peer, d.log[i])
  {
    match msg
    case Attachment(update) => AttachmentPermitted(update, peer, adapter, env, node);
    case TxHashSetArchive(height, hash, bytes) => ArchivePermitted(height, hash, bytes, peer, adapter, env, node);
    case _ => OtherArmsPermitted(msg, peer, adapter, env, node);
  }

  lemma OtherArmsPermitted(msg: Message, peer: PeerInfo, adapter: Adapter, env: Env, node: Node)
    requires !msg.Attachment? && !msg.TxHashSetArchive?
    ensures var d := Dispatch(msg, peer, adapter, env, node);
      forall i :: 0 <= i < |d.log| && IsMutation(d.log[i]) ==> Permitted(msg, peer, d.log[i])
  {
  }

  /** Queries in front of a log add no mutations to it. */
  lemma PermittedAfterQueries(pre: seq<Effect>, log: seq<Effect>, msg: Message, peer: PeerInfo)
    requires forall i :: 0 <= i < |pre| ==> !IsMutation(pre[i])
    requires forall i :: 0 <= i < |log| && IsMutation(log[i]) ==> Permitted(msg, peer, log[i])
    ensures forall i :: 0 <= i < |pre + log| && IsMutation((pre + log)[i]) ==> Permitted(msg, peer, (pre + log)[i])
  {
    forall i | 0 <= i < |pre + log| && IsMutation((pre + log)[i])
      ensures Permitted(msg, peer, (pre + log)[i])
    {
      assert i >= |pre|;
      assert (pre + log)[i] == log[i - |pre|];
    }
  }

  /** Every change one call makes is one its variant permits; queries
      (`Get*`, `TxHashSetRequest`), `BanReason` and `Unknown` change nothing. */
  lemma ConsumeOnlyPermittedEffects(msg: Message, peer: PeerInfo, chain: ChainConfig, adapter: Adapter, env: Env, node: Node)
    ensures var s := Consume(msg, peer, chain, adapter, env, node);
      forall i :: 0 <= i < |s.log| && IsMutation(s.log[i]) ==> Permitted(msg, peer, s.log[i])
  {
    if peer.addr !in adapter.banned && CheckProtocolVersion(peer, chain, adapter).verdict.Ok? {
      var pre := [IsBanned(peer.addr), TotalHeight];
      var d := Dispatch(msg, peer, adapter, env, node);
      AdmittedStep(msg, peer, chain, adapter, env, node);
      DispatchOnlyPermittedEffects(msg, peer, adapter, env, node);
      PermittedAfterQueries(pre, d.log, msg, peer);
    }
  }

  // ---------------------------------------------------------------------
  // Consecutive calls

  /** One inbound message as the connection layer hands it over, with the
      adapter's answers and the environment at that moment. The deliveries of
      a run go to handlers that share one `state_sync_requested` flag. */
  datatype Delivery = Delivery(msg: Message, peer: PeerInfo, adapter: Adapter, env: Env)

  /** The results, final node state and per-call logs of a run. */
  datatype Trace = Trace(results: seq<Result<Consumed>>, node: Node, logs: seq<seq<Effect>>)

  predicate IsAcceptance(r: Result<Consumed>)
  {
    r.Ok? && r.value.Attachment?
  }

  /** Number of snapshot archives accepted in a run. */
  function Acceptances(results: seq<Result<Consumed>>): nat
  {
    if |results| == 0 then 0
    else (if IsAcceptance(results[0]) then 1 else 0) + Acceptances(results[1..])
  }

  /** The handler applied to each delivery in turn, threading the node state,
      so every call sees the flag the previous one left: the calls are those
      of one handler, or of handlers built with the same flag. The handler
      never raises the flag, so a run accepts at most one archive, and none
      at all unless the flag was up at its start. */
  function Run(ds: seq<Delivery>, chain: ChainConfig, node: Node): (t: Trace)
    ensures |t.results| == |ds| && |t.logs| == |ds|
    ensures t.node.syncRequested ==> node.syncRequested
    ensures Acceptances(t.results) <= (if node.syncRequested then 1 else 0)
    ensures Acceptances(t.results) == 1 ==> !t.node.syncRequested
  {
    if |ds| == 0 then Trace([], node, [])
    else
      var d := ds[0];
      var s := Consume(d.msg, d.peer, chain, d.adapter, d.env, node);
      var rest := Run(ds[1..], chain, s.node);
      Trace([s.result] + rest.results, rest.node, [s.log] + rest.logs)
  }

  lemma RunCons(ds: seq<Delivery>, chain: ChainConfig, node: Node)
    requires |ds| > 0
    ensures var s := Consume(ds[0].msg, ds[0].peer, chain, ds[0].adapter, ds[0].env, node);
      var rest := Run(ds[1..], chain, s.node);
      Run(ds, chain, node) == Trace([s.result] + rest.results, rest.node, [s.log] + rest.logs)
  {
  }

  // ---------------------------------------------------------------------
  // Inbound snapshot transfer

  predicate IsProgress(e: Effect)
  {
    e.DownloadUpdate?
  }

  predicate IsWrite(e: Effect)
  {
    e.TxHashSetWrite?
  }

  /** The conditions under which a peer's messages get past the ban check
      and the version gate. */
  predicate Admitted(peer: PeerInfo, chain: ChainConfig, adapter: Adapter)
  {
    peer.addr !in adapter.banned && CheckProtocolVersion(peer, chain, adapter).verdict.Ok?
  }

  /** The conditions under which the final chunk's file handling succeeds. */
  predicate CanFinish(meta: AttachmentMeta, peer: PeerInfo, adapter: Adapter, env: Env, node: Node)
  {
    && meta.path in node.files
    && OpenFile(meta.path) !in env.ioFaults
    && RemoveFile(meta.path) !in env.ioFaults
    && TxHashSetWrite(meta.hash, FileHandle(meta.path, Read), peer) !in adapter.refusals
  }

  lemma SelectSingleton(e: Effect, P: Effect -> bool)
    ensures Select([e], P) == if P(e) then [e] else []
  {
    assert [e][..0] == [];
  }

  /** `Select` over a log written as a list of single calls. */
  lemma SelectFour(a: Effect, b: Effect, c: Effect, d: Effect, P: Effect -> bool)
    ensures Select([a, b, c, d], P) == Select([a], P) + Select([b], P) + Select([c], P) + Select([d], P)
  {
    assert [a, b, c, d] == [a] + [b] + [c] + [d];
    SelectAppend([a] + [b] + [c], [d], P);
    SelectAppend([a] + [b], [c], P);
    SelectAppend([a], [b], P);
  }

  /** The ban check and the gate report neither progress nor writes. */
  lemma AdmittedPrefix(msg: Message, peer: PeerInfo, chain: ChainConfig, adapter: Adapter, env: Env, node: Node)
    requires Admitted(peer, chain, adapter)
    ensures var s := Consume(msg, peer, chain, adapter, env, node);
      var d := Dispatch(msg, peer, adapter, env, node);
      && s.result == d.result && s.node == d.node
      && Select(s.log, IsProgress) == Select(d.log, IsProgress)
      && Select(s.log, IsWrite) == Select(d.log, IsWrite)
  {
    var gate := CheckProtocolVersion(peer, chain, adapter);
    var pre := [IsBanned(peer.addr)] + gate.log;
    var d := Dispatch(msg, peer, adapter, env, node);
    assert Consume(msg, peer, chain, adapter, env, node).log == pre + d.log;
    SelectNone(pre, IsProgress);
    SelectNone(pre, IsWrite);
    SelectAppend(pre, d.log, IsProgress);
    SelectAppend(pre, d.log, IsWrite);
  }

  /** The final chunk, when the file opens and the write is accepted. */
  lemma FinalChunkLog(meta: AttachmentMeta, peer: PeerInfo, adapter: Adapter, env: Env, node: Node)
    requires CanFinish(meta, peer, adapter, env, node)
    ensures var d := HandleAttachment(AttachmentUpdate(meta, 0), peer, adapter, env, node);
      && d.result == Ok(None)
      && d.node == node.(files := node.files - {meta.path})
      && d.log == [DownloadUpdate(meta.startTime, meta.size, meta.size), OpenFile(meta.path),
                   TxHashSetWrite(meta.hash, FileHandle(meta.path, Read), peer), RemoveFile(meta.path)]
  {
    assert Open(meta.path, node, env) == Ok(FileHandle(meta.path, Read));
  }

  /** Progress and writes in the final chunk's four calls. */
  lemma FinalChunkSelect(p: Effect, path: Path, w: Effect)
    requires p.DownloadUpdate? && w.TxHashSetWrite?
    ensures Select([p, OpenFile(path), w, RemoveFile(path)], IsProgress) == [p]
    ensures Select([p, OpenFile(path), w, RemoveFile(path)], IsWrite) == [w]
  {
    SelectFour(p, OpenFile(path), w, RemoveFile(path), IsProgress);
    SelectFour(p, OpenFile(path), w, RemoveFile(path), IsWrite);
    SelectSingleton(p, IsProgress);
    SelectSingleton(p, IsWrite);
    SelectSingleton(OpenFile(path), IsProgress);
    SelectSingleton(OpenFile(path), IsWrite);
    SelectSingleton(w, IsProgress);
    SelectSingleton(w, IsWrite);
    SelectSingleton(RemoveFile(path), IsProgress);
    SelectSingleton(RemoveFile(path), IsWrite);
  }

  /** The calls one chunk update makes, as far as progress and writes go. */
  lemma AttachmentEffects(meta: AttachmentMeta, left: U64, peer: PeerInfo, adapter: Adapter, env: Env, node: Node)
    requires left <= meta.size
    requires left == 0 ==> CanFinish(meta, peer, adapter, env, node)
    ensures var d := HandleAttachment(AttachmentUpdate(meta, left), peer, adapter, env, node);
      && d.result == Ok(None)
      && Select(d.log, IsProgress) == [DownloadUpdate(meta.startTime, meta.size - left, meta.size)]
      && Select(d.log, IsWrite)
         == (if left == 0 then [TxHashSetWrite(meta.hash, FileHandle(meta.path, Read), peer)] else [])
      && d.node == (if left == 0 then node.(files := node.files - {meta.path}) else node)
  {
    var progress := DownloadUpdate(meta.startTime, meta.size - left, meta.size);
    if left == 0 {
      FinalChunkLog(meta, peer, adapter, env, node);
      FinalChunkSelect(progress, meta.path, TxHashSetWrite(meta.hash, FileHandle(meta.path, Read), peer));
    } else {
      SelectSingleton(progress, IsProgress);
      SelectSingleton(progress, IsWrite);
    }
  }

  /** The bytes still to come after each chunk: positive until the last,
      which leaves none, and never more than the archive's size. */
  predicate ChunkPlan(meta: AttachmentMeta, lefts: seq<U64>)
  {
    && |lefts| >= 1 && lefts[|lefts| - 1] == 0
    && (forall i :: 0 <= i < |lefts| - 1 ==> lefts[i] > 0)
    && (forall i :: 0 <= i < |lefts| ==> lefts[i] <= meta.size)
  }

  /** What one chunk call must show: no reply, a progress report of
      `size - left` of `size`, and a write exactly when it is the last. */
  predicate ChunkReported(meta: AttachmentMeta, left: U64, last: bool, peer: PeerInfo, r: Result<Consumed>, log: seq<Effect>)
    requires left <= meta.size
  {
    && r == Ok(None)
    && Select(log, IsProgress) == [DownloadUpdate(meta.startTime, meta.size - left, meta.size)]
    && Select(log, IsWrite) == (if last then [TxHashSetWrite(meta.hash, FileHandle(meta.path, Read), peer)] else [])
  }

  /** One chunk update from an admitted peer, through the whole handler. */
  lemma ConsumeChunk(meta: AttachmentMeta, left: U64, peer: PeerInfo, chain: ChainConfig, adapter: Adapter, env: Env, node: Node)
    requires left <= meta.size
    requires Admitted(peer, chain, adapter)
    requires left == 0 ==> CanFinish(meta, peer, adapter, env, node)
    ensures var s := Consume(Message.Attachment(AttachmentUpdate(meta, left)), peer, chain, adapter, env, node);
      && ChunkReported(meta, left, left == 0, peer, s.result, s.log)
      && s.node == (if left == 0 then node.(files := node.files - {meta.path}) else node)
  {
    var msg := Message.Attachment(AttachmentUpdate(meta, left));
    AdmittedPrefix(msg, peer, chain, adapter, env, node);
    assert Dispatch(msg, peer, adapter, env, node) == HandleAttachment(AttachmentUpdate(meta, left), peer, adapter, env, node);
    AttachmentEffects(meta, left, peer, adapter, env, node);
  }

  /** One chunk of a transfer from an admitted peer, as the first call of a run. */
  lemma RunChunk(meta: AttachmentMeta, left: U64, ds: seq<Delivery>, peer: PeerInfo, chain: ChainConfig, adapter: Adapter, env: Env, node: Node)
    requires |ds| > 0 && left <= meta.size
    requires ds[0] == Delivery(Message.Attachment(AttachmentUpdate(meta, left)), peer, adapter, env)
    requires Admitted(peer, chain, adapter)
    requires left == 0 ==> CanFinish(meta, peer, adapter, env, node)
    ensures var t := Run(ds, chain, node);
      var after := if left == 0 then node.(files := node.files - {meta.path}) else node;
      var rest := Run(ds[1..], chain, after);
      && ChunkReported(meta, left, left == 0, peer, t.results[0], t.logs[0])
      && t.results[1..] == rest.results
      && t.logs[1..] == rest.logs
      && t.node == rest.node
  {
    ConsumeChunk(meta, left, peer, chain, adapter, env, node);
    RunCons(ds, chain, node);
  }

  /** What a completed transfer leaves behind, as seen from its trace. */
  predicate TransferDone(meta: AttachmentMeta, lefts: seq<U64>, peer: PeerInfo, node: Node, t: Trace)
    requires ChunkPlan(meta, lefts)
  {
    && |t.results| == |lefts| && |t.logs| == |lefts|
    && (forall i :: 0 <= i < |lefts| ==>
          ChunkReported(meta, lefts[i], i == |lefts| - 1, peer, t.results[i], t.logs[i]))
    && t.node == node.(files := node.files - {meta.path})
  }

  /** The chunk updates the connection layer delivers for one transfer,
      `lefts[i]` bytes still to come after chunk `i`. */
  function ChunkDeliveries(meta: AttachmentMeta, lefts: seq<U64>, peer: PeerInfo, adapter: Adapter, env: Env): (ds: seq<Delivery>)
    ensures |ds| == |lefts|
    ensures forall i :: 0 <= i < |lefts| ==>
      ds[i] == Delivery(Message.Attachment(AttachmentUpdate(meta, lefts[i])), peer, adapter, env)
  {
    seq(|lefts|, i requires 0 <= i < |lefts| => Delivery(Message.Attachment(AttachmentUpdate(meta, lefts[i])), peer, adapter, env))
  }

  lemma ChunkDeliveriesTail(meta: AttachmentMeta, lefts: seq<U64>, peer: PeerInfo, adapter: Adapter, env: Env)
    requires |lefts| > 0
    ensures ChunkDeliveries(meta, lefts, peer, adapter, env)[1..] == ChunkDeliveries(meta, lefts[1..], peer, adapter, env)
  {
  }

  lemma ChunkPlanTail(meta: AttachmentMeta, lefts: seq<U64>)
    requires |lefts| >= 2 && ChunkPlan(meta, lefts)
    ensures ChunkPlan(meta, lefts[1..]) && lefts[0] > 0
  {
  }

  lemma LastChunk(meta: AttachmentMeta, peer: PeerInfo, chain: ChainConfig, adapter: Adapter, env: Env, node: Node)
    requires Admitted(peer, chain, adapter)
    requires CanFinish(meta, peer, adapter, env, node)
    ensures ChunkPlan(meta, [0])
    ensures TransferDone(meta, [0], peer, node, Run(ChunkDeliveries(meta, [0], peer, adapter, env), chain, node))
  {
    var ds := ChunkDeliveries(meta, [0], peer, adapter, env);
    RunChunk(meta, 0, ds, peer, chain, adapter, env, node);
    var after := node.(files := node.files - {meta.path});
    assert ds[1..] == [];
    assert Run([], chain, after) == Trace([], after, []);
  }

  /** A completed transfer's trace, preceded by one non-final chunk. */
  lemma TraceCons(meta: AttachmentMeta, lefts: seq<U64>, peer: PeerInfo, node: Node, t: Trace, rest: Trace)
    requires |lefts| >= 2 && ChunkPlan(meta, lefts) && ChunkPlan(meta, lefts[1..])
    requires |t.results| > 0 && |t.logs| > 0
    requires ChunkReported(meta, lefts[0], false, peer, t.results[0], t.logs[0])
    requires t.results[1..] == rest.results && t.logs[1..] == rest.logs && t.node == rest.node
    requires TransferDone(meta, lefts[1..], peer, node, rest)
    ensures TransferDone(meta, lefts, peer, node, t)
  {
    forall i | 0 < i < |lefts|
      ensures ChunkReported(meta, lefts[i], i == |lefts| - 1, peer, t.results[i], t.logs[i])
    {
      assert lefts[i] == lefts[1..][i - 1];
      assert t.results[i] == rest.results[i - 1];
      assert t.logs[i] == rest.logs[i - 1];
    }
  }

  /** Extends a completed transfer by one earlier, non-final chunk. */
  lemma EarlierChunk(meta: AttachmentMeta, lefts: seq<U64>, peer: PeerInfo, chain: ChainConfig, adapter: Adapter, env: Env, node: Node)
    requires |lefts| >= 2 && ChunkPlan(meta, lefts) && ChunkPlan(meta, lefts[1..]) && lefts[0] > 0
    requires Admitted(peer, chain, adapter)
    requires TransferDone(meta, lefts[1..], peer, node, Run(ChunkDeliveries(meta, lefts[1..], peer, adapter, env), chain, node))
    ensures TransferDone(meta, lefts, peer, node, Run(ChunkDeliveries(meta, lefts, peer, adapter, env), chain, node))
  {
    var ds := ChunkDeliveries(meta, lefts, peer, adapter, env);
    RunChunk(meta, lefts[0], ds, peer, chain, adapter, env, node);
    ChunkDeliveriesTail(meta, lefts, peer, adapter, env);
    TraceCons(meta, lefts, peer, node, Run(ds, chain, node), Run(ds[1..], chain, node));
  }

  /** A whole transfer: every chunk yields no reply and reports
      `size - left` of `size`; the archive is handed to `txhashset_write`
      exactly once, on the last chunk, under the declared hash; and the
      temporary file is gone at the end. */
  lemma {:induction false} TransferCompletes(
    meta: AttachmentMeta, lefts: seq<U64>, peer: PeerInfo, chain: ChainConfig, adapter: Adapter, env: Env, node: Node)
    requires ChunkPlan(meta, lefts)
    requires Admitted(peer, chain, adapter)
    requires CanFinish(meta, peer, adapter, env, node)
    ensures TransferDone(meta, lefts, peer, node, Run(ChunkDeliveries(meta, lefts, peer, adapter, env), chain, node))
    decreases |lefts|
  {
    if |lefts| == 1 {
      assert lefts == [0];
      LastChunk(meta, peer, chain, adapter, env, node);
    } else {
      ChunkPlanTail(meta, lefts);
      TransferCompletes(meta, lefts[1..], peer, chain, adapter, env, node);
      EarlierChunk(meta, lefts, peer, chain, adapter, env, node);
    }
  }

  // ---------------------------------------------------------------------
  // Scenarios

  /** A production-network peer at version 2 passes the gate below the third
      hard fork and is refused with `LowProtocolVersion` on its very next
      message once the node's chain has reached the fork height. */
  lemma ForkHeightRetiresVersionTwo(
    msg: Message, peer: PeerInfo, chain: ChainConfig, before: Adapter, after: Adapter, env: Env, node: Node)
    requires !chain.testnet && peer.version == 2
    requires peer.addr !in before.banned && peer.addr !in after.banned
    requires before.totalHeight.Answered? && before.totalHeight.value < chain.thirdHardForkHeight
    requires after.totalHeight.Answered? && after.totalHeight.value >= chain.thirdHardForkHeight
    ensures CheckProtocolVersion(peer, chain, before).verdict.Ok?
    ensures Consume(msg, peer, chain, after, env, node)
      == Step(Err(LowProtocolVersion), node, [IsBanned(peer.addr), TotalHeight])
  {
  }

  /** The handler's calls for an archive that is accepted. */
  lemma ArchiveLog(height: U64, hash: Hash, bytes: U64, adapter: Adapter, env: Env, node: Node)
    requires adapter.receiveReady && node.syncRequested
    requires var path := adapter.TmpfilePath(TmpName.FileName(env.now.seconds, env.nonce));
      path !in node.files && CreateNewFile(path) !in env.ioFaults
    ensures var name := TmpName.FileName(env.now.seconds, env.nonce);
      var path := adapter.TmpfilePath(name);
      var d := HandleTxHashSetArchive(height, hash, bytes, adapter, env, node);
      && d.result == Ok(Consumed.Attachment(AttachmentMeta(bytes, hash, height, env.now, path), FileHandle(path, Write)))
      && d.node == node.(syncRequested := false, files := node.files + {path})
      && d.log == [ReceiveReady, DownloadUpdate(env.now, 0, bytes), TmpfilePathname(name), CreateNewFile(path)]
  {
  }

  /** Progress and writes in an accepted archive's four calls. */
  lemma ArchiveSelect(p: Effect, name: string, path: Path)
    requires p.DownloadUpdate?
    ensures Select([ReceiveReady, p, TmpfilePathname(name), CreateNewFile(path)], IsProgress) == [p]
    ensures Select([ReceiveReady, p, TmpfilePathname(name), CreateNewFile(path)], IsWrite) == []
  {
    SelectFour(ReceiveReady, p, TmpfilePathname(name), CreateNewFile(path), IsProgress);
    SelectFour(ReceiveReady, p, TmpfilePathname(name), CreateNewFile(path), IsWrite);
    SelectSingleton(ReceiveReady, IsProgress);
    SelectSingleton(ReceiveReady, IsWrite);
    SelectSingleton(p, IsProgress);
    SelectSingleton(p, IsWrite);
    SelectSingleton(TmpfilePathname(name), IsProgress);
    SelectSingleton(TmpfilePathname(name), IsWrite);
    SelectSingleton(CreateNewFile(path), IsProgress);
    SelectSingleton(CreateNewFile(path), IsWrite);
  }

  /** An admitted archive while the flag is up and the adapter is ready:
      accepted into a fresh temporary file, with 0 bytes of progress. */
  lemma ArchiveAccepted(height: U64, hash: Hash, bytes: U64, peer: PeerInfo, chain: ChainConfig, adapter: Adapter, env: Env, node: Node)
    requires Admitted(peer, chain, adapter)
    requires adapter.receiveReady && node.syncRequested
    requires var path := adapter.TmpfilePath(TmpName.FileName(env.now.seconds, env.nonce));
      path !in node.files && CreateNewFile(path) !in env.ioFaults
    ensures var path := adapter.TmpfilePath(TmpName.FileName(env.now.seconds, env.nonce));
      var s := Consume(TxHashSetArchive(height, hash, bytes), peer, chain, adapter, env, node);
      && s.result == Ok(Consumed.Attachment(AttachmentMeta(bytes, hash, height, env.now, path), FileHandle(path, Write)))
      && s.node == node.(syncRequested := false, files := node.files + {path})
      && Select(s.log, IsProgress) == [DownloadUpdate(env.now, 0, bytes)]
      && Select(s.log, IsWrite) == []
  {
    var name := TmpName.FileName(env.now.seconds, env.nonce);
    var msg := TxHashSetArchive(height, hash, bytes);
    AdmittedPrefix(msg, peer, chain, adapter, env, node);
    assert Dispatch(msg, peer, adapter, env, node) == HandleTxHashSetArchive(height, hash, bytes, adapter, env, node);
    ArchiveLog(height, hash, bytes, adapter, env, node);
    ArchiveSelect(DownloadUpdate(env.now, 0, bytes), name, adapter.TmpfilePath(name));
  }

  /** Request-to-completion: with the flag up and the adapter ready, an
      archive of 4096 bytes at height 100 is accepted and the flag drops;
      two 2048-byte chunks follow, reporting 2048 and 4096 of 4096 after
      the archive's 0; the archive is written once, on the second chunk,
      under its declared hash; and the temporary file is gone at the end. */
  lemma SnapshotScenario(h: Hash, peer: PeerInfo, chain: ChainConfig, adapter: Adapter, env: Env, node: Node)
    requires Admitted(peer, chain, adapter)
    requires adapter.receiveReady && node.syncRequested
    requires var path := adapter.TmpfilePath(TmpName.FileName(env.now.seconds, env.nonce));
      && path !in node.files
      && CreateNewFile(path) !in env.ioFaults
      && OpenFile(path) !in env.ioFaults
      && RemoveFile(path) !in env.ioFaults
      && TxHashSetWrite(h, FileHandle(path, Read), peer) !in adapter.refusals
    ensures
      var path := adapter.TmpfilePath(TmpName.FileName(env.now.seconds, env.nonce));
      var meta := AttachmentMeta(4096, h, 100, env.now, path);
      var archive := Consume(TxHashSetArchive(100, h, 4096), peer, chain, adapter, env, node);
      var t := Run(ChunkDeliveries(meta, [2048, 0], peer, adapter, env), chain, archive.node);
      && archive.result == Ok(Consumed.Attachment(meta, FileHandle(path, Write)))
      && !archive.node.syncRequested
      && Select(archive.log, IsProgress) == [DownloadUpdate(env.now, 0, 4096)]
      && Select(t.logs[0], IsProgress) == [DownloadUpdate(env.now, 2048, 4096)]
      && Select(t.logs[1], IsProgress) == [DownloadUpdate(env.now, 4096, 4096)]
      && Select(archive.log, IsWrite) == [] && Select(t.logs[0], IsWrite) == []
      && Select(t.logs[1], IsWrite) == [TxHashSetWrite(h, FileHandle(path, Read), peer)]
      && t.node == node.(syncRequested := false)
  {
    var path := adapter.TmpfilePath(TmpName.FileName(env.now.seconds, env.nonce));
    var meta := AttachmentMeta(4096, h, 100, env.now, path);
    var archive := Consume(TxHashSetArchive(100, h, 4096), peer, chain, adapter, env, node);
    ArchiveAccepted(100, h, 4096, peer, chain, adapter, env, node);
    var lefts: seq<U64> := [2048, 0];
    assert ChunkPlan(meta, lefts);
    TransferCompletes(meta, lefts, peer, chain, adapter, env, archive.node);
    assert (node.files + {path}) - {path} == node.files;
  }
}
