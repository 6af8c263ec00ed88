/** The per-peer inbound message handler: ban check, version gate, and one
    arm per message variant, including both sides of the snapshot
    ("txhashset") transfer. One call is a pure function from the message,
    the peer, the chain configuration, the adapter's answers, the clock and
    random nonce, and the node state it may change (the
    `state_sync_requested` flag the handler was built with, and the set of
    files on disk) to the
    result, the new node state and the log of calls made. */
module Protocol {
  import opened P2pTypes
  import opened Messages
  import opened NetAdapter
  import TmpName

  /** Chain-type globals the gate reads. */
  datatype ChainConfig = ChainConfig(testnet: bool, thirdHardForkHeight: U64)

  /** Inputs from outside the model: the clock (`Utc::now()`), the random
      nonce (`thread_rng().gen_range(0, 1_000_000)`), the filesystem
      operations that fail for reasons other than a file's presence, and
      what `CompactBlock::from` puts beside a block's header. */
  datatype Env = Env(
    now: Instant,
    nonce: TmpName.Nonce,
    ioFaults: map<Effect, IoError>,
    compaction: Block -> CompactBody)

  /** The state one call may change: the `state_sync_requested` flag that
      `Protocol::new` hands to this handler, and the paths that exist on disk. */
  datatype Node = Node(syncRequested: bool, files: set<Path>)

  /** The outcome of one call: result, node state afterwards, calls made. */
  datatype Step = Step(result: Result<Consumed>, node: Node, log: seq<Effect>)

  /** The outcome of the version gate and the calls it made. */
  datatype Gate = Gate(verdict: Result<()>, log: seq<Effect>)

  // ---------------------------------------------------------------------
  // Version compatibility gate

  /** The lowest protocol version accepted at chain height `height`:
      3 on test networks and from the third hard fork on, 2 otherwise. */
  function MinimumVersion(chain: ChainConfig, height: U64): nat
  {
    if chain.testnet || height >= chain.thirdHardForkHeight then 3 else 2
  }

  /** `check_protocol_version`: the network-dependent minimum is checked
      first, without consulting the chain; only then is `total_height()`
      asked, whose failure is passed on, and the fork minimum applied. */
  function CheckProtocolVersion(peer: PeerInfo, chain: ChainConfig, adapter: Adapter): (g: Gate)
    ensures peer.version < (if chain.testnet then 3 else 2) ==> g == Gate(Err(LowProtocolVersion), [])
    ensures peer.version >= (if chain.testnet then 3 else 2) ==> g.log == [TotalHeight]
    ensures adapter.totalHeight.Answered? ==>
      (g.verdict.Ok? <==> peer.version >= MinimumVersion(chain, adapter.totalHeight.value))
    ensures adapter.totalHeight.Failed? && peer.version >= (if chain.testnet then 3 else 2) ==>
      g.verdict == Err(adapter.totalHeight.cause)
    ensures g.verdict.Err? ==>
      g.verdict.error == LowProtocolVersion
      || (adapter.totalHeight.Failed? && g.verdict.error == adapter.totalHeight.cause && g.log == [TotalHeight])
  {
    if peer.version < (if chain.testnet then 3 else 2) then
      Gate(Err(LowProtocolVersion), [])
    else
      match adapter.totalHeight
      case Failed(e) => Gate(Err(e), [TotalHeight])
      case Answered(h) =>
        if h >= chain.thirdHardForkHeight && peer.version < 3 then
          Gate(Err(LowProtocolVersion), [TotalHeight])
        else
          Gate(Ok(()), [TotalHeight])
  }

  /** The gate only tightens as the chain grows: a peer admitted at some
      height was also admitted at every lower one. */
  lemma GateMonotoneInHeight(peer: PeerInfo, chain: ChainConfig, lower: Adapter, higher: Adapter)
    requires lower.totalHeight.Answered? && higher.totalHeight.Answered?
    requires lower.totalHeight.value <= higher.totalHeight.value
    ensures CheckProtocolVersion(peer, chain, higher).verdict.Ok? ==> CheckProtocolVersion(peer, chain, lower).verdict.Ok?
  {
  }

  // ---------------------------------------------------------------------
  // Filesystem

  /** `File::open`: fails when the path is absent or the open faults. */
  function Open(path: Path, node: Node, env: Env): (r: Result<FileHandle>)
    ensures r.Ok? <==> path in node.files && OpenFile(path) !in env.ioFaults
    ensures r.Ok? ==> r.value == FileHandle(path, Read)
  {
    if OpenFile(path) in env.ioFaults then Err(Io(env.ioFaults[OpenFile(path)]))
    else if path !in node.files then Err(Io(NotFound))
    else Ok(FileHandle(path, Read))
  }

  /** `OpenOptions::new().write(true).create_new(true).open`: fails when the
      path already exists or the creation faults; otherwise the file exists. */
  function CreateNew(path: Path, node: Node, env: Env): (r: (Result<FileHandle>, Node))
    ensures r.0.Ok? <==> path !in node.files && CreateNewFile(path) !in env.ioFaults
    ensures r.0 == Err(Io(AlreadyExists)) <== path in node.files && CreateNewFile(path) !in env.ioFaults
    ensures r.0.Ok? ==> r.0.value == FileHandle(path, Write) && r.1 == node.(files := node.files + {path})
    ensures r.0.Err? ==> r.1 == node
  {
    if CreateNewFile(path) in env.ioFaults then (Err(Io(env.ioFaults[CreateNewFile(path)])), node)
    else if path in node.files then (Err(Io(AlreadyExists)), node)
    else (Ok(FileHandle(path, Write)), node.(files := node.files + {path}))
  }

  /** `fs::remove_file`, best effort: a failure leaves the file in place and
      is only logged. */
  function Remove(path: Path, node: Node, env: Env): (n: Node)
    ensures n.syncRequested == node.syncRequested
    ensures RemoveFile(path) !in env.ioFaults ==> n.files == node.files - {path}
    ensures RemoveFile(path) in env.ioFaults ==> n.files == node.files
  {
    if RemoveFile(path) in env.ioFaults || path !in node.files then node
    else node.(files := node.files - {path})
  }

  // ---------------------------------------------------------------------
  // Message arms

  /** The reply `Msg::new` builds for this peer, with no trailing stream. */
  function ReplyTo(peer: PeerInfo, body: Reply): Msg
  {
    Msg(body, peer.version, NoTrailer)
  }

  /** `s` is what forwarding `e` to the adapter amounts to: that one call,
      no change of node state, and the adapter's refusal, if any, passed on;
      otherwise nothing to send. */
  predicate Forwarded(s: Step, e: Effect, adapter: Adapter, node: Node)
  {
    && s.log == [e] && s.node == node
    && s.result == (if e in adapter.refusals then Err(adapter.refusals[e]) else Ok(None))
  }

  /** A notification whose `Result` the handler passes on with `?`. */
  function Notify(e: Effect, adapter: Adapter, node: Node): (s: Step)
    ensures Forwarded(s, e, adapter, node)
  {
    match adapter.Outcome(e)
    case Ok(_) => Step(Ok(None), node, [e])
    case Err(err) => Step(Err(err), node, [e])
  }

  /** `Ping`: record the peer's figures, answer with the node's own. */
  function HandlePing(difficulty: U64, height: U64, peer: PeerInfo, adapter: Adapter, node: Node): (s: Step)
    ensures s.node == node
    ensures |s.log| >= 2 && s.log[0] == PeerDifficulty(peer.addr, difficulty, height) && s.log[1] == TotalDifficulty
    ensures forall i :: 1 <= i < |s.log| ==> !IsMutation(s.log[i])
    ensures s.result.Ok? <==> adapter.totalDifficulty.Answered? && adapter.pongHeight.Answered?
    ensures s.result.Ok? ==>
      s.result.value == Response(ReplyTo(peer, PongReply(adapter.totalDifficulty.value, adapter.pongHeight.value)))
    ensures s.result.Err? ==>
      s.result.error == (if adapter.totalDifficulty.Failed? then adapter.totalDifficulty.cause else adapter.pongHeight.cause)
  {
    var log := [PeerDifficulty(peer.addr, difficulty, height), TotalDifficulty];
    match adapter.totalDifficulty
    case Failed(e) => Step(Err(e), node, log)
    case Answered(td) =>
      match adapter.pongHeight
      case Failed(e) => Step(Err(e), node, log + [TotalHeight])
      case Answered(th) => Step(Ok(Response(ReplyTo(peer, PongReply(td, th)))), node, log + [TotalHeight])
  }

  /** `GetTransaction`: answer from the pool, or stay silent on a miss. */
  function HandleGetTransaction(h: Hash, peer: PeerInfo, adapter: Adapter, node: Node): (s: Step)
    ensures s.node == node && s.log == [LookupTransaction(h)]
    ensures h !in adapter.transactions ==> s.result == Ok(None)
    ensures h in adapter.transactions ==>
      s.result == Ok(Response(ReplyTo(peer, TransactionReply(adapter.transactions[h]))))
  {
    if h in adapter.transactions then
      Step(Ok(Response(ReplyTo(peer, TransactionReply(adapter.transactions[h])))), node, [LookupTransaction(h)])
    else
      Step(Ok(None), node, [LookupTransaction(h)])
  }

  /** `GetBlock` (full) and `GetCompactBlock` (compact): answer from the
      chain, or stay silent on a miss. */
  function HandleGetBlock(h: Hash, compact: bool, peer: PeerInfo, adapter: Adapter, env: Env, node: Node): (s: Step)
    ensures s.node == node && s.log == [LookupBlock(h, peer)]
    ensures h !in adapter.blocks ==> s.result == Ok(None)
    ensures h in adapter.blocks && !compact ==>
      s.result == Ok(Response(ReplyTo(peer, BlockReply(adapter.blocks[h]))))
    ensures h in adapter.blocks && compact ==>
      && s.result == Ok(Response(ReplyTo(peer, CompactBlockReply(ToCompact(adapter.blocks[h], env.compaction)))))
      && s.result.value.msg.reply.compact.header == adapter.blocks[h].header
  {
    if h in adapter.blocks then
      var b := adapter.blocks[h];
      var body := if compact then CompactBlockReply(ToCompact(b, env.compaction)) else BlockReply(b);
      Step(Ok(Response(ReplyTo(peer, body))), node, [LookupBlock(h, peer)])
    else
      Step(Ok(None), node, [LookupBlock(h, peer)])
  }

  /** `GetHeaders`: always answers with what `locate_headers` found, or
      passes on its failure. */
  function HandleGetHeaders(locator: seq<Hash>, peer: PeerInfo, adapter: Adapter, node: Node): (s: Step)
    ensures s.node == node && s.log == [LocateHeaders(locator)]
    ensures adapter.locate(locator).Answered? ==>
      s.result == Ok(Response(ReplyTo(peer, HeadersReply(adapter.locate(locator).value))))
    ensures adapter.locate(locator).Failed? ==> s.result == Err(adapter.locate(locator).cause)
  {
    match adapter.locate(locator)
    case Answered(headers) => Step(Ok(Response(ReplyTo(peer, HeadersReply(headers)))), node, [LocateHeaders(locator)])
    case Failed(e) => Step(Err(e), node, [LocateHeaders(locator)])
  }

  /** `TxHashSetRequest`, the send side: offer the node's current snapshot
      with its bytes as a trailing stream, or stay silent if there is none.
      The requested hash and height only appear in the log line. */
  function HandleTxHashSetRequest(peer: PeerInfo, adapter: Adapter, node: Node): (s: Step)
    ensures s.node == node
    ensures forall i :: 0 <= i < |s.log| ==> !IsMutation(s.log[i])
    ensures adapter.archiveHeader.Failed? ==>
      s == Step(Err(adapter.archiveHeader.cause), node, [ArchiveHeader])
    ensures adapter.archiveHeader.Answered? ==>
      var header := adapter.archiveHeader.value;
      && s.log == [ArchiveHeader, TxHashSetRead(header.hash)]
      && (header.hash !in adapter.snapshots ==> s.result == Ok(None))
      && (header.hash in adapter.snapshots ==>
            var snapshot := adapter.snapshots[header.hash];
            && (snapshot.length.Unreadable? ==> s.result == Err(Io(snapshot.length.io)))
            && (snapshot.length.Length? ==>
                  s.result == Ok(Response(Msg(ArchiveReply(header.height, header.hash, snapshot.length.bytes),
                                              peer.version, Trailer(snapshot.reader))))))
  {
    match adapter.archiveHeader
    case Failed(e) => Step(Err(e), node, [ArchiveHeader])
    case Answered(header) =>
      var log := [ArchiveHeader, TxHashSetRead(header.hash)];
      if header.hash !in adapter.snapshots then Step(Ok(None), node, log)
      else
        var snapshot := adapter.snapshots[header.hash];
        match snapshot.length
        case Unreadable(io) => Step(Err(Io(io)), node, log)
        case Length(size) =>
          var archive := ArchiveReply(header.height, header.hash, size);
          Step(Ok(Response(Msg(archive, peer.version, Trailer(snapshot.reader)))), node, log)
  }

  /** `TxHashSetArchive`, the receive side. Accepted only while the adapter
      is expecting a snapshot and the handler's flag says a snapshot was
      asked of this peer; acceptance clears the flag before anything else can fail,
      reports 0 bytes of progress, and creates a fresh temporary file that
      the connection layer streams the archive into. */
  function HandleTxHashSetArchive(height: U64, hash: Hash, bytes: U64, adapter: Adapter, env: Env, node: Node): (s: Step)
    ensures |s.log| >= 1 && s.log[0] == ReceiveReady
    ensures !(adapter.receiveReady && node.syncRequested) ==>
      s == Step(Err(BadMessage), node, [ReceiveReady])
    ensures adapter.receiveReady && node.syncRequested ==>
      var name := TmpName.FileName(env.now.seconds, env.nonce);
      var path := adapter.TmpfilePath(name);
      && !s.node.syncRequested
      && s.log == [ReceiveReady, DownloadUpdate(env.now, 0, bytes), TmpfilePathname(name), CreateNewFile(path)]
      && (s.result.Ok? <==> path !in node.files && CreateNewFile(path) !in env.ioFaults)
      && (s.result.Ok? ==>
            && s.result.value == Consumed.Attachment(AttachmentMeta(bytes, hash, height, env.now, path), FileHandle(path, Write))
            && s.node.files == node.files + {path})
      && (s.result.Err? ==> s.node.files == node.files)
  {
    if !adapter.receiveReady then Step(Err(BadMessage), node, [ReceiveReady])
    else if !node.syncRequested then Step(Err(BadMessage), node, [ReceiveReady])
    else
      var cleared := node.(syncRequested := false);
      var name := TmpName.FileName(env.now.seconds, env.nonce);
      var path := adapter.TmpfilePath(name);
      var log := [ReceiveReady, DownloadUpdate(env.now, 0, bytes), TmpfilePathname(name), CreateNewFile(path)];
      var (created, after) := CreateNew(path, cleared, env);
      match created
      case Err(e) => Step(Err(e), after, log)
      case Ok(file) =>
        var meta := AttachmentMeta(bytes, hash, height, env.now, path);
        Step(Ok(Consumed.Attachment(meta, file)), after, log)
  }

  /** `Attachment`, one chunk of an inbound snapshot arrived: report
      progress; on the last chunk hand the file to the adapter and then
      remove it, best effort. */
  function HandleAttachment(update: AttachmentUpdate, peer: PeerInfo, adapter: Adapter, env: Env, node: Node): (s: Step)
    ensures s.node.syncRequested == node.syncRequested
    ensures |s.log| >= 1
    ensures s.log[0] == DownloadUpdate(update.meta.startTime, WrappingSub(update.meta.size, update.left), update.meta.size)
    ensures update.left <= update.meta.size ==> s.log[0].received == update.meta.size - update.left
    ensures update.left > 0 ==> s == Step(Ok(None), node, s.log[..1])
    ensures update.left == 0 ==>
      var path := update.meta.path;
      var write := TxHashSetWrite(update.meta.hash, FileHandle(path, Read), peer);
      && |s.log| >= 2 && s.log[1] == OpenFile(path)
      && (Open(path, node, env).Err? ==> s == Step(Err(Open(path, node, env).error), node, s.log[..2]))
      && (Open(path, node, env).Ok? ==>
            && |s.log| >= 3 && s.log[2] == write
            && (write in adapter.refusals ==> s == Step(Err(adapter.refusals[write]), node, s.log[..3]))
            && (write !in adapter.refusals ==>
                  && s.result == Ok(None)
                  && s.log == s.log[..3] + [RemoveFile(path)]
                  && s.node == Remove(path, node, env)))
  {
    var meta := update.meta;
    var progress := DownloadUpdate(meta.startTime, WrappingSub(meta.size, update.left), meta.size);
    if update.left != 0 then
      Step(Ok(None), node, [progress])
    else
      var opening := [progress, OpenFile(meta.path)];
      match Open(meta.path, node, env)
      case Err(e) => Step(Err(e), node, opening)
      case Ok(zip) =>
        var write := TxHashSetWrite(meta.hash, zip, peer);
        match adapter.Outcome(write)
        case Err(e) => Step(Err(e), node, opening + [write])
        case Ok(_) =>
          Step(Ok(None), Remove(meta.path, node, env), opening + [write, RemoveFile(meta.path)])
  }

  /** The `match message` of `consume`, after the ban check and the gate. */
  function Dispatch(msg: Message, peer: PeerInfo, adapter: Adapter, env: Env, node: Node): (s: Step)
    ensures !msg.TxHashSetArchive? ==> s.node.syncRequested == node.syncRequested
    ensures !msg.TxHashSetArchive? && !msg.Attachment? ==> s.node == node
    ensures s.node.syncRequested ==> node.syncRequested
    ensures s.result.Ok? && s.result.value.Attachment? ==> msg.TxHashSetArchive?
    ensures s.result == Ok(Disconnect) <==> msg.BanReason?
  {
    match msg
    case Attachment(update) => HandleAttachment(update, peer, adapter, env, node)
    case Ping(difficulty, height) => HandlePing(difficulty, height, peer, adapter, node)
    case Pong(difficulty, height) => Step(Ok(None), node, [PeerDifficulty(peer.addr, difficulty, height)])
    case BanReason(_) => Step(Ok(Disconnect), node, [])
    case TransactionKernel(h) => Notify(TxKernelReceived(h, peer), adapter, node)
    case GetTransaction(h) => HandleGetTransaction(h, peer, adapter, node)
    case Transaction(tx) => Notify(TransactionReceived(tx, false), adapter, node)
    case StemTransaction(tx) => Notify(TransactionReceived(tx, true), adapter, node)
    case GetBlock(h) => HandleGetBlock(h, false, peer, adapter, env, node)
    case Block(b) => Notify(BlockReceived(b, peer, {}), adapter, node)
    case GetCompactBlock(h) => HandleGetBlock(h, true, peer, adapter, env, node)
    case CompactBlock(cb) => Notify(CompactBlockReceived(cb, peer), adapter, node)
    case GetHeaders(locator) => HandleGetHeaders(locator, peer, adapter, node)
    case Header(header) => Notify(HeaderReceived(header, peer), adapter, node)
    case Headers(headers) => Notify(HeadersReceived(headers, peer), adapter, node)
    case GetPeerAddrs(capabilities) =>
      Step(Ok(Response(ReplyTo(peer, PeerAddrsReply(adapter.knownPeers(capabilities))))), node, [FindPeerAddrs(capabilities)])
    case PeerAddrs(peers) => Step(Ok(None), node, [PeerAddrsReceived(peers)])
    case TxHashSetRequest(_, _) => HandleTxHashSetRequest(peer, adapter, node)
    case TxHashSetArchive(height, hash, bytes) => HandleTxHashSetArchive(height, hash, bytes, adapter, env, node)
    case Unknown(_) => Step(Ok(None), node, [])
  }

  /** Where the handler's own error kinds come from after the gate: no arm
      yields `LowProtocolVersion`, and `BadMessage` comes exactly from an
      archive that arrives while the adapter is not ready or the node did
      not ask for one. Every other error is the adapter's or the
      filesystem's. */
  lemma DispatchErrors(msg: Message, peer: PeerInfo, adapter: Adapter, env: Env, node: Node)
    ensures var s := Dispatch(msg, peer, adapter, env, node);
      && s.result != Err(LowProtocolVersion)
      && (s.result == Err(BadMessage) <==> msg.TxHashSetArchive? && !(adapter.receiveReady && node.syncRequested))
      && (s.result.Err? && s.result.error != BadMessage ==>
            s.result.error.Chain? || s.result.error.Store? || s.result.error.Io?)
  {
    if !msg.TxHashSetArchive? {
      ForeignErrors(msg, peer, adapter, env, node);
    }
  }

  /** Outside the archive arm, every error is the adapter's or the filesystem's. */
  lemma ForeignErrors(msg: Message, peer: PeerInfo, adapter: Adapter, env: Env, node: Node)
    requires !msg.TxHashSetArchive?
    ensures var s := Dispatch(msg, peer, adapter, env, node);
      s.result.Err? ==> s.result.error.Chain? || s.result.error.Store? || s.result.error.Io?
  {
  }

  /** The arms that answer in place: `Pong` records the peer's figures,
      `BanReason` disconnects, `GetPeerAddrs` answers with the peers known
      for the requested capabilities, `PeerAddrs` hands the addresses over,
      and an unknown type is dropped; none of them fails or changes state. */
  lemma DispatchAnswersInPlace(msg: Message, peer: PeerInfo, adapter: Adapter, env: Env, node: Node)
    ensures var s := Dispatch(msg, peer, adapter, env, node);
      && (msg.Pong? ==> s == Step(Ok(None), node, [PeerDifficulty(peer.addr, msg.totalDifficulty, msg.height)]))
      && (msg.BanReason? ==> s == Step(Ok(Disconnect), node, []))
      && (msg.GetPeerAddrs? ==>
            s == Step(Ok(Response(ReplyTo(peer, PeerAddrsReply(adapter.knownPeers(msg.capabilities))))), node,
                      [FindPeerAddrs(msg.capabilities)]))
      && (msg.PeerAddrs? ==> s == Step(Ok(None), node, [PeerAddrsReceived(msg.peers)]))
      && (msg.Unknown? ==> s == Step(Ok(None), node, []))
  {
  }

  /** The announcements: each is forwarded to the adapter with exactly its
      own payload (and the sending peer where the adapter takes one), a block
      with no chain options, and the adapter's refusal is passed on. */
  lemma DispatchForwardsAnnouncements(msg: Message, peer: PeerInfo, adapter: Adapter, env: Env, node: Node)
    ensures var s := Dispatch(msg, peer, adapter, env, node);
      && (msg.TransactionKernel? ==> Forwarded(s, TxKernelReceived(msg.kernel, peer), adapter, node))
      && (msg.Transaction? ==> Forwarded(s, TransactionReceived(msg.tx, false), adapter, node))
      && (msg.StemTransaction? ==> Forwarded(s, TransactionReceived(msg.tx, true), adapter, node))
      && (msg.Block? ==> Forwarded(s, BlockReceived(msg.block, peer, {}), adapter, node))
      && (msg.CompactBlock? ==> Forwarded(s, CompactBlockReceived(msg.compact, peer), adapter, node))
      && (msg.Header? ==> Forwarded(s, HeaderReceived(msg.header, peer), adapter, node))
      && (msg.Headers? ==> Forwarded(s, HeadersReceived(msg.headers, peer), adapter, node))
  {
  }

  /** The remaining arms are handled by their own functions, with the
      message's fields passed through: `GetBlock` asks for the full block and
      `GetCompactBlock` for the compact one. */
  lemma DispatchRoutesToHandlers(msg: Message, peer: PeerInfo, adapter: Adapter, env: Env, node: Node)
    ensures var s := Dispatch(msg, peer, adapter, env, node);
      && (msg.Ping? ==> s == HandlePing(msg.totalDifficulty, msg.height, peer, adapter, node))
      && (msg.GetTransaction? ==> s == HandleGetTransaction(msg.txHash, peer, adapter, node))
      && (msg.GetBlock? ==> s == HandleGetBlock(msg.hash, false, peer, adapter, env, node))
      && (msg.GetCompactBlock? ==> s == HandleGetBlock(msg.hash, true, peer, adapter, env, node))
      && (msg.GetHeaders? ==> s == HandleGetHeaders(msg.locator, peer, adapter, node))
      && (msg.TxHashSetRequest? ==> s == HandleTxHashSetRequest(peer, adapter, node))
      && (msg.TxHashSetArchive? ==> s == HandleTxHashSetArchive(msg.height, msg.hash, msg.bytes, adapter, env, node))
      && (msg.Attachment? ==> s == HandleAttachment(msg.update, peer, adapter, env, node))
  {
  }

  /** `consume`: ban check, then the version gate, then the variant's arm. */
  function Consume(msg: Message, peer: PeerInfo, chain: ChainConfig, adapter: Adapter, env: Env, node: Node): (s: Step)
    ensures peer.addr in adapter.banned ==> s == Step(Ok(Disconnect), node, [IsBanned(peer.addr)])
    ensures |s.log| >= 1 && s.log[0] == IsBanned(peer.addr)
    ensures peer.addr !in adapter.banned && CheckProtocolVersion(peer, chain, adapter).verdict.Err? ==>
      && s.result == Err(CheckProtocolVersion(peer, chain, adapter).verdict.error)
      && s.node == node
      && forall i :: 0 <= i < |s.log| ==> !IsMutation(s.log[i])
    ensures s.node.syncRequested ==> node.syncRequested
    ensures !msg.TxHashSetArchive? ==> s.node.syncRequested == node.syncRequested
    ensures s.result.Ok? && s.result.value.Attachment? ==>
      msg.TxHashSetArchive? && adapter.receiveReady && node.syncRequested && !s.node.syncRequested
    ensures s.result == Err(LowProtocolVersion) <==>
      peer.addr !in adapter.banned && CheckProtocolVersion(peer, chain, adapter).verdict == Err(LowProtocolVersion)
    ensures s.result == Err(BadMessage) <==>
      && peer.addr !in adapter.banned && CheckProtocolVersion(peer, chain, adapter).verdict.Ok?
      && msg.TxHashSetArchive? && !(adapter.receiveReady && node.syncRequested)
  {
    if peer.addr in adapter.banned then
      Step(Ok(Disconnect), node, [IsBanned(peer.addr)])
    else
      var gate := CheckProtocolVersion(peer, chain, adapter);
      var checked := [IsBanned(peer.addr)] + gate.log;
      match gate.verdict
      case Err(e) => Step(Err(e), node, checked)
      case Ok(_) =>
        var s := Dispatch(msg, peer, adapter, env, node);
        DispatchErrors(msg, peer, adapter, env, node);
        Step(s.result, s.node, checked + s.log)
  }

  /** For an admitted peer, the outcome is that of the message's own arm,
      after the ban check and the gate's height query. */
  lemma AdmittedStep(msg: Message, peer: PeerInfo, chain: ChainConfig, adapter: Adapter, env: Env, node: Node)
    requires peer.addr !in adapter.banned && CheckProtocolVersion(peer, chain, adapter).verdict.Ok?
    ensures var d := Dispatch(msg, peer, adapter, env, node);
      Consume(msg, peer, chain, adapter, env, node) == Step(d.result, d.node, [IsBanned(peer.addr), TotalHeight] + d.log)
  {
    var gate := CheckProtocolVersion(peer, chain, adapter);
    assert gate.log == [TotalHeight];
    assert [IsBanned(peer.addr)] + gate.log == [IsBanned(peer.addr), TotalHeight];
  }

  /** A `Ping` from an admitted peer asks `total_height()` a second time:
      its Pong carries that second answer, and a failure of it is passed on
      even though the gate's query succeeded. */
  lemma PingAsksHeightAgain(msg: Message, peer: PeerInfo, chain: ChainConfig, adapter: Adapter, env: Env, node: Node)
    requires msg.Ping? && peer.addr !in adapter.banned
    requires CheckProtocolVersion(peer, chain, adapter).verdict.Ok?
    ensures var s := Consume(msg, peer, chain, adapter, env, node);
      && s.node == node
      && (adapter.totalDifficulty.Answered? ==>
            s.log == [IsBanned(peer.addr), TotalHeight, PeerDifficulty(peer.addr, msg.totalDifficulty, msg.height), TotalDifficulty, TotalHeight])
      && (adapter.totalDifficulty.Answered? && adapter.pongHeight.Failed? ==> s.result == Err(adapter.pongHeight.cause))
      && (s.result.Ok? ==>
            s.result.value == Response(ReplyTo(peer, PongReply(adapter.totalDifficulty.value, adapter.pongHeight.value))))
  {
    AdmittedStep(msg, peer, chain, adapter, env, node);
    DispatchRoutesToHandlers(msg, peer, adapter, env, node);
  }
}
