/** The collaborator the handler talks to (chain, pool, peer store,
    ban list, snapshot store) and the filesystem, seen from the handler: an
    oracle answering queries, and a log of every call the handler makes. */
module NetAdapter {
  import opened P2pTypes

  /** `chain::Options` flags passed with a received block; the empty set is `NONE`. */
  datatype ChainOption = SkipPow | Sync | Mine

  /** One call the handler makes, in the order it makes them. */
  datatype Effect =
    // adapter queries
    | IsBanned(addr: PeerAddr)
    | TotalDifficulty
    | TotalHeight
    | LookupTransaction(txHash: Hash)
    | LookupBlock(hash: Hash, peer: PeerInfo)
    | LocateHeaders(locator: seq<Hash>)
    | FindPeerAddrs(capabilities: Capabilities)
    | ArchiveHeader
    | TxHashSetRead(hash: Hash)
    | ReceiveReady
    | TmpfilePathname(name: string)
    // adapter notifications
    | PeerDifficulty(addr: PeerAddr, difficulty: U64, height: U64)
    | TxKernelReceived(kernel: Hash, peer: PeerInfo)
    | TransactionReceived(tx: Transaction, stem: bool)
    | BlockReceived(block: Block, peer: PeerInfo, opts: set<ChainOption>)
    | CompactBlockReceived(compact: CompactBlock, peer: PeerInfo)
    | HeaderReceived(header: BlockHeader, peer: PeerInfo)
    | HeadersReceived(headers: seq<BlockHeader>, peer: PeerInfo)
    | PeerAddrsReceived(peers: seq<PeerAddr>)
    | DownloadUpdate(start: Instant, received: U64, total: U64)
    | TxHashSetWrite(hash: Hash, reader: FileHandle, peer: PeerInfo)
    // filesystem
    | OpenFile(path: Path)
    | CreateNewFile(path: Path)
    | RemoveFile(path: Path)

  /** Calls that change something outside the handler. */
  predicate IsMutation(e: Effect)
  {
    !(e.IsBanned? || e.TotalDifficulty? || e.TotalHeight? || e.LookupTransaction?
      || e.LookupBlock? || e.LocateHeaders? || e.FindPeerAddrs? || e.ArchiveHeader?
      || e.TxHashSetRead? || e.ReceiveReady? || e.TmpfilePathname? || e.OpenFile?)
  }

  /** The file length `metadata()` reports, or the I/O error it fails with. */
  datatype Metadata = Length(bytes: U64) | Unreadable(io: IoError)

  /** The node's current snapshot as `txhashset_read` hands it out. */
  datatype Snapshot = Snapshot(reader: FileHandle, length: Metadata)

  /** The adapter's answers during one call of the handler. Calls that return
      `Result<()>` fail exactly when they appear in `refusals`. The gate's
      `total_height()` answer is `totalHeight`; a `Ping` asks again while
      building its Pong, and that second answer, `pongHeight`, may fail or
      differ from the first. */
  datatype Adapter = Adapter(
    banned: set<PeerAddr>,
    totalDifficulty: Answer<U64>,
    totalHeight: Answer<U64>,
    pongHeight: Answer<U64>,
    transactions: map<Hash, Transaction>,
    blocks: map<Hash, Block>,
    locate: seq<Hash> -> Answer<seq<BlockHeader>>,
    knownPeers: Capabilities -> seq<PeerAddr>,
    archiveHeader: Answer<BlockHeader>,
    snapshots: map<Hash, Snapshot>,
    receiveReady: bool,
    tmpDir: string,
    refusals: map<Effect, AdapterError>)
  {
    /** The answer to a notification that returns `Result<()>`. */
    function Outcome(e: Effect): (r: Result<()>)
      ensures r.Ok? <==> e !in refusals
      ensures r.Err? ==> r.error == refusals[e]
    {
      if e in refusals then Err(refusals[e]) else Ok(())
    }

    /** `get_tmpfile_pathname`: the name placed in the adapter's temp directory. */
    function TmpfilePath(name: string): (p: Path)
      ensures p.name == name
    {
      Path(tmpDir, name)
    }
  }

  /** The calls in `log` for which `P` holds, in order. */
  function Select(log: seq<Effect>, P: Effect -> bool): (sel: seq<Effect>)
    ensures |sel| <= |log|
    ensures forall i :: 0 <= i < |sel| ==> P(sel[i])
  {
    if |log| == 0 then []
    else
      var init := Select(log[..|log| - 1], P);
      var last := log[|log| - 1];
      if P(last) then init + [last] else init
  }

  lemma {:induction false} SelectAppend(a: seq<Effect>, b: seq<Effect>, P: Effect -> bool)
    ensures Select(a + b, P) == Select(a, P) + Select(b, P)
    decreases |b|
  {
    if |b| == 0 {
      assert a + b == a;
    } else {
      assert (a + b)[..|a + b| - 1] == a + b[..|b| - 1];
      SelectAppend(a, b[..|b| - 1], P);
    }
  }

  lemma {:induction false} SelectNone(log: seq<Effect>, P: Effect -> bool)
    requires forall i :: 0 <= i < |log| ==> !P(log[i])
    ensures Select(log, P) == []
    decreases |log|
  {
    if |log| > 0 {
      SelectNone(log[..|log| - 1], P);
    }
  }
}
