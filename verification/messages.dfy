/** Decoded inbound messages, outbound replies and the handler's outcome. */
module Messages {
  import opened P2pTypes

  /** Every inbound variant the handler distinguishes. Bodies are already
      decoded; fields the handler only logs are kept so that the model can
      say they do not influence the outcome. */
  datatype Message =
    | Ping(totalDifficulty: U64, height: U64)
    | Pong(totalDifficulty: U64, height: U64)
    | BanReason(reason: nat)
    | TransactionKernel(kernel: Hash)
    | GetTransaction(txHash: Hash)
    | Transaction(tx: Transaction)
    | StemTransaction(tx: Transaction)
    | GetBlock(hash: Hash)
    | Block(block: Block)
    | GetCompactBlock(hash: Hash)
    | CompactBlock(compact: CompactBlock)
    | GetHeaders(locator: seq<Hash>)
    | Header(header: BlockHeader)
    | Headers(headers: seq<BlockHeader>)
    | GetPeerAddrs(capabilities: Capabilities)
    | PeerAddrs(peers: seq<PeerAddr>)
    | TxHashSetRequest(hash: Hash, height: U64)
    | TxHashSetArchive(height: U64, hash: Hash, bytes: U64)
    | Attachment(update: AttachmentUpdate)
    | Unknown(msgType: nat)

  /** The body of a reply sent back on the same connection. */
  datatype Reply =
    | PongReply(totalDifficulty: U64, height: U64)
    | TransactionReply(tx: Transaction)
    | BlockReply(block: Block)
    | CompactBlockReply(compact: CompactBlock)
    | HeadersReply(headers: seq<BlockHeader>)
    | PeerAddrsReply(peers: seq<PeerAddr>)
    | ArchiveReply(height: U64, hash: Hash, bytes: U64)

  /** Raw bytes streamed after a reply's body, if any. */
  datatype Trailer = NoTrailer | Trailer(reader: FileHandle)

  /** One outbound message: body, the peer's protocol version it is encoded
      for, and an optional trailing byte stream. */
  datatype Msg = Msg(reply: Reply, version: nat, trailer: Trailer)

  /** What the connection layer must do after one inbound message. */
  datatype Consumed =
    | None
    | Response(msg: Msg)
    | Disconnect
    | Attachment(meta: AttachmentMeta, sink: FileHandle)
}
