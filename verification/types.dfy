/** Plain data shared by the peer message handler: identities, chain objects,
    attachment descriptors, errors and the handler's result wrapper. */
module P2pTypes {

  /** Unsigned 64-bit quantities (`u64`, and `usize` on a 64-bit target). */
  const U64_MODULUS: int := 0x1_0000_0000_0000_0000

  type U64 = x: int | 0 <= x < U64_MODULUS

  /** `a - b` on `usize` as a release build computes it: wrapping on underflow. */
  function WrappingSub(a: U64, b: U64): (r: U64)
    ensures b <= a ==> r == a - b
    ensures a < b ==> r == a - b + U64_MODULUS
  {
    (a - b) % U64_MODULUS
  }

  /** A block, header, kernel or snapshot hash; its bytes do not matter here. */
  datatype Hash = Hash(bytes: seq<bv8>)

  /** A peer's network address. */
  datatype PeerAddr = PeerAddr(ip: seq<bv8>, port: nat)

  /** Capability bitmask a peer advertises. */
  type Capabilities = bv32

  /** Identity and negotiated parameters of one connection. */
  datatype PeerInfo = PeerInfo(
    addr: PeerAddr,
    version: nat,
    capabilities: Capabilities,
    totalDifficulty: U64,
    height: U64)

  datatype BlockHeader = BlockHeader(height: U64, hash: Hash, totalDifficulty: U64)

  datatype Transaction = Transaction(kernels: seq<Hash>, body: seq<bv8>)

  /** A block. Its body pools the inputs, outputs and kernels of all its
      transactions; their content does not matter here. */
  datatype Block = Block(header: BlockHeader, body: seq<bv8>)

  /** What a compact block carries beside the header: a random nonce, the
      coinbase outputs and kernels in full and the short ids of the other
      kernels. Its content does not matter here. */
  datatype CompactBody = CompactBody(encoded: seq<bv8>)

  datatype CompactBlock = CompactBlock(header: BlockHeader, body: CompactBody)

  /** `CompactBlock::from(Block)`. Everything beside the header depends on a
      random nonce and on code outside this model, so `compaction` supplies
      it; the header is kept. */
  function ToCompact(b: Block, compaction: Block -> CompactBody): (cb: CompactBlock)
    ensures cb.header == b.header
  {
    CompactBlock(b.header, compaction(b))
  }

  /** A UTC instant: whole seconds since the epoch and the sub-second part. */
  datatype Instant = Instant(seconds: int, nanos: nat)

  /** A filesystem path: the directory the adapter chose and a file name. */
  datatype Path = Path(dir: string, name: string)

  datatype FileMode = Read | Write

  /** An open file handed between the handler and the connection layer. */
  datatype FileHandle = FileHandle(path: Path, mode: FileMode)

  /** Descriptor of one inbound snapshot transfer. */
  datatype AttachmentMeta = AttachmentMeta(
    size: U64,
    hash: Hash,
    height: U64,
    startTime: Instant,
    path: Path)

  /** Progress of an attachment stream: `left` bytes are still to come. */
  datatype AttachmentUpdate = AttachmentUpdate(meta: AttachmentMeta, left: U64)

  datatype IoError = NotFound | AlreadyExists | Other(code: nat)

  /** The handler's error kinds; adapter failures arrive as `Chain` or `Store`
      values and are passed on unchanged. */
  datatype Error =
    | LowProtocolVersion
    | BadMessage
    | Io(io: IoError)
    | Chain(code: nat)
    | Store(code: nat)

  datatype Result<+T> = Ok(value: T) | Err(error: Error)

  /** The errors an adapter call passes on through `?`: chain and store
      failures, never one of the handler's own kinds. */
  type AdapterError = e: Error | e.Chain? || e.Store? witness Chain(0)

  /** An adapter query's answer: a value, or the adapter's error. */
  datatype Answer<+T> = Answered(value: T) | Failed(cause: AdapterError)

  /** A value that may be absent. `None` is taken by the handler's
      "nothing to send" outcome, hence `Nothing`. */
  datatype Option<+T> = Nothing | Some(value: T)
}
