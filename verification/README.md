# Grin peer message handler — a Dafny model

This project models the per-peer inbound message handler of the Grin node's
peer-to-peer layer (`Protocol` in `p2p/src/protocol.rs`):

- the version compatibility gate (`check_protocol_version`);
- `MessageHandler::consume`, with every arm of its `match message`;
- both sides of the snapshot ("txhashset") transfer, through the
  `state_sync_requested` flag that each handler is built with.

The arms are:

- the Ping/Pong exchange;
- the transaction, block, header and peer-address announcements;
- the transaction, block, compact block, header and peer-address lookups;
- the snapshot offer (`TxHashSetRequest`);
- the snapshot acceptance (`TxHashSetArchive`);
- the per-chunk progress and final hand-over (`Attachment`).

Each call is a pure function. It takes:

- the message;
- the peer's `PeerInfo`;
- the chain configuration (`ChainConfig`: whether the chain is a test network, and the third hard fork height);
- the adapter's answers (`NetAdapter.Adapter`, an oracle record);
- the clock, the random nonce and any filesystem faults (`Protocol.Env`);
- the node state the handler can change (`Protocol.Node`: the sync flag and the set of files on disk).

It returns the result, the new node state, and the ordered log of adapter and filesystem calls it made (`NetAdapter.Effect`). The model never runs these calls: the log records them, so that properties can speak about what a call changed.

Files:

- `types.dfy` (`P2pTypes`): identities, chain objects, attachment descriptors, errors, `Result`, `u64` as a subset type with wrapping subtraction, and the adapter's answers (`Answer`), whose errors can only be chain or store errors.
- `messages.dfy` (`Messages`): inbound `Message`, outbound `Msg`, and the handler's `Consumed` outcome.
- `adapter.dfy` (`NetAdapter`): the adapter oracle, the `Effect` log entries and `Select`, a filter over a log.
- `tmpname.dfy` (`TmpName`): the temporary file name `txhashset-<seconds>-<nonce>.zip`, with a parser, a round trip and injectivity.
- `protocol.dfy` (`Protocol`): the gate, the filesystem operations, each arm, `Dispatch` (the match) and `Consume`.
- `sessions.dfy` (`Sessions`): properties over one call or several:
  - which effects each variant may have;
  - single acceptance of a requested snapshot across a run of calls;
  - a complete inbound transfer, from acceptance to removal of the temporary file.

Where the behaviour one would expect and the code differ, the model follows the code:

- **Temporary file removal.** The file is removed only when the final chunk's `File::open` and `txhashset_write` both succeed. Either failure returns early through `?`, and the file stays (protocol.rs:97-109).
- **Gate error.** A `total_height()` failure is passed on even for peers at version 3 or higher. The height is asked whenever the network minimum is met (protocol.rs:55).
- **Flag cleared before file creation.** The sync flag is cleared before the temporary file is created. A creation failure therefore still leaves the flag down (protocol.rs:282-298).

## Model

| member | source | states |
|---|---|---|
| Protocol.CheckProtocolVersion | p2p/src/protocol.rs:47-62 | Below the network minimum (3 on test networks, 2 otherwise) the peer is refused with `LowProtocolVersion` and the chain is not consulted. Otherwise `total_height()` is asked exactly once and its error is passed on. With a known height, the peer passes exactly when its version reaches `MinimumVersion`, which is 3 from the third hard fork on. |
| Protocol.GateMonotoneInHeight | p2p/src/protocol.rs:55-59 | The gate only tightens as the chain grows: a peer admitted at some height is also admitted at every lower height. |
| Sessions.ForkHeightRetiresVersionTwo | p2p/src/protocol.rs:47-80 | A version-2 peer on the production network passes below the fork height. Once the chain reaches that height, its next message of any kind is refused with `LowProtocolVersion`, after just the ban check and the height query, with the node untouched. |
| Protocol.Consume | p2p/src/protocol.rs:66-80 | A banned peer is answered with `Disconnect` after the ban query alone. A gate failure returns the gate's error, changes no node state and makes no mutating call. The flag is never raised, and only an archive message can lower it. An `Attachment` outcome means an archive arrived while the adapter was ready and the flag was up, and the flag is now down. The result is `LowProtocolVersion` exactly when the gate refuses the peer. It is `BadMessage` exactly when an admitted peer sends an archive while the adapter is not ready or the flag is down. |
| Protocol.Dispatch | p2p/src/protocol.rs:82-311 | Only the two transfer arms change node state, and only the archive arm touches the flag, never raising it. Only an archive yields an `Attachment` outcome. `Disconnect` is returned exactly for `BanReason`. |
| Protocol.DispatchAnswersInPlace | p2p/src/protocol.rs:127-310 | `Pong` records the peer's difficulty and height and sends nothing. `BanReason` disconnects without a call. `GetPeerAddrs` answers, for the peer's version, with the peers the adapter knows for the requested capabilities. `PeerAddrs` hands the addresses over and sends nothing. An unknown type gives `None` without a call. None of these fails or changes node state. |
| Protocol.DispatchForwardsAnnouncements | p2p/src/protocol.rs:137-222 | Kernels, transactions (stem or not), blocks, compact blocks, headers and header batches are each forwarded in exactly one adapter call carrying their own payload, with the sending peer where the adapter takes one. Blocks carry no chain options. The adapter's refusal is passed on; otherwise nothing is sent and the node is unchanged. |
| Protocol.DispatchRoutesToHandlers | p2p/src/protocol.rs:83-309 | `Ping`, `GetTransaction`, `GetBlock`, `GetCompactBlock`, `GetHeaders`, `TxHashSetRequest`, `TxHashSetArchive` and `Attachment` are answered by their arm's handler with the message's own fields. `GetBlock` asks for the full block and `GetCompactBlock` for the compact one. |
| Protocol.DispatchErrors | p2p/src/protocol.rs:271-280 | After the gate, no arm yields `LowProtocolVersion`. `BadMessage` comes exactly from an archive that arrives while the adapter is not ready or the flag is down. Every other error comes from the adapter or the filesystem. |
| Protocol.HandleAttachment | p2p/src/protocol.rs:83-113 | Every chunk reports `size - left` of `size` (u64 wrapping), from the transfer's start time. A non-final chunk does nothing else and returns `None`. The final chunk opens the file and passes an open failure on. It then hands the file to `txhashset_write` under the declared hash and passes a refusal on. Only after both succeed does it remove the file, best effort, and return `None`. |
| Protocol.HandlePing | p2p/src/protocol.rs:115-125 | The peer's difficulty and height are recorded first. The reply is a Pong carrying the node's own difficulty and height for the peer's version. The height is the answer to Ping's own `total_height()` call, not the gate's. A failure of either query is passed on, difficulty first. Nothing after the first call mutates. |
| Protocol.Notify | p2p/src/protocol.rs:137-141 | An announcement makes exactly one adapter call and leaves the node unchanged. The adapter's error is passed on; otherwise nothing is sent. |
| Protocol.AdmittedStep | p2p/src/protocol.rs:66-80 | For a peer that is not banned and passes the gate, the result and node state are exactly those of the message's arm. The calls are the ban check, the gate's single height query, then the arm's own calls. |
| Protocol.PingAsksHeightAgain | p2p/src/protocol.rs:55-125 | For an admitted peer, a Ping makes the calls ban check, gate height, peer figures and difficulty, and then, when the difficulty query succeeds, height, in that order. A failed difficulty query ends the call before the second height query. Its Pong carries the second height answer, and if that second query fails, its error is the result although the gate's query succeeded. The node is unchanged. |
| Protocol.HandleGetTransaction | p2p/src/protocol.rs:143-151 | A pool hit is answered with that transaction; a miss yields `None`. |
| Protocol.HandleGetBlock | p2p/src/protocol.rs:165-192 | A chain hit is answered, for the peer's version and with no trailer, with the block itself. For the compact request it is answered with that block's compact form, which keeps its header. A miss yields `None`. The only call is the block lookup. |
| Protocol.HandleGetHeaders | p2p/src/protocol.rs:200-210 | The reply carries exactly what `locate_headers` returned for the locator; its error is passed on. |
| Protocol.HandleTxHashSetRequest | p2p/src/protocol.rs:238-264 | The offer is for the adapter's current archive header, not the requested one. Height, hash and file length go in the body and the snapshot reader is attached as a trailer. No snapshot means `None`. Header and length errors are passed on. Nothing is mutated. |
| Protocol.HandleTxHashSetArchive | p2p/src/protocol.rs:266-309 | The archive is refused with `BadMessage`, and the flag left as it was, unless the adapter is ready and the flag is up. On acceptance the flag is cleared, 0 of `bytes` is reported, and the temporary path is named from the time and the nonce. It succeeds exactly when a new file can be created there, and yields an `Attachment` with the declared size, hash and height plus a write handle. |
| Protocol.Open | p2p/src/protocol.rs:97 | Opening succeeds exactly when the file exists and no fault is injected, and gives a read handle on that path. |
| Protocol.CreateNew | p2p/src/protocol.rs:295-298 | Exclusive creation succeeds exactly when the path is absent and no fault is injected, and then the file exists. An existing path gives `AlreadyExists` when no fault is injected; an injected fault gives the fault's error. A failure leaves the disk unchanged. |
| Protocol.Remove | p2p/src/protocol.rs:107-109 | Removal is best effort. Without a fault the path is gone; with one the disk is unchanged. The flag is untouched either way. |
| P2pTypes.WrappingSub | p2p/src/protocol.rs:86 | `usize` subtraction as a release build computes it: exact when no underflow occurs, otherwise wrapped modulo 2^64. |
| TmpName.FileNameRoundTrip | p2p/src/protocol.rs:288-293 | Parsing a generated temporary file name gives back the start second and the nonce, including negative seconds. |
| TmpName.FileNameInjective | p2p/src/protocol.rs:288-293 | Two transfers get the same temporary file name if and only if they start in the same second with the same nonce. |
| Sessions.ConsumeOnlyPermittedEffects | p2p/src/protocol.rs:82-311 | Every mutating call one message makes is permitted for its variant by an independent table. Announcements forward exactly their own payload. Lookups, `BanReason` and unknown types change nothing. Only the two transfer variants report progress or touch files. |
| Sessions.Run | p2p/src/protocol.rs:277-282 | Over any sequence of messages handled one after another by calls that share one flag (one peer's handler, or handlers built with the same flag), the flag is never raised. At most one archive is accepted, none unless the flag was up at the start, and after an acceptance the flag is down. |
| Sessions.ArchiveAccepted | p2p/src/protocol.rs:271-308 | For an admitted peer, with the adapter ready, the flag up and the path free, the archive is accepted into a fresh temporary file. The flag drops, 0 bytes of progress are reported, and nothing is written to the chain. |
| Sessions.TransferCompletes | p2p/src/protocol.rs:83-113 | Take any chunk plan (positive remainders, then 0) from an admitted peer. Assume the final chunk's file handling succeeds (`CanFinish`): the file exists, opening and removing it do not fault, and `txhashset_write` accepts it. Then every chunk returns `None` and reports `size - left` of `size`. The archive is handed to `txhashset_write` exactly once, on the last chunk, under the declared hash. At the end the temporary file is gone. |
| Sessions.SnapshotScenario | p2p/src/protocol.rs:266-309 | Request to completion for a 4096-byte archive at height 100: it is accepted and the flag drops. Two chunks then report 2048 and 4096 of 4096 after the archive's 0. The archive is written once, on the second chunk, and the disk ends as it began. |

## Left out

- Message decoding and encoding: messages arrive already decoded. A failure of `Msg::new` (the `?` on each reply) is not modelled, so replies are always built.
- Logging: the `debug!`, `trace!`, `warn!` and `error!` lines have no effect on the outcome and are not modelled. That includes the warning when removal fails.
- Concurrency: calls are modelled one after another. The flag's load-then-store, which is not a compare-and-swap, can let two archives pass at the same time when two connections' handlers share one flag. That race, and the `Relaxed` memory ordering, are outside the model, and `Sessions.Run` speaks only of sequential calls.
- Sessions.Run: which handlers share a `state_sync_requested` flag is decided where `Protocol::new` is called, outside protocol.rs. A run assumes its calls share one flag. The model does not claim that the handlers of different peers share it, so it promises nothing about acceptances across handlers with separate flags. protocol.rs only ever lowers the flag; whatever raises it (the node asking a peer for a snapshot) is outside protocol.rs, and a run assumes nothing raises it between its calls. "At most one acceptance" is therefore a claim about one stretch of calls between two such requests, not about a whole session.
- Protocol.HandleAttachment: `size - left` is modelled as a release build's wrapping subtraction. A debug build would panic when `left > size`.
- The chunk bytes of an `Attachment` message, and the writing of chunks into the sink, belong to the connection layer and are not modelled.
- The boolean that `txhashset_write` returns is only logged, so the model keeps the call's error and drops the boolean.
- The hash and height that a `TxHashSetRequest` names are only logged; the offer is for the adapter's current archive.
- The `into()` conversions of inbound blocks, compact blocks and headers are modelled as the identity.
- `CompactBlock::from` is not part of this model. Beside the header, a compact block carries a random nonce, the coinbase outputs and kernels, and the sorted short ids of the other kernels. That part is an input (`Env.compaction`), and the model promises only that the header is kept.
- Block bodies are opaque bytes. Their inputs, outputs and kernels are not modelled.
- The filesystem is a set of existing paths plus injected faults per operation. Permissions, partial writes and file contents are not modelled.
- The clock (`Utc::now`) and the random nonce (`gen_range(0, 1_000_000)`) are inputs. The nonce's range is kept as a subtype.
- The chain-type globals `is_testnet` and `third_hard_fork_height` are parameters.
- `Protocol::new` only stores its arguments and is not modelled separately.
