# LeoCoin, verified

A Dafny model of LeoCoin, a proof-of-work blockchain in C, with proofs of what it is for: chains that
cannot be rewritten, servers that keep the first of the longest valid chains they are offered and agree
when one is longer than the rest, messages that survive the wire, and a peer list that holds exactly the
active peers. `dafny verify dfyconfig.toml` checks everything.

## What is modelled

| file | contents |
|---|---|
| `Bytes.dfy`, `Cursor.dfy`, `ReturnCodes.dfy` | machine integers, big-endian fields, bounds-checked reads, return codes |
| `LinkedList.dfy` | the heap list: nodes, in-place relinking, a log of what is freed |
| `Ledger.dfy` | transactions, blocks, chains, and the byte string that a block's hash digests |
| `Validity.dfy` | what makes a chain valid, which block is reported, and what the last hash determines |
| `Blockchain.dfy` | the blockchain object: append, verify, and the nonce search |
| `ChainCodec.dfy`, `Peers.dfy`, `Commands.dfy` | the wire formats of chains, peer lists and commands |
| `Connections.dfy` | sockets that transfer arbitrary fragments, the receive and send loops, framing |
| `Consensus.dfy` | one consensus request, and whole sequences of them |
| `Interleavings.dfy` | the miner's atomic actions interleaved with threads that replace the shared chain |
| `MiningThread.dfy` | the mining loop over heap objects; each execution is a run of `Interleavings.dfy` |
| `Registry.dfy` | the bootstrap server's peer list and its expiry loop, and whole sequences of requests |
| `Discovery.dfy` | the server and client halves of the registration exchange |

What the program takes from its platform is a parameter, the datatype `World`: the host's byte order,
SHA-256, the outcome of a signature check and the outcome of signing. Nothing is assumed of them. SHA-256
is not assumed to be injective: tamper evidence says "equal, or here are two blocks that collide". One
hypothesis, `SigningWorks`, says that the miner's two keys belong together; it appears only in statements
about the miner. The clock, the fragments in which bytes arrive, the flags read during the nonce search
and the actions of other threads are parameters of the methods that meet them.

Imperative code is modelled by methods with the source's loops and mutations, each proved against a
function or a relation, and the theorems are about those. A read past the end of a buffer, after which C
defines nothing, is the outcome `OutOfBounds`, or the verdict `Undefined` on a chain.

The functions that methods and theorems share are themselves fixed from outside, by statements that do not
use them: where each byte of a message or of a hashed block lies, which buffers and streams are accepted and
why the others are not, validity and verdicts in terms of the platform's own answers, and, for the miner,
what every turn of its loop builds, finds and appends.

## Where the code and its documentation disagree

The model follows the code. For every disagreement but the last, which is unconditional, a lemma gives an
input at which it shows and another the exact condition under which the promise is kept.

- `include/blockchain.h` documents four conditions for validity. The code also requires the first block to
  have no transactions: `SignedGenesisIsRejected`, and exactly `ValidityIsDocumentedValidity`.
- `first_invalid_block` is documented to be filled whenever the chain is invalid. The code leaves it alone
  for a later block without transactions: `EmptyBlockIsNotReported`, and exactly
  `VerdictWithWorkingSignatureCalls`. The miner prints that block when its own chain is invalid, so with such
  a chain it follows a null pointer; `BuildNextBlock` stops with `OutOfBounds` there, and `RunsAreSafe` says
  that no run gets there.
- A miner asked to stop is documented to terminate gracefully. When the stop flag is seen right after a nonce
  search that found nothing, the code returns that search's failure code: `FruitlessExitHappens`, and
  exactly `CodeTellsTheLastSearch`, which the contract of `MineBlocks` carries over to its exit code.
- The header comment of `synchronized_blockchain_t` says that readers can tell from the version alone whether
  their chain is the current one. If the chain is replaced between the miner's read of the pointer and its
  read of the version, the miner records the new version for the old chain: `StaleHappens`, exactly
  `RecordingIsCurrentIffUndisturbed`, and for what follows `StalenessPersists`.
- The bootstrap server is meant to list the peers heard from within the keepalive. When the clock is set back
  the list can lack one: `ClockGoingBackLosesPeers`, and exactly `RegistryHoldsActivePeersIff`.
- The deserializer checks the buffer against the announced signature length, and then reads 512 bytes:
  `OutOfBoundsIsReachable`, and exactly `OutOfBoundsBuffers`.
- The payload of a register-peer command is 32 bytes, four more than its fields, because its size is taken
  from a padded struct.

## Model

| member | source | states |
|---|---|---|
| Bytes.HostToBigEndian64 | src/endian.c:3-15 | the bytes stored are the number's big-endian digits, and decode to it |
| Bytes.BigEndianToHost64 | src/endian.c:17-29 | the number decoded re-encodes to the same eight bytes |
| Bytes.DecodeAfterEncode | src/endian.c:3-29 | decoding undoes encoding at every width that holds the value |
| Bytes.EncodeAfterDecode | src/endian.c:3-29 | encoding undoes decoding, so every field has one reading |
| Bytes.BigEndianDigit | src/endian.c:3-15 | byte i of the eight is the digit of weight 256^(7-i) |
| LinkedLists.LinkedList.Append | src/linked_list.c:146-176 | the contents grow by one at the end; the heap stays a list without repeated or freed nodes |
| LinkedLists.LinkedList.Prepend | src/linked_list.c:53-69 | the contents grow by one at the front |
| LinkedLists.LinkedList.Find | src/linked_list.c:120-144 | the node found is the first that compares equal; null when none does; failure without a compare function |
| LinkedLists.LinkedList.GetLast | src/linked_list.c:178-200 | the last node, or the failure of an empty list |
| LinkedLists.LinkedList.Length | src/linked_list.c:202-215 | the number of elements |
| LinkedLists.LinkedList.RemoveFirst | src/linked_list.c:91-107 | the first node is unlinked and freed, or the list was empty |
| LinkedLists.LinkedList.Destroy | src/linked_list.c:27-51 | every node of the list is freed exactly once, and none remains |
| Ledger.BlockHash | src/block.c:70-101 | the hash is SHA-256 of the header fields followed by every raw transaction |
| Ledger.HashedBytesLayout | src/block.c:79-96 | in what is digested the time is at 0, the nonce at 8, the previous hash at 16, and transaction i at 48 + 8728 i |
| Ledger.RawTransactionLayout | include/transaction.h:29-35 | in a transaction's memory the fields are at 0, 8, 4104, 8200, 8208 and 8216 |
| Ledger.HostBytesDigit | src/block.c:79-82 | an integer is digested as it lies in memory, low-order byte first on a little-endian host |
| Ledger.HashedBytesInjective | src/block.c:76-96 | different blocks are hashed from different byte strings, although the transaction count is not hashed |
| Blockchains.CreateGenesisBlock | src/block.c:34-56 | the block created is a genesis block |
| Validity.GenesisStartsEveryChain | src/blockchain.c:372-393 | a chain of one block is valid exactly when that block is a genesis block |
| Blockchains.Blockchain.Verify | src/blockchain.c:358-478 | the scan gives the verdict on the least failing block, and accepts exactly the valid chains; at a later block under a difficulty above 32 the verdict is undefined |
| Blockchains.CheckSignatures | src/blockchain.c:453-472 | accepted exactly when the platform accepts every signature, each within its array; otherwise its answer on the first that it does not accept |
| Validity.ValidityIsSoundness | src/blockchain.c:372-476 | valid exactly when the first block is empty with proof of work 2017 and a zero hash, and every later one has its zeros, the previous hash, a minting transaction of amount 1 and only signatures that the platform accepts |
| Validity.VerdictOnHeader | src/blockchain.c:381-452 | what is reported when the first failing block fails before its signatures, check by check |
| Validity.VerdictOnSignatures | src/blockchain.c:453-472 | when it fails at its signatures, the platform's answer on the first one not accepted decides: a failing call fails the verification, a rejection makes the block invalid |
| Validity.SomeSignatureIsNotAccepted | src/blockchain.c:453-472 | there is no other way to fail |
| Validity.ValidityIsDocumentedValidity | include/blockchain.h:161-176 | accepted exactly when the four documented conditions hold over the chain and its first block has no transactions |
| Validity.SignedGenesisIsRejected | src/blockchain.c:381-393 | a signed transaction in the first block meets the documented conditions, and the chain is rejected |
| Validity.VerdictWithWorkingSignatureCalls | src/blockchain.c:381-476 | when no signature call fails, the verdict is validity and the block reported is the first failing one, except at the empty-transaction-list exit; for a later failing block nothing is defined when the difficulty exceeds 32 or the check that fails accepts more bytes than the signature array has |
| Validity.EmptyBlockIsNotReported | src/blockchain.c:419-428 | a linked block without transactions makes the chain invalid, and no block is reported |
| Validity.PrefixesAreValid | src/blockchain.c:394-475 | every prefix of a valid chain is valid |
| Validity.ExtensionValidity | src/blockchain.c:397-475 | a chain with one more block is valid exactly when it was valid and the block may follow its last one |
| Validity.TipFixesHistory | src/blockchain.c:372-476 | two valid chains with equal last hashes, of any lengths, have equal blocks, or the two positions returned hold different blocks with one hash |
| Blockchains.IsValidBlockHash | src/blockchain.c:106-128 | the miner's byte loop agrees with the verifier's comparison with zeros |
| Blockchains.LeadingBytesAreZero | src/blockchain.c:406-409 | for difficulties up to 32 the verifier's comparison is true exactly when the hash meets the difficulty |
| Blockchains.ProofIsZeros | src/blockchain.c:269-331 | a nonce proves a block exactly when the block with it hashes to enough leading zeros |
| Blockchains.MineBlock | src/blockchain.c:225-343 | success is the least nonce that proves the block; not found means that none below the limit does; stopping and a new version are reported exactly when seen first |
| Blockchains.Blockchain.AddBlock | src/blockchain.c:95-104 | the block is appended to the chain in place |
| ChainCodec.SerializeChain | src/blockchain.c:480-598 | the buffer is the encoding of the chain |
| ChainCodec.DeserializeTransaction | src/blockchain.c:687-782 | the checked reads parse exactly what the parsing function does, failure by failure |
| ChainCodec.DeserializeChain | src/blockchain.c:600-799 | a fresh blockchain with the decoded value, or the decoding failure |
| ChainCodec.EncodedChainLength | src/blockchain.c:495-560 | the size is 16 + 56 per block + 8728 per transaction |
| ChainCodec.ChainLayout | src/blockchain.c:503-545 | the difficulty is at 0, the number of blocks at 8, and block i follows the blocks before it |
| ChainCodec.BlockLayout | src/blockchain.c:533-545 | in a block the time is at 0, the previous hash at 8, the nonce at 40, the number of transactions at 48 |
| ChainCodec.TransactionLayout | src/blockchain.c:564-592 | in a transaction the fields are at 0, 8, 4104, 8200, 8208 and 8216 |
| ChainCodec.TransactionInChain | src/blockchain.c:520-592 | transaction j of block i lies 56 + 8728 j bytes after the beginning of the block |
| ChainCodec.ChainRoundTrip | src/blockchain.c:480-799 | decoding a serialized chain followed by any bytes gives the chain back exactly when every signature length is at most 4096 and at most 512 plus the bytes after its transaction |
| ChainCodec.UnreadableChainIsRejected | src/blockchain.c:749-765 | a serialized chain with another signature length is rejected, not read out of bounds |
| ChainCodec.ShortSignaturesAreReadable | src/blockchain.c:749-772 | signature lengths up to 512 are always readable |
| ChainCodec.ChainCanonical | src/blockchain.c:600-799 | an accepted buffer is exactly the serialization of what it yields, then the bytes not consumed |
| ChainCodec.AcceptedBuffers | src/blockchain.c:600-799 | accepted exactly when the buffer begins with a readable serialized chain |
| ChainCodec.ChainTruncated | src/blockchain.c:608-772 | no proper prefix of a serialized chain is accepted |
| ChainCodec.ConsumedBytesDetermineChain | src/blockchain.c:480-799 | two accepted buffers yield the same chain exactly when the bytes consumed are the same |
| ChainCodec.TakeSignature | src/blockchain.c:746-772 | which signature fields are accepted, and exactly when the fixed-size read leaves the buffer |
| ChainCodec.OutOfBoundsBuffers | src/blockchain.c:600-799 | the read leaves the buffer exactly when the buffer is a serialized chain cut off inside the signature of a transaction, at or after the length announced for it, with everything before that readable |
| ChainCodec.OutOfBoundsIsReachable | src/blockchain.c:749-772 | such a buffer: one transaction that announces an empty signature, without the signature field |
| Peers.SerializePeers | src/peer_discovery.c:25-86 | the buffer is the encoding of the list |
| Peers.DeserializePeers | src/peer_discovery.c:88-186 | a fresh list with the decoded peers in order, or the buffer is too small |
| Peers.PeerListRoundTrip | src/peer_discovery.c:25-186 | decoding undoes encoding for lists of any length; the size is 8 + 36 per peer |
| Peers.PeerListCanonical | src/peer_discovery.c:88-186 | an accepted buffer begins with the encoding of the list it yields |
| Peers.PeerListTruncated | src/peer_discovery.c:99-163 | every proper prefix of an encoded list is rejected as too small |
| Peers.AddressLayout | src/peer_discovery.c:64-78 | family at 0, port at 2, flow information at 4, address at 8, scope at 24 |
| Peers.PeerListLayout | src/peer_discovery.c:60-81 | the number of peers at 0, peer i at 8 + 36 i, its time 28 bytes later |
| Commands.SerializeHeader | src/networking.c:12-45 | the header's bytes, or a wrong prefix |
| Commands.DeserializeHeader | src/networking.c:47-94 | the header parsed, failure by failure |
| Commands.HeaderRoundTrip | src/networking.c:12-94 | a header with the right prefix decodes to itself whatever follows, any other prefix is rejected |
| Commands.HeaderLayout | src/networking.c:29-40 | the prefix at 0, the command at 4, the length at 8 |
| Commands.HeaderInFull | src/networking.c:47-94 | which headers are accepted, how they are read, and with what failure the others are refused |
| Commands.SerializeRegisterPeer | src/networking.c:96-160 | the command's bytes with the payload length filled in, or which check failed |
| Commands.RegisterPeerRoundTrip | src/networking.c:96-230 | the command decodes to itself, announces its size minus 16, and is no other command |
| Commands.RegisterPeerLayout | src/networking.c:96-160 | the 48 bytes: prefix, code 2, length 32, address, four zeros |
| Commands.RegisterPeerInFull | src/networking.c:162-230 | accepted exactly when the prefix and the code are right and an address follows, whatever length is announced |
| Commands.SerializeSendData | src/networking.c:232-291 | the peer-list command's bytes with the payload length filled in, or which check failed |
| Commands.DeserializeSendData | src/networking.c:293-347 | the command parsed, with the needed size counted modulo 2^64 |
| Commands.SendDataRoundTrip | src/networking.c:349-464 | a command that carries data decodes to itself, announces its size minus 16, and is no other command |
| Commands.SendDataCanonical | src/networking.c:410-464 | an accepted command is its header, the length, the data, and ignored bytes |
| Commands.SendDataLayout | src/networking.c:349-408 | the prefix, the code, the payload's length, the data's length, the data |
| Commands.SendDataInFull | src/networking.c:293-347 | which commands are accepted, which data they give, and with what failure the others are refused |
| Commands.CodesOnTheWire | include/networking.h:43-50 | the codes 2, 3 and 4 of the three commands, as sent |
| Connections.Connection.RecvAll | src/networking.c:466-484 | exactly the next `len` bytes, however they are cut; on a reliable connection it fails exactly when fewer are to come |
| Connections.Connection.SendAll | src/networking.c:486-504 | exactly the buffer is sent, or a proper prefix of it and a failure |
| Connections.Connection.ReceiveCommand | src/consensus_peer_server_thread.c:18-44 | header then announced payload: the next command of the stream, independent of fragments |
| Connections.FrameIsNextCommand | src/consensus_peer_server_thread.c:18-44 | exactly one serialized command is consumed and the rest of the stream is left |
| Connections.CommandsAreFrames | src/consensus_peer_server_thread.c:18-44 | a command is received exactly when the stream begins with one frame of the expected kind |
| Connections.NoCommand | src/consensus_peer_server_thread.c:18-44 | with what failure every other stream is refused |
| Connections.StreamOfFrames | src/networking.c:466-504 | a stream of serialized commands of any kinds is recovered command by command |
| Connections.SendDataIsFrame | src/networking.c:349-408 | a serialized command is one frame: its header announces the rest of it |
| Connections.TruncatedFrame | src/networking.c:466-484 | from a proper prefix of a serialized command no command is received |
| Consensus.SynchronizedBlockchain.Consider | src/consensus_peer_server_thread.c:76-110 | the locked region switches exactly to a longer valid chain of equal difficulty, and counts the switch |
| Consensus.HandleRequest | src/consensus_peer_server_thread.c:10-150 | on a reliable connection a request that carries a chain is answered whether or not the chain is valid or adopted, unless verification itself fails, and otherwise fails as the reading does; the reply carries the chain held afterwards; the state changes exactly to a longer valid chain of equal difficulty |
| Consensus.EveryChainIsAnswered | src/consensus_peer_server_thread.c:63-140 | the same of the decision that the runs below are made of |
| Consensus.StreamsThatCarryAChain | src/consensus_peer_server_thread.c:18-62 | exactly which streams carry a chain, and which: trailing bytes of the chain, of the command and of the stream do not matter |
| Consensus.StreamsThatCarryNoChain | src/consensus_peer_server_thread.c:18-62 | a stream is refused with the failure of its command, of its data, or of its chain |
| Consensus.MessageRoundTrip | src/consensus_peer_server_thread.c:45-62 | the chain a peer decodes from a message is the chain sent, exactly when its signature lengths are readable |
| Consensus.ReplyDecodes | src/consensus_peer_server_thread.c:45-150 | the reply to a handled request decodes to the chain held afterwards, exactly when its signature lengths are readable with nothing after it; they always are for an adopted chain |
| Consensus.ValidChainsFit | src/transaction.c:185-193 | a valid chain has no signature longer than its 512-byte array |
| Consensus.RunKeepsSignaturesFitting | src/consensus_peer_server_thread.c:76-110 | a server that starts with signature lengths up to 512 never holds a chain with others, whatever it is sent |
| Consensus.RunKeepsFirstLongest | src/consensus_peer_server_thread.c:76-110 | after any sequence of requests the chain is the first of the longest among the initial one and the valid ones of its difficulty, and the version counts the switches |
| Consensus.FinalLengthIgnoresOrder | src/consensus_peer_server_thread.c:76-110 | the final length does not depend on the order or repetition of requests |
| Consensus.UniqueLongestWins | src/consensus_peer_server_thread.c:76-110 | a candidate longer than every other is the final chain, whatever the order |
| Consensus.ServersAgree | src/consensus_peer_server_thread.c:76-110 | two servers with the same candidates, one of them longer than the others, end with the same chain |
| Consensus.ServeRequests | src/consensus_peer_server_thread.c:191-252 | the shared object after the server's loop is the run over the requests taken; every request on a reliable connection is taken, and failures change nothing |
| Interleavings.MinedBlockExtends | src/mining_thread.c:73-145 | the block built and mined on a valid chain gives a valid chain exactly when its nonce proves it and its minting transaction verifies |
| Interleavings.MintPaysTheMiner | src/mining_thread.c:89-95 | one coin from the miner's public key to itself, signed with its private key without a signature in place; nothing exactly when that key cannot sign |
| Interleavings.SigningWorksOnThePlatform | src/transaction.c:185-193 | the hypothesis on the keys, in terms of the platform: what the private key signs is accepted |
| Interleavings.StepKeepsSafe | src/mining_thread.c:22-153 | every step, of the miner or of another thread, keeps both chains valid, non-empty and of one difficulty, and the recorded version at most the shared one |
| Interleavings.RunsAreSafe | src/mining_thread.c:22-153 | so in every interleaving, and the miner never exits because its chain is invalid or empty |
| Interleavings.SharedChainAlwaysDecodes | src/consensus_peer_server_thread.c:111-150 | at every moment of every interleaving, the message that carries the shared chain decodes to it |
| Interleavings.SharedChainGrows | src/consensus_peer_server_thread.c:76-110 | with only the consensus server replacing chains, between any two moments the shared chain gets no shorter and is only appended to under one version |
| Interleavings.RequestIsOffer | src/consensus_peer_server_thread.c:52-110 | a consensus request acts on the node as an offer of the chain it carries, or not at all |
| Interleavings.VersionTellsTheChain | src/mining_thread.c:23-53 | equal versions mean that the miner mines the shared chain, as long as no replacement falls while it records |
| Interleavings.RecordingIsCurrentIffUndisturbed | src/mining_thread.c:31-41 | after recording, the version tells the chain exactly when no replacement fell in that window |
| Interleavings.StaleIsReachable | src/mining_thread.c:31-41 | two offers of longer chains, the second between the miner's two reads, take a safe miner to a stale one |
| Interleavings.UsableChainsExist | src/blockchain.c:372-476 | one accepted minting transaction gives valid chains of every length at difficulty 0 |
| Interleavings.StaleHappens | src/mining_thread.c:23-41 | on a platform given in full, such a run, from a chain of one block to a miner on the second of three |
| Interleavings.StalenessPersists | src/mining_thread.c:23-145 | until the next replacement every state of the run stays stale, and nothing mined reaches the shared chain |
| Interleavings.CodeTellsTheLastSearch | src/mining_thread.c:22-153 | at every moment of every run the code is that of a fruitless search exactly when the last search was one and no old chain was destroyed and no chain checked since; the exit code likewise |
| Interleavings.FruitlessExitIsReachable | src/mining_thread.c:113-161 | a miner stopped right after a search that no nonce satisfies returns the search's failure code |
| Interleavings.FruitlessExitHappens | src/mining_thread.c:113-161 | on a platform given in full, such a run |
| MiningThread.BuildNextBlock | src/mining_thread.c:54-112 | the next block has the later time, the hash of the last block, and one transaction, which pays the miner's public key and is signed with its private key; which failure stops the miner otherwise; signing fails exactly when the private key cannot sign |
| MiningThread.Refresh | src/mining_thread.c:23-53 | the version in force is recorded; under the same version the miner keeps its chain, under another it takes the shared one; with other threads acting between its reads it is a run of the node |
| MiningThread.Search | src/mining_thread.c:113-136 | a block is found exactly when some nonce, the least that proves the block, comes before any disturbance; the block is that one; exhaustion exactly when every nonce fails undisturbed |
| MiningThread.MineAndAppend | src/mining_thread.c:113-152 | the local chain becomes itself with the block found, or stays as it was when none is |
| MiningThread.MineBlocks | src/mining_thread.c:6-162 | the loop's execution is a run of the node, one turn per tick until the stop flag; every turn builds the next block on its chain, searches, and appends what it finds; a newer version is taken up; what is published just before a turn is what it mines on; a miner left alone extends the shared chain by exactly the blocks it mines; the exit code is a fruitless search's exactly when the last search was one, and a signing failure exactly when the last turn could not sign |
| Registries.ExpirePeers | src/peer_discovery_bootstrap_server_thread.c:154-207 | the loop leaves the unexpired peers' nodes in order and frees the expired peers' nodes, each once |
| Registries.SelectPartitions | src/peer_discovery_bootstrap_server_thread.c:161-200 | every node is kept or freed, and none is both |
| Registries.UpdatePeer | src/peer_discovery_bootstrap_server_thread.c:71-153 | the first peer with the address gets the new time where it stands, a new one goes first, and all others keep their order |
| Registries.UnexpiredInOrder | src/peer_discovery_bootstrap_server_thread.c:154-207 | expiry drops peers one by one where they stand, and keeps the order of the others |
| Registries.Registry.RegisterPeer | src/peer_discovery_bootstrap_server_thread.c:66-207 | the list is always what the whole log of registrations makes it |
| Registries.AddressesStayDistinct | src/peer_discovery_bootstrap_server_thread.c:71-84 | no address is listed twice, whatever the clock does |
| Registries.RegistryHoldsSurvivors | src/peer_discovery_bootstrap_server_thread.c:64-207 | for any log and any clock, a peer is listed exactly when it is its address's latest registration and no expiry since found it too old |
| Registries.RegistryHoldsActivePeersIff | src/peer_discovery_bootstrap_server_thread.c:64-207 | the list is exactly the active peers if and only if no latest registration within the keepalive at the last expiry was past it at an earlier one |
| Registries.RegistryHoldsActivePeers | src/peer_discovery_bootstrap_server_thread.c:64-207 | so with a clock that never goes back the list holds exactly the addresses whose latest registration is within the keepalive at the last expiry, with that time |
| Registries.ClockGoingBackLosesPeers | src/peer_discovery_bootstrap_server_thread.c:154-160 | a log at which that condition fails, and an active peer is missing |
| Discovery.HandleRegistration | src/peer_discovery_bootstrap_server_thread.c:11-249 | on a reliable connection the request's bytes alone decide the registration, and the reply carries the list after expiry |
| Discovery.Client.DiscoverPeersOnce | src/peer_discovery_thread.c:9-146 | the address is sent, and the client's list becomes the list received; on failure it stays as it was; the client is ready for the next call |
| Discovery.RegistrationArrives | src/peer_discovery_thread.c:29-60 | the server reads from the stream the address that the client sent |
| Discovery.StreamsThatRegister | src/peer_discovery_bootstrap_server_thread.c:11-62 | exactly which streams register an address, and which |
| Discovery.PeerListArrives | src/peer_discovery_thread.c:61-106 | the client reads from the stream the list that the server sent, in order |
| Discovery.StreamsThatCarryAList | src/peer_discovery_thread.c:55-99 | exactly which streams carry a peer list, and which |
| Discovery.Exchange | src/peer_discovery_thread.c:9-146 | both handlers executed, the server on the bytes the client managed to send and the client on the reply: nobody else is registered, and the client only if its request arrived in full; the client succeeds only if the server did, and then both hold the same list in order, the client in it exactly when the clock moved at most the keepalive; on reliable connections both succeed |
| Discovery.Exchanges | src/peer_discovery_thread.c:148-159 | after any turns of any clients, each client holds its first list or the server's as it was at its last successful turn, which with a clock that never goes back is exactly the peers active then; on reliable connections every turn registers and each client has the list of its last turn |
| Discovery.OwnAddressIsListed | src/peer_discovery_bootstrap_server_thread.c:53-207 | the client's own address is in the list sent back exactly when the clock moved at most the keepalive during the request |

## Left out

- MeetsDifficulty: beyond a difficulty of 32 the source compares past the digest; there `Verify` gives the verdict `Undefined`, and `HandleRequest` fails with `OutOfBounds` without a change of state. Mining requires a difficulty of at most 32.
- CheckSignature: accepting a signature longer than its array is `ReadsPastArray`, the verdict `Undefined`; rejecting one, or failing to check it, is not distinguished from rejecting or failing on another.
- DeserializeChain: where the source reads signature bytes past the buffer, the model stops with `OutOfBounds`, and `HandleRequest` then fails without a change of state.
- MineBlock: returns the block with its nonce instead of overwriting the caller's, and models `synchronized_blockchain_mine_block`; `blockchain_mine_block` is the case of a version that never changes. With `print_progress` false.
- Recv: a transfer of zero bytes, on which the source's loops make no progress, does not occur, and waiting for bytes that never come is a failure.
- HandleRequest: manual freeing is not modelled, since the server and the miner both free a replaced chain; blockchain objects are garbage collected, and no ownership across threads is claimed.
- Consider: the region under the mutex is one step, as is each access of the miner to shared data, its append included.
- State: versions are unbounded, where the source's counter wraps after 2^64 switches.
- Expired: the keepalive comparison is exact, where the source divides in floating point.
- LinkedList: data are values, and the compare function is a predicate "compares equal"; `free` is a log of freed nodes.
- Block: its transactions are a sequence, where the source has a second heap list; the parsing and hashing loops over them are modelled.
- SerializeSendData: stands for the two identical serializers of peer lists and blockchains, as does the deserializer.
- Allocation failures (except for sizes no allocation can have), null-argument checks, failing thread functions, and buffer sizes beyond 64 bits.
- ServeRequests: the loop runs over the connections accepted; sockets, poll, accept and the stop flag of the server are not modelled.
- Exchanges: the clients' turns follow one another, as the server handles one request at a time; the waiting between a client's turns and its stop flag are not modelled.
- Condition variables and exit signalling.
- OpenSSL, base64, printing, name lookups, files, and the command-line programs.
