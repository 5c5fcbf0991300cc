/** Longest-chain consensus: one request decodes a peer's chain, verifies it, perhaps switches to it,
    and replies with the chain now held (src/consensus_peer_server_thread.c). */
module Consensus {
  import opened Blockchains
  import opened Bytes
  import opened ChainCodec
  import opened Commands
  import opened Connections
  import opened Ledger
  import opened ReturnCodes
  import opened Validity

  /** The abstract value of `synchronized_blockchain_t`. */
  datatype Shared = Shared(chain: Chain, version: nat)

  predicate Better(w: World, ours: Chain, peer: Chain) {
    && ValidChain(w, peer)
    && |peer.blocks| > |ours.blocks|
    && peer.difficulty == ours.difficulty
  }

  /** The decision taken under the mutex. */
  function Decide(w: World, s: Shared, peer: Chain): Shared {
    if Better(w, s.chain, peer) then Shared(peer, s.version + 1) else s
  }

  /** The chain that a peer sends in a stream. */
  function PeerChain(stream: seq<byte>): Result<Chain> {
    var (frame, _) :- NextCommand(COMMAND_SEND_BLOCKCHAIN, stream);
    var command :- ParseSendData(COMMAND_SEND_BLOCKCHAIN, frame);
    var (chain, _) :- DecodeChain(command.data);
    Ok(chain)
  }

  /** The state after a request, or why the request failed, in which case nothing changes. */
  function Handle(w: World, s: Shared, stream: seq<byte>): Result<Shared> {
    var peer :- PeerChain(stream);
    var verdict := VerdictOf(w, peer);
    match verdict
    case VerifyFailed(code) => Err(code)
    case Undefined => OutOfBounds
    case _ => Ok(Decide(w, s, peer))
  }

  /** What a request that carries `peer` leads to: adoption when `peer` is valid, longer and as difficult. */
  predicate Answers(w: World, s: Shared, peer: Chain, t: Shared) {
    if ValidChain(w, peer) && |peer.blocks| > |s.chain.blocks| && peer.difficulty == s.chain.difficulty then
      t.chain == peer && t.version == s.version + 1
    else
      t == s
  }

  /** Every request that carries a chain is answered, valid or not, adopted or not, unless its verification
      itself fails; and otherwise it fails as the reading of the chain does. */
  lemma EveryChainIsAnswered(w: World, s: Shared, stream: seq<byte>)
    ensures PeerChain(stream).IsFailure() ==> Handle(w, s, stream) == PeerChain(stream).PropagateFailure<Shared>()
    ensures PeerChain(stream).Ok? ==>
              match VerdictOf(w, PeerChain(stream).value)
              case VerifyFailed(code) => Handle(w, s, stream) == Err(code)
              case Undefined => Handle(w, s, stream) == OutOfBounds
              case _ =>
                && Handle(w, s, stream) == Ok(Decide(w, s, PeerChain(stream).value))
                && Answers(w, s, PeerChain(stream).value, Handle(w, s, stream).value)
  {
    hide PeerChain, VerdictOf, ValidChain;
  }

  /** The chain fits in memory, as does its serialization. */
  predicate Storable(c: Chain) {
    Fits(c) && |EncodeChain(c)| <= MAX_ALLOCATION
  }

  /** The command that carries a chain. */
  function Message(c: Chain): seq<byte>
    requires Storable(c)
  {
    EncodeSendData(COMMAND_SEND_BLOCKCHAIN, EncodeChain(c))
  }

  class SynchronizedBlockchain {
    var blockchain: Blockchain
    var version: nat

    ghost predicate Valid()
      reads this, blockchain.blockList, blockchain.blockList.Repr
    {
      blockchain.Valid() && this !in blockchain.blockList.Repr
    }

    ghost function Value(): Shared
      reads this, blockchain.blockList
    {
      Shared(blockchain.Value(), version)
    }

    constructor (initial: Blockchain)
      requires initial.Valid()
      ensures Valid() && blockchain == initial && version == 0
    {
      blockchain, version := initial, 0;
    }

    /** The region under the mutex, up to the reply: one step. */
    method Consider(w: World, peer: Blockchain, peerIsValid: bool) returns (switched: bool)
      requires Valid() && peer.Valid() && this !in peer.blockList.Repr
      requires peerIsValid <==> ValidChain(w, peer.Value())
      modifies this
      ensures Valid() && Value() == Decide(w, old(Value()), peer.Value())
      ensures switched <==> Better(w, old(blockchain.Value()), peer.Value())
      ensures blockchain == if switched then peer else old(blockchain)
    {
      switched := false;
      var peerLength := peer.blockList.Length();
      if peerIsValid {
        var ourLength := blockchain.blockList.Length();
        var sameDifficulty := blockchain.difficulty == peer.difficulty;
        if peerLength > ourLength && sameDifficulty {
          blockchain, version := peer, version + 1;
          switched := true;
        }
      }
    }
  }

  lemma DecodedChainsAreStorable(frame: seq<byte>)
    requires ParseSendData(COMMAND_SEND_BLOCKCHAIN, frame).Ok?
    requires DecodeChain(ParseSendData(COMMAND_SEND_BLOCKCHAIN, frame).value.data).Ok?
    ensures Storable(DecodeChain(ParseSendData(COMMAND_SEND_BLOCKCHAIN, frame).value.data).value.0)
  {
    hide ParseSendData, DecodeChain, EncodeChain, Fits;
    SendDataCanonical(COMMAND_SEND_BLOCKCHAIN, frame);
    ChainCanonical(ParseSendData(COMMAND_SEND_BLOCKCHAIN, frame).value.data);
  }

  /** The first half of a request: receives a command and builds the chain it carries. */
  method ReceivePeerChain(conn: Connection) returns (r: Result<(CommandHeader, Blockchain)>)
    modifies conn
    ensures r.Ok? ==>
              && r.value.1.Valid() && fresh(r.value.1) && fresh(r.value.1.blockList.Repr)
              && PeerChain(old(conn.incoming)) == Ok(r.value.1.Value())
              && Storable(r.value.1.Value())
              && r.value.0.prefix == COMMAND_PREFIX && r.value.0.command == COMMAND_SEND_BLOCKCHAIN
    ensures conn.Reliable() && r.IsFailure() ==> PeerChain(old(conn.incoming)) == r.PropagateFailure<Chain>()
    ensures conn.sent == old(conn.sent)
  {
    hide NextCommand, ParseSendData, DecodeChain, EncodeChain, Fits;
    var frame :- conn.ReceiveCommand(COMMAND_SEND_BLOCKCHAIN);
    var command :- DeserializeSendData(COMMAND_SEND_BLOCKCHAIN, frame);
    SendDataCanonical(COMMAND_SEND_BLOCKCHAIN, frame);
    var peer :- DeserializeChain(command.data);
    DecodedChainsAreStorable(frame);
    r := Ok((command.header, peer));
  }

  /** The last part of a request: sends the chain now held, under the request's header. */
  method Reply(chain: Blockchain, header: CommandHeader, conn: Connection) returns (r: Result<()>)
    requires chain.Valid() && Storable(chain.Value())
    requires header.prefix == COMMAND_PREFIX && header.command == COMMAND_SEND_BLOCKCHAIN
    modifies conn
    ensures r.Ok? ==> conn.sent == old(conn.sent) + Message(chain.Value())
    ensures r.IsFailure() ==> !conn.Reliable()
  {
    hide EncodeSendData, EncodeChain, Fits;
    var data := SerializeChain(chain);
    var reply, _ := SerializeSendData(COMMAND_SEND_BLOCKCHAIN, SendData(header, data));
    var code := conn.SendAll(reply.value);
    r := if code == Success then Ok(()) else Err(NetworkFunction);
  }

  /** The second half: verifies the chain received, perhaps switches to it, and replies either way. */
  method Answer(w: World, sync: SynchronizedBlockchain, peer: Blockchain, header: CommandHeader, conn: Connection)
    returns (r: Result<()>)
    requires sync.Valid() && Storable(sync.blockchain.Value())
    requires peer.Valid() && Storable(peer.Value()) && sync !in peer.blockList.Repr && conn !in peer.blockList.Repr
    requires header.prefix == COMMAND_PREFIX && header.command == COMMAND_SEND_BLOCKCHAIN
    modifies sync, conn
    ensures sync.Valid() && Storable(sync.blockchain.Value())
    ensures sync.blockchain == old(sync.blockchain) || sync.blockchain == peer
    ensures sync.Value() == old(sync.Value()) || sync.Value() == Decide(w, old(sync.Value()), peer.Value())
    ensures match VerdictOf(w, peer.Value())
            case VerifyFailed(code) => r == Err(code)
            case Undefined => r == OutOfBounds
            case _ =>
              && sync.Value() == Decide(w, old(sync.Value()), peer.Value())
              && (conn.Reliable() ==> r.Ok?)
    ensures r.Ok? ==> conn.sent == old(conn.sent) + Message(sync.blockchain.Value())
    ensures VerdictOf(w, peer.Value()).VerifyFailed? || VerdictOf(w, peer.Value()).Undefined? ==>
              sync.Value() == old(sync.Value()) && conn.sent == old(conn.sent)
  {
    hide EncodeSendData, EncodeChain, Fits, Better, ValidChain, VerdictOf, Connection.Reliable;
    var verdict := peer.Verify(w);
    if verdict.VerifyFailed? {
      return Err(verdict.code);
    }
    if verdict.Undefined? {
      return OutOfBounds;
    }
    var switched := sync.Consider(w, peer, verdict == Verdict.Valid);
    r := Reply(sync.blockchain, header, conn);
  }

  /** `handle_one_consensus_request`. */
  method HandleRequest(w: World, sync: SynchronizedBlockchain, conn: Connection) returns (r: Result<()>)
    requires sync.Valid() && Storable(sync.blockchain.Value())
    modifies sync, conn
    ensures sync.Valid() && Storable(sync.blockchain.Value())
    ensures sync.blockchain == old(sync.blockchain) || fresh(sync.blockchain.blockList.Repr)
    // Whatever the connection does, the state is the old one or the one the request leads to.
    ensures sync.Value() == old(sync.Value()) || Handle(w, old(sync.Value()), old(conn.incoming)) == Ok(sync.Value())
    ensures r.Ok? ==>
              && Handle(w, old(sync.Value()), old(conn.incoming)) == Ok(sync.Value())
              && conn.sent == old(conn.sent) + Message(sync.blockchain.Value())
    ensures r.Ok? ==>
              && PeerChain(old(conn.incoming)).Ok?
              && Answers(w, old(sync.Value()), PeerChain(old(conn.incoming)).value, sync.Value())
    // A request is answered whether or not its chain is adopted.
    ensures conn.Reliable() ==>
              if PeerChain(old(conn.incoming)).IsFailure() then
                r == PeerChain(old(conn.incoming)).PropagateFailure<()>()
              else
                match VerdictOf(w, PeerChain(old(conn.incoming)).value)
                case VerifyFailed(code) => r == Err(code)
                case Undefined => r == OutOfBounds
                case _ => r.Ok?
    // When it does not fail, the request alone decides, however it is fragmented.
    ensures conn.Reliable() && Handle(w, old(sync.Value()), old(conn.incoming)).Ok? ==> r.Ok?
    ensures conn.Reliable() && Handle(w, old(sync.Value()), old(conn.incoming)).IsFailure() ==>
              && r == Handle(w, old(sync.Value()), old(conn.incoming)).PropagateFailure<()>()
              && conn.sent == old(conn.sent)
  {
    hide PeerChain, EncodeSendData, EncodeChain, Fits, Better, ValidChain, VerdictOf;
    EveryChainIsAnswered(w, sync.Value(), conn.incoming);
    hide Handle, Answers, Decide, Storable, Connection.Reliable;
    var received :- ReceivePeerChain(conn);
    r := Answer(w, sync, received.1, received.0, conn);
  }

  /** A chain sent by one side is the chain received by the other exactly when its signature lengths
      are readable; then its hashes and its verdict are the same too. */
  lemma MessageRoundTrip(c: Chain, rest: seq<byte>)
    requires Storable(c)
    ensures PeerChain(Message(c) + rest) == Ok(c) <==> BlocksReadable(c.blocks, 0)
    ensures SignaturesFit(c) ==> PeerChain(Message(c) + rest) == Ok(c)
  {
    hide NextCommand, ParseSendData, DecodeChain, EncodeSendData, EncodeChain, BlocksReadable;
    var data := EncodeChain(c);
    SendDataIsFrame(COMMAND_SEND_BLOCKCHAIN, data);
    FrameIsNextCommand(COMMAND_SEND_BLOCKCHAIN, COMMAND_SEND_BLOCKCHAIN, Message(c), rest);
    SendDataRoundTrip(COMMAND_SEND_BLOCKCHAIN, data, [], COMMAND_REGISTER_PEER);
    assert Message(c) + [] == Message(c) && data + [] == data;
    ChainRoundTrip(c, [], data);
    if !BlocksReadable(c.blocks, 0) {
      UnreadableChainIsRejected(c, [], data);
    }
    if SignaturesFit(c) {
      ShortSignaturesAreReadable(c.blocks, 0);
    }
  }

  /** Exactly which streams carry a chain: those that begin with a command whose data decodes to it, whatever
      follows the chain in the data, the data in the command, and the command in the stream. */
  lemma StreamsThatCarryAChain(stream: seq<byte>, c: Chain)
    ensures PeerChain(stream) == Ok(c) <==>
            exists frame, data, chainRest, rest ::
              && CarriesData(COMMAND_SEND_BLOCKCHAIN, frame, data)
              && DecodeChain(data) == Ok((c, chainRest))
              && stream == frame + rest
  {
    hide NextCommand, ParseSendData, DecodeChain, IsFrame;
    if PeerChain(stream) == Ok(c) {
      var (frame, rest) := NextCommand(COMMAND_SEND_BLOCKCHAIN, stream).value;
      var data := ParseSendData(COMMAND_SEND_BLOCKCHAIN, frame).value.data;
      CommandsAreFrames(COMMAND_SEND_BLOCKCHAIN, stream, frame, rest);
      DataIsCarried(COMMAND_SEND_BLOCKCHAIN, frame, data);
      assert DecodeChain(data) == Ok((c, DecodeChain(data).value.1));
    }
    if frame, data, chainRest, rest :| CarriesData(COMMAND_SEND_BLOCKCHAIN, frame, data)
                                       && DecodeChain(data) == Ok((c, chainRest)) && stream == frame + rest {
      CommandsAreFrames(COMMAND_SEND_BLOCKCHAIN, stream, frame, rest);
      DataIsCarried(COMMAND_SEND_BLOCKCHAIN, frame, data);
    }
  }

  /** Why another stream is refused: its command, the length of its data, or its chain. */
  lemma StreamsThatCarryNoChain(stream: seq<byte>)
    ensures NextCommand(COMMAND_SEND_BLOCKCHAIN, stream).IsFailure() ==>
              PeerChain(stream) == NextCommand(COMMAND_SEND_BLOCKCHAIN, stream).PropagateFailure<Chain>()
    ensures NextCommand(COMMAND_SEND_BLOCKCHAIN, stream).Ok? ==>
              var frame := NextCommand(COMMAND_SEND_BLOCKCHAIN, stream).value.0;
              var command := ParseSendData(COMMAND_SEND_BLOCKCHAIN, frame);
              if command.IsFailure() then PeerChain(stream) == command.PropagateFailure<Chain>()
              else DecodeChain(command.value.data).IsFailure() ==>
                     PeerChain(stream) == DecodeChain(command.value.data).PropagateFailure<Chain>()
  {
    hide NextCommand, ParseSendData, DecodeChain;
  }

  lemma PeerChainsAreStorable(stream: seq<byte>)
    requires PeerChain(stream).Ok?
    ensures Storable(PeerChain(stream).value)
  {
    hide NextCommand, ParseSendData, DecodeChain, Storable;
    DecodedChainsAreStorable(NextCommand(COMMAND_SEND_BLOCKCHAIN, stream).value.0);
  }

  /** A valid chain has no signature longer than 512 bytes, so its messages decode. */
  lemma ValidChainsFit(w: World, c: Chain)
    requires ValidChain(w, c)
    ensures SignaturesFit(c)
  {
    hide Hash, MeetsDifficulty;
    forall b, t | b in c.blocks && t in b.transactions
      ensures t.signatureLength <= SIGNATURE_LENGTH
    {
      var i :| 0 <= i < |c.blocks| && c.blocks[i] == b;
      assert ValidAt(w, c, i);
      assert CheckSignature(w, t) == Accepted;
    }
  }

  /** The reply to a handled request decodes to the chain held afterwards exactly when that chain's
      signature lengths are readable with nothing after it. They are when the chain was adopted, and
      when the chain held before had none over 512. */
  lemma ReplyDecodes(w: World, s: Shared, stream: seq<byte>, t: Shared, rest: seq<byte>)
    requires Storable(s.chain) && Handle(w, s, stream) == Ok(t)
    ensures Storable(t.chain)
    ensures PeerChain(Message(t.chain) + rest) == Ok(t.chain) <==> BlocksReadable(t.chain.blocks, 0)
    ensures t != s || SignaturesFit(s.chain) ==>
              SignaturesFit(t.chain) && PeerChain(Message(t.chain) + rest) == Ok(t.chain)
  {
    hide PeerChain, Message, Storable, ValidChain, SignaturesFit, BlocksReadable, VerdictOf;
    PeerChainsAreStorable(stream);
    MessageRoundTrip(t.chain, rest);
    if t != s {
      ValidChainsFit(w, t.chain);
    }
  }

  // Whole runs.

  /** A failed request leaves the state as it was. */
  function Step(w: World, s: Shared, stream: seq<byte>): Shared {
    var r := Handle(w, s, stream);
    if r.Ok? then r.value else s
  }

  function Run(w: World, s: Shared, streams: seq<seq<byte>>): Shared {
    if streams == [] then s else Step(w, Run(w, s, streams[..|streams| - 1]), streams[|streams| - 1])
  }

  /** The stream carries a valid chain of the given difficulty. */
  predicate Offers(w: World, difficulty: uint64, stream: seq<byte>) {
    && PeerChain(stream).Ok?
    && ValidChain(w, PeerChain(stream).value)
    && PeerChain(stream).value.difficulty == difficulty
  }

  /** The initial chain, then the chains offered, in the order received. */
  function Candidates(w: World, initial: Chain, streams: seq<seq<byte>>): (cs: seq<Chain>)
    ensures |cs| > 0
  {
    if streams == [] then
      [initial]
    else
      var last := streams[|streams| - 1];
      Candidates(w, initial, streams[..|streams| - 1]) +
      if Offers(w, initial.difficulty, last) then [PeerChain(last).value] else []
  }

  ghost predicate IsFirstLongest(cs: seq<Chain>, k: int) {
    && 0 <= k < |cs|
    && (forall j :: 0 <= j < |cs| ==> |cs[j].blocks| <= |cs[k].blocks|)
    && (forall j :: 0 <= j < k ==> |cs[j].blocks| < |cs[k].blocks|)
  }

  /** `c` is the first of the longest chains in `cs`. */
  ghost predicate FirstLongest(cs: seq<Chain>, c: Chain) {
    exists k :: IsFirstLongest(cs, k) && cs[k] == c
  }

  /** How many chains in `cs` are longer than all the chains before them, not counting the first. */
  ghost function Records(cs: seq<Chain>): nat {
    if |cs| <= 1 then
      0
    else
      var n := |cs| - 1;
      Records(cs[..n]) + if forall j :: 0 <= j < n ==> |cs[j].blocks| < |cs[n].blocks| then 1 else 0
  }

  /** A chain offered after `cs` becomes the first longest exactly when it is longer, and then it is a record. */
  lemma OfferExtendsRecords(cs: seq<Chain>, k: nat, peer: Chain)
    requires IsFirstLongest(cs, k)
    ensures var longer := |peer.blocks| > |cs[k].blocks|;
            && IsFirstLongest(cs + [peer], if longer then |cs| else k)
            && Records(cs + [peer]) == Records(cs) + if longer then 1 else 0
  {
    var ds := cs + [peer];
    assert ds[..|cs|] == cs;
    assert forall j :: 0 <= j < |cs| ==> ds[j] == cs[j];
    if !(|peer.blocks| > |cs[k].blocks|) {
      assert !(|ds[k].blocks| < |ds[|cs|].blocks|);
    }
  }

  lemma OnlyCandidate(c: Chain)
    ensures FirstLongest([c], c) && Records([c]) == 0
  {
    assert IsFirstLongest([c], 0);
  }

  lemma DecideKeepsFirstLongest(w: World, s: Shared, peer: Chain, cs: seq<Chain>)
    requires FirstLongest(cs, s.chain) && ValidChain(w, peer) && peer.difficulty == s.chain.difficulty
    ensures FirstLongest(cs + [peer], Decide(w, s, peer).chain)
    ensures Decide(w, s, peer).version - s.version == Records(cs + [peer]) - Records(cs)
  {
    hide ValidChain, Records;
    var k :| IsFirstLongest(cs, k) && cs[k] == s.chain;
    OfferExtendsRecords(cs, k, peer);
    var k' := if |peer.blocks| > |cs[k].blocks| then |cs| else k;
    assert (cs + [peer])[k'] == Decide(w, s, peer).chain;
  }

  /** Over any sequence of requests the server ends with the first of the longest chains among its
      initial chain and the chains offered, and the version counts the switches. */
  lemma {:induction false} RunKeepsFirstLongest(w: World, s: Shared, streams: seq<seq<byte>>)
    ensures var t := Run(w, s, streams);
            var cs := Candidates(w, s.chain, streams);
            && FirstLongest(cs, t.chain)
            && t.version == s.version + Records(cs)
            && t.chain.difficulty == s.chain.difficulty
  {
    hide PeerChain, ValidChain, VerdictOf, IsFirstLongest;
    if streams == [] {
      OnlyCandidate(s.chain);
    } else {
      var front, last := streams[..|streams| - 1], streams[|streams| - 1];
      RunKeepsFirstLongest(w, s, front);
      var t := Run(w, s, front);
      if PeerChain(last).Ok? {
        VerdictIsValidity(w, PeerChain(last).value);
      }
      if Offers(w, s.chain.difficulty, last) {
        DecideKeepsFirstLongest(w, t, PeerChain(last).value, Candidates(w, s.chain, front));
      } else {
        assert Candidates(w, s.chain, streams) == Candidates(w, s.chain, front);
      }
    }
  }

  lemma {:induction false} CandidatesAreOffered(w: World, initial: Chain, streams: seq<seq<byte>>, c: Chain)
    ensures c in Candidates(w, initial, streams) <==>
            c == initial ||
            exists stream :: stream in streams && Offers(w, initial.difficulty, stream) && PeerChain(stream) == Ok(c)
  {
    hide PeerChain, ValidChain;
    if streams != [] {
      var front, last := streams[..|streams| - 1], streams[|streams| - 1];
      CandidatesAreOffered(w, initial, front, c);
      assert streams == front + [last];
    }
  }

  /** The final length depends neither on the order of the requests nor on repetitions. */
  lemma FinalLengthIgnoresOrder(w: World, s: Shared, streams: seq<seq<byte>>, streams': seq<seq<byte>>)
    requires forall stream :: stream in streams <==> stream in streams'
    ensures |Run(w, s, streams).chain.blocks| == |Run(w, s, streams').chain.blocks|
  {
    hide Run, Candidates, Offers, Records, PeerChain;
    var cs, cs' := Candidates(w, s.chain, streams), Candidates(w, s.chain, streams');
    RunKeepsFirstLongest(w, s, streams);
    RunKeepsFirstLongest(w, s, streams');
    forall c
      ensures c in cs <==> c in cs'
    {
      CandidatesAreOffered(w, s.chain, streams, c);
      CandidatesAreOffered(w, s.chain, streams', c);
    }
    var k :| IsFirstLongest(cs, k) && cs[k] == Run(w, s, streams).chain;
    var k' :| IsFirstLongest(cs', k') && cs'[k'] == Run(w, s, streams').chain;
    assert cs[k] in cs' && cs'[k'] in cs;
  }

  /** A candidate longer than every other one is where the server ends, whatever the order. */
  lemma UniqueLongestWins(w: World, s: Shared, streams: seq<seq<byte>>, c: Chain)
    requires c in Candidates(w, s.chain, streams)
    requires forall d :: d in Candidates(w, s.chain, streams) && d != c ==> |d.blocks| < |c.blocks|
    ensures Run(w, s, streams).chain == c
  {
    hide Run, Candidates, Records;
    var cs := Candidates(w, s.chain, streams);
    RunKeepsFirstLongest(w, s, streams);
    var k :| IsFirstLongest(cs, k) && cs[k] == Run(w, s, streams).chain;
    assert cs[k] in cs;
  }

  /** Servers that have seen each other's candidates agree, if one candidate is longer than the others. */
  lemma ServersAgree(
      w: World, s: Shared, streams: seq<seq<byte>>, s': Shared, streams': seq<seq<byte>>, c: Chain)
    requires forall d :: d in Candidates(w, s.chain, streams) <==> d in Candidates(w, s'.chain, streams')
    requires c in Candidates(w, s.chain, streams)
    requires forall d :: d in Candidates(w, s.chain, streams) && d != c ==> |d.blocks| < |c.blocks|
    ensures Run(w, s, streams).chain == Run(w, s', streams').chain == c
  {
    hide Run, Candidates;
    UniqueLongestWins(w, s, streams, c);
    UniqueLongestWins(w, s', streams', c);
  }

  /** A server that starts with a chain whose signature lengths are at most 512 never holds another,
      whatever it is sent. */
  lemma {:induction false} RunKeepsSignaturesFitting(w: World, s: Shared, streams: seq<seq<byte>>)
    requires SignaturesFit(s.chain)
    ensures SignaturesFit(Run(w, s, streams).chain)
  {
    hide PeerChain, SignaturesFit, VerdictOf, ValidChain;
    if streams != [] {
      var before := Run(w, s, streams[..|streams| - 1]);
      RunKeepsSignaturesFitting(w, s, streams[..|streams| - 1]);
      if Run(w, s, streams) != before {
        ValidChainsFit(w, Run(w, s, streams).chain);
      }
    }
  }

  // The server's loop.

  /** The streams at the positions where `taken` holds. */
  ghost function Taken(streams: seq<seq<byte>>, taken: seq<bool>): seq<seq<byte>>
    requires |taken| == |streams|
  {
    if streams == [] then
      []
    else
      var n := |streams| - 1;
      Taken(streams[..n], taken[..n]) + if taken[n] then [streams[n]] else []
  }

  ghost function Incoming(conns: seq<Connection>): (s: seq<seq<byte>>)
    reads conns
    ensures |s| == |conns| && forall i :: 0 <= i < |s| ==> s[i] == conns[i].incoming
  {
    seq(|conns|, i requires 0 <= i < |conns| reads conns => conns[i].incoming)
  }

  lemma NothingTaken(w: World, s: Shared, streams: seq<seq<byte>>)
    ensures Run(w, s, Taken(streams[..0], [])) == s
  {
  }

  lemma StepOfRequest(w: World, s: Shared, stream: seq<byte>)
    ensures Handle(w, s, stream).Ok? ==> Step(w, s, stream) == Handle(w, s, stream).value
    ensures Handle(w, s, stream).IsFailure() ==> Step(w, s, stream) == s
  {
  }

  lemma TakeNext(w: World, s: Shared, streams: seq<seq<byte>>, taken: seq<bool>, i: nat, next: bool)
    requires |taken| == i < |streams|
    ensures Taken(streams[..i + 1], taken + [next]) ==
            Taken(streams[..i], taken) + if next then [streams[i]] else []
    ensures Run(w, s, Taken(streams[..i + 1], taken + [next])) ==
            if next then Step(w, Run(w, s, Taken(streams[..i], taken)), streams[i])
            else Run(w, s, Taken(streams[..i], taken))
  {
    hide Step;
    assert streams[..i + 1][..i] == streams[..i] && (taken + [next])[..i] == taken;
    var before := Taken(streams[..i], taken);
    if next {
      assert (before + [streams[i]])[..|before|] == before;
    } else {
      assert before + [] == before;
    }
  }

  /** The requests of `run_consensus_peer_server`, one connection after the other; a failed one is
      forgotten. The state is that of a run over the requests taken, and a request is left out only when
      its connection fails. */
  method ServeRequests(w: World, sync: SynchronizedBlockchain, conns: seq<Connection>)
    returns (ghost taken: seq<bool>)
    requires sync.Valid() && Storable(sync.blockchain.Value())
    requires forall i, j :: 0 <= i < j < |conns| ==> conns[i] != conns[j]
    modifies sync, conns
    ensures sync.Valid() && Storable(sync.blockchain.Value())
    ensures |taken| == |conns| && forall i :: 0 <= i < |conns| && conns[i].Reliable() ==> taken[i]
    ensures sync.Value() == Run(w, old(sync.Value()), Taken(old(Incoming(conns)), taken))
  {
    hide Handle, Storable, Run, PeerChain, NextCommand, Message, Taken;
    taken := [];
    ghost var streams := Incoming(conns);
    ghost var first := sync.Value();
    NothingTaken(w, first, streams);
    for i := 0 to |conns|
      invariant sync.Valid() && Storable(sync.blockchain.Value())
      invariant sync.blockchain == old(sync.blockchain) || fresh(sync.blockchain.blockList.Repr)
      invariant |taken| == i && forall j :: 0 <= j < i && conns[j].Reliable() ==> taken[j]
      invariant forall j :: i <= j < |conns| ==> conns[j].incoming == streams[j]
      invariant sync.Value() == Run(w, first, Taken(streams[..i], taken))
    {
      ghost var before := sync.Value();
      var r := HandleRequest(w, sync, conns[i]);
      ghost var effective := Handle(w, before, streams[i]) == Ok(sync.Value()) || conns[i].Reliable();
      StepOfRequest(w, before, streams[i]);
      TakeNext(w, first, streams, taken, i, effective);
      taken := taken + [effective];
    }
    assert streams[..|conns|] == streams;
  }
}
