/** The two halves of the registration exchange: the bootstrap server's request handler and the client
    (src/peer_discovery_bootstrap_server_thread.c, src/peer_discovery_thread.c). */
module Discovery {
  import opened Bytes
  import opened Commands
  import opened Connections
  import opened LinkedLists
  import opened Peers
  import opened Registries
  import opened ReturnCodes

  /** The address that a client registers in a stream. */
  function RegistrationIn(stream: seq<byte>): Result<Address> {
    var (frame, _) :- NextCommand(COMMAND_REGISTER_PEER, stream);
    var command :- ParseRegisterPeer(frame);
    Ok(command.address)
  }

  /** The peer list that a server sends in a stream. */
  function PeerListIn(stream: seq<byte>): Result<seq<PeerInfo>> {
    var (frame, _) :- NextCommand(COMMAND_SEND_PEER_LIST, stream);
    var command :- ParseSendData(COMMAND_SEND_PEER_LIST, frame);
    var (peers, _) :- DecodePeers(command.data);
    Ok(peers)
  }

  predicate Sendable(n: nat) {
    8 + PEER_LENGTH * n <= MAX_ALLOCATION
  }

  /** The command that carries a peer list. */
  function PeerListMessage(ps: seq<PeerInfo>): seq<byte>
    requires Sendable(|ps|)
  {
    PeerListRoundTrip(ps, []);
    EncodeSendData(COMMAND_SEND_PEER_LIST, EncodePeers(ps))
  }

  /** Of `message` something is missing. */
  ghost predicate SentPartOf(before: seq<byte>, sent: seq<byte>, message: seq<byte>) {
    exists n :: 0 <= n < |message| && sent == before + message[..n]
  }

  /** The end of a request: serializes the list and sends it. */
  method SendPeerList(list: LinkedList<PeerInfo>, conn: Connection) returns (r: Result<()>)
    requires list.Valid() && Sendable(|list.contents|)
    modifies conn
    ensures r.Ok? ==> conn.sent == old(conn.sent) + PeerListMessage(list.contents)
    ensures r.IsFailure() ==> !conn.Reliable() && SentPartOf(old(conn.sent), conn.sent, PeerListMessage(list.contents))
  {
    hide EncodeSendData, EncodePeers;
    var data := SerializePeers(list);
    PeerListRoundTrip(list.contents, []);
    var header := CommandHeader(COMMAND_PREFIX, COMMAND_SEND_PEER_LIST, 0);
    var reply, _ := SerializeSendData(COMMAND_SEND_PEER_LIST, SendData(header, data));
    var code := conn.SendAll(reply.value);
    r := if code == Success then Ok(()) else Err(NetworkFunction);
  }

  lemma {:induction false} UnexpiredLength(keepalive: uint64, now: int, ps: seq<PeerInfo>)
    ensures |Unexpired(keepalive, now, ps)| <= |ps|
  {
    if ps != [] {
      UnexpiredLength(keepalive, now, ps[..|ps| - 1]);
    }
  }

  lemma RegisterLength(keepalive: uint64, log: seq<Registration>, log': seq<Registration>)
    requires |log'| == |log| + 1 && log'[..|log|] == log
    ensures |PeersAfter(keepalive, log')| <= |PeersAfter(keepalive, log)| + 1
  {
    var r := log'[|log|];
    var stamped := PeerInfo(r.address, r.stampedAt);
    UnexpiredLength(keepalive, r.expiredAt, FindOrPrepend(PeersAfter(keepalive, log), stamped));
  }

  /** `handle_one_peer_discovery_request`, with the two readings of the clock. */
  method HandleRegistration(registry: Registry, conn: Connection, stampedAt: int64, expiredAt: int64)
    returns (r: Result<()>)
    requires registry.Valid() && Sendable(|registry.list.contents| + 1) && conn !in registry.list.Repr
    modifies registry, registry.list.Repr, conn
    ensures registry.Valid() && fresh(registry.list.Repr - old(registry.list.Repr))
    ensures |registry.list.contents| <= old(|registry.list.contents|) + 1
    // The log grows by the registration received, if one is.
    ensures registry.log == old(registry.log) ||
            (&& RegistrationIn(old(conn.incoming)).Ok?
             && registry.log ==
                old(registry.log) + [Registration(RegistrationIn(old(conn.incoming)).value, stampedAt, expiredAt)])
    ensures r.Ok? ==>
              && registry.log != old(registry.log)
              && conn.sent == old(conn.sent) + PeerListMessage(registry.list.contents)
    ensures r.IsFailure() ==>
              || conn.sent == old(conn.sent)
              || SentPartOf(old(conn.sent), conn.sent, PeerListMessage(registry.list.contents))
    ensures conn.Reliable() && RegistrationIn(old(conn.incoming)).Ok? ==> r.Ok?
    ensures conn.Reliable() && RegistrationIn(old(conn.incoming)).IsFailure() ==>
              && r == RegistrationIn(old(conn.incoming)).PropagateFailure<()>()
              && registry.log == old(registry.log) && conn.sent == old(conn.sent)
  {
    hide NextCommand, ParseRegisterPeer, EncodeSendData, EncodePeers, Unexpired, FindOrPrepend, PeersAfter;
    var frame :- conn.ReceiveCommand(COMMAND_REGISTER_PEER);
    var command :- DeserializeRegisterPeer(frame);
    registry.RegisterPeer(command.address, stampedAt, expiredAt);
    RegisterLength(registry.keepalive, old(registry.log), registry.log);
    r := SendPeerList(registry.list, conn);
  }

  class Client {
    const address: Address
    var peers: LinkedList<PeerInfo>

    ghost predicate Valid()
      reads this, peers, peers.Repr
    {
      peers.Valid() && this !in peers.Repr
    }

    constructor (address: Address)
      ensures Valid() && fresh(peers.Repr) && this.address == address && peers.contents == []
    {
      this.address := address;
      peers := new LinkedList(Some(SameAddress));
    }

    /** The first half of `discover_peers_once`: sends the client's address. */
    method Register(conn: Connection) returns (code: ReturnCode)
      modifies conn
      ensures code == Success ==> conn.sent == old(conn.sent) + EncodeRegisterPeer(address)
      ensures code != Success ==>
                !conn.Reliable() && SentPartOf(old(conn.sent), conn.sent, EncodeRegisterPeer(address))
      ensures conn.incoming == old(conn.incoming)
    {
      hide EncodeRegisterPeer;
      var header := CommandHeader(COMMAND_PREFIX, COMMAND_REGISTER_PEER, 0);
      var request, _ := SerializeRegisterPeer(RegisterPeer(header, address));
      code := conn.SendAll(request.value);
    }

    /** The second half: receives the list, and puts it in the place of the client's. */
    method ReceivePeers(conn: Connection) returns (r: Result<()>)
      requires Valid() && conn !in peers.Repr
      modifies this, peers, conn
      ensures Valid() && fresh(peers.Repr - old(peers.Repr)) && (peers == old(peers) || fresh(peers))
      ensures r.Ok? ==> PeerListIn(old(conn.incoming)) == Ok(peers.contents)
      // The replaced list is destroyed, each of its nodes freed once.
      ensures r.Ok? ==>
                && old(peers).nodes == []
                && multiset(old(peers).freed) == old(multiset(peers.freed) + multiset(peers.nodes))
      ensures r.IsFailure() ==> peers == old(peers) && peers.contents == old(peers.contents)
      ensures conn.Reliable() ==>
                if PeerListIn(old(conn.incoming)).Ok? then r.Ok?
                else r == PeerListIn(old(conn.incoming)).PropagateFailure<()>()
      ensures conn.sent == old(conn.sent)
    {
      hide NextCommand, ParseSendData, DecodePeers;
      var frame :- conn.ReceiveCommand(COMMAND_SEND_PEER_LIST);
      var command :- DeserializeSendData(COMMAND_SEND_PEER_LIST, frame);
      var received :- DeserializePeers(command.data);
      var destroyed := peers.Destroy();
      peers := received;
      r := Ok(());
    }

    /** `discover_peers_once`, on a connection already made. */
    method DiscoverPeersOnce(conn: Connection) returns (r: Result<()>)
      requires Valid() && conn !in peers.Repr
      modifies this, peers, conn
      ensures Valid() && fresh(peers.Repr - old(peers.Repr)) && (peers == old(peers) || fresh(peers))
      ensures r.Ok? ==>
                && conn.sent == old(conn.sent) + EncodeRegisterPeer(address)
                && PeerListIn(old(conn.incoming)) == Ok(peers.contents)
      ensures r.Ok? ==>
                && old(peers).nodes == []
                && multiset(old(peers).freed) == old(multiset(peers.freed) + multiset(peers.nodes))
      ensures r.IsFailure() ==> peers == old(peers) && peers.contents == old(peers.contents)
      ensures conn.Reliable() ==>
                if PeerListIn(old(conn.incoming)).Ok? then r.Ok?
                else r == PeerListIn(old(conn.incoming)).PropagateFailure<()>()
    {
      hide PeerListIn, EncodeRegisterPeer;
      var code := Register(conn);
      if code != Success {
        return Err(code);
      }
      r := ReceivePeers(conn);
    }
  }

  /** The server gets the address that the client sends, whatever follows it in the stream. */
  lemma RegistrationArrives(a: Address, rest: seq<byte>)
    ensures RegistrationIn(EncodeRegisterPeer(a) + rest) == Ok(a)
  {
    hide NextCommand, ParseRegisterPeer, EncodeRegisterPeer;
    var request := EncodeRegisterPeer(a);
    RegisterPeerIsFrame(a);
    FrameIsNextCommand(COMMAND_REGISTER_PEER, COMMAND_REGISTER_PEER, request, rest);
    RegisterPeerRoundTrip(a, [], COMMAND_SEND_PEER_LIST);
    assert request + [] == request;
  }

  /** Exactly which streams register an address: those that begin with a register-peer command of at least
      44 bytes, the last 28 of which are the address. */
  lemma StreamsThatRegister(stream: seq<byte>, a: Address)
    ensures RegistrationIn(stream) == Ok(a) <==>
            exists frame, rest ::
              && IsFrame(COMMAND_REGISTER_PEER, frame)
              && |frame| >= 44 && frame[16..44] == AddressThen(a, [])
              && stream == frame + rest
  {
    hide NextCommand, ParseRegisterPeer, AddressThen, IsFrame;
    if RegistrationIn(stream) == Ok(a) {
      var (frame, rest) := NextCommand(COMMAND_REGISTER_PEER, stream).value;
      CommandsAreFrames(COMMAND_REGISTER_PEER, stream, frame, rest);
      RegisterPeerInFull(frame);
    }
    if frame, rest :| IsFrame(COMMAND_REGISTER_PEER, frame) && |frame| >= 44 && frame[16..44] == AddressThen(a, [])
                      && stream == frame + rest {
      CommandsAreFrames(COMMAND_REGISTER_PEER, stream, frame, rest);
      RegisterPeerInFull(frame);
      FrameCode(COMMAND_REGISTER_PEER, frame);
      assert frame[..8] == frame[..4] + frame[4..8];
      CodesOnTheWire();
      AddressRoundTrip(a, []);
      AddressRoundTrip(ParseRegisterPeer(frame).value.address, []);
    }
  }

  /** Exactly which streams carry a peer list, likewise. */
  lemma StreamsThatCarryAList(stream: seq<byte>, ps: seq<PeerInfo>)
    ensures PeerListIn(stream) == Ok(ps) <==>
            exists frame, data, listRest, rest ::
              && CarriesData(COMMAND_SEND_PEER_LIST, frame, data)
              && DecodePeers(data) == Ok((ps, listRest))
              && stream == frame + rest
  {
    hide NextCommand, ParseSendData, DecodePeers, IsFrame;
    if PeerListIn(stream) == Ok(ps) {
      var (frame, rest) := NextCommand(COMMAND_SEND_PEER_LIST, stream).value;
      var data := ParseSendData(COMMAND_SEND_PEER_LIST, frame).value.data;
      CommandsAreFrames(COMMAND_SEND_PEER_LIST, stream, frame, rest);
      DataIsCarried(COMMAND_SEND_PEER_LIST, frame, data);
      assert DecodePeers(data) == Ok((ps, DecodePeers(data).value.1));
    }
    if frame, data, listRest, rest :| CarriesData(COMMAND_SEND_PEER_LIST, frame, data)
                                      && DecodePeers(data) == Ok((ps, listRest)) && stream == frame + rest {
      CommandsAreFrames(COMMAND_SEND_PEER_LIST, stream, frame, rest);
      DataIsCarried(COMMAND_SEND_PEER_LIST, frame, data);
    }
  }

  /** The server gets no address from a request of which something is missing. */
  lemma PartOfRegistrationFails(a: Address, sent: seq<byte>)
    requires SentPartOf([], sent, EncodeRegisterPeer(a))
    ensures RegistrationIn(sent).IsFailure()
  {
    hide NextCommand, ParseRegisterPeer, EncodeRegisterPeer;
    var n :| 0 <= n < |EncodeRegisterPeer(a)| && sent == [] + EncodeRegisterPeer(a)[..n];
    assert sent == EncodeRegisterPeer(a)[..n];
    RegisterPeerIsFrame(a);
    TruncatedFrame(COMMAND_REGISTER_PEER, COMMAND_REGISTER_PEER, EncodeRegisterPeer(a), n);
  }

  lemma FrameIsNotEmpty(command: uint32, frame: seq<byte>)
    requires IsFrame(command, frame)
    ensures frame != []
  {
  }

  /** The client gets no list from a reply of which something is missing. */
  lemma PartOfPeerListFails(ps: seq<PeerInfo>, sent: seq<byte>)
    requires Sendable(|ps|)
    requires sent == [] || SentPartOf([], sent, PeerListMessage(ps))
    ensures PeerListIn(sent).IsFailure()
  {
    hide NextCommand, ParseSendData, DecodePeers, EncodeSendData, EncodePeers;
    var message := PeerListMessage(ps);
    PeerListRoundTrip(ps, []);
    SendDataIsFrame(COMMAND_SEND_PEER_LIST, EncodePeers(ps));
    var n: nat := 0;
    if SentPartOf([], sent, message) {
      n :| 0 <= n < |message| && sent == [] + message[..n];
    }
    FrameIsNotEmpty(COMMAND_SEND_PEER_LIST, message);
    assert sent == message[..n];
    TruncatedFrame(COMMAND_SEND_PEER_LIST, COMMAND_SEND_PEER_LIST, message, n);
  }

  /** The client gets the list that the server sends, in order, whatever follows it in the stream. */
  lemma PeerListArrives(ps: seq<PeerInfo>, rest: seq<byte>)
    requires Sendable(|ps|)
    ensures PeerListIn(PeerListMessage(ps) + rest) == Ok(ps)
  {
    hide NextCommand, ParseSendData, DecodePeers, EncodeSendData, EncodePeers;
    var data, reply := EncodePeers(ps), PeerListMessage(ps);
    PeerListRoundTrip(ps, []);
    SendDataIsFrame(COMMAND_SEND_PEER_LIST, data);
    FrameIsNextCommand(COMMAND_SEND_PEER_LIST, COMMAND_SEND_PEER_LIST, reply, rest);
    SendDataRoundTrip(COMMAND_SEND_PEER_LIST, data, [], COMMAND_SEND_BLOCKCHAIN);
    assert reply + [] == reply && data + [] == data;
  }

  /** A client finds its own address in the list exactly when the clock moved at most the keepalive
      during its request, and then with the time of that request. */
  lemma OwnAddressIsListed(keepalive: uint64, log: seq<Registration>, ps: seq<PeerInfo>, r: Registration)
    requires log != [] && r == log[|log| - 1] && ps == PeersAfter(keepalive, log)
    ensures (exists p :: p in ps && p.address == r.address) <==>
            (r.expiredAt - r.stampedAt) * 1_000_000 <= keepalive
    ensures forall p :: p in ps && p.address == r.address ==> p.lastConnected == r.stampedAt
  {
    hide Unexpired, FindOrPrepend;
    var before, own := PeersAfter(keepalive, log[..|log| - 1]), PeerInfo(r.address, r.stampedAt);
    AddressesStayDistinct(keepalive, log[..|log| - 1]);
    FindOrPrependMembers(before, own);
    UnexpiredMembers(keepalive, r.expiredAt, FindOrPrepend(before, own));
    assert own in ps <==> !Expired(keepalive, r.expiredAt, own);
  }

  /** The server and the client share no heap. */
  ghost predicate Apart(registry: Registry, client: Client)
    reads registry, registry.list, client, client.peers, client.peers.Repr
  {
    && client.Valid()
    && client !in registry.list.Repr && registry !in client.peers.Repr
    && client.peers.Repr !! registry.list.Repr
  }

  /** The reply is received exactly when all of it was sent. */
  lemma ReplyArrives(ps: seq<PeerInfo>, served: Result<()>, sent: seq<byte>)
    requires Sendable(|ps|)
    requires served.Ok? ==> sent == [] + PeerListMessage(ps)
    requires served.IsFailure() ==> sent == [] || SentPartOf([], sent, PeerListMessage(ps))
    ensures if served.Ok? then PeerListIn(sent) == Ok(ps) else PeerListIn(sent).IsFailure()
  {
    hide PeerListIn, PeerListMessage, SentPartOf;
    if served.Ok? {
      assert sent == PeerListMessage(ps) + [];
      PeerListArrives(ps, []);
    } else {
      PartOfPeerListFails(ps, sent);
    }
  }

  /** The server's half of an exchange, on a connection of its own. */
  method Serve(registry: Registry, request: seq<byte>, transfer: nat -> int, stampedAt: int64, expiredAt: int64)
    returns (served: Result<()>, reply: seq<byte>)
    requires registry.Valid() && Sendable(|registry.list.contents| + 1)
    modifies registry, registry.list.Repr
    ensures registry.Valid() && |registry.list.contents| <= old(|registry.list.contents|) + 1
    ensures fresh(registry.list.Repr - old(registry.list.Repr))
    ensures registry.log == old(registry.log) ||
            (&& RegistrationIn(request).Ok?
             && registry.log == old(registry.log) + [Registration(RegistrationIn(request).value, stampedAt, expiredAt)])
    ensures served.Ok? ==> registry.log != old(registry.log)
    ensures if served.Ok? then PeerListIn(reply) == Ok(registry.list.contents) else PeerListIn(reply).IsFailure()
    ensures (forall k :: transfer(k) >= 0) && RegistrationIn(request).Ok? ==> served.Ok?
  {
    hide RegistrationIn, PeerListIn, PeerListMessage, PeersAfter, SentPartOf;
    var conn := new Connection(transfer, request);
    served := HandleRegistration(registry, conn, stampedAt, expiredAt);
    reply := conn.sent;
    ReplyArrives(registry.list.contents, served, reply);
  }

  /** The request is received exactly when all of it was sent. */
  lemma RequestArrives(a: Address, code: ReturnCode, sent: seq<byte>)
    requires code == Success ==> sent == [] + EncodeRegisterPeer(a)
    requires code != Success ==> SentPartOf([], sent, EncodeRegisterPeer(a))
    ensures code == Success ==> sent == EncodeRegisterPeer(a) && RegistrationIn(sent) == Ok(a)
    ensures code != Success ==> RegistrationIn(sent).IsFailure()
  {
    hide RegistrationIn, EncodeRegisterPeer, SentPartOf;
    if code == Success {
      assert sent == EncodeRegisterPeer(a) + [];
      RegistrationArrives(a, []);
    } else {
      PartOfRegistrationFails(a, sent);
    }
  }

  /** One whole exchange. The server receives what the client sends, of which a failing connection may
      cut off the end, and the client then receives what the server sends. */
  method Exchange(
      registry: Registry, client: Client, serverTransfer: nat -> int, clientTransfer: nat -> int,
      stampedAt: int64, expiredAt: int64)
    returns (served: Result<()>, discovered: Result<()>, ghost request: seq<byte>)
    requires registry.Valid() && Sendable(|registry.list.contents| + 1) && Apart(registry, client)
    modifies registry, registry.list.Repr, client, client.peers
    ensures registry.Valid() && |registry.list.contents| <= old(|registry.list.contents|) + 1
    ensures Apart(registry, client) && (client.peers == old(client.peers) || fresh(client.peers))
    ensures fresh(registry.list.Repr - old(registry.list.Repr)) && fresh(client.peers.Repr - old(client.peers.Repr))
    // The server registers the client, or nobody; and it registers only what arrived in full.
    ensures registry.log != old(registry.log) ==>
              && registry.log == old(registry.log) + [Registration(client.address, stampedAt, expiredAt)]
              && request == EncodeRegisterPeer(client.address)
    ensures discovered.Ok? ==> served.Ok?
    ensures served.Ok? ==> registry.log != old(registry.log)
    // Both end with the same list, in order, and the client is in it unless the clock moved too far.
    ensures discovered.Ok? ==>
              && client.peers.contents == registry.list.contents
              && ((exists p :: p in client.peers.contents && p.address == client.address) <==>
                  (expiredAt - stampedAt) * 1_000_000 <= registry.keepalive)
    ensures discovered.IsFailure() ==>
              client.peers == old(client.peers) && client.peers.contents == old(client.peers.contents)
    ensures (forall k :: serverTransfer(k) >= 0) && (forall k :: clientTransfer(k) >= 0) ==> discovered.Ok?
  {
    hide RegistrationIn, PeerListIn, EncodeRegisterPeer, PeersAfter, SentPartOf, Sendable, LinkedList.Valid;
    var clientSide := new Connection(clientTransfer, []);
    var code := client.Register(clientSide);
    request := clientSide.sent;
    RequestArrives(client.address, code, request);
    var reply;
    served, reply := Serve(registry, clientSide.sent, serverTransfer, stampedAt, expiredAt);
    clientSide.incoming := reply;
    if code == Success {
      discovered := client.ReceivePeers(clientSide);
    } else {
      discovered := Err(code);
    }
    if served.Ok? {
      OwnAddressIsListed(
        registry.keepalive, registry.log, registry.list.contents,
        Registration(client.address, stampedAt, expiredAt));
    }
  }

  // Any number of clients, each discovering peers again and again.

  /** One client's turn: what its two connections do, and when the server reads the clock. */
  datatype Turn = Turn(
    client: nat, serverTransfer: nat -> int, clientTransfer: nat -> int, stampedAt: int64, expiredAt: int64)
  {
    ghost predicate Reliable() {
      (forall k :: serverTransfer(k) >= 0) && (forall k :: clientTransfer(k) >= 0)
    }
  }

  ghost predicate AllApart(registry: Registry, clients: seq<Client>)
    reads registry, registry.list, clients
    reads set c | c in clients :: c.peers
    reads set c, o | c in clients && o in c.peers.Repr :: o
  {
    && (forall i :: 0 <= i < |clients| ==> Apart(registry, clients[i]))
    && (forall i, j :: 0 <= i < |clients| && 0 <= j < |clients| && i != j ==>
          && clients[i] != clients[j]
          && clients[i] !in clients[j].peers.Repr
          && clients[i].peers.Repr !! clients[j].peers.Repr)
  }

  ghost function Addresses(clients: seq<Client>): (a: seq<Address>)
    ensures |a| == |clients| && forall i :: 0 <= i < |a| ==> a[i] == clients[i].address
  {
    seq(|clients|, i requires 0 <= i < |clients| => clients[i].address)
  }

  ghost function Lists(clients: seq<Client>): (lists: seq<seq<PeerInfo>>)
    reads clients, set c | c in clients :: c.peers
    ensures |lists| == |clients| && forall i :: 0 <= i < |lists| ==> lists[i] == clients[i].peers.contents
  {
    seq(|clients|, i requires 0 <= i < |clients| reads clients, set c | c in clients :: c.peers =>
      clients[i].peers.contents)
  }

  function RegistrationOf(addresses: seq<Address>, turn: Turn): Registration
    requires turn.client < |addresses|
  {
    Registration(addresses[turn.client], turn.stampedAt, turn.expiredAt)
  }

  method TakeTurn(registry: Registry, clients: seq<Client>, turn: Turn) returns (discovered: Result<()>)
    requires registry.Valid() && Sendable(|registry.list.contents| + 1)
    requires AllApart(registry, clients) && turn.client < |clients|
    modifies registry, registry.list.Repr, clients[turn.client], clients[turn.client].peers
    ensures registry.Valid() && AllApart(registry, clients)
    ensures |registry.list.contents| <= old(|registry.list.contents|) + 1
    ensures fresh(registry.list.Repr - old(registry.list.Repr))
    ensures forall c :: 0 <= c < |clients| ==> clients[c].peers == old(clients[c].peers) || fresh(clients[c].peers)
    ensures registry.log == old(registry.log) ||
            registry.log == old(registry.log) + [RegistrationOf(Addresses(clients), turn)]
    ensures if discovered.Ok? then
              && registry.log != old(registry.log)
              && Lists(clients) == old(Lists(clients))[turn.client := PeersAfter(registry.keepalive, registry.log)]
            else
              Lists(clients) == old(Lists(clients))
    ensures turn.Reliable() ==> discovered.Ok?
  {
    hide PeersAfter, Sendable, LinkedList.Valid;
    var served;
    ghost var request;
    served, discovered, request := Exchange(
      registry, clients[turn.client], turn.serverTransfer, turn.clientTransfer, turn.stampedAt, turn.expiredAt);
  }

  /** The list is what the server's was after the first `n` registrations, the last of them this client's. */
  predicate HeldAt(keepalive: uint64, log: seq<Registration>, address: Address, ps: seq<PeerInfo>, n: nat) {
    0 < n <= |log| && log[n - 1].address == address && ps == PeersAfter(keepalive, log[..n])
  }

  /** Each client holds its first list, or the server's as it was when `seen` registrations were made. */
  predicate ListsFit(
      keepalive: uint64, addresses: seq<Address>, first: seq<seq<PeerInfo>>, lists: seq<seq<PeerInfo>>,
      log: seq<Registration>, seen: seq<nat>)
  {
    && |addresses| == |first| == |lists| == |seen|
    && forall c :: 0 <= c < |seen| ==>
         if seen[c] == 0 then lists[c] == first[c] else HeldAt(keepalive, log, addresses[c], lists[c], seen[c])
  }

  predicate IsLastTurn(turns: seq<Turn>, c: nat, k: nat) {
    k < |turns| && turns[k].client == c && forall m :: k < m < |turns| ==> turns[m].client != c
  }

  /** Every turn has registered, and every client has seen the registrations up to that of its last turn. */
  ghost predicate AllRegistered(
      addresses: seq<Address>, turns: seq<Turn>, before: seq<Registration>, log: seq<Registration>, seen: seq<nat>)
    requires forall t :: t in turns ==> t.client < |addresses|
  {
    && |log| == |before| + |turns| && log[..|before|] == before && |seen| == |addresses|
    && (forall i :: 0 <= i < |turns| ==> log[|before| + i] == RegistrationOf(addresses, turns[i]))
    && (forall c: nat, k: nat :: c < |seen| && IsLastTurn(turns, c, k) ==> seen[c] == |before| + k + 1)
  }

  lemma TurnKeepsListsFit(
      keepalive: uint64, addresses: seq<Address>, first: seq<seq<PeerInfo>>, lists: seq<seq<PeerInfo>>,
      log: seq<Registration>, seen: seq<nat>, turn: Turn, log': seq<Registration>)
    requires ListsFit(keepalive, addresses, first, lists, log, seen) && turn.client < |addresses|
    requires log' == log || log' == log + [RegistrationOf(addresses, turn)]
    ensures ListsFit(keepalive, addresses, first, lists, log', seen)
    ensures log' != log ==>
              ListsFit(keepalive, addresses, first, lists[turn.client := PeersAfter(keepalive, log')], log',
                       seen[turn.client := |log'|])
  {
    hide PeersAfter;
    assert log'[..|log'|] == log';
    forall c | 0 <= c < |seen| && seen[c] > 0
      ensures HeldAt(keepalive, log', addresses[c], lists[c], seen[c])
    {
      assert HeldAt(keepalive, log, addresses[c], lists[c], seen[c]);
      assert log'[..seen[c]] == log[..seen[c]];
    }
  }

  lemma TurnKeepsAllRegistered(
      addresses: seq<Address>, turns: seq<Turn>, before: seq<Registration>, log: seq<Registration>, seen: seq<nat>,
      i: nat)
    requires (forall t :: t in turns ==> t.client < |addresses|) && i < |turns|
    requires AllRegistered(addresses, turns[..i], before, log, seen)
    ensures var log' := log + [RegistrationOf(addresses, turns[i])];
            AllRegistered(addresses, turns[..i + 1], before, log', seen[turns[i].client := |log'|])
  {
    var log' := log + [RegistrationOf(addresses, turns[i])];
    var seen' := seen[turns[i].client := |log'|];
    var longer := turns[..i + 1];
    assert longer[i] == turns[i];
    forall c: nat, k: nat | c < |seen| && IsLastTurn(longer, c, k)
      ensures seen'[c] == |before| + k + 1
    {
      if c != turns[i].client {
        assert longer[k] == turns[k] && k < i;
        assert IsLastTurn(turns[..i], c, k) by {
          assert forall m :: k < m < i ==> turns[..i][m] == longer[m];
        }
      }
    }
  }

  lemma PrefixIsMonotone(log: seq<Registration>, n: nat)
    requires MonotoneClock(log) && n <= |log|
    ensures MonotoneClock(log[..n])
  {
  }

  /** With a clock that never goes back, a list received is exactly the peers active when it was sent. */
  lemma ListsAreActivePeers(
      keepalive: uint64, addresses: seq<Address>, first: seq<seq<PeerInfo>>, lists: seq<seq<PeerInfo>>,
      log: seq<Registration>, seen: seq<nat>)
    requires ListsFit(keepalive, addresses, first, lists, log, seen) && MonotoneClock(log)
    ensures forall c, p :: 0 <= c < |seen| && 0 < seen[c] <= |log| ==>
              (p in lists[c] <==> Active(keepalive, log[..seen[c]], p))
  {
    hide PeersAfter, Active, MonotoneClock;
    forall c, p | 0 <= c < |seen| && 0 < seen[c] <= |log|
      ensures p in lists[c] <==> Active(keepalive, log[..seen[c]], p)
    {
      PrefixIsMonotone(log, seen[c]);
      RegistryHoldsActivePeers(keepalive, log[..seen[c]]);
      assert HeldAt(keepalive, log, addresses[c], lists[c], seen[c]);
    }
  }

  lemma NothingSeen(
      keepalive: uint64, addresses: seq<Address>, first: seq<seq<PeerInfo>>, log: seq<Registration>, seen: seq<nat>)
    requires |addresses| == |first| == |seen| && forall c :: 0 <= c < |seen| ==> seen[c] == 0
    ensures ListsFit(keepalive, addresses, first, first, log, seen)
    ensures AllRegistered(addresses, [], log, log, seen)
  {
  }

  lemma SendableToo(n: nat, m: nat)
    requires Sendable(m) && n <= m
    ensures Sendable(n)
  {
  }

  /** Any sequence of turns, whatever the connections do: `seen` says for each client how many
      registrations its list reflects, and is 0 for one that never succeeded. */
  method Exchanges(registry: Registry, clients: seq<Client>, turns: seq<Turn>) returns (ghost seen: seq<nat>)
    requires registry.Valid() && Sendable(|registry.list.contents| + |turns|)
    requires AllApart(registry, clients) && forall t :: t in turns ==> t.client < |clients|
    modifies registry, registry.list.Repr, clients, set c | c in clients :: c.peers
    ensures registry.Valid() && AllApart(registry, clients) && old(registry.log) <= registry.log
    ensures ListsFit(registry.keepalive, Addresses(clients), old(Lists(clients)), Lists(clients), registry.log, seen)
    // With a clock that never goes back, each list received is exactly the peers active at that time.
    ensures MonotoneClock(registry.log) ==>
              forall c, p :: 0 <= c < |clients| && 0 < seen[c] <= |registry.log| ==>
                (p in Lists(clients)[c] <==> Active(registry.keepalive, registry.log[..seen[c]], p))
    // With reliable connections each client ends with the list of its last turn.
    ensures (forall t :: t in turns ==> t.Reliable()) ==>
              AllRegistered(Addresses(clients), turns, old(registry.log), registry.log, seen)
  {
    hide PeersAfter, Active, MonotoneClock, ListsFit, AllRegistered, RegistrationOf, Turn.Reliable, Sendable,
      AllApart, Registry.Valid;
    ghost var a, first, before := Addresses(clients), Lists(clients), registry.log;
    seen := seq(|clients|, _ => 0);
    NothingSeen(registry.keepalive, a, first, before, seen);
    for i := 0 to |turns|
      invariant registry.Valid() && |registry.list.contents| <= old(|registry.list.contents|) + i
      invariant AllApart(registry, clients) && |seen| == |clients|
      invariant fresh(registry.list.Repr - old(registry.list.Repr))
      invariant forall c :: 0 <= c < |clients| ==> clients[c].peers == old(clients[c].peers) || fresh(clients[c].peers)
      invariant before <= registry.log
      invariant ListsFit(registry.keepalive, a, first, Lists(clients), registry.log, seen)
      invariant (forall t :: t in turns[..i] ==> t.Reliable()) ==>
                  AllRegistered(a, turns[..i], before, registry.log, seen)
    {
      ghost var log, lists := registry.log, Lists(clients);
      SendableToo(|registry.list.contents| + 1, old(|registry.list.contents|) + |turns|);
      var discovered := TakeTurn(registry, clients, turns[i]);
      TurnKeepsListsFit(registry.keepalive, a, first, lists, log, seen, turns[i], registry.log);
      assert turns[i] in turns[..i + 1] && forall t :: t in turns[..i] ==> t in turns[..i + 1];
      if forall t :: t in turns[..i + 1] ==> t.Reliable() {
        TurnKeepsAllRegistered(a, turns, before, log, seen, i);
      }
      if discovered.Ok? {
        seen := seen[turns[i].client := |registry.log|];
      }
    }
    assert turns[..|turns|] == turns;
    if MonotoneClock(registry.log) {
      ListsAreActivePeers(registry.keepalive, a, first, Lists(clients), registry.log, seen);
    }
  }
}
