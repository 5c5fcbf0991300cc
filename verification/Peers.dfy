/** Peer records and the wire format of the peer list (src/peer_discovery.c). */
module Peers {
  import opened Bytes
  import opened ReturnCodes
  import opened Cursor
  import opened LinkedLists

  const ADDRESS_LENGTH := 16
  const SOCKADDR_LENGTH := 28
  const PEER_LENGTH := 36

  type AddressBytes = s: seq<byte> | |s| == ADDRESS_LENGTH
    witness seq(ADDRESS_LENGTH, (i: nat) => 0)

  /** `struct sockaddr_in6`. */
  datatype Address = Address(family: uint16, port: uint16, flowInfo: uint32, bytes: AddressBytes, scopeId: uint32)

  datatype PeerInfo = PeerInfo(address: Address, lastConnected: int64)

  /** `compare_peer_info_t` yields 0: all bytes of the two addresses agree; times are ignored. */
  predicate SameAddress(p: PeerInfo, q: PeerInfo) {
    p.address == q.address
  }

  /** The wire form of an address followed by `rest`. */
  function AddressThen(a: Address, rest: seq<byte>): seq<byte> {
    BigEndian(2, a.family) + (BigEndian(2, a.port) + (BigEndian(4, a.flowInfo) + (a.bytes +
    (BigEndian(4, a.scopeId) + rest))))
  }

  function PeerThen(p: PeerInfo, rest: seq<byte>): seq<byte> {
    AddressThen(p.address, BigEndian(8, ToUnsigned(p.lastConnected)) + rest)
  }

  function PeersThen(ps: seq<PeerInfo>, rest: seq<byte>): seq<byte> {
    if ps == [] then rest else PeerThen(ps[0], PeersThen(ps[1..], rest))
  }

  /** The wire form of a peer list. */
  function EncodePeers(ps: seq<PeerInfo>): seq<byte>
    requires |ps| < TWO_TO_THE_64
  {
    BigEndian(8, |ps|) + PeersThen(ps, [])
  }

  function ParseAddress(s0: seq<byte>): Result<(Address, seq<byte>)> {
    var (family, s1) :- Take16(s0);
    var (port, s2) :- Take16(s1);
    var (flowInfo, s3) :- Take32(s2);
    var (bytes, s4) :- Take(ADDRESS_LENGTH, s3);
    var (scopeId, s5) :- Take32(s4);
    Ok((Address(family, port, flowInfo, bytes, scopeId), s5))
  }

  function ParsePeer(s0: seq<byte>): Result<(PeerInfo, seq<byte>)> {
    var (address, s1) :- ParseAddress(s0);
    var (lastConnected, s2) :- Take64(s1);
    Ok((PeerInfo(address, ToSigned(lastConnected)), s2))
  }

  function ParsePeers(n: nat, parsed: seq<PeerInfo>, s: seq<byte>): Result<(seq<PeerInfo>, seq<byte>)> {
    if n == 0 then
      Ok((parsed, s))
    else
      var (p, rest) :- ParsePeer(s);
      ParsePeers(n - 1, parsed + [p], rest)
  }

  /** The peers that a buffer denotes, with the bytes that follow them. */
  function DecodePeers(s: seq<byte>): Result<(seq<PeerInfo>, seq<byte>)> {
    var (n, rest) :- Take64(s);
    ParsePeers(n, [], rest)
  }

  method SerializeAddress(a: Address) returns (buffer: seq<byte>)
    ensures buffer == AddressThen(a, [])
  {
    buffer := BigEndian(2, a.family);
    buffer := buffer + BigEndian(2, a.port);
    buffer := buffer + BigEndian(4, a.flowInfo);
    for i := 0 to ADDRESS_LENGTH
      invariant buffer == BigEndian(2, a.family) + BigEndian(2, a.port) + BigEndian(4, a.flowInfo) + a.bytes[..i]
    {
      buffer := buffer + [a.bytes[i]];
    }
    buffer := buffer + BigEndian(4, a.scopeId);
  }

  lemma AddressThenAppends(a: Address, rest: seq<byte>)
    ensures AddressThen(a, rest) == AddressThen(a, []) + rest
    ensures |AddressThen(a, [])| == SOCKADDR_LENGTH
  {
    var f := BigEndian(4, a.scopeId);
    assert f + rest == (f + []) + rest;
  }

  method SerializePeers(list: LinkedList<PeerInfo>) returns (buffer: seq<byte>)
    requires list.Valid() && |list.nodes| < TWO_TO_THE_64
    ensures buffer == EncodePeers(list.contents)
  {
    ghost var ps := list.contents;
    var n := list.Length();
    buffer := HostToBigEndian64(n);
    var node := list.head;
    ghost var i := 0;
    while node != null
      invariant i <= |ps| && node == NodeAt(list.nodes, i)
      invariant EncodePeers(ps) == buffer + PeersThen(ps[i..], [])
      decreases |ps| - i
    {
      var peer := node.data;
      var address := SerializeAddress(peer.address);
      var time := HostToBigEndian64(ToUnsigned(peer.lastConnected));
      ghost var rest := PeersThen(ps[i + 1..], []);
      assert PeersThen(ps[i..], []) == PeerThen(peer, rest);
      AddressThenAppends(peer.address, time + rest);
      assert buffer + (address + (time + rest)) == buffer + address + time + rest;
      buffer := buffer + address + time;
      node, i := node.next, i + 1;
    }
    assert ps[i..] == [];
  }

  method DeserializeAddress(buffer: seq<byte>, start: nat) returns (r: Result<Address>)
    requires start <= |buffer|
    ensures r.Ok? ==>
              && start + SOCKADDR_LENGTH <= |buffer|
              && ParseAddress(buffer[start..]) == Ok((r.value, buffer[start + SOCKADDR_LENGTH..]))
    ensures !r.Ok? ==> r == Err(BufferTooSmall) && ParseAddress(buffer[start..]) == Err(BufferTooSmall)
  {
    var next := start;
    var family :- Read16(buffer, next);
    next := next + 2;
    var port :- Read16(buffer, next);
    next := next + 2;
    var flowInfo :- Read32(buffer, next);
    next := next + 4;
    var bytes :- ReadBytes(buffer, next, ADDRESS_LENGTH);
    next := next + ADDRESS_LENGTH;
    var scopeId :- Read32(buffer, next);
    r := Ok(Address(family, port, flowInfo, bytes, scopeId));
  }

  method DeserializePeer(buffer: seq<byte>, start: nat) returns (r: Result<PeerInfo>)
    requires start <= |buffer|
    ensures r.Ok? ==>
              && start + PEER_LENGTH <= |buffer|
              && ParsePeer(buffer[start..]) == Ok((r.value, buffer[start + PEER_LENGTH..]))
    ensures !r.Ok? ==> r == Err(BufferTooSmall) && ParsePeer(buffer[start..]) == Err(BufferTooSmall)
  {
    var address :- DeserializeAddress(buffer, start);
    var lastConnected :- Read64(buffer, start + SOCKADDR_LENGTH);
    r := Ok(PeerInfo(address, ToSigned(lastConnected)));
  }

  lemma ParsePeersStep(n: nat, parsed: seq<PeerInfo>, s: seq<byte>)
    requires n > 0
    ensures ParsePeer(s).Ok? ==>
              ParsePeers(n, parsed, s) == ParsePeers(n - 1, parsed + [ParsePeer(s).value.0], ParsePeer(s).value.1)
    ensures ParsePeer(s) == Err(BufferTooSmall) ==> ParsePeers(n, parsed, s) == Err(BufferTooSmall)
  {
  }

  method DeserializePeers(buffer: seq<byte>) returns (r: Result<LinkedList<PeerInfo>>)
    ensures r.Ok? <==> DecodePeers(buffer).Ok?
    ensures r.Ok? ==>
              && r.value.Valid() && fresh(r.value.Repr)
              && r.value.sameKey == Some(SameAddress)
              && r.value.contents == DecodePeers(buffer).value.0
    ensures !r.Ok? ==> r == Err(BufferTooSmall) && DecodePeers(buffer) == Err(BufferTooSmall)
  {
    hide ParsePeer, Take64;
    var next: nat := 0;
    assert buffer[0..] == buffer;
    var n :- Read64(buffer, next);
    next := next + 8;
    var list := new LinkedList(Some(SameAddress));
    ghost var body := buffer[next..];
    for i := 0 to n
      invariant next <= |buffer|
      invariant list.Valid() && fresh(list.Repr) && list.sameKey == Some(SameAddress)
      invariant ParsePeers(n, [], body) == ParsePeers(n - i, list.contents, buffer[next..])
    {
      ParsePeersStep(n - i, list.contents, buffer[next..]);
      var peer :- DeserializePeer(buffer, next);
      next := next + PEER_LENGTH;
      list.Append(peer);
    }
    r := Ok(list);
  }

  lemma {:induction false} PeersThenAppends(ps: seq<PeerInfo>, rest: seq<byte>)
    ensures PeersThen(ps, rest) == PeersThen(ps, []) + rest
    ensures |PeersThen(ps, [])| == PEER_LENGTH * |ps|
  {
    hide AddressThen, BigEndian;
    if ps != [] {
      var p, tail := ps[0], PeersThen(ps[1..], []);
      var time := BigEndian(8, ToUnsigned(p.lastConnected));
      PeersThenAppends(ps[1..], rest);
      AddressThenAppends(p.address, time + tail);
      AddressThenAppends(p.address, time + (tail + rest));
    }
  }

  lemma AddressRoundTrip(a: Address, rest: seq<byte>)
    ensures ParseAddress(AddressThen(a, rest)) == Ok((a, rest))
  {
    var s4 := BigEndian(4, a.scopeId) + rest;
    var s3 := a.bytes + s4;
    var s2 := BigEndian(4, a.flowInfo) + s3;
    var s1 := BigEndian(2, a.port) + s2;
    Take16Written(a.family, s1);
    Take16Written(a.port, s2);
    Take32Written(a.flowInfo, s3);
    TakeWritten(a.bytes, s4);
    Take32Written(a.scopeId, rest);
  }

  lemma ParsedAddressIsWritten(s: seq<byte>)
    ensures !ParseAddress(s).Ok? ==> ParseAddress(s) == Err(BufferTooSmall)
    ensures ParseAddress(s).Ok? ==> s == AddressThen(ParseAddress(s).value.0, ParseAddress(s).value.1)
  {
    hide FromBigEndian, BigEndian;
    if ParseAddress(s).Ok? {
      Taken16IsWritten(s);
      var s1 := Take16(s).value.1;
      Taken16IsWritten(s1);
      var s2 := Take16(s1).value.1;
      Taken32IsWritten(s2);
      var s3 := Take32(s2).value.1;
      TakenIsWritten(ADDRESS_LENGTH, s3);
      Taken32IsWritten(s3[ADDRESS_LENGTH..]);
    }
  }

  lemma {:induction false} ParsePeersWritten(ps: seq<PeerInfo>, parsed: seq<PeerInfo>, rest: seq<byte>)
    ensures ParsePeers(|ps|, parsed, PeersThen(ps, rest)) == Ok((parsed + ps, rest))
  {
    hide AddressThen, ParseAddress, Take64;
    if ps == [] {
      assert parsed + ps == parsed;
    } else {
      var p, tail := ps[0], PeersThen(ps[1..], rest);
      AddressRoundTrip(p.address, BigEndian(8, ToUnsigned(p.lastConnected)) + tail);
      Take64Written(ToUnsigned(p.lastConnected), tail);
      SignednessRoundTrip(p.lastConnected, 0);
      ParsePeersWritten(ps[1..], parsed + [p], rest);
      assert parsed + [p] + ps[1..] == parsed + ps;
    }
  }

  lemma {:induction false} ParsedPeersAreWritten(n: nat, parsed: seq<PeerInfo>, s: seq<byte>)
    ensures !ParsePeers(n, parsed, s).Ok? ==> ParsePeers(n, parsed, s) == Err(BufferTooSmall)
    ensures ParsePeers(n, parsed, s).Ok? ==>
              var (ps, rest) := ParsePeers(n, parsed, s).value;
              |ps| == |parsed| + n && ps[..|parsed|] == parsed && s == PeersThen(ps[|parsed|..], rest)
  {
    hide AddressThen, ParseAddress, Take64;
    if n == 0 {
      assert parsed[|parsed|..] == [];
    } else {
      ParsedAddressIsWritten(s);
      if ParseAddress(s).Ok? {
        var (address, s1) := ParseAddress(s).value;
        if Take64(s1).Ok? {
          Taken64IsWritten(s1);
          var (time, s2) := Take64(s1).value;
          SignednessRoundTrip(0, time);
          var p := PeerInfo(address, ToSigned(time));
          ParsedPeersAreWritten(n - 1, parsed + [p], s2);
          if ParsePeers(n, parsed, s).Ok? {
            var (ps, rest) := ParsePeers(n, parsed, s).value;
            var k := |parsed|;
            assert ps[..k + 1] == parsed + [p];
            assert ps[k] == ps[..k + 1][k] == p;
            assert ps[k..][0] == p && ps[k..][1..] == ps[k + 1..];
            assert ps[..k] == ps[..k + 1][..k] == parsed;
            assert s == PeerThen(p, s2);
          }
        }
      }
    }
  }

  /** Decoding undoes encoding, for lists of any length and whatever bytes follow. */
  lemma PeerListRoundTrip(ps: seq<PeerInfo>, rest: seq<byte>)
    requires |ps| < TWO_TO_THE_64
    ensures DecodePeers(EncodePeers(ps) + rest) == Ok((ps, rest))
    ensures |EncodePeers(ps)| == 8 + PEER_LENGTH * |ps|
  {
    hide ParsePeer, BigEndian, FromBigEndian, AddressThen;
    PeersThenAppends(ps, rest);
    assert EncodePeers(ps) + rest == BigEndian(8, |ps|) + PeersThen(ps, rest);
    Take64Written(|ps|, PeersThen(ps, rest));
    ParsePeersWritten(ps, [], rest);
    assert [] + ps == ps;
  }

  /** Every accepted buffer begins with the encoding of the list it yields. */
  lemma PeerListCanonical(s: seq<byte>)
    ensures !DecodePeers(s).Ok? ==> DecodePeers(s) == Err(BufferTooSmall)
    ensures DecodePeers(s).Ok? ==>
              var (ps, rest) := DecodePeers(s).value;
              |ps| < TWO_TO_THE_64 && s == EncodePeers(ps) + rest
  {
    hide ParsePeer, FromBigEndian, BigEndian;
    if Take64(s).Ok? {
      Taken64IsWritten(s);
      var (n, body) := Take64(s).value;
      ParsedPeersAreWritten(n, [], body);
      if DecodePeers(s).Ok? {
        var (ps, rest) := DecodePeers(s).value;
        assert ps[0..] == ps;
        PeersThenAppends(ps, rest);
      }
    }
  }

  /** A truncated list is rejected, wherever it is cut. */
  lemma PeerListTruncated(ps: seq<PeerInfo>, k: nat)
    requires |ps| < TWO_TO_THE_64 && k < |EncodePeers(ps)|
    ensures DecodePeers(EncodePeers(ps)[..k]) == Err(BufferTooSmall)
  {
    hide EncodePeers, DecodePeers;
    var whole := EncodePeers(ps);
    var prefix, more := whole[..k], whole[k..];
    PeerListCanonical(prefix);
    if DecodePeers(prefix).Ok? {
      var (ps', rest) := DecodePeers(prefix).value;
      assert whole + [] == EncodePeers(ps') + (rest + more);
      PeerListRoundTrip(ps, []);
      PeerListRoundTrip(ps', rest + more);
    }
  }

  // Where the fields lie.

  lemma AddressLayout(a: Address, rest: seq<byte>)
    ensures var s := AddressThen(a, rest);
            && |s| == 28 + |rest|
            && s[..2] == BigEndian(2, a.family)
            && s[2..4] == BigEndian(2, a.port)
            && s[4..8] == BigEndian(4, a.flowInfo)
            && s[8..24] == a.bytes
            && s[24..28] == BigEndian(4, a.scopeId)
            && s[28..] == rest
  {
    hide BigEndian;
    var s4 := BigEndian(4, a.scopeId) + rest;
    var s3 := a.bytes + s4;
    var s2 := BigEndian(4, a.flowInfo) + s3;
    var s1 := BigEndian(2, a.port) + s2;
    var s := BigEndian(2, a.family) + s1;
    assert s[2..] == s1 && s[4..] == s2 && s[8..] == s3 && s[24..] == s4;
    assert s[2..4] == s1[..2] && s[4..8] == s2[..4] && s[8..24] == s3[..16] && s[24..28] == s4[..4];
  }

  lemma {:induction false} PeersAt(ps: seq<PeerInfo>, i: nat)
    requires i <= |ps|
    ensures 36 * i <= |PeersThen(ps, [])| && PeersThen(ps, [])[36 * i..] == PeersThen(ps[i..], [])
    ensures |PeersThen(ps[i..], [])| == 36 * (|ps| - i)
  {
    hide BigEndian, AddressThen;
    PeersThenAppends(ps, []);
    PeersThenAppends(ps[i..], []);
    if i == 0 {
      assert ps[0..] == ps;
    } else {
      PeersAt(ps[1..], i - 1);
      assert ps[1..][i - 1..] == ps[i..];
      var p, after := ps[0], PeersThen(ps[1..], []);
      var time := BigEndian(8, ToUnsigned(p.lastConnected));
      AddressThenAppends(p.address, time + after);
      assert PeersThen(ps, [])[36..] == after;
      assert PeersThen(ps, [])[36 * i..] == after[36 * (i - 1)..];
    }
  }

  /** In a serialized list, peer `i` takes the 36 bytes from `8 + 36 * i`: its address, then its time. */
  lemma PeerListLayout(ps: seq<PeerInfo>, i: nat)
    requires i < |ps| < TWO_TO_THE_64
    ensures var s := EncodePeers(ps);
            && |s| == 8 + 36 * |ps|
            && s[..8] == BigEndian(8, |ps|)
            && s[8 + 36 * i..36 + 36 * i] == AddressThen(ps[i].address, [])
            && s[36 + 36 * i..44 + 36 * i] == BigEndian(8, ToUnsigned(ps[i].lastConnected))
  {
    hide BigEndian, AddressThen;
    PeersThenAppends(ps, []);
    PeersAt(ps, i);
    var s, tail, p := EncodePeers(ps), PeersThen(ps[i..], []), ps[i];
    var time := BigEndian(8, ToUnsigned(p.lastConnected));
    var after := PeersThen(ps[i..][1..], []);
    AddressThenAppends(p.address, time + after);
    assert tail == AddressThen(p.address, []) + (time + after);
    assert s[8 + 36 * i..] == PeersThen(ps, [])[36 * i..] == tail;
    assert s[8 + 36 * i..36 + 36 * i] == tail[..28] && s[36 + 36 * i..44 + 36 * i] == tail[28..36];
  }
}
