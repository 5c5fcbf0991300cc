/** Sockets that transfer arbitrary fragments, the loops over them, and the framing (src/networking.c). */
module Connections {
  import opened Bytes
  import opened Commands
  import Ledger
  import Peers
  import opened ReturnCodes

  /** The next command in a stream, with the bytes after it, whatever the fragments. */
  function NextCommand(expected: uint32, stream: seq<byte>): Result<(seq<byte>, seq<byte>)> {
    if |stream| < HEADER_LENGTH then
      Err(NetworkFunction)
    else
      var (h, _) :- ParseHeaderOf(expected, stream[..HEADER_LENGTH]);
      if |stream| < HEADER_LENGTH + h.commandLen then
        Err(NetworkFunction)
      else
        Ok((stream[..HEADER_LENGTH + h.commandLen], stream[HEADER_LENGTH + h.commandLen..]))
  }

  /** One end of a stream. The `k`-th call of `recv` or `send` fails when `transfer(k)` is negative, and
      otherwise moves at least one byte and at most `transfer(k)`. A receive with no bytes to come fails. */
  class Connection {
    const transfer: nat -> int
    var incoming: seq<byte>
    var sent: seq<byte>
    var calls: nat

    constructor (transfer: nat -> int, incoming: seq<byte>)
      ensures this.transfer == transfer && this.incoming == incoming && sent == [] && calls == 0
    {
      this.transfer, this.incoming, sent, calls := transfer, incoming, [], 0;
    }

    ghost predicate Reliable() {
      forall k :: transfer(k) >= 0
    }

    method Recv(max: nat) returns (n: int, data: seq<byte>)
      requires max > 0
      modifies this
      ensures n < 0 ==> incoming == old(incoming) && (incoming == [] || !Reliable())
      ensures n >= 0 ==> 1 <= n <= max && |data| == n && old(incoming) == data + incoming
      ensures sent == old(sent)
    {
      n, data := transfer(calls), [];
      calls := calls + 1;
      if n < 0 || incoming == [] {
        return -1, [];
      }
      n := if n < 1 then 1 else if n > max then max else n;
      n := if n > |incoming| then |incoming| else n;
      data, incoming := incoming[..n], incoming[n..];
    }

    method Send(data: seq<byte>) returns (n: int)
      requires data != []
      modifies this
      ensures n < 0 ==> sent == old(sent) && !Reliable()
      ensures n >= 0 ==> 1 <= n <= |data| && sent == old(sent) + data[..n]
      ensures incoming == old(incoming)
    {
      n := transfer(calls);
      calls := calls + 1;
      if n >= 0 {
        n := if n < 1 then 1 else if n > |data| then |data| else n;
        sent := sent + data[..n];
      }
    }

    /** `recv_all`: exactly `len` bytes, however they are cut into reads. */
    method RecvAll(len: nat) returns (r: Result<seq<byte>>)
      modifies this
      ensures r.Ok? ==> |r.value| == len && old(incoming) == r.value + incoming
      ensures !r.Ok? ==> r == Err(NetworkFunction)
      ensures Reliable() ==> (r.Ok? <==> len <= |old(incoming)|)
      ensures sent == old(sent)
    {
      var received: seq<byte> := [];
      while |received| != len
        invariant |received| <= len
        invariant old(incoming) == received + incoming
        invariant sent == old(sent)
        decreases len - |received|
      {
        var n, data := Recv(len - |received|);
        if n < 0 {
          return Err(NetworkFunction);
        }
        assert received + (data + incoming) == (received + data) + incoming;
        received := received + data;
      }
      r := Ok(received);
    }

    /** `send_all`: exactly the buffer, however it is cut into writes. */
    method SendAll(buffer: seq<byte>) returns (code: ReturnCode)
      modifies this
      ensures code == Success ==> sent == old(sent) + buffer
      ensures code != Success ==> code == NetworkFunction && !Reliable()
      ensures code != Success ==> exists n :: 0 <= n < |buffer| && sent == old(sent) + buffer[..n]
      ensures incoming == old(incoming)
    {
      var total := 0;
      while total != |buffer|
        invariant 0 <= total <= |buffer|
        invariant sent == old(sent) + buffer[..total]
        invariant incoming == old(incoming)
        decreases |buffer| - total
      {
        var n := Send(buffer[total..]);
        if n < 0 {
          return NetworkFunction;
        }
        assert buffer[..total] + buffer[total..][..n] == buffer[..total + n];
        total := total + n;
      }
      code := Success;
    }

    /** Receives a header, rejects an unexpected command, and receives the payload it announces.
        The header is returned with the payload after it. */
    method ReceiveCommand(expected: uint32) returns (r: Result<seq<byte>>)
      modifies this
      ensures r.Ok? ==> NextCommand(expected, old(incoming)) == Ok((r.value, incoming))
      ensures r.IsFailure() ==>
                || r == Err(NetworkFunction)
                || NextCommand(expected, old(incoming)) == r.PropagateFailure<(seq<byte>, seq<byte>)>()
      ensures Reliable() && r.IsFailure() ==>
                NextCommand(expected, old(incoming)) == r.PropagateFailure<(seq<byte>, seq<byte>)>()
      ensures sent == old(sent)
    {
      hide ParseHeader;
      var headerBuffer :- RecvAll(HEADER_LENGTH);
      assert headerBuffer == old(incoming)[..HEADER_LENGTH];
      var header :- DeserializeHeader(headerBuffer);
      if header.command != expected {
        return Err(InvalidCommand);
      }
      var payload :- RecvAll(header.commandLen);
      r := Ok(headerBuffer + payload);
      assert old(incoming) == r.value + incoming;
    }
  }

  /** `frame` is one serialized command: a header with the payload it announces. */
  predicate IsFrame(command: uint32, frame: seq<byte>) {
    && ParseHeader(frame).Ok?
    && ParseHeader(frame).value.0.command == command
    && |frame| == HEADER_LENGTH + ParseHeader(frame).value.0.commandLen
  }

  lemma RegisterPeerIsFrame(address: Peers.Address)
    ensures IsFrame(COMMAND_REGISTER_PEER, EncodeRegisterPeer(address))
  {
    hide BigEndian, ParseHeader, Peers.AddressThen;
    var h := CommandHeader(COMMAND_PREFIX, COMMAND_REGISTER_PEER, REGISTER_PEER_LENGTH);
    var payload := Peers.AddressThen(address, Ledger.Zeros(REGISTER_PEER_PADDING));
    Peers.AddressThenAppends(address, Ledger.Zeros(REGISTER_PEER_PADDING));
    HeaderThenAppends(h, payload);
    HeaderRoundTrip(h, payload);
  }

  lemma SendDataIsFrame(command: uint32, data: seq<byte>)
    requires |data| <= MAX_ALLOCATION
    ensures IsFrame(command, EncodeSendData(command, data))
  {
    hide BigEndian, ParseHeader;
    var h := CommandHeader(COMMAND_PREFIX, command, 8 + |data|);
    HeaderThenAppends(h, BigEndian(8, |data|) + data);
    HeaderRoundTrip(h, BigEndian(8, |data|) + data);
  }

  /** A receiver takes exactly the first frame, and leaves everything after it. */
  lemma FrameIsNextCommand(command: uint32, expected: uint32, frame: seq<byte>, rest: seq<byte>)
    requires IsFrame(command, frame)
    ensures NextCommand(expected, frame + rest) ==
            if command == expected then Ok((frame, rest)) else Err(InvalidCommand)
  {
    hide ParseHeader;
    var (h, body) := ParseHeader(frame).value;
    ParsedHeaderIsWritten(frame);
    HeaderThenAppends(h, body);
    assert (frame + rest)[..HEADER_LENGTH] == HeaderThen(h, []);
    HeaderRoundTrip(h, []);
    assert (frame + rest)[..|frame|] == frame && (frame + rest)[|frame|..] == rest;
  }

  /** Of a frame cut short no command is received. */
  lemma TruncatedFrame(command: uint32, expected: uint32, frame: seq<byte>, k: nat)
    requires IsFrame(command, frame) && k < |frame|
    ensures NextCommand(expected, frame[..k]).IsFailure()
  {
    hide ParseHeader;
    if k >= HEADER_LENGTH {
      var (h, body) := ParseHeader(frame).value;
      ParsedHeaderIsWritten(frame);
      HeaderThenAppends(h, body);
      assert frame[..k][..HEADER_LENGTH] == HeaderThen(h, []);
      HeaderRoundTrip(h, []);
    }
  }

  /** Exactly the streams that begin with a frame of the right kind yield a command, and which that is. */
  lemma CommandsAreFrames(expected: uint32, stream: seq<byte>, frame: seq<byte>, rest: seq<byte>)
    ensures NextCommand(expected, stream) == Ok((frame, rest)) <==> IsFrame(expected, frame) && stream == frame + rest
  {
    hide ParseHeader;
    if IsFrame(expected, frame) && stream == frame + rest {
      FrameIsNextCommand(expected, expected, frame, rest);
    }
    if NextCommand(expected, stream) == Ok((frame, rest)) {
      var head := stream[..HEADER_LENGTH];
      var (h, none) := ParseHeader(head).value;
      ParsedHeaderIsWritten(head);
      HeaderThenAppends(h, none);
      assert none == [];
      assert frame == head + frame[HEADER_LENGTH..];
      HeaderThenAppends(h, frame[HEADER_LENGTH..]);
      HeaderRoundTrip(h, frame[HEADER_LENGTH..]);
    }
  }

  /** Why the others yield none: they end too early, or the header is refused. */
  lemma NoCommand(expected: uint32, stream: seq<byte>)
    ensures |stream| < 16 ==> NextCommand(expected, stream) == Err(NetworkFunction)
    ensures |stream| >= 16 && stream[..4] != [76, 69, 79, 0] ==>
              NextCommand(expected, stream) == Err(InvalidCommandPrefix)
    ensures |stream| >= 16 && stream[..4] == [76, 69, 79, 0] && FromBigEndian(stream[4..8]) != expected ==>
              NextCommand(expected, stream) == Err(InvalidCommand)
    ensures |stream| >= 16 && stream[..4] == [76, 69, 79, 0] && FromBigEndian(stream[4..8]) == expected
            && |stream| < 16 + FromBigEndian(stream[8..16]) ==>
              NextCommand(expected, stream) == Err(NetworkFunction)
  {
    hide ParseHeader, FromBigEndian;
    if |stream| >= 16 {
      HeaderInFull(stream[..16]);
      assert stream[..16][..4] == stream[..4] && stream[..16][4..8] == stream[4..8];
      assert stream[..16][8..16] == stream[8..16];
    }
  }

  lemma FrameCode(command: uint32, frame: seq<byte>)
    requires IsFrame(command, frame)
    ensures |frame| >= 16 && frame[..4] == [76, 69, 79, 0] && frame[4..8] == BigEndian(4, command)
  {
    hide BigEndian, ParseHeader;
    var (h, body) := ParseHeader(frame).value;
    ParsedHeaderIsWritten(frame);
    HeaderLayout(h, body);
  }

  /** `frame` is a command of the given kind, whose payload begins with a length and that much `data`. */
  predicate CarriesData(command: uint32, frame: seq<byte>, data: seq<byte>) {
    && IsFrame(command, frame)
    && |data| <= MAX_ALLOCATION
    && 24 + |data| <= |frame|
    && FromBigEndian(frame[16..24]) == |data|
    && frame[24..24 + |data|] == data
  }

  lemma DataIsCarried(command: uint32, frame: seq<byte>, data: seq<byte>)
    requires IsFrame(command, frame)
    ensures ParseSendData(command, frame).Ok? && ParseSendData(command, frame).value.data == data <==>
            CarriesData(command, frame, data)
  {
    hide FromBigEndian, ParseSendData, ParseHeader;
    HeaderInFull(frame);
    SendDataInFull(command, frame);
    if |frame| >= 24 {
      MachineIntegerCodec(0, frame[16..24]);
    }
  }

  function Concatenate(frames: seq<seq<byte>>): seq<byte> {
    if frames == [] then [] else frames[0] + Concatenate(frames[1..])
  }

  /** The next commands in a stream, one of each kind in turn. */
  function NextCommands(kinds: seq<uint32>, stream: seq<byte>): Result<(seq<seq<byte>>, seq<byte>)> {
    if kinds == [] then
      Ok(([], stream))
    else
      var (frame, after) :- NextCommand(kinds[0], stream);
      var (frames, rest) :- NextCommands(kinds[1..], after);
      Ok(([frame] + frames, rest))
  }

  /** A stream of serialized commands is received command by command. */
  lemma {:induction false} StreamOfFrames(kinds: seq<uint32>, frames: seq<seq<byte>>, rest: seq<byte>)
    requires |kinds| == |frames| && forall i :: 0 <= i < |frames| ==> IsFrame(kinds[i], frames[i])
    ensures NextCommands(kinds, Concatenate(frames) + rest) == Ok((frames, rest))
  {
    hide IsFrame, NextCommand;
    if frames == [] {
      assert Concatenate(frames) + rest == rest;
    } else {
      var after := Concatenate(frames[1..]) + rest;
      assert Concatenate(frames) + rest == frames[0] + after;
      FrameIsNextCommand(kinds[0], kinds[0], frames[0], after);
      StreamOfFrames(kinds[1..], frames[1..], rest);
      assert [frames[0]] + frames[1..] == frames;
    }
  }
}
