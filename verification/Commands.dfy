/** The command header and the three commands that travel under it (src/networking.c). */
module Commands {
  import opened Bytes
  import opened Cursor
  import opened Ledger
  import opened Peers
  import opened ReturnCodes

  const COMMAND_PREFIX: seq<byte> := [76, 69, 79, 0]  // "LEO\0"
  const COMMAND_REGISTER_PEER: uint32 := 2
  const COMMAND_SEND_PEER_LIST: uint32 := 3
  const COMMAND_SEND_BLOCKCHAIN: uint32 := 4

  const HEADER_LENGTH := 16
  /** `sizeof(command_register_peer_t) - sizeof(command_header_t)`: the address and four bytes of padding. */
  const REGISTER_PEER_LENGTH := 32
  const REGISTER_PEER_PADDING := 4
  /** No allocation is larger. */
  const MAX_ALLOCATION := TWO_TO_THE_63 - 1

  type Prefix = s: seq<byte> | |s| == 4 witness COMMAND_PREFIX

  datatype CommandHeader = CommandHeader(prefix: Prefix, command: uint32, commandLen: uint64)

  datatype RegisterPeer = RegisterPeer(header: CommandHeader, address: Address)

  /** `command_send_peer_list_t` and `command_send_blockchain_t`, which differ only in the command code. */
  datatype SendData = SendData(header: CommandHeader, data: seq<byte>)

  function HeaderThen(h: CommandHeader, rest: seq<byte>): seq<byte> {
    h.prefix + (BigEndian(4, h.command) + (BigEndian(8, h.commandLen) + rest))
  }

  function ParseHeader(s0: seq<byte>): Result<(CommandHeader, seq<byte>)> {
    var (prefix, s1) :- Take(4, s0);
    if prefix != COMMAND_PREFIX then
      Err(InvalidCommandPrefix)
    else
      var (command, s2) :- Take32(s1);
      var (commandLen, s3) :- Take64(s2);
      Ok((CommandHeader(prefix, command, commandLen), s3))
  }

  /** A header whose command is the expected one. */
  function ParseHeaderOf(expected: uint32, s: seq<byte>): Result<(CommandHeader, seq<byte>)> {
    var (h, body) :- ParseHeader(s);
    if h.command != expected then Err(InvalidCommand) else Ok((h, body))
  }

  function ParseRegisterPeer(s: seq<byte>): Result<RegisterPeer> {
    var (h, body) :- ParseHeaderOf(COMMAND_REGISTER_PEER, s);
    var (address, _) :- ParseAddress(body);
    Ok(RegisterPeer(h, address))
  }

  lemma HeaderThenAppends(h: CommandHeader, rest: seq<byte>)
    ensures HeaderThen(h, rest) == HeaderThen(h, []) + rest
    ensures |HeaderThen(h, [])| == HEADER_LENGTH
  {
    hide BigEndian;
  }

  lemma ParsedHeaderIsWritten(s: seq<byte>)
    requires ParseHeader(s).Ok?
    ensures var (h, rest) := ParseHeader(s).value; h.prefix == COMMAND_PREFIX && s == HeaderThen(h, rest)
  {
    hide BigEndian, FromBigEndian, Take32, Take64;
    TakenIsWritten(4, s);
    var s1 := s[4..];
    Taken32IsWritten(s1);
    Taken64IsWritten(Take32(s1).value.1);
  }

  /** The bytes needed are counted modulo two to the 64, as the source counts them. */
  function ParseSendData(expected: uint32, s: seq<byte>): Result<SendData> {
    var (h, body) :- ParseHeaderOf(expected, s);
    var (dataLen, rest) :- Take64(body);
    if (HEADER_LENGTH + 8 + dataLen) % TWO_TO_THE_64 > |s| then
      Err(BufferTooSmall)
    else if dataLen > MAX_ALLOCATION then
      Err(CouldNotMalloc)
    else
      ParsedHeaderIsWritten(s);
      HeaderThenAppends(h, body);
      TakenIsWritten(8, body);
      Ok(SendData(h, rest[..dataLen]))
  }

  /** The wire form of a register-peer command for `address`. */
  function EncodeRegisterPeer(address: Address): seq<byte> {
    HeaderThen(CommandHeader(COMMAND_PREFIX, COMMAND_REGISTER_PEER, REGISTER_PEER_LENGTH),
               AddressThen(address, Zeros(REGISTER_PEER_PADDING)))
  }

  /** The wire form of a command that carries `data`. */
  function EncodeSendData(command: uint32, data: seq<byte>): seq<byte>
    requires |data| <= MAX_ALLOCATION
  {
    HeaderThen(CommandHeader(COMMAND_PREFIX, command, 8 + |data|), BigEndian(8, |data|) + data)
  }

  method SerializeHeader(h: CommandHeader) returns (r: Result<seq<byte>>)
    ensures r == if h.prefix == COMMAND_PREFIX then Ok(HeaderThen(h, [])) else Err(InvalidCommandPrefix)
  {
    hide BigEndian;
    var buffer: seq<byte> := [];
    for idx := 0 to |COMMAND_PREFIX|
      invariant buffer == h.prefix[..idx] == COMMAND_PREFIX[..idx]
    {
      if h.prefix[idx] != COMMAND_PREFIX[idx] {
        return Err(InvalidCommandPrefix);
      }
      buffer := buffer + [h.prefix[idx]];
    }
    buffer := buffer + BigEndian(4, h.command);
    var commandLen := HostToBigEndian64(h.commandLen);
    buffer := buffer + commandLen;
    assert h.prefix == h.prefix[..4] == COMMAND_PREFIX[..4] == COMMAND_PREFIX;
    assert HeaderThen(h, []) == h.prefix + BigEndian(4, h.command) + BigEndian(8, h.commandLen);
    r := Ok(buffer);
  }

  method DeserializeHeader(buffer: seq<byte>) returns (r: Result<CommandHeader>)
    ensures r.Ok? ==> |buffer| >= HEADER_LENGTH && ParseHeader(buffer) == Ok((r.value, buffer[HEADER_LENGTH..]))
    ensures r.IsFailure() ==> ParseHeader(buffer) == r.PropagateFailure<(CommandHeader, seq<byte>)>()
  {
    hide Take32, Take64;
    assert buffer[0..] == buffer;
    var prefix :- ReadBytes(buffer, 0, 4);
    for idx := 0 to |COMMAND_PREFIX|
      invariant prefix[..idx] == COMMAND_PREFIX[..idx]
    {
      if prefix[idx] != COMMAND_PREFIX[idx] {
        return Err(InvalidCommandPrefix);
      }
    }
    assert prefix == prefix[..4] == COMMAND_PREFIX[..4] == COMMAND_PREFIX;
    var command :- Read32(buffer, 4);
    var commandLen :- Read64(buffer, 8);
    r := Ok(CommandHeader(prefix, command, commandLen));
  }

  /** Fills in the payload length, and puts the header in front of the payload. */
  method SerializeRegisterPeer(c: RegisterPeer) returns (r: Result<seq<byte>>, header: CommandHeader)
    ensures c.header.command == COMMAND_REGISTER_PEER ==> header == c.header.(commandLen := REGISTER_PEER_LENGTH)
    ensures r ==
            if c.header.command != COMMAND_REGISTER_PEER then Err(InvalidCommand)
            else if c.header.prefix != COMMAND_PREFIX then Err(InvalidCommandPrefix)
            else Ok(EncodeRegisterPeer(c.address))
  {
    hide BigEndian, AddressThen;
    header := c.header;
    if header.command != COMMAND_REGISTER_PEER {
      return Err(InvalidCommand), header;
    }
    var address := SerializeAddress(c.address);
    var registerPeerBuffer := address + Zeros(REGISTER_PEER_PADDING);
    header := header.(commandLen := REGISTER_PEER_LENGTH);
    var headerBuffer := SerializeHeader(header);
    if headerBuffer.IsFailure() {
      return headerBuffer, header;
    }
    AddressThenAppends(c.address, Zeros(REGISTER_PEER_PADDING));
    HeaderThenAppends(header, registerPeerBuffer);
    r := Ok(headerBuffer.value + registerPeerBuffer);
  }

  method DeserializeRegisterPeer(buffer: seq<byte>) returns (r: Result<RegisterPeer>)
    ensures r == ParseRegisterPeer(buffer)
  {
    hide ParseHeader, ParseAddress;
    var header :- DeserializeHeader(buffer);
    if header.command != COMMAND_REGISTER_PEER {
      return Err(InvalidCommand);
    }
    var address :- DeserializeAddress(buffer, HEADER_LENGTH);
    r := Ok(RegisterPeer(header, address));
  }

  method SerializeSendData(expected: uint32, c: SendData) returns (r: Result<seq<byte>>, header: CommandHeader)
    requires |c.data| <= MAX_ALLOCATION
    ensures c.header.command == expected ==> header == c.header.(commandLen := 8 + |c.data|)
    ensures r ==
            if c.header.command != expected then Err(InvalidCommand)
            else if c.header.prefix != COMMAND_PREFIX then Err(InvalidCommandPrefix)
            else Ok(EncodeSendData(expected, c.data))
  {
    hide BigEndian;
    header := c.header;
    if header.command != expected {
      return Err(InvalidCommand), header;
    }
    var lengthBuffer := HostToBigEndian64(|c.data|);
    header := header.(commandLen := 8 + |c.data|);
    var headerBuffer := SerializeHeader(header);
    if headerBuffer.IsFailure() {
      return headerBuffer, header;
    }
    HeaderThenAppends(header, lengthBuffer + c.data);
    assert headerBuffer.value + lengthBuffer + c.data == headerBuffer.value + (lengthBuffer + c.data);
    r := Ok(headerBuffer.value + lengthBuffer + c.data);
  }

  method DeserializeSendData(expected: uint32, buffer: seq<byte>) returns (r: Result<SendData>)
    ensures r == ParseSendData(expected, buffer)
  {
    hide ParseHeader, Take64;
    var header :- DeserializeHeader(buffer);
    if header.command != expected {
      return Err(InvalidCommand);
    }
    var next: nat := HEADER_LENGTH;
    var dataLen :- Read64(buffer, next);
    var totalReadSize := (next + 8 + dataLen) % TWO_TO_THE_64;
    next := next + 8;
    if totalReadSize > |buffer| {
      return Err(BufferTooSmall);
    }
    if dataLen > MAX_ALLOCATION {
      return Err(CouldNotMalloc);
    }
    var data := buffer[next..next + dataLen];
    assert data == buffer[next..][..dataLen];
    r := Ok(SendData(header, data));
  }

  lemma HeaderRoundTrip(h: CommandHeader, rest: seq<byte>)
    ensures ParseHeader(HeaderThen(h, rest)) ==
            if h.prefix == COMMAND_PREFIX then Ok((h, rest)) else Err(InvalidCommandPrefix)
  {
    hide BigEndian, FromBigEndian, Take32, Take64;
    var s2 := BigEndian(8, h.commandLen) + rest;
    var s1 := BigEndian(4, h.command) + s2;
    TakeWritten(h.prefix, s1);
    Take32Written(h.command, s2);
    Take64Written(h.commandLen, rest);
  }

  /** The register-peer codec: the round trip, the announced length, and no confusion with other commands. */
  lemma RegisterPeerRoundTrip(a: Address, rest: seq<byte>, other: uint32)
    requires other != COMMAND_REGISTER_PEER
    ensures var s := EncodeRegisterPeer(a);
            var h := CommandHeader(COMMAND_PREFIX, COMMAND_REGISTER_PEER, |s| - HEADER_LENGTH);
            && ParseRegisterPeer(s + rest) == Ok(RegisterPeer(h, a))
            && ParseSendData(other, s + rest) == Err(InvalidCommand)
  {
    hide BigEndian, ParseHeader, ParseAddress, AddressThen;
    var h := CommandHeader(COMMAND_PREFIX, COMMAND_REGISTER_PEER, REGISTER_PEER_LENGTH);
    var padding := Zeros(REGISTER_PEER_PADDING);
    AddressThenAppends(a, padding);
    AddressThenAppends(a, padding + rest);
    HeaderThenAppends(h, AddressThen(a, padding));
    HeaderThenAppends(h, AddressThen(a, padding + rest));
    assert EncodeRegisterPeer(a) + rest == HeaderThen(h, AddressThen(a, padding + rest));
    HeaderRoundTrip(h, AddressThen(a, padding + rest));
    AddressRoundTrip(a, padding + rest);
  }

  /** The codec of a command that carries data, likewise. */
  lemma SendDataRoundTrip(command: uint32, data: seq<byte>, rest: seq<byte>, other: uint32)
    requires |data| <= MAX_ALLOCATION
    requires other != command
    ensures var s := EncodeSendData(command, data);
            var h := CommandHeader(COMMAND_PREFIX, command, |s| - HEADER_LENGTH);
            && ParseSendData(command, s + rest) == Ok(SendData(h, data))
            && ParseSendData(other, s + rest) == Err(InvalidCommand)
            && (command != COMMAND_REGISTER_PEER ==> ParseRegisterPeer(s + rest) == Err(InvalidCommand))
  {
    hide BigEndian, ParseHeader, Take64;
    var h := CommandHeader(COMMAND_PREFIX, command, 8 + |data|);
    var body := BigEndian(8, |data|) + (data + rest);
    HeaderThenAppends(h, BigEndian(8, |data|) + data);
    HeaderThenAppends(h, body);
    assert BigEndian(8, |data|) + data + rest == body;
    assert EncodeSendData(command, data) + rest == HeaderThen(h, body);
    HeaderRoundTrip(h, body);
    Take64Written(|data|, data + rest);
    assert (data + rest)[..|data|] == data;
  }

  /** An accepted command is, byte for byte, its header, the length of its data, the data, and ignored bytes. */
  lemma SendDataCanonical(expected: uint32, s: seq<byte>)
    requires ParseSendData(expected, s).Ok?
    ensures var c := ParseSendData(expected, s).value;
            && c.header.prefix == COMMAND_PREFIX && c.header.command == expected && |c.data| <= MAX_ALLOCATION
            && exists rest :: s == HeaderThen(c.header, BigEndian(8, |c.data|) + (c.data + rest))
  {
    hide BigEndian, FromBigEndian, ParseHeader, Take64;
    ParsedHeaderIsWritten(s);
    var (h, body) := ParseHeader(s).value;
    HeaderThenAppends(h, body);
    Taken64IsWritten(body);
    var (n, rest) := Take64(body).value;
    assert rest == rest[..n] + rest[n..];
    assert s == HeaderThen(h, BigEndian(8, n) + (rest[..n] + rest[n..]));
  }

  // Where the fields lie, and exactly what is accepted.

  lemma HeaderLayout(h: CommandHeader, rest: seq<byte>)
    ensures var s := HeaderThen(h, rest);
            && |s| == 16 + |rest|
            && s[..4] == h.prefix
            && s[4..8] == BigEndian(4, h.command)
            && s[8..16] == BigEndian(8, h.commandLen)
            && s[16..] == rest
  {
    hide BigEndian;
    var s2 := BigEndian(8, h.commandLen) + rest;
    var s1 := BigEndian(4, h.command) + s2;
    var s := h.prefix + s1;
    assert s[4..] == s1 && s[8..] == s2;
    assert s[4..8] == s1[..4] && s[8..16] == s2[..8];
  }

  lemma CodesOnTheWire()
    ensures BigEndian(4, COMMAND_REGISTER_PEER) == [0, 0, 0, 2]
    ensures BigEndian(4, COMMAND_SEND_PEER_LIST) == [0, 0, 0, 3]
    ensures BigEndian(4, COMMAND_SEND_BLOCKCHAIN) == [0, 0, 0, 4]
    ensures BigEndian(8, REGISTER_PEER_LENGTH) == [0, 0, 0, 0, 0, 0, 0, 32]
  {
    BigEndianUnrolled(REGISTER_PEER_LENGTH);
  }

  /** A register-peer command is 48 bytes: "LEO", zero, the code 2, the length 32, the address, four zeros. */
  lemma RegisterPeerLayout(a: Address)
    ensures var s := EncodeRegisterPeer(a);
            && |s| == 48
            && s[..16] == [76, 69, 79, 0, 0, 0, 0, 2, 0, 0, 0, 0, 0, 0, 0, 32]
            && s[16..44] == AddressThen(a, [])
            && s[44..] == [0, 0, 0, 0]
  {
    hide BigEndian, AddressThen;
    var s, body := EncodeRegisterPeer(a), AddressThen(a, Zeros(4));
    CodesOnTheWire();
    AddressThenAppends(a, Zeros(4));
    HeaderLayout(CommandHeader(COMMAND_PREFIX, COMMAND_REGISTER_PEER, REGISTER_PEER_LENGTH), body);
    assert s[..16] == s[..4] + s[4..8] + s[8..16];
    assert s[16..44] == s[16..][..28] && s[44..] == s[16..][28..];
  }

  /** A command that carries data: the prefix, the code, the payload's length, the data's length, the data. */
  lemma SendDataLayout(command: uint32, data: seq<byte>)
    requires |data| <= MAX_ALLOCATION
    ensures var s := EncodeSendData(command, data);
            && |s| == 24 + |data|
            && s[..4] == [76, 69, 79, 0]
            && s[4..8] == BigEndian(4, command)
            && s[8..16] == BigEndian(8, 8 + |data|)
            && s[16..24] == BigEndian(8, |data|)
            && s[24..] == data
  {
    hide BigEndian;
    var s, body := EncodeSendData(command, data), BigEndian(8, |data|) + data;
    HeaderLayout(CommandHeader(COMMAND_PREFIX, command, 8 + |data|), body);
    assert s[16..24] == s[16..][..8] && s[24..] == s[16..][8..];
  }

  /** Which headers are accepted, how they are read, and why the others are refused. */
  lemma HeaderInFull(s: seq<byte>)
    ensures ParseHeader(s).Ok? || ParseHeader(s).Err?
    ensures |s| < 4 ==> ParseHeader(s) == Err(BufferTooSmall)
    ensures |s| >= 4 && s[..4] != [76, 69, 79, 0] ==> ParseHeader(s) == Err(InvalidCommandPrefix)
    ensures 4 <= |s| < 16 && s[..4] == [76, 69, 79, 0] ==> ParseHeader(s) == Err(BufferTooSmall)
    ensures |s| >= 16 && s[..4] == [76, 69, 79, 0] ==>
              && ParseHeader(s).Ok?
              && var (h, body) := ParseHeader(s).value;
                 && h.prefix == s[..4]
                 && h.command == FromBigEndian(s[4..8])
                 && h.commandLen == FromBigEndian(s[8..16])
                 && body == s[16..]
  {
    hide FromBigEndian;
    if |s| >= 16 && s[..4] == COMMAND_PREFIX {
      assert s[4..][..4] == s[4..8] && s[4..][4..] == s[8..] && s[8..][..8] == s[8..16] && s[8..][8..] == s[16..];
    }
  }

  lemma AddressesAreRead(s: seq<byte>)
    ensures ParseAddress(s).Ok? <==> |s| >= 28
  {
    hide FromBigEndian;
  }

  /** A register-peer command is accepted when its header is, with the right code, and an address follows;
      the announced length and what comes after the address do not matter. */
  lemma RegisterPeerInFull(s: seq<byte>)
    ensures ParseRegisterPeer(s).Ok? <==>
            |s| >= 44 && s[..8] == [76, 69, 79, 0, 0, 0, 0, 2]
    ensures ParseRegisterPeer(s).Ok? ==> s[16..44] == AddressThen(ParseRegisterPeer(s).value.address, [])
    ensures ParseHeader(s).Err? ==> ParseRegisterPeer(s) == Err(ParseHeader(s).code)
    ensures ParseHeader(s).Ok? ==>
              (ParseRegisterPeer(s) == Err(InvalidCommand) <==> FromBigEndian(s[4..8]) != 2)
    ensures ParseHeader(s).Ok? && FromBigEndian(s[4..8]) == 2 && |s| < 44 ==>
              ParseRegisterPeer(s) == Err(BufferTooSmall)
  {
    hide BigEndian, FromBigEndian, ParseHeader, ParseAddress, AddressThen;
    HeaderInFull(s);
    CodesOnTheWire();
    if |s| >= 8 {
      assert s[..8] == s[..4] + s[4..8];
      MachineIntegerCodec(2, s[4..8]);
    }
    if |s| >= 16 {
      ParsedAddressIsWritten(s[16..]);
      AddressesAreRead(s[16..]);
      if ParseAddress(s[16..]).Ok? {
        AddressLayout(ParseAddress(s[16..]).value.0, ParseAddress(s[16..]).value.1);
        AddressThenAppends(ParseAddress(s[16..]).value.0, ParseAddress(s[16..]).value.1);
        assert s[16..44] == s[16..][..28];
      }
    }
  }

  /** Which commands that carry data are accepted, how they are read, and why the others are refused. */
  lemma SendDataInFull(expected: uint32, s: seq<byte>)
    ensures ParseHeader(s).Ok? ==> |s| >= 16
    ensures ParseHeader(s).Err? ==> ParseSendData(expected, s) == Err(ParseHeader(s).code)
    ensures ParseHeader(s).Ok? && FromBigEndian(s[4..8]) != expected ==>
              ParseSendData(expected, s) == Err(InvalidCommand)
    ensures ParseHeader(s).Ok? && FromBigEndian(s[4..8]) == expected && |s| < 24 ==>
              ParseSendData(expected, s) == Err(BufferTooSmall)
    ensures ParseHeader(s).Ok? && FromBigEndian(s[4..8]) == expected && |s| >= 24 ==>
              var n := FromBigEndian(s[16..24]);
              if (24 + n) % TWO_TO_THE_64 > |s| then ParseSendData(expected, s) == Err(BufferTooSmall)
              else if n > MAX_ALLOCATION then ParseSendData(expected, s) == Err(CouldNotMalloc)
              else 24 + n <= |s| && ParseSendData(expected, s) == Ok(SendData(ParseHeader(s).value.0, s[24..24 + n]))
  {
    hide FromBigEndian, ParseHeader;
    HeaderInFull(s);
    if |s| >= 24 {
      MachineIntegerCodec(0, s[16..24]);
      assert s[16..][..8] == s[16..24] && s[16..][8..] == s[24..];
      var n := FromBigEndian(s[16..24]);
      if (24 + n) % TWO_TO_THE_64 <= |s| && n <= MAX_ALLOCATION {
        assert s[24..][..n] == s[24..24 + n];
      }
    }
  }
}
