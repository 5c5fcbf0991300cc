/** Bounds-checked reads through an advancing pointer, the step all deserializers share. */
module Cursor {
  import opened Bytes
  import opened ReturnCodes

  /** The next `n` bytes of the unread input `s`, with what remains unread. */
  function Take(n: nat, s: seq<byte>): Result<(seq<byte>, seq<byte>)> {
    if n > |s| then Err(BufferTooSmall) else Ok((s[..n], s[n..]))
  }

  function Take16(s: seq<byte>): (r: Result<(uint16, seq<byte>)>)
    ensures !r.Ok? ==> r == Err(BufferTooSmall)
  {
    var (field, rest) :- Take(2, s);
    MachineIntegerCodec(0, field);
    Ok((FromBigEndian(field), rest))
  }

  function Take32(s: seq<byte>): (r: Result<(uint32, seq<byte>)>)
    ensures !r.Ok? ==> r == Err(BufferTooSmall)
  {
    var (field, rest) :- Take(4, s);
    MachineIntegerCodec(0, field);
    Ok((FromBigEndian(field), rest))
  }

  function Take64(s: seq<byte>): (r: Result<(uint64, seq<byte>)>)
    ensures !r.Ok? ==> r == Err(BufferTooSmall)
  {
    var (field, rest) :- Take(8, s);
    MachineIntegerCodec(0, field);
    Ok((FromBigEndian(field), rest))
  }

  lemma TakeWritten(a: seq<byte>, rest: seq<byte>)
    ensures Take(|a|, a + rest) == Ok((a, rest))
  {
  }

  lemma Take16Written(v: uint16, rest: seq<byte>)
    ensures Take16(BigEndian(2, v) + rest) == Ok((v, rest))
  {
    TakeWritten(BigEndian(2, v), rest);
    MachineIntegerCodec(v, []);
  }

  lemma Take32Written(v: uint32, rest: seq<byte>)
    ensures Take32(BigEndian(4, v) + rest) == Ok((v, rest))
  {
    TakeWritten(BigEndian(4, v), rest);
    MachineIntegerCodec(v, []);
  }

  lemma Take64Written(v: uint64, rest: seq<byte>)
    ensures Take64(BigEndian(8, v) + rest) == Ok((v, rest))
  {
    TakeWritten(BigEndian(8, v), rest);
    MachineIntegerCodec(v, []);
  }

  lemma TakenIsWritten(n: nat, s: seq<byte>)
    requires Take(n, s).Ok?
    ensures var (field, rest) := Take(n, s).value; |field| == n && s == field + rest
  {
  }

  lemma Taken16IsWritten(s: seq<byte>)
    requires Take16(s).Ok?
    ensures var (v, rest) := Take16(s).value; s == BigEndian(2, v) + rest
  {
    TakenIsWritten(2, s);
    MachineIntegerCodec(0, s[..2]);
  }

  lemma Taken32IsWritten(s: seq<byte>)
    requires Take32(s).Ok?
    ensures var (v, rest) := Take32(s).value; s == BigEndian(4, v) + rest
  {
    TakenIsWritten(4, s);
    MachineIntegerCodec(0, s[..4]);
  }

  lemma Taken64IsWritten(s: seq<byte>)
    requires Take64(s).Ok?
    ensures var (v, rest) := Take64(s).value; s == BigEndian(8, v) + rest
  {
    TakenIsWritten(8, s);
    MachineIntegerCodec(0, s[..8]);
  }

  /** One guarded read of `n` bytes at `next`. */
  method ReadBytes(buffer: seq<byte>, next: nat, n: nat) returns (r: Result<seq<byte>>)
    requires next <= |buffer|
    ensures r.Ok? ==> next + n <= |buffer| && Take(n, buffer[next..]) == Ok((r.value, buffer[next + n..]))
    ensures !r.Ok? ==> r == Err(BufferTooSmall) && Take(n, buffer[next..]) == Err(BufferTooSmall)
  {
    var totalReadSize := next + n;
    if totalReadSize > |buffer| {
      return Err(BufferTooSmall);
    }
    r := Ok(buffer[next..next + n]);
    assert buffer[next..][..n] == buffer[next..next + n] && buffer[next..][n..] == buffer[next + n..];
  }

  method Read16(buffer: seq<byte>, next: nat) returns (r: Result<uint16>)
    requires next <= |buffer|
    ensures r.Ok? ==> next + 2 <= |buffer| && Take16(buffer[next..]) == Ok((r.value, buffer[next + 2..]))
    ensures !r.Ok? ==> r == Err(BufferTooSmall) && Take16(buffer[next..]) == Err(BufferTooSmall)
  {
    var field :- ReadBytes(buffer, next, 2);
    MachineIntegerCodec(0, field);
    r := Ok(FromBigEndian(field));
  }

  method Read32(buffer: seq<byte>, next: nat) returns (r: Result<uint32>)
    requires next <= |buffer|
    ensures r.Ok? ==> next + 4 <= |buffer| && Take32(buffer[next..]) == Ok((r.value, buffer[next + 4..]))
    ensures !r.Ok? ==> r == Err(BufferTooSmall) && Take32(buffer[next..]) == Err(BufferTooSmall)
  {
    var field :- ReadBytes(buffer, next, 4);
    MachineIntegerCodec(0, field);
    r := Ok(FromBigEndian(field));
  }

  method Read64(buffer: seq<byte>, next: nat) returns (r: Result<uint64>)
    requires next <= |buffer|
    ensures r.Ok? ==> next + 8 <= |buffer| && Take64(buffer[next..]) == Ok((r.value, buffer[next + 8..]))
    ensures !r.Ok? ==> r == Err(BufferTooSmall) && Take64(buffer[next..]) == Err(BufferTooSmall)
  {
    var field :- ReadBytes(buffer, next, 8);
    var value := BigEndianToHost64(field);
    r := Ok(value);
  }
}
