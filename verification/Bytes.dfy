/** Machine integers and the big-endian byte order of every LeoCoin message (src/endian.c). */
module Bytes {
  const TWO_TO_THE_16 := 0x1_0000
  const TWO_TO_THE_32 := 0x1_0000_0000
  const TWO_TO_THE_63 := 0x8000_0000_0000_0000
  const TWO_TO_THE_64 := 0x1_0000_0000_0000_0000

  type byte = x: int | 0 <= x < 256
  type uint16 = x: int | 0 <= x < TWO_TO_THE_16
  type uint32 = x: int | 0 <= x < TWO_TO_THE_32
  type uint64 = x: int | 0 <= x < TWO_TO_THE_64
  /** `time_t` on the platforms the program supports. */
  type int64 = x: int | -TWO_TO_THE_63 <= x < TWO_TO_THE_63

  /** The conversion from a signed to an unsigned 64-bit integer. */
  function ToUnsigned(t: int64): (u: uint64)
    ensures u == if t < 0 then t + TWO_TO_THE_64 else t
  {
    t % TWO_TO_THE_64
  }

  /** The conversion from an unsigned to a signed 64-bit integer. */
  function ToSigned(u: uint64): int64 {
    if u < TWO_TO_THE_63 then u else u - TWO_TO_THE_64
  }

  lemma SignednessRoundTrip(t: int64, u: uint64)
    ensures ToSigned(ToUnsigned(t)) == t
    ensures ToUnsigned(ToSigned(u)) == u
  {
  }

  function Pow256(width: nat): (p: nat)
    ensures p > 0
  {
    if width == 0 then 1 else 256 * Pow256(width - 1)
  }

  /** The `width` low-order bytes of `value`, most significant first. */
  function BigEndian(width: nat, value: nat): (s: seq<byte>)
    ensures |s| == width
  {
    if width == 0 then [] else BigEndian(width - 1, value / 256) + [value % 256]
  }

  /** The number that `s` denotes with its most significant byte first. */
  function FromBigEndian(s: seq<byte>): nat {
    if s == [] then 0 else 256 * FromBigEndian(s[..|s| - 1]) + s[|s| - 1]
  }

  lemma {:induction false} DecodeAfterEncode(width: nat, value: nat)
    requires value < Pow256(width)
    ensures FromBigEndian(BigEndian(width, value)) == value
  {
    if width > 0 {
      DecodeAfterEncode(width - 1, value / 256);
      assert BigEndian(width, value)[..width - 1] == BigEndian(width - 1, value / 256);
    }
  }

  lemma {:induction false} EncodeAfterDecode(s: seq<byte>)
    ensures FromBigEndian(s) < Pow256(|s|)
    ensures BigEndian(|s|, FromBigEndian(s)) == s
  {
    if s != [] {
      EncodeAfterDecode(s[..|s| - 1]);
      assert s == s[..|s| - 1] + [s[|s| - 1]];
    }
  }

  lemma WidthsOfMachineIntegers()
    ensures Pow256(2) == TWO_TO_THE_16 && Pow256(4) == TWO_TO_THE_32 && Pow256(8) == TWO_TO_THE_64
  {
    assert Pow256(2) == 256 * Pow256(1);
    assert Pow256(4) == 256 * (256 * Pow256(2));
    assert Pow256(6) == 256 * (256 * Pow256(4));
    assert Pow256(8) == 256 * (256 * Pow256(6));
  }

  /** Every machine integer survives its own width, and every field of that width is a machine integer. */
  lemma MachineIntegerCodec(value: nat, s: seq<byte>)
    ensures value < TWO_TO_THE_16 ==> FromBigEndian(BigEndian(2, value)) == value
    ensures value < TWO_TO_THE_32 ==> FromBigEndian(BigEndian(4, value)) == value
    ensures value < TWO_TO_THE_64 ==> FromBigEndian(BigEndian(8, value)) == value
    ensures BigEndian(|s|, FromBigEndian(s)) == s
    ensures |s| == 2 ==> FromBigEndian(s) < TWO_TO_THE_16
    ensures |s| == 4 ==> FromBigEndian(s) < TWO_TO_THE_32
    ensures |s| == 8 ==> FromBigEndian(s) < TWO_TO_THE_64
  {
    WidthsOfMachineIntegers();
    EncodeAfterDecode(s);
    if value < TWO_TO_THE_16 { DecodeAfterEncode(2, value); }
    if value < TWO_TO_THE_32 { DecodeAfterEncode(4, value); }
    if value < TWO_TO_THE_64 { DecodeAfterEncode(8, value); }
  }

  /** The chain of divisions by 256 behind the shifts by 8, 16, ..., 56 bits. */
  lemma RepeatedDivision(v: nat)
    ensures v / 256 / 256 == v / 0x1_0000
    ensures v / 0x1_0000 / 256 == v / 0x100_0000
    ensures v / 0x100_0000 / 256 == v / 0x1_0000_0000
    ensures v / 0x1_0000_0000 / 256 == v / 0x100_0000_0000
    ensures v / 0x100_0000_0000 / 256 == v / 0x1_0000_0000_0000
    ensures v / 0x1_0000_0000_0000 / 256 == v / 0x100_0000_0000_0000
  {
  }

  lemma BigEndianAppend(width: nat, value: nat, quotient: nat)
    requires quotient == value / 256
    ensures BigEndian(width + 1, value) == BigEndian(width, quotient) + [value % 256]
  {
  }

  lemma BigEndianUnrolled(v: nat)
    ensures BigEndian(8, v) ==
            [v / 0x100_0000_0000_0000 % 256, v / 0x1_0000_0000_0000 % 256, v / 0x100_0000_0000 % 256,
             v / 0x1_0000_0000 % 256, v / 0x100_0000 % 256, v / 0x1_0000 % 256, v / 0x100 % 256, v % 256]
  {
    RepeatedDivision(v);
    BigEndianAppend(0, v / 0x100_0000_0000_0000, v / 0x100_0000_0000_0000 / 256);
    BigEndianAppend(1, v / 0x1_0000_0000_0000, v / 0x100_0000_0000_0000);
    BigEndianAppend(2, v / 0x100_0000_0000, v / 0x1_0000_0000_0000);
    BigEndianAppend(3, v / 0x1_0000_0000, v / 0x100_0000_0000);
    BigEndianAppend(4, v / 0x100_0000, v / 0x1_0000_0000);
    BigEndianAppend(5, v / 0x1_0000, v / 0x100_0000);
    BigEndianAppend(6, v / 0x100, v / 0x1_0000);
    BigEndianAppend(7, v, v / 0x100);
  }

  /** Byte `i` of the big-endian form is the digit of weight `256^(7 - i)`. */
  lemma BigEndianDigit(value: nat, i: nat)
    requires i < 8
    ensures BigEndian(8, value)[i] == value / Pow256(7 - i) % 256
  {
    BigEndianUnrolled(value);
    assert Pow256(0) == 1 && Pow256(1) == 0x100 && Pow256(2) == 0x1_0000;
    assert Pow256(3) == 0x100_0000 && Pow256(4) == 0x1_0000_0000;
    assert Pow256(5) == 0x100_0000_0000 && Pow256(6) == 0x1_0000_0000_0000;
    assert Pow256(7) == 0x100_0000_0000_0000;
    hide BigEndian, Pow256;
  }

  lemma FromBigEndianStep(p: seq<byte>, k: nat)
    requires k < |p|
    ensures FromBigEndian(p[..k + 1]) == 256 * FromBigEndian(p[..k]) + p[k]
  {
    assert p[..k + 1][..k] == p[..k];
  }

  lemma FromBigEndianUnrolled(p: seq<byte>)
    requires |p| == 8
    ensures FromBigEndian(p) ==
            p[0] as int * 0x100_0000_0000_0000 + p[1] as int * 0x1_0000_0000_0000 + p[2] as int * 0x100_0000_0000 +
            p[3] as int * 0x1_0000_0000 + p[4] as int * 0x100_0000 + p[5] as int * 0x1_0000 + p[6] as int * 0x100 +
            p[7] as int
  {
    assert FromBigEndian(p[..0]) == 0 && p[..8] == p;
    FromBigEndianStep(p, 0);
    FromBigEndianStep(p, 1);
    FromBigEndianStep(p, 2);
    FromBigEndianStep(p, 3);
    FromBigEndianStep(p, 4);
    FromBigEndianStep(p, 5);
    FromBigEndianStep(p, 6);
    FromBigEndianStep(p, 7);
    hide FromBigEndian;
  }

  /** `htobe64`: the eight bytes that storing its result puts in memory, whatever the host's byte order. */
  method HostToBigEndian64(data: uint64) returns (encoded: seq<byte>)
    ensures encoded == BigEndian(8, data)
    ensures FromBigEndian(encoded) == data
  {
    var p := new byte[8];
    p[0] := data / 0x100_0000_0000_0000 % 256;
    p[1] := data / 0x1_0000_0000_0000 % 256;
    p[2] := data / 0x100_0000_0000 % 256;
    p[3] := data / 0x1_0000_0000 % 256;
    p[4] := data / 0x100_0000 % 256;
    p[5] := data / 0x1_0000 % 256;
    p[6] := data / 0x100 % 256;
    p[7] := data % 256;
    encoded := p[..];
    assert encoded == BigEndian(8, data) by { BigEndianUnrolled(data); }
    MachineIntegerCodec(data, []);
  }

  /** `betoh64`: each `|=` sets bits that are still zero, so it is an addition. */
  method BigEndianToHost64(p: seq<byte>) returns (decoded: uint64)
    requires |p| == 8
    ensures decoded == FromBigEndian(p)
    ensures BigEndian(8, decoded) == p
  {
    decoded := 0;
    decoded := decoded + p[0] as int * 0x100_0000_0000_0000;
    decoded := decoded + p[1] as int * 0x1_0000_0000_0000;
    decoded := decoded + p[2] as int * 0x100_0000_0000;
    decoded := decoded + p[3] as int * 0x1_0000_0000;
    decoded := decoded + p[4] as int * 0x100_0000;
    decoded := decoded + p[5] as int * 0x1_0000;
    decoded := decoded + p[6] as int * 0x100;
    decoded := decoded + p[7] as int;
    FromBigEndianUnrolled(p);
    MachineIntegerCodec(0, p);
  }
}
