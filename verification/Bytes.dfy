/** Octets, 32-bit integers and the two byte orders of CDR. */
module Bytes {

  const TWO_TO_THE_31: int := 0x8000_0000
  const TWO_TO_THE_32: int := 0x1_0000_0000

  type byte = b: int | 0 <= b < 256
  type int32 = i: int | -TWO_TO_THE_31 <= i < TWO_TO_THE_31
  type uint32 = u: int | 0 <= u < TWO_TO_THE_32

  datatype Endianness = BigEndian | LittleEndian

  // Two's complement: the wire carries an int32 as the uint32 with the same bits.
  function ToUnsigned(i: int32): uint32 {
    if i < 0 then i + TWO_TO_THE_32 else i
  }

  function ToSigned(u: uint32): int32 {
    if u < TWO_TO_THE_31 then u else u - TWO_TO_THE_32
  }

  // ---------------------------------------------------------------- base 256

  /** `rest` with one more low-order octet. */
  function WithLowest(e: Endianness, rest: seq<byte>, digit: byte): (bs: seq<byte>)
    ensures |bs| == |rest| + 1
  {
    if e.BigEndian? then rest + [digit] else [digit] + rest
  }

  /** The `n` low-order octets of `u`, in byte order `e`. */
  function Octets(e: Endianness, u: nat, n: nat): (bs: seq<byte>)
    ensures |bs| == n
    decreases u, n
  {
    if n == 0 then [] else WithLowest(e, Octets(e, u / 256, n - 1), u % 256)
  }

  /** The number that the octets `bs` stand for. */
  function FromOctets(e: Endianness, bs: seq<byte>): (u: nat) {
    if bs == [] then 0
    else if e.BigEndian? then FromOctets(e, bs[..|bs| - 1]) * 256 + bs[|bs| - 1]
    else FromOctets(e, bs[1..]) * 256 + bs[0]
  }

  /** `u` has at most `n` digits in base 256. */
  predicate Fits(u: nat, n: nat) {
    if n == 0 then u == 0 else Fits(u / 256, n - 1)
  }

  lemma FitsUint32(u: nat)
    ensures Fits(u, 4) <==> u < TWO_TO_THE_32
  {
    var (u1, u2, u3) := (u / 256, u / 256 / 256, u / 256 / 256 / 256);
    assert Fits(u, 4) == Fits(u1, 3) == Fits(u2, 2) == Fits(u3, 1) == Fits(u3 / 256, 0);
    assert u == 256 * u1 + u % 256 && u1 == 256 * u2 + u1 % 256 && u2 == 256 * u3 + u2 % 256;
  }

  lemma {:induction false} FromOctetsFits(e: Endianness, bs: seq<byte>)
    ensures Fits(FromOctets(e, bs), |bs|)
  {
    if bs != [] {
      FromOctetsFits(e, if e.BigEndian? then bs[..|bs| - 1] else bs[1..]);
    }
  }

  /** Writing a number in base 256 and reading it back gives the number. */
  lemma {:induction false} FromOctetsOfOctets(e: Endianness, u: nat, n: nat)
    requires Fits(u, n)
    ensures FromOctets(e, Octets(e, u, n)) == u
  {
    if n > 0 {
      FromOctetsOfOctets(e, u / 256, n - 1);
      var bs, rest := Octets(e, u, n), Octets(e, u / 256, n - 1);
      assert (if e.BigEndian? then bs[..n - 1] else bs[1..]) == rest;
    }
  }

  lemma OctetsOneMore(e: Endianness, u: nat, digit: byte, n: nat)
    ensures Octets(e, u * 256 + digit, n + 1) == WithLowest(e, Octets(e, u, n), digit)
  {
    assert (u * 256 + digit) / 256 == u && (u * 256 + digit) % 256 == digit;
  }

  lemma FromOctetsOneMore(e: Endianness, rest: seq<byte>, digit: byte)
    ensures FromOctets(e, WithLowest(e, rest, digit)) == FromOctets(e, rest) * 256 + digit
  {
    var bs := WithLowest(e, rest, digit);
    assert (if e.BigEndian? then bs[..|bs| - 1] else bs[1..]) == rest;
  }

  lemma ReadOneMore(e: Endianness, rest: seq<byte>, digit: byte)
    requires Octets(e, FromOctets(e, rest), |rest|) == rest
    ensures var bs := WithLowest(e, rest, digit); Octets(e, FromOctets(e, bs), |bs|) == bs
  {
    FromOctetsOneMore(e, rest, digit);
    OctetsOneMore(e, FromOctets(e, rest), digit, |rest|);
  }

  /** Reading octets and writing the number gives the octets. */
  lemma {:induction false} OctetsOfFromOctets(e: Endianness, bs: seq<byte>)
    ensures Octets(e, FromOctets(e, bs), |bs|) == bs
  {
    if bs != [] {
      var rest := if e.BigEndian? then bs[..|bs| - 1] else bs[1..];
      var digit := if e.BigEndian? then bs[|bs| - 1] else bs[0];
      assert bs == WithLowest(e, rest, digit);
      OctetsOfFromOctets(e, rest);
      ReadOneMore(e, rest, digit);
    }
  }

  // ---------------------------------------------------------------- 32-bit words

  function EncodeU32(e: Endianness, u: uint32): (bs: seq<byte>)
    ensures |bs| == 4
  {
    Octets(e, u, 4)
  }

  function DecodeU32(e: Endianness, bs: seq<byte>): uint32
    requires |bs| == 4
  {
    FromOctetsFits(e, bs);
    FitsUint32(FromOctets(e, bs));
    FromOctets(e, bs)
  }

  function EncodeI32(e: Endianness, i: int32): (bs: seq<byte>)
    ensures |bs| == 4
  {
    EncodeU32(e, ToUnsigned(i))
  }

  function DecodeI32(e: Endianness, bs: seq<byte>): int32
    requires |bs| == 4
  {
    ToSigned(DecodeU32(e, bs))
  }

  /** Big-endian puts the most significant octet first, little-endian the least. */
  lemma ByteOrder(u: uint32)
    ensures EncodeU32(BigEndian, u) == [u / 0x100_0000, u / 0x1_0000 % 256, u / 0x100 % 256, u % 256]
    ensures EncodeU32(LittleEndian, u) == [u % 256, u / 0x100 % 256, u / 0x1_0000 % 256, u / 0x100_0000]
  {
    var u1, u2, u3 := u / 256, u / 256 / 256, u / 256 / 256 / 256;
    assert u1 == u / 0x100 && u2 == u / 0x1_0000 && u3 == u / 0x100_0000;
    forall e: Endianness ensures Octets(e, u3, 1) == [u3] {
      assert Octets(e, u3 / 256, 0) == [];
    }
    assert Octets(BigEndian, u2, 2) == Octets(BigEndian, u3, 1) + [u2 % 256];
    assert Octets(BigEndian, u1, 3) == Octets(BigEndian, u2, 2) + [u1 % 256];
    assert Octets(LittleEndian, u2, 2) == [u2 % 256] + Octets(LittleEndian, u3, 1);
    assert Octets(LittleEndian, u1, 3) == [u1 % 256] + Octets(LittleEndian, u2, 2);
  }

  lemma DecodeEncode(e: Endianness, u: uint32)
    ensures DecodeU32(e, EncodeU32(e, u)) == u
  {
    FitsUint32(u);
    FromOctetsOfOctets(e, u, 4);
  }

  lemma EncodeDecode(e: Endianness, bs: seq<byte>)
    requires |bs| == 4
    ensures EncodeU32(e, DecodeU32(e, bs)) == bs
  {
    OctetsOfFromOctets(e, bs);
  }

  lemma DecodeEncodeI32(e: Endianness, i: int32)
    ensures DecodeI32(e, EncodeI32(e, i)) == i
  {
    DecodeEncode(e, ToUnsigned(i));
  }

  lemma EncodeDecodeI32(e: Endianness, bs: seq<byte>)
    requires |bs| == 4
    ensures EncodeI32(e, DecodeI32(e, bs)) == bs
  {
    EncodeDecode(e, bs);
  }

  /** The number with four given octets as its digits in base 256. */
  function Positional(e: Endianness, bs: seq<byte>): int
    requires |bs| == 4
  {
    var b0: int, b1: int, b2: int, b3: int := bs[0], bs[1], bs[2], bs[3];
    if e.BigEndian? then b0 * 0x100_0000 + b1 * 0x1_0000 + b2 * 0x100 + b3
    else b3 * 0x100_0000 + b2 * 0x1_0000 + b1 * 0x100 + b0
  }

  /** The four octets are the digits of `value` modulo 2^32: two's complement. */
  predicate StandsFor(e: Endianness, bs: seq<byte>, value: int)
    requires |bs| == 4
  {
    Positional(e, bs) == value % 0x1_0000_0000
  }

  lemma DecodedDigits(e: Endianness, bs: seq<byte>)
    requires |bs| == 4
    ensures DecodeU32(e, bs) == Positional(e, bs)
  {
    if e.BigEndian? {
      assert bs[..3][..2] == bs[..2] && bs[..2][..1] == bs[..1] && bs[..1][..0] == [];
      assert FromOctets(e, bs[..1]) == bs[0];
      assert FromOctets(e, bs[..2]) == FromOctets(e, bs[..1]) * 256 + bs[1];
      assert FromOctets(e, bs[..3]) == FromOctets(e, bs[..2]) * 256 + bs[2];
    } else {
      assert bs[1..][1..] == bs[2..] && bs[2..][1..] == bs[3..] && bs[3..][1..] == [];
      assert FromOctets(e, bs[3..]) == bs[3];
      assert FromOctets(e, bs[2..]) == FromOctets(e, bs[3..]) * 256 + bs[2];
      assert FromOctets(e, bs[1..]) == FromOctets(e, bs[2..]) * 256 + bs[1];
    }
  }

  lemma WrittenIffRead(e: Endianness, u: uint32, bs: seq<byte>)
    requires |bs| == 4
    ensures EncodeU32(e, u) == bs <==> DecodeU32(e, bs) == u
  {
    DecodeEncode(e, u);
    EncodeDecode(e, bs);
  }

  /** What is written for an unsigned number, by its digits alone. */
  lemma WrittenDigits(e: Endianness, u: uint32, bs: seq<byte>)
    requires |bs| == 4
    ensures EncodeU32(e, u) == bs <==> StandsFor(e, bs, u)
  {
    WrittenIffRead(e, u, bs);
    DecodedDigits(e, bs);
  }

  lemma Unsigned(i: int32)
    ensures ToUnsigned(i) == i % 0x1_0000_0000 == ToUnsigned(i) % 0x1_0000_0000
  {
  }

  /** What is written and read for a signed number, by the digits alone. */
  lemma SignedDigits(e: Endianness, i: int32, bs: seq<byte>)
    requires |bs| == 4
    ensures EncodeI32(e, i) == bs <==> StandsFor(e, bs, i)
    ensures StandsFor(e, bs, DecodeI32(e, bs))
  {
    WrittenDigits(e, ToUnsigned(i), bs);
    Unsigned(i);
    DecodedDigits(e, bs);
    Unsigned(DecodeI32(e, bs));
    assert ToUnsigned(DecodeI32(e, bs)) == DecodeU32(e, bs);
  }
}
