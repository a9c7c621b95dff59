/** The CDR stream over a raw buffer that the generated code reads and writes. The vendor's
    class is not part of this repository: this one follows the CDR rules. Each primitive
    either completes or throws and leaves the stream as it was. */
module CdrStream {
  import opened Outcomes
  import opened Bytes
  import opened CdrWire

  lemma SpliceTail(buf: seq<byte>, at: nat, bs: seq<byte>, i: nat)
    requires at + |bs| <= i <= |buf|
    ensures Splice(buf, at, bs)[i..] == buf[i..]
  {
  }

  class Cdr {
    const buffer: array<byte>
    const limit: nat
    var position: nat
    var origin: nat
    var endian: Endianness

    ghost predicate Valid()
      reads this
    {
      origin <= position <= limit <= buffer.Length
    }

    /** The stream as a value. */
    ghost function Contents(): (st: Stream)
      requires Valid()
      reads this, buffer
      ensures st.Valid()
    {
      Stream(buffer[..], limit, position, origin, endian)
    }

    constructor (buffer: array<byte>, limit: nat, endian: Endianness)
      requires limit <= buffer.Length
      ensures Valid() && this.buffer == buffer && this.limit == limit
      ensures Contents() == Stream(buffer[..], limit, 0, 0, endian)
    {
      this.buffer, this.limit := buffer, limit;
      position, origin, this.endian := 0, 0, endian;
    }

    /** Copies octets into the buffer. */
    method Copy(at: nat, bs: seq<byte>)
      requires at + |bs| <= buffer.Length
      modifies buffer
      ensures buffer[..] == Splice(old(buffer[..]), at, bs)
    {
      for i := 0 to |bs|
        invariant forall k :: 0 <= k < i ==> buffer[at + k] == bs[k]
        invariant forall k :: 0 <= k < buffer.Length && !(at <= k < at + i) ==> buffer[k] == old(buffer[k])
      {
        buffer[at + i] := bs[i];
      }
    }

    method PutAligned(bs: seq<byte>) returns (status: Status)
      requires Valid()
      modifies this`position, buffer
      ensures Valid()
      ensures match CdrWire.PutAligned(old(Contents()), bs)
              case Some(st) => status == Done && Contents() == st
              case None => status == NotEnoughMemory && Contents() == old(Contents())
      ensures buffer[limit..] == old(buffer[limit..])
    {
      var at := AlignUp(position, origin);
      if at + |bs| > limit { return NotEnoughMemory; }
      Copy(at, bs);
      SpliceTail(old(buffer[..]), at, bs, limit);
      position := at + |bs|;
      return Done;
    }

    method PutI32(i: int32) returns (status: Status)
      requires Valid()
      modifies this`position, buffer
      ensures Valid()
      ensures match CdrWire.PutI32(old(Contents()), i)
              case Some(st) => status == Done && Contents() == st
              case None => status == NotEnoughMemory && Contents() == old(Contents())
      ensures buffer[limit..] == old(buffer[limit..])
    {
      status := PutAligned(EncodeI32(endian, i));
    }

    method PutString(s: Color) returns (status: Status)
      requires Valid()
      modifies this`position, buffer
      ensures Valid()
      ensures match CdrWire.PutString(old(Contents()), s)
              case Some(st) => status == Done && Contents() == st
              case None => status == NotEnoughMemory && Contents() == old(Contents())
      ensures buffer[limit..] == old(buffer[limit..])
    {
      status := PutAligned(StringOctets(endian, s));
    }

    method GetI32() returns (status: Status, i: int32)
      requires Valid()
      modifies this`position
      ensures Valid()
      ensures match CdrWire.GetI32(old(Contents()))
              case Some((v, st)) => status == Done && i == v && Contents() == st
              case None => status == NotEnoughMemory && Contents() == old(Contents())
    {
      var at := AlignUp(position, origin);
      if at + 4 > limit { return NotEnoughMemory, 0; }
      i := DecodeI32(endian, buffer[at..at + 4]);
      assert buffer[at..at + 4] == buffer[..][at..at + 4];
      position := at + 4;
      return Done, i;
    }

    method GetString() returns (status: Status, s: seq<byte>)
      requires Valid()
      modifies this`position
      ensures Valid()
      ensures match CdrWire.GetString(old(Contents()))
              case Some((v, st)) => status == Done && s == v && Contents() == st
              case None => status == NotEnoughMemory && Contents() == old(Contents())
    {
      var at := AlignUp(position, origin);
      if at + 4 > limit { return NotEnoughMemory, []; }
      var n := DecodeU32(endian, buffer[at..at + 4]);
      assert buffer[at..at + 4] == buffer[..][at..at + 4];
      if at + 4 + n > limit { return NotEnoughMemory, []; }
      var last := if 0 < n && buffer[at + 3 + n] == 0 then n - 1 else n;
      s := buffer[at + 4..at + 4 + last];
      assert s == buffer[..][at + 4..at + 4 + last];
      position := at + 4 + n;
      return Done, s;
    }

    method SerializeEncapsulation() returns (status: Status)
      requires Valid()
      modifies this`position, this`origin, buffer
      ensures Valid()
      ensures match PutHeader(old(Contents()))
              case Some(st) => status == Done && Contents() == st
              case None => status == NotEnoughMemory && Contents() == old(Contents())
      ensures buffer[limit..] == old(buffer[limit..])
    {
      if position + 4 > limit { return NotEnoughMemory; }
      Copy(position, Header(endian));
      SpliceTail(old(buffer[..]), position, Header(endian), limit);
      position := position + 4;
      origin := position;
      return Done;
    }

    method ReadEncapsulation() returns (status: Status)
      requires Valid()
      modifies this
      ensures Valid()
      ensures (status, Contents()) == GetHeader(old(Contents()))
    {
      if position + 4 > limit { return NotEnoughMemory; }
      if buffer[position] != 0 || buffer[position + 1] > 1 { return BadParam; }
      endian := if buffer[position + 1] == 0 then BigEndian else LittleEndian;
      position := position + 4;
      origin := position;
      return Done;
    }
  }
}
