/** The type support object: payload serialization with error results, sizes, and the
    instance key computed in a buffer and an MD5 object that all calls share. */
module PubSubTypes {
  import opened Outcomes
  import opened Bytes
  import opened CdrWire
  import opened CdrStream
  import opened ShapeTypes
  import opened PayloadLaws

  // ---------------------------------------------------------------- middleware records

  class SerializedPayload {
    const data: array<byte>
    const maxSize: uint32
    var length: uint32
    var encapsulation: Endianness

    ghost predicate Valid()
      reads this
    {
      maxSize <= data.Length && length <= data.Length
    }

    constructor (maxSize: uint32)
      ensures Valid() && this.maxSize == maxSize && length == 0 && fresh(data)
    {
      data := new byte[maxSize];
      this.maxSize, length, encapsulation := maxSize, 0, BigEndian;
    }
  }

  class InstanceHandle {
    const value: array<byte>

    constructor ()
      ensures value.Length == 16 && fresh(value)
    {
      value := new byte[16];
    }

    /** The index loop that copies a digest into the handle. */
    method Fill(digest: array<byte>)
      requires value.Length == digest.Length == 16 && value != digest
      modifies value
      ensures value[..] == digest[..]
    {
      for i := 0 to 16
        invariant forall k :: 0 <= k < i ==> value[k] == digest[k]
      {
        value[i] := digest[i];
      }
    }
  }

  // ---------------------------------------------------------------- MD5

  type Digest = d: seq<byte> | |d| == 16 witness seq(16, i => 0)

  /** MD5 as an unknown function of all octets fed since the last init. */
  class Md5 {
    const hash: seq<byte> -> Digest
    const digest: array<byte>
    var fed: seq<byte>

    constructor (hash: seq<byte> -> Digest)
      ensures this.hash == hash && digest.Length == 16 && fresh(digest)
    {
      this.hash := hash;
      digest := new byte[16];
      fed := [];
    }

    method Init()
      modifies this
      ensures fed == []
    {
      fed := [];
    }

    method Update(buffer: array<byte>, length: nat)
      requires length <= buffer.Length
      modifies this
      ensures fed == old(fed) + buffer[..length]
    {
      fed := fed + buffer[..length];
    }

    method Finalize()
      requires digest.Length == 16
      modifies digest
      ensures digest[..] == hash(fed)
    {
      var d := hash(fed);
      for i := 0 to 16
        invariant digest[..i] == d[..i]
      {
        digest[i] := d[i];
      }
      assert digest[..] == digest[..16];
    }
  }

  // ---------------------------------------------------------------- the key, on values

  /** What a getKey call leaves behind in the type object. */
  datatype KeyMemory = KeyMemory(buffer: seq<byte>, fed: seq<byte>, digest: seq<byte>)

  /** One getKey call: the colour is written into the shared buffer over whatever an earlier
      call left there, and as many octets as were written are digested. None: it threw. */
  function KeyStep(hash: seq<byte> -> Digest, m: KeyMemory, c: Color): (r: (KeyMemory, Option<Digest>))
    requires |m.buffer| == 69
    ensures |r.0.buffer| == 69
  {
    match PutString(Stream(m.buffer, 69, 0, 0, BigEndian), c)
    case None => (m, None)
    case Some(st) =>
      var fed := st.buf[..st.pos];
      (KeyMemory(st.buf, fed, hash(fed)), Some(hash(fed)))
  }

  /** The handles that a sequence of calls on one type object returns. */
  function KeyRun(hash: seq<byte> -> Digest, m: KeyMemory, calls: seq<Shape>): (handles: seq<Option<Digest>>)
    requires |m.buffer| == 69
    decreases |calls|
  {
    if calls == [] then []
    else
      var (m', handle) := KeyStep(hash, m, calls[0].color);
      [handle] + KeyRun(hash, m', calls[1..])
  }

  /** The handle of a shape, from its colour alone. */
  function KeyOf(hash: seq<byte> -> Digest, s: Shape): Option<Digest> {
    if |s.color| <= COLOR_MAX_LENGTH then Some(hash(KeyOctets(s.color))) else None
  }

  lemma KeyStepIsKeyOf(hash: seq<byte> -> Digest, m: KeyMemory, s: Shape)
    requires |m.buffer| == 69
    ensures KeyStep(hash, m, s.color).1 == KeyOf(hash, s)
  {
  }

  /** History independence: whatever the object went through before, the i-th handle is the
      digest of the i-th colour's key octets; a colour over the bound throws and disturbs
      nothing after it. */
  lemma {:induction false} KeyHistory(hash: seq<byte> -> Digest, m: KeyMemory, calls: seq<Shape>)
    requires |m.buffer| == 69
    ensures KeyRun(hash, m, calls) == seq(|calls|, i requires 0 <= i < |calls| => KeyOf(hash, calls[i]))
    decreases |calls|
  {
    if calls != [] {
      assert |calls[1..]| < |calls|;
      KeyStepIsKeyOf(hash, m, calls[0]);
      KeyHistory(hash, KeyStep(hash, m, calls[0].color).0, calls[1..]);
    }
  }

  /** The key octets, one after the other: the big-endian length with the NUL, the colour, NUL. */
  lemma KeyOctetsAre(c: Color)
    ensures var k := KeyOctets(c);
            StandsFor(BigEndian, k[..4], |c| + 1) && k[4..4 + |c|] == c && k[4 + |c|] == 0
  {
    var k := KeyOctets(c);
    assert k[..4] == EncodeU32(BigEndian, |c| + 1);
    WrittenDigits(BigEndian, |c| + 1, k[..4]);
  }

  /** One call in full: a colour over 64 octets changes nothing and throws. Any other overwrites
      the start of the buffer with its key octets, and they alone are fed to the digest. */
  lemma KeyStepLaws(hash: seq<byte> -> Digest, m: KeyMemory, c: Color)
    requires |m.buffer| == 69
    ensures KeyStep(hash, m, c) ==
            if |c| > 64 then (m, None)
            else
              var k := KeyOctets(c);
              (KeyMemory(k + m.buffer[|k|..], k, hash(k)), Some(hash(k)))
  {
    if |c| <= 64 {
      var k := KeyOctets(c);
      var st := PutString(Stream(m.buffer, 69, 0, 0, BigEndian), c).value;
      assert st.buf == k + m.buffer[|k|..] && st.buf[..st.pos] == k;
    }
  }

  /** Key octets are prefix-free, so distinct colours are digested from distinct octets. */
  lemma KeyPrefixFree(c1: Color, c2: Color)
    requires KeyOctets(c1) <= KeyOctets(c2)
    ensures c1 == c2
  {
    var k1, k2 := KeyOctets(c1), KeyOctets(c2);
    assert k1[..4] == k2[..4];
    assert k1[..4] == EncodeU32(BigEndian, |c1| + 1) && k2[..4] == EncodeU32(BigEndian, |c2| + 1);
    DecodeEncode(BigEndian, |c1| + 1);
    DecodeEncode(BigEndian, |c2| + 1);
    assert c1 == k1[4..4 + |c1|] == k2[4..4 + |c2|] == c2;
  }

  // ---------------------------------------------------------------- the type support

  lemma CastTwice(n: nat)
    ensures (n % TWO_TO_THE_32 + 4) % TWO_TO_THE_32 == (n + 4) % TWO_TO_THE_32
    ensures (n + 4) % TWO_TO_THE_32 == n + 4 <==> n + 4 < TWO_TO_THE_32
  {
  }

  class ShapeTypePubSubType {
    const defaultEndian: Endianness
    const typeSize: uint32
    const isGetKeyDefined: bool
    const keyBuffer: array<byte>
    const md5: Md5

    ghost predicate Valid() {
      && keyBuffer.Length == 69 && md5.digest.Length == 16 && md5.digest != keyBuffer
      && isGetKeyDefined
      && typeSize == PayloadSize(COLOR_MAX_LENGTH)
    }

    ghost function Memory(): KeyMemory
      reads keyBuffer, md5, md5.digest
    {
      KeyMemory(keyBuffer[..], md5.fed, md5.digest[..])
    }

    /** The payload pool of the middleware allocates `typeSize` octets: no shape with a colour
        within the bound needs more. The key buffer holds the longest key. */
    constructor (defaultEndian: Endianness, hash: seq<byte> -> Digest)
      ensures Valid() && fresh(keyBuffer) && fresh(md5) && fresh(md5.digest)
      ensures this.defaultEndian == defaultEndian && md5.hash == hash && typeSize == 88
      ensures forall n: nat :: n <= COLOR_MAX_LENGTH ==> PayloadSize(n) <= typeSize
    {
      this.defaultEndian := defaultEndian;
      isGetKeyDefined := true;
      var size := ShapeType.GetMaxCdrSerializedSize(0);
      assert size == 84;
      typeSize := size + 4;
      var keyMax := ShapeType.GetKeyMaxCdrSerializedSize(0);
      keyBuffer := new byte[if keyMax > 16 then keyMax else 16];
      md5 := new Md5(hash);
    }

    /** Header and shape, on a stream at its start. */
    static method Write(ser: Cdr, data: ShapeType) returns (r: CallResult)
      requires ser.Valid() && ser.position == ser.origin == 0 && data.Sendable()
      modifies ser`position, ser`origin, ser.buffer
      ensures ser.Valid()
      ensures (r, ser.buffer[..]) == Encode(old(ser.buffer[..]), ser.limit, ser.endian, data.Sent())
      ensures r == Returned(true) ==> ser.position == PayloadSize(|data.color|)
      ensures ser.buffer[ser.limit..] == old(ser.buffer[ser.limit..])
    {
      var header := ser.SerializeEncapsulation();
      if header.IsFailure() { return Threw(header); }
      PayloadEnds(ser.Contents(), data.Sent());
      var status := data.Serialize(ser);
      return Returned(status != NotEnoughMemory);
    }

    /** Serializes into the payload: `length` is set exactly on success, and nothing is ever
        written past `maxSize`. */
    method Serialize(data: ShapeType, payload: SerializedPayload) returns (r: CallResult)
      requires payload.Valid() && data.Sendable()
      modifies payload, payload.data
      ensures payload.Valid() && payload.encapsulation == defaultEndian
      ensures (r, payload.data[..]) == Encode(old(payload.data[..]), payload.maxSize, defaultEndian, data.Sent())
      ensures payload.length == if r == Returned(true) then PayloadSize(|data.color|) else old(payload.length)
      ensures payload.data[payload.maxSize..] == old(payload.data[payload.maxSize..])
    {
      var ser := new Cdr(payload.data, payload.maxSize, defaultEndian);
      payload.encapsulation := if ser.endian == BigEndian then BigEndian else LittleEndian;
      r := Write(ser, data);
      if r == Returned(true) {
        payload.length := ser.position;
      }
    }

    /** The size the middleware asks for before it serializes, cast to 32 bits twice. */
    method GetSerializedSizeProvider(data: ShapeType) returns (size: uint32)
      ensures size == PayloadSize(|data.color|) % TWO_TO_THE_32
      ensures size == PayloadSize(|data.color|) <==> PayloadSize(|data.color|) < TWO_TO_THE_32
    {
      var n := ShapeType.GetCdrSerializedSize(data, 0);
      size := (n % TWO_TO_THE_32 + 4) % TWO_TO_THE_32;
      CastTwice(n);
    }

    /** Header and shape, from a stream at its start. */
    static method Read(deser: Cdr, data: ShapeType) returns (r: CallResult)
      requires deser.Valid() && deser.position == deser.origin == 0
      modifies deser, data
      ensures deser.Valid()
      ensures (r, data.Value(), deser.endian) == Decode(deser.buffer[..], deser.limit, old(deser.endian), old(data.Value()))
    {
      var header := deser.ReadEncapsulation();
      if header.IsFailure() { return Threw(header); }
      var status := data.Deserialize(deser);
      return Returned(status != NotEnoughMemory);
    }

    /** Deserializes from the payload; the byte order that its header names is noted in it. */
    method Deserialize(payload: SerializedPayload, data: ShapeType) returns (r: CallResult)
      requires payload.Valid()
      modifies payload`encapsulation, data
      ensures payload.Valid()
      ensures var (r', after, e) := Decode(payload.data[..], payload.length, defaultEndian, old(data.Value()));
              && r == r' && data.Value() == after
              && payload.encapsulation == if r.Threw? then old(payload.encapsulation) else e
    {
      var deser := new Cdr(payload.data, payload.length, defaultEndian);
      r := Read(deser, data);
      if r.Returned? {
        payload.encapsulation := if deser.endian == BigEndian then BigEndian else LittleEndian;
      }
    }

    /** Computes the instance key. `r` is true on return; a colour over the bound does not fit
        the key buffer, and the stream's exception escapes with nothing changed. */
    method GetKey(data: ShapeType, handle: InstanceHandle, forceMd5: bool) returns (r: CallResult)
      requires Valid() && data.Sendable() && handle.value.Length == 16
      requires handle.value != keyBuffer && handle.value != md5.digest
      modifies keyBuffer, md5, md5.digest, handle.value
      ensures Valid()
      ensures var (m, key) := KeyStep(md5.hash, old(Memory()), data.color);
              && Memory() == m
              && r == (if key.Some? then Returned(true) else Threw(NotEnoughMemory))
              && handle.value[..] == (if key.Some? then key.value else old(handle.value[..]))
    {
      if !isGetKeyDefined { return Returned(false); }
      var keyMax := ShapeType.GetKeyMaxCdrSerializedSize(0);
      ghost var st := Stream(keyBuffer[..], keyMax, 0, 0, BigEndian);
      var ser := new Cdr(keyBuffer, keyMax, BigEndian);
      var status := data.SerializeKey(ser);
      if status.IsFailure() { return Threw(status); }
      assert ser.Contents() == PutString(st, data.color).value;
      if forceMd5 || keyMax > 16 {
        DigestKey(ser.position);
        handle.Fill(md5.digest);
      } else {
        // The copy of a raw key of at most 16 octets is never reached: keyMax is 69.
        assert false;
      }
      return Returned(true);
    }

    method DigestKey(length: nat)
      requires Valid() && length <= keyBuffer.Length
      modifies md5, md5.digest
      ensures md5.fed == keyBuffer[..length] && md5.digest[..] == md5.hash(md5.fed)
    {
      md5.Init();
      md5.Update(keyBuffer, length);
      md5.Finalize();
    }
  }
}
