/** The CDR transfer syntax (section 9.3 of CORBA 3.3, Part 2) of a ShapeType, described
    twice: as primitive operations on a bounded stream, and as a predicate that says
    where each field lies in a finished buffer. */
module CdrWire {
  import opened Outcomes
  import opened Bytes

  // Longest colour of the IDL, string<COLOR_MAX_LENGTH>.
  const COLOR_MAX_LENGTH: nat := 64

  /** The octets of a string: no NUL inside, and a length that fits the wire's 32 bits. */
  type Color = s: seq<byte> | 0 !in s && |s| + 1 < TWO_TO_THE_32

  /** A shape that can be sent. */
  datatype Shape = Shape(color: Color, x: int32, y: int32, shapesize: int32)

  /** A ShapeType as a program holds it: its colour may be any octets at all. */
  datatype Sample = Sample(color: seq<byte>, x: int32, y: int32, shapesize: int32)

  /** A stream over `buf[..limit]`; alignment counts from `origin`. */
  datatype Stream = Stream(buf: seq<byte>, limit: nat, pos: nat, origin: nat, endian: Endianness) {
    predicate Valid() {
      origin <= pos <= limit <= |buf|
    }
  }

  // ---------------------------------------------------------------- stream primitives

  /** First position at or after `pos` that is a multiple of 4 from `origin`. */
  function AlignUp(pos: nat, origin: nat): (at: nat)
    requires origin <= pos
    ensures pos <= at < pos + 4 && (at - origin) % 4 == 0
  {
    var over := (pos - origin) % 4;
    if over == 0 then pos else pos + 4 - over
  }

  function Splice(buf: seq<byte>, at: nat, bs: seq<byte>): (r: seq<byte>)
    requires at + |bs| <= |buf|
    ensures |r| == |buf|
    ensures r[..at] == buf[..at] && r[at..at + |bs|] == bs && r[at + |bs|..] == buf[at + |bs|..]
  {
    buf[..at] + bs + buf[at + |bs|..]
  }

  /** The octets of a CDR string: its length with the NUL, its characters, the NUL. */
  function StringOctets(e: Endianness, s: Color): (bs: seq<byte>)
    ensures |bs| == 4 + |s| + 1
  {
    EncodeU32(e, |s| + 1) + s + [0]
  }

  /** Writes octets at the next multiple of 4. The skipped padding keeps its old content. */
  function PutAligned(st: Stream, bs: seq<byte>): (r: Option<Stream>)
    requires st.Valid()
    ensures r.Some? ==> r.value.Valid()
  {
    var at := AlignUp(st.pos, st.origin);
    if at + |bs| <= st.limit
    then Some(st.(buf := Splice(st.buf, at, bs), pos := at + |bs|))
    else None
  }

  function PutI32(st: Stream, i: int32): (r: Option<Stream>)
    requires st.Valid()
    ensures r.Some? ==> r.value.Valid()
  {
    PutAligned(st, EncodeI32(st.endian, i))
  }

  function PutString(st: Stream, s: Color): (r: Option<Stream>)
    requires st.Valid()
    ensures r.Some? ==> r.value.Valid()
  {
    PutAligned(st, StringOctets(st.endian, s))
  }

  function GetI32(st: Stream): (r: Option<(int32, Stream)>)
    requires st.Valid()
    ensures r.Some? ==> r.value.1.Valid()
  {
    var at := AlignUp(st.pos, st.origin);
    if at + 4 <= st.limit
    then Some((DecodeI32(st.endian, st.buf[at..at + 4]), st.(pos := at + 4)))
    else None
  }

  /** The string whose length field is at `at`, and the position after it: the length, then
      that many octets, of which a trailing NUL is dropped. A length of zero stands for the
      empty string. */
  function StringAt(buf: seq<byte>, limit: nat, e: Endianness, at: nat): (r: Option<(seq<byte>, nat)>)
    requires limit <= |buf|
    ensures r.Some? ==> at + 4 <= r.value.1 <= limit
  {
    if at + 4 > limit then None
    else
      var end := at + 4 + DecodeU32(e, buf[at..at + 4]);
      if end > limit then None
      else if end == at + 4 then Some(([], end))
      else if buf[end - 1] == 0 then Some((buf[at + 4..end - 1], end))
      else Some((buf[at + 4..end], end))
  }

  function GetString(st: Stream): (r: Option<(seq<byte>, Stream)>)
    requires st.Valid()
    ensures r.Some? ==> r.value.1.Valid()
  {
    var (s, end) :- StringAt(st.buf, st.limit, st.endian, AlignUp(st.pos, st.origin));
    Some((s, st.(pos := end)))
  }

  // ---------------------------------------------------------------- encapsulation header

  /** Section 10 of DDSI-RTPS 2.2: the representation identifier CDR_BE or CDR_LE, then two
      octets of options. */
  function Header(e: Endianness): (bs: seq<byte>)
    ensures |bs| == 4
  {
    [0, if e.BigEndian? then 0 else 1, 0, 0]
  }

  /** Writes the header of the stream's byte order; alignment counts from its end. */
  function PutHeader(st: Stream): (r: Option<Stream>)
    requires st.Valid()
    ensures r.Some? ==> r.value.Valid()
  {
    if st.pos + 4 <= st.limit
    then Some(st.(buf := Splice(st.buf, st.pos, Header(st.endian)), pos := st.pos + 4, origin := st.pos + 4))
    else None
  }

  /** Reads a header: it, and not the reader's default, selects the byte order. */
  function GetHeader(st: Stream): (r: (Status, Stream))
    requires st.Valid()
    ensures r.1.Valid()
  {
    if st.pos + 4 > st.limit then (NotEnoughMemory, st)
    else if st.buf[st.pos] != 0 || st.buf[st.pos + 1] > 1 then (BadParam, st)
    else (Done, st.(pos := st.pos + 4, origin := st.pos + 4,
                    endian := if st.buf[st.pos + 1] == 0 then BigEndian else LittleEndian))
  }

  // ---------------------------------------------------------------- whole shapes

  /** What ShapeType::serialize does to a stream: the status, and the stream after the fields
      that were written. */
  function PutShape(st: Stream, s: Shape): (r: (Status, Stream))
    requires st.Valid()
    ensures r.1.Valid()
  {
    match PutString(st, s.color)
    case None => (NotEnoughMemory, st)
    case Some(st1) =>
      match PutI32(st1, s.x)
      case None => (NotEnoughMemory, st1)
      case Some(st2) =>
        match PutI32(st2, s.y)
        case None => (NotEnoughMemory, st2)
        case Some(st3) =>
          match PutI32(st3, s.shapesize)
          case None => (NotEnoughMemory, st3)
          case Some(st4) => (Done, st4)
  }

  function AsSample(s: Shape): Sample {
    Sample(s.color, s.x, s.y, s.shapesize)
  }

  /** What ShapeType::deserialize does: the status, the object afterwards (fields read before
      a throw stay overwritten) and the stream position. */
  function GetShape(st: Stream, previous: Sample): (r: (Status, Sample, nat))
    requires st.Valid()
  {
    match GetString(st)
    case None => (NotEnoughMemory, previous, st.pos)
    case Some((c, st1)) => GetWords(st1, previous.(color := c))
  }

  /** The three integers of a shape, read into an object. */
  function GetWords(st: Stream, previous: Sample): (r: (Status, Sample, nat))
    requires st.Valid()
  {
    match GetI32(st)
    case None => (NotEnoughMemory, previous, st.pos)
    case Some((x, st1)) =>
      match GetI32(st1)
      case None => (NotEnoughMemory, previous.(x := x), st1.pos)
      case Some((y, st2)) =>
        match GetI32(st2)
        case None => (NotEnoughMemory, previous.(x := x, y := y), st2.pos)
        case Some((z, st3)) => (Done, previous.(x := x, y := y, shapesize := z), st3.pos)
  }

  // ---------------------------------------------------------------- the finished layout

  // The string of an encoding that begins at `pos` starts at AlignUp(pos, origin).

  /** Where the integers of a shape with an n-octet colour start. */
  function XAt(pos: nat, origin: nat, n: nat): (at: nat)
    requires origin <= pos
    ensures AlignUp(pos, origin) + n + 5 <= at < AlignUp(pos, origin) + n + 9
  {
    AlignUp(AlignUp(pos, origin) + 4 + n + 1, origin)
  }

  /** Position after a shape with an n-octet colour whose encoding begins at `pos`. */
  function EndAt(pos: nat, origin: nat, n: nat): (end: nat)
    requires origin <= pos
    ensures pos + n + 17 <= end
  {
    XAt(pos, origin, n) + 12
  }

  /** `buf` holds the string of `s` at `a` and its three integers at `b`. */
  predicate CarriesAt(buf: seq<byte>, a: nat, b: nat, e: Endianness, s: Shape)
  {
    && a + 5 + |s.color| <= b && b + 12 <= |buf|
    && buf[a..a + 5 + |s.color|] == StringOctets(e, s.color)
    && buf[b..b + 4] == EncodeI32(e, s.x)
    && buf[b + 4..b + 8] == EncodeI32(e, s.y)
    && buf[b + 8..b + 12] == EncodeI32(e, s.shapesize)
  }

  /** `buf` holds the encoding of `s` at `pos`. Nothing is said about padding octets. */
  predicate Carries(buf: seq<byte>, pos: nat, origin: nat, e: Endianness, s: Shape)
    requires origin <= pos
  {
    CarriesAt(buf, AlignUp(pos, origin), XAt(pos, origin, |s.color|), e, s)
  }
}
