/** Whole payloads: the encapsulation header and the shape behind it, what the reader makes of
    any octets, and the laws that tie the two together. */
module PayloadLaws {
  import opened Outcomes
  import opened Bytes
  import opened CdrWire
  import opened ShapeLaws

  /** Octets of a payload with an n-octet colour. */
  function PayloadSize(n: nat): (size: nat) {
    4 + CdrSize(n, 0)
  }

  /** `w` is a payload for `s` in byte order `e`, with any octets as padding. */
  ghost predicate IsPayload(w: seq<byte>, e: Endianness, s: Shape) {
    |w| == PayloadSize(|s.color|) && w[..4] == Header(e) && Carries(w, 4, 4, e, s)
  }

  /** What the type support's deserialize does with the first `length` octets of a buffer: its
      result, the object afterwards, and the byte order read with. A header that
      cannot be read throws out of the call; a shape that cannot be read makes it return false. */
  function Decode(buf: seq<byte>, length: nat, default: Endianness, previous: Sample)
    : (CallResult, Sample, Endianness)
    requires length <= |buf|
  {
    var (status, st) := GetHeader(Stream(buf, length, 0, 0, default));
    if !status.Done? then (Threw(status), previous, default)
    else
      var (status', after, _) := GetShape(st, previous);
      (Returned(status'.Done?), after, st.endian)
  }

  lemma PayloadEnd(n: nat)
    ensures EndAt(4, 4, n) == PayloadSize(n)
  {
  }

  /** What the type support's serialize does to the octets of a buffer of which it may use `max`:
      its result, and the octets afterwards. A header that does not fit throws out of the call;
      a shape that does not fit makes it return false. */
  function Encode(before: seq<byte>, max: nat, e: Endianness, s: Shape): (CallResult, seq<byte>)
    requires max <= |before|
  {
    match PutHeader(Stream(before, max, 0, 0, e))
    case None => (Threw(NotEnoughMemory), before)
    case Some(st) =>
      var (status, st') := PutShape(st, s);
      (Returned(status.Done?), st'.buf)
  }

  // ---------------------------------------------------------------- the header

  lemma HeaderRead(buf: seq<byte>, length: nat, default: Endianness, e: Endianness)
    requires 4 <= length <= |buf| && buf[..4] == Header(e)
    ensures GetHeader(Stream(buf, length, 0, 0, default)) == (Done, Stream(buf, length, 4, 4, e))
  {
  }

  // ---------------------------------------------------------------- the octets

  /** Where the integers of a payload stand: behind header, length, colour and NUL, at a multiple
      of four. */
  function IntegersAt(n: nat): nat {
    (4 + 4 + n + 1 + 3) / 4 * 4
  }

  /** The octets of a payload, one field after the other; those between the NUL and the integers
      may be any. */
  predicate Layout(w: seq<byte>, e: Endianness, s: Shape) {
    var n, b := |s.color|, IntegersAt(|s.color|);
    && |w| == b + 12
    && w[..4] == [0, if e == BigEndian then 0 else 1, 0, 0]
    && StandsFor(e, w[4..8], n + 1) && w[8..8 + n] == s.color && w[8 + n] == 0
    && StandsFor(e, w[b..b + 4], s.x) && StandsFor(e, w[b + 4..b + 8], s.y) && StandsFor(e, w[b + 8..b + 12], s.shapesize)
  }

  lemma IntegersAtX(n: nat)
    ensures AlignUp(4, 4) == 4 && XAt(4, 4, n) == IntegersAt(n) && PayloadSize(n) == IntegersAt(n) + 12
  {
    PayloadEnd(n);
  }

  lemma StringOctetsAt(w: seq<byte>, e: Endianness, c: Color)
    requires 9 + |c| <= |w|
    ensures w[4..9 + |c|] == StringOctets(e, c)
            <==> StandsFor(e, w[4..8], |c| + 1) && w[8..8 + |c|] == c && w[8 + |c|] == 0
  {
    var n := |c|;
    WrittenDigits(e, n + 1, w[4..8]);
    ThreeSlices(w, 4, 8, 8 + n, 9 + n);
    assert w[8 + n..9 + n] == [w[8 + n]];
    var bs := w[4..9 + n];
    assert bs[..4] == w[4..8] && bs[4..4 + n] == w[8..8 + n] && bs[4 + n] == w[8 + n];
    var cs := StringOctets(e, c);
    assert cs[..4] == EncodeU32(e, n + 1) && cs[4..4 + n] == c && cs[4 + n] == 0;
  }

  /** The payloads of a shape are exactly the octets of this layout. */
  lemma PayloadLayout(w: seq<byte>, e: Endianness, s: Shape)
    ensures IsPayload(w, e, s) <==> Layout(w, e, s)
  {
    var n, b := |s.color|, IntegersAt(|s.color|);
    IntegersAtX(n);
    if |w| == b + 12 {
      StringOctetsAt(w, e, s.color);
      IntegersStandFor(w, b, e, s);
    }
  }

  lemma IntegersStandFor(w: seq<byte>, b: nat, e: Endianness, s: Shape)
    requires b + 12 <= |w|
    ensures StandsFor(e, w[b..b + 4], s.x) <==> w[b..b + 4] == EncodeI32(e, s.x)
    ensures StandsFor(e, w[b + 4..b + 8], s.y) <==> w[b + 4..b + 8] == EncodeI32(e, s.y)
    ensures StandsFor(e, w[b + 8..b + 12], s.shapesize) <==> w[b + 8..b + 12] == EncodeI32(e, s.shapesize)
  {
    SignedDigits(e, s.x, w[b..b + 4]);
    SignedDigits(e, s.y, w[b + 4..b + 8]);
    SignedDigits(e, s.shapesize, w[b + 8..b + 12]);
  }

  /** Whatever becomes of the call, the octets of a header that fits are these. */
  lemma EncodedHeader(before: seq<byte>, max: nat, e: Endianness, s: Shape)
    requires 4 <= max <= |before|
    ensures |Encode(before, max, e, s).1| == |before|
    ensures Encode(before, max, e, s).1[..4] == [0, if e == BigEndian then 0 else 1, 0, 0]
  {
    EncodeLaws(before, max, e, s);
    var h, after := Splice(before, 0, Header(e)), Encode(before, max, e, s).1;
    KeptBefore(h, after, max, 4, 4, e, s);
    assert h[..4] == h[0..0 + 4] == Header(e);
  }

  // ---------------------------------------------------------------- the laws

  lemma WrittenIsPayload(st: Stream, after: seq<byte>, s: Shape)
    requires st.Valid() && st.pos == st.origin == 4 && st.buf[..4] == Header(st.endian)
    requires |after| == |st.buf| && PayloadSize(|s.color|) <= st.limit
    requires WroteWhatFits(st.buf, after, st.limit, 4, 4, st.endian, s)
    ensures IsPayload(after[..PayloadSize(|s.color|)], st.endian, s)
  {
    PayloadEnd(|s.color|);
    WrittenIsCarried(st.buf, after, st.limit, 4, 4, st.endian, s);
    var w := after[..PayloadSize(|s.color|)];
    assert w[..4] == st.buf[..4];
    CarriesAtRestricts(after, w, 4, XAt(4, 4, |s.color|), st.endian, s);
  }

  lemma CarriesAtRestricts(buf: seq<byte>, w: seq<byte>, a: nat, b: nat, e: Endianness, s: Shape)
    requires w <= buf && b + 12 <= |w| && CarriesAt(buf, a, b, e, s)
    ensures CarriesAt(w, a, b, e, s)
  {
  }

  lemma PayloadEnds(st: Stream, s: Shape)
    requires st.Valid() && st.pos == st.origin == 4
    ensures PutShape(st, s).0 == Done ==> PutShape(st, s).1.pos == PayloadSize(|s.color|)
  {
    PutShapeFits(st, s);
    PayloadEnd(|s.color|);
  }

  /** The laws of serializing. It succeeds exactly when the buffer has room for the payload, and
      the octets then start with a payload for the shape. Without room for the header nothing
      is written; otherwise the header and each field that fits, and nothing else. */
  lemma EncodeLaws(before: seq<byte>, max: nat, e: Endianness, s: Shape)
    requires max <= |before|
    ensures var (r, after) := Encode(before, max, e, s);
            var size := PayloadSize(|s.color|);
            && |after| == |before|
            && r == (if max < 4 then Threw(NotEnoughMemory) else Returned(size <= max))
            && (r.Threw? ==> after == before)
            && (r.Returned? ==> WroteWhatFits(Splice(before, 0, Header(e)), after, max, 4, 4, e, s))
            && (r == Returned(true) ==> IsPayload(after[..size], e, s))
  {
    if max >= 4 {
      var st := Stream(Splice(before, 0, Header(e)), max, 4, 4, e);
      assert PutHeader(Stream(before, max, 0, 0, e)) == Some(st);
      PutShapeFits(st, s);
      PutShapeExactly(st, s);
      PayloadEnd(|s.color|);
      if PutShape(st, s).0 == Done {
        WrittenIsPayload(st, PutShape(st, s).1.buf, s);
      }
    }
  }

  /** A buffer that starts with a payload has the layout of its shape. */
  lemma CarriesExtends(w: seq<byte>, buf: seq<byte>, pos: nat, origin: nat, e: Endianness, s: Shape)
    requires origin <= pos && w <= buf && Carries(w, pos, origin, e, s)
    ensures Carries(buf, pos, origin, e, s)
  {
  }

  /** Reading a payload gives the shape back: with either byte order on either side, with any
      padding, from any previous object, and with any octets appended. */
  lemma RoundTrip(w: seq<byte>, e: Endianness, s: Shape, buf: seq<byte>, length: nat,
                  default: Endianness, previous: Sample)
    requires IsPayload(w, e, s) && w <= buf && |w| <= length <= |buf|
    ensures Decode(buf, length, default, previous) == (Returned(true), AsSample(s), e)
  {
    assert buf[..4] == w[..4];
    HeaderRead(buf, length, default, e);
    CarriesExtends(w, buf, 4, 4, e, s);
    PayloadEnd(|s.color|);
    CarriedIsRead(Stream(buf, length, 4, 4, e), s, previous);
  }

  /** Whatever serializing succeeds in writing over any old content, deserializing reads back. */
  lemma SerializedIsRead(before: seq<byte>, max: nat, e: Endianness, s: Shape,
                     default: Endianness, previous: Sample)
    requires max <= |before| && Encode(before, max, e, s).0 == Returned(true)
    ensures PayloadSize(|s.color|) <= max
    ensures Decode(Encode(before, max, e, s).1, PayloadSize(|s.color|), default, previous)
            == (Returned(true), AsSample(s), e)
  {
    var after, size := Encode(before, max, e, s).1, PayloadSize(|s.color|);
    EncodeLaws(before, max, e, s);
    RoundTrip(after[..size], e, s, after, size, default, previous);
  }

  /** Every strict prefix of a payload is refused: by an exception if the header is cut, by
      false if the shape is. */
  lemma StrictPrefixRefused(w: seq<byte>, e: Endianness, s: Shape, buf: seq<byte>, length: nat,
                            default: Endianness, previous: Sample)
    requires IsPayload(w, e, s) && length < |w| && length <= |buf| && buf[..length] == w[..length]
    ensures Decode(buf, length, default, previous).0
            == if length < 4 then Threw(NotEnoughMemory) else Returned(false)
  {
    if length >= 4 {
      assert buf[..4] == buf[..length][..4] == w[..length][..4] == w[..4];
      HeaderRead(buf, length, default, e);
      PayloadEnd(|s.color|);
      TruncatedThrows(Stream(buf, length, 4, 4, e), w, s, previous);
    }
  }

  /** What a refused prefix leaves in the object: the fields that lie within it are those of the
      shape, the others are as they were. */
  lemma PrefixLeaves(w: seq<byte>, e: Endianness, s: Shape, buf: seq<byte>, length: nat,
                     default: Endianness, previous: Sample)
    requires IsPayload(w, e, s) && length < |w| && length <= |buf| && buf[..length] == w[..length]
    ensures var n, b := |s.color|, IntegersAt(|s.color|);
            Decode(buf, length, default, previous).1
            == Sample(if 9 + n <= length then s.color else previous.color,
                      if b + 4 <= length then s.x else previous.x,
                      if b + 8 <= length then s.y else previous.y,
                      previous.shapesize)
  {
    if length >= 4 {
      var n, b := |s.color|, IntegersAt(|s.color|);
      IntegersAtX(n);
      assert buf[..4] == buf[..length][..4] == w[..length][..4] == w[..4];
      HeaderRead(buf, length, default, e);
      var st := Stream(buf, length, 4, 4, e);
      PrefixString(st, w, s);
      GetShapeFields(st, previous);
      if 9 + n <= length {
        var (status, r, pos) := GetShape(st, previous);
        PrefixWords(w, b, e, s, buf, length, 9 + n, previous, status, r, pos);
      }
    }
  }

  lemma PrefixWords(w: seq<byte>, b: nat, e: Endianness, s: Shape, buf: seq<byte>, length: nat, end: nat,
                    previous: Sample, status: Status, r: Sample, pos: nat)
    requires CarriesAt(w, 4, b, e, s) && length < b + 12 && length <= |buf| && buf[..length] == w[..length]
    requires LeavesWords(buf, length, e, b, end, previous, status, r, pos)
    ensures r.x == if b + 4 <= length then s.x else previous.x
    ensures r.y == if b + 8 <= length then s.y else previous.y
    ensures r.shapesize == previous.shapesize
  {
    CarriedIntegers(w, 4, b, e, s);
    if b + 4 <= length { SameSlice(buf, w, length, b, b + 4); }
    if b + 8 <= length { SameSlice(buf, w, length, b + 4, b + 8); }
  }

  lemma SameSlice(buf: seq<byte>, w: seq<byte>, length: nat, i: nat, j: nat)
    requires i <= j <= length <= |buf| && length <= |w| && buf[..length] == w[..length]
    ensures buf[i..j] == w[i..j]
  {
    assert buf[i..j] == buf[..length][i..j] == w[..length][i..j];
  }

  lemma PrefixString(st: Stream, w: seq<byte>, s: Shape)
    requires st.Valid() && st.pos == st.origin == 4 && st.limit < |w| && st.buf[..st.limit] == w[..st.limit]
    requires CarriesAt(w, 4, IntegersAt(|s.color|), st.endian, s)
    ensures StringAt(st.buf, st.limit, st.endian, 4)
            == if 9 + |s.color| <= st.limit then Some((s.color, 9 + |s.color|)) else None
  {
    var n, b := |s.color|, IntegersAt(|s.color|);
    TruncatedString(st.buf, st.limit, w, 4, b, st.endian, s);
    if 9 + n <= st.limit {
      SameSlice(st.buf, w, st.limit, 4, 8);
      SameSlice(st.buf, w, st.limit, 8, 8 + n);
      assert st.buf[8 + n] == st.buf[..st.limit][8 + n] == w[8 + n];
      CarriedString(w, |w|, 4, b, st.endian, s);
      CarriedLength(w, 4, b, st.endian, s);
    }
  }

  /** A call that throws leaves the object alone; any other treats the octets behind the header,
      in the byte order that its second octet names, as `GetShapeFields` says. */
  lemma DecodeFields(buf: seq<byte>, length: nat, default: Endianness, previous: Sample)
    requires length <= |buf|
    ensures var (r, after, e) := Decode(buf, length, default, previous);
            if length < 4 || buf[0] != 0 || buf[1] > 1 then after == previous && e == default
            else
              && e == (if buf[1] == 0 then BigEndian else LittleEndian)
              && var (status, read, _) := GetShape(Stream(buf, length, 4, 4, e), previous);
              && after == read && r == Returned(status == Done)
  {
  }

  /** Payloads are prefix-free: if one starts another, both are the same and carry the same
      shape in the same byte order. In particular the shape is determined by the octets. */
  lemma PrefixFree(w1: seq<byte>, e1: Endianness, s1: Shape, w2: seq<byte>, e2: Endianness, s2: Shape)
    requires IsPayload(w1, e1, s1) && IsPayload(w2, e2, s2) && w1 <= w2
    ensures s1 == s2 && e1 == e2 && w1 == w2
  {
    var previous := Sample([], 0, 0, 0);
    RoundTrip(w1, e1, s1, w2, |w2|, BigEndian, previous);
    RoundTrip(w2, e2, s2, w2, |w2|, BigEndian, previous);
  }

  /** Exactly when deserializing throws: the header is cut, or its identifier is neither CDR_BE
      nor CDR_LE. */
  lemma DecodeThrows(buf: seq<byte>, length: nat, default: Endianness, previous: Sample)
    requires length <= |buf|
    ensures var r := Decode(buf, length, default, previous).0;
            && (r == Threw(NotEnoughMemory) <==> length < 4)
            && (r == Threw(BadParam) <==> length >= 4 && (buf[0] != 0 || buf[1] > 1))
            && (r.Returned? <==> length >= 4 && buf[0] == 0 && buf[1] <= 1)
  {
  }

  /** An accepted buffer carries, behind its header, the sample returned exactly if its string
      is proper. */
  lemma AcceptedPayload(buf: seq<byte>, length: nat, default: Endianness, previous: Sample)
    requires length <= |buf| && Decode(buf, length, default, previous).0 == Returned(true)
    ensures var (_, after, e) := Decode(buf, length, default, previous);
            CarriesSample(buf, 4, 4, e, after) <==> ProperString(buf, length, e, 4)
  {
    var (_, st) := GetHeader(Stream(buf, length, 0, 0, default));
    AcceptedCarries(st, previous);
  }

  lemma ZeroWord(w: seq<byte>)
    requires |w| == 4 && forall i :: 0 <= i < 4 ==> w[i] == 0
    ensures DecodeU32(BigEndian, w) == 0 && DecodeI32(BigEndian, w) == 0
  {
    ByteOrder(0);
    DecodeEncode(BigEndian, 0);
    assert w == EncodeU32(BigEndian, 0);
  }

  lemma ZerosRead(st: Stream, previous: Sample)
    requires st.Valid() && st.pos == st.origin && st.limit == st.pos + 16 && st.endian.BigEndian?
    requires forall i :: st.pos <= i < st.limit ==> st.buf[i] == 0
    ensures GetShape(st, previous) == (Done, Sample([], 0, 0, 0), st.limit)
    ensures !ProperString(st.buf, st.limit, BigEndian, st.pos)
  {
    var a := st.pos;
    assert AlignUp(a, st.origin) == a;
    ZeroWord(st.buf[a..a + 4]);
    ZeroWord(st.buf[a + 4..a + 8]);
    ZeroWord(st.buf[a + 8..a + 12]);
    ZeroWord(st.buf[a + 12..a + 16]);
    ZeroLengthAccepted(st, previous);
  }

  /** A payload that is accepted though no writer makes it: twenty zeros read as the empty
      colour at the origin, but the length of a string counts its NUL. */
  lemma ZerosAccepted(w: seq<byte>, default: Endianness, previous: Sample)
    requires |w| == 20 && forall i :: 0 <= i < 20 ==> w[i] == 0
    ensures Decode(w, 20, default, previous) == (Returned(true), Sample([], 0, 0, 0), BigEndian)
    ensures !CarriesSample(w, 4, 4, BigEndian, Sample([], 0, 0, 0))
  {
    assert w[..4] == Header(BigEndian);
    HeaderRead(w, 20, default, BigEndian);
    ZerosRead(Stream(w, 20, 4, 4, BigEndian), previous);
    AcceptedPayload(w, 20, default, previous);
  }
}
