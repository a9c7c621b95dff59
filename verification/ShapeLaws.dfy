/** The two descriptions of the wire format agree, and what follows for one encoding. */
module ShapeLaws {
  import opened Outcomes
  import opened Bytes
  import opened CdrWire

  // ---------------------------------------------------------------- sizes

  /** Octets that an encoding starting `off` octets after the alignment origin takes. */
  function CdrSize(n: nat, off: nat): (size: nat)
  {
    EndAt(off, 0, n) - off
  }

  /** Where an encoding ends follows from its size at the offset from the origin. */
  lemma EndIsSize(pos: nat, origin: nat, n: nat)
    requires origin <= pos
    ensures EndAt(pos, origin, n) == pos + CdrSize(n, pos - origin)
  {
  }

  /** The size depends on the starting offset only modulo 4. */
  lemma CdrSizeModulo4(n: nat, off: nat, off': nat)
    requires off % 4 == off' % 4
    ensures CdrSize(n, off) == CdrSize(n, off')
  {
    var k := (off - off') / 4;
    AlignUpShift(off', k);
    AlignUpShift(AlignUp(off', 0) + n + 5, k);
  }

  lemma AlignUpShift(off: nat, k: int)
    requires 0 <= off + 4 * k
    ensures AlignUp(off + 4 * k, 0) == AlignUp(off, 0) + 4 * k
  {
    var q := off / 4;
    assert off == 4 * q + off % 4;
    assert off + 4 * k == 4 * (q + k) + off % 4;
  }

  /** A colour within the bound never needs more than the bound does. */
  lemma CdrSizeMonotone(n: nat, m: nat, off: nat)
    requires n <= m
    ensures CdrSize(n, off) <= CdrSize(m, off)
  {
  }

  // ---------------------------------------------------------------- writing

  /** Once aligned, a stream stays aligned over items of four octets. */
  lemma AlignedStays(at: nat, origin: nat)
    requires origin <= at && (at - origin) % 4 == 0
    ensures AlignUp(at, origin) == at && (at + 4 - origin) % 4 == 0
  {
  }

  function WriteIfFits(buf: seq<byte>, limit: nat, at: nat, bs: seq<byte>): (r: seq<byte>)
    requires limit <= |buf|
    ensures |r| == |buf|
  {
    if at + |bs| <= limit then Splice(buf, at, bs) else buf
  }

  /** The string at `a` and three integers at `b`, as far as each fits. */
  function WriteItems(buf: seq<byte>, limit: nat, a: nat, bs: seq<byte>,
                      b: nat, v1: seq<byte>, v2: seq<byte>, v3: seq<byte>): (r: seq<byte>)
    requires limit <= |buf|
    ensures |r| == |buf|
  {
    WriteWords(WriteIfFits(buf, limit, a, bs), limit, b, v1, v2, v3)
  }

  function WriteWords(buf: seq<byte>, limit: nat, b: nat, v1: seq<byte>, v2: seq<byte>, v3: seq<byte>): (r: seq<byte>)
    requires limit <= |buf|
    ensures |r| == |buf|
  {
    WriteIfFits(WriteIfFits(WriteIfFits(buf, limit, b, v1), limit, b + 4, v2), limit, b + 8, v3)
  }

  /** The three integers of a shape, as octets, with the stream after those that fit. */
  function PutWords(st: Stream, v1: seq<byte>, v2: seq<byte>, v3: seq<byte>): (r: (Status, Stream))
    requires st.Valid()
  {
    match PutAligned(st, v1)
    case None => (NotEnoughMemory, st)
    case Some(st1) =>
      match PutAligned(st1, v2)
      case None => (NotEnoughMemory, st1)
      case Some(st2) =>
        match PutAligned(st2, v3)
        case None => (NotEnoughMemory, st2)
        case Some(st3) => (Done, st3)
  }

  lemma PutWord(st: Stream, b: nat, v: seq<byte>)
    requires st.Valid() && |v| == 4 && b == AlignUp(st.pos, st.origin)
    ensures PutAligned(st, v) ==
            if b + 4 <= st.limit then Some(st.(buf := WriteIfFits(st.buf, st.limit, b, v), pos := b + 4)) else None
    ensures AlignUp(b + 4, st.origin) == b + 4
  {
    AlignedStays(b, st.origin);
    AlignedStays(b + 4, st.origin);
  }

  lemma PutWordsResult(st: Stream, b: nat, v1: seq<byte>, v2: seq<byte>, v3: seq<byte>)
    requires st.Valid() && |v1| == |v2| == |v3| == 4 && b == AlignUp(st.pos, st.origin)
    ensures var (status, r) := PutWords(st, v1, v2, v3);
            && r.buf == WriteWords(st.buf, st.limit, b, v1, v2, v3)
            && (if b + 12 <= st.limit then status == Done && r.pos == b + 12 else status == NotEnoughMemory)
  {
    PutWord(st, b, v1);
    if b + 4 <= st.limit {
      var st1 := PutAligned(st, v1).value;
      PutWord(st1, b + 4, v2);
      if b + 8 <= st.limit {
        PutWord(PutAligned(st1, v2).value, b + 8, v3);
      }
    }
  }

  lemma PutShapeIsWords(st: Stream, s: Shape)
    requires st.Valid()
    ensures PutShape(st, s) ==
            match PutString(st, s.color)
            case None => (NotEnoughMemory, st)
            case Some(st1) =>
              PutWords(st1, EncodeI32(st.endian, s.x), EncodeI32(st.endian, s.y), EncodeI32(st.endian, s.shapesize))
  {
  }

  /** Serializing writes each field at its place, as far as they fit, and nothing else. */
  lemma PutShapeWrites(st: Stream, s: Shape)
    requires st.Valid()
    ensures var (status, r) := PutShape(st, s);
            var a, b := AlignUp(st.pos, st.origin), XAt(st.pos, st.origin, |s.color|);
            && r.buf == WriteItems(st.buf, st.limit, a, StringOctets(st.endian, s.color), b,
                                   EncodeI32(st.endian, s.x), EncodeI32(st.endian, s.y), EncodeI32(st.endian, s.shapesize))
            && (if b + 12 <= st.limit then status == Done && r.pos == b + 12 else status == NotEnoughMemory)
  {
    var v1, v2, v3 := EncodeI32(st.endian, s.x), EncodeI32(st.endian, s.y), EncodeI32(st.endian, s.shapesize);
    PutShapeIsWords(st, s);
    var st1 := PutString(st, s.color);
    if st1.Some? {
      PutWordsResult(st1.value, XAt(st.pos, st.origin, |s.color|), v1, v2, v3);
    }
  }

  /** Serializing succeeds exactly when the encoding fits, and then ends where the encoding does. */
  lemma PutShapeFits(st: Stream, s: Shape)
    requires st.Valid()
    ensures PutShape(st, s).0 == (if EndAt(st.pos, st.origin, |s.color|) <= st.limit then Done else NotEnoughMemory)
    ensures PutShape(st, s).0 == Done ==> PutShape(st, s).1.pos == EndAt(st.pos, st.origin, |s.color|)
  {
    PutShapeWrites(st, s);
  }

  /** Exact size: from every position, serializing succeeds exactly when the size that the size
      function computes for that offset fits, and then advances the stream by exactly it. */
  lemma ExactSize(st: Stream, s: Shape)
    requires st.Valid()
    ensures var size := CdrSize(|s.color|, st.pos - st.origin);
            && (PutShape(st, s).0 == Done <==> st.pos + size <= st.limit)
            && (PutShape(st, s).0 == Done ==> PutShape(st, s).1.pos == st.pos + size)
  {
    var end := EndAt(st.pos, st.origin, |s.color|);
    assert PutShape(st, s).0 == Done <==> end <= st.limit by {
      PutShapeFits(st, s);
    }
    assert PutShape(st, s).0 == Done ==> PutShape(st, s).1.pos == end by {
      PutShapeFits(st, s);
    }
    assert end == st.pos + CdrSize(|s.color|, st.pos - st.origin) by {
      EndIsSize(st.pos, st.origin, |s.color|);
    }
  }

  // Octet `i` belongs to an item of `n` octets at `at` that ends within the limit.
  predicate InItem(i: int, at: nat, n: nat, limit: nat) {
    at <= i < at + n <= limit
  }

  predicate ItemAt(buf: seq<byte>, limit: nat, at: nat, bs: seq<byte>)
    requires limit <= |buf|
  {
    at + |bs| <= limit ==> buf[at..at + |bs|] == bs
  }

  /** `after` is `before` with every item that ends within the limit written at its place, and
      with no other octet changed: neither padding nor those of an item that does not fit. */
  predicate WroteItems(before: seq<byte>, after: seq<byte>, limit: nat,
                       a: nat, bs: seq<byte>, b: nat, v1: seq<byte>, v2: seq<byte>, v3: seq<byte>)
    requires limit <= |before| == |after|
  {
    && ItemAt(after, limit, a, bs) && ItemAt(after, limit, b, v1)
    && ItemAt(after, limit, b + 4, v2) && ItemAt(after, limit, b + 8, v3)
    && forall i | 0 <= i < |after| && !InItem(i, a, |bs|, limit) && !InItem(i, b, |v1|, limit)
                  && !InItem(i, b + 4, |v2|, limit) && !InItem(i, b + 8, |v3|, limit) :: after[i] == before[i]
  }

  lemma WritesItem(buf: seq<byte>, limit: nat, at: nat, bs: seq<byte>)
    requires limit <= |buf|
    ensures var r := WriteIfFits(buf, limit, at, bs);
            ItemAt(r, limit, at, bs) && forall i | 0 <= i < |r| && !InItem(i, at, |bs|, limit) :: r[i] == buf[i]
  {
  }

  lemma KeepsItem(buf: seq<byte>, limit: nat, p: nat, item: seq<byte>, at: nat, bs: seq<byte>)
    requires limit <= |buf| && ItemAt(buf, limit, p, item) && p + |item| <= at
    ensures ItemAt(WriteIfFits(buf, limit, at, bs), limit, p, item)
  {
  }

  lemma ItemsWritten(buf: seq<byte>, limit: nat, a: nat, bs: seq<byte>, b: nat, v1: seq<byte>, v2: seq<byte>, v3: seq<byte>)
    requires limit <= |buf| && |v1| == |v2| == |v3| == 4 && a + |bs| <= b
    ensures WroteItems(buf, WriteItems(buf, limit, a, bs, b, v1, v2, v3), limit, a, bs, b, v1, v2, v3)
  {
    ItemsKept(buf, limit, a, bs, b, v1, v2, v3);
    OthersKept(buf, limit, a, bs, b, v1, v2, v3);
  }

  lemma OthersKept(buf: seq<byte>, limit: nat, a: nat, bs: seq<byte>, b: nat, v1: seq<byte>, v2: seq<byte>, v3: seq<byte>)
    requires limit <= |buf|
    ensures var r := WriteItems(buf, limit, a, bs, b, v1, v2, v3);
            forall i | 0 <= i < |r| && !InItem(i, a, |bs|, limit) && !InItem(i, b, |v1|, limit)
                       && !InItem(i, b + 4, |v2|, limit) && !InItem(i, b + 8, |v3|, limit) :: r[i] == buf[i]
  {
    var r1 := WriteIfFits(buf, limit, a, bs);
    var r2 := WriteIfFits(r1, limit, b, v1);
    var r3 := WriteIfFits(r2, limit, b + 4, v2);
    WritesItem(buf, limit, a, bs);
    WritesItem(r1, limit, b, v1);
    WritesItem(r2, limit, b + 4, v2);
    WritesItem(r3, limit, b + 8, v3);
  }

  lemma ItemsKept(buf: seq<byte>, limit: nat, a: nat, bs: seq<byte>, b: nat, v1: seq<byte>, v2: seq<byte>, v3: seq<byte>)
    requires limit <= |buf| && |v1| == |v2| == |v3| == 4 && a + |bs| <= b
    ensures var r := WriteItems(buf, limit, a, bs, b, v1, v2, v3);
            ItemAt(r, limit, a, bs) && ItemAt(r, limit, b, v1) && ItemAt(r, limit, b + 4, v2) && ItemAt(r, limit, b + 8, v3)
  {
    var r1 := WriteIfFits(buf, limit, a, bs);
    var r2 := WriteIfFits(r1, limit, b, v1);
    var r3 := WriteIfFits(r2, limit, b + 4, v2);
    WritesItem(buf, limit, a, bs);
    WritesItem(r1, limit, b, v1);
    WritesItem(r2, limit, b + 4, v2);
    WritesItem(r3, limit, b + 8, v3);
    KeepsItem(r1, limit, a, bs, b, v1);
    KeepsItem(r2, limit, a, bs, b + 4, v2);
    KeepsItem(r3, limit, a, bs, b + 8, v3);
    KeepsItem(r2, limit, b, v1, b + 4, v2);
    KeepsItem(r3, limit, b, v1, b + 8, v3);
    KeepsItem(r3, limit, b + 4, v2, b + 8, v3);
  }

  /** Every field of the shape that ends within the limit was written at its place, and nothing
      else. */
  predicate WroteWhatFits(before: seq<byte>, after: seq<byte>, limit: nat, pos: nat, origin: nat, e: Endianness, s: Shape)
    requires origin <= pos && limit <= |before| == |after|
  {
    WroteItems(before, after, limit, AlignUp(pos, origin), StringOctets(e, s.color),
               XAt(pos, origin, |s.color|), EncodeI32(e, s.x), EncodeI32(e, s.y), EncodeI32(e, s.shapesize))
  }

  lemma KeptBefore(before: seq<byte>, after: seq<byte>, limit: nat, pos: nat, origin: nat, e: Endianness, s: Shape)
    requires origin <= pos <= limit <= |before| == |after|
    requires WroteWhatFits(before, after, limit, pos, origin, e, s)
    ensures after[..pos] == before[..pos]
  {
    forall i | 0 <= i < pos ensures after[i] == before[i] {
      var b := XAt(pos, origin, |s.color|);
      assert !InItem(i, AlignUp(pos, origin), |StringOctets(e, s.color)|, limit) && !InItem(i, b, 4, limit);
      assert !InItem(i, b + 4, 4, limit) && !InItem(i, b + 8, 4, limit);
    }
  }

  /** Serializing writes exactly what fits, whether it then throws or not. */
  lemma PutShapeExactly(st: Stream, s: Shape)
    requires st.Valid()
    ensures |PutShape(st, s).1.buf| == |st.buf|
    ensures WroteWhatFits(st.buf, PutShape(st, s).1.buf, st.limit, st.pos, st.origin, st.endian, s)
  {
    PutShapeWrites(st, s);
    ItemsWritten(st.buf, st.limit, AlignUp(st.pos, st.origin), StringOctets(st.endian, s.color),
                 XAt(st.pos, st.origin, |s.color|), EncodeI32(st.endian, s.x), EncodeI32(st.endian, s.y),
                 EncodeI32(st.endian, s.shapesize));
  }

  /** Where serializing stops: behind the last field that fits, whether it then throws or not. */
  lemma PutShapeStops(st: Stream, s: Shape)
    requires st.Valid()
    ensures var r, b := PutShape(st, s).1, XAt(st.pos, st.origin, |s.color|);
            && r == st.(buf := r.buf, pos := r.pos)
            && r.pos == if AlignUp(st.pos, st.origin) + |s.color| + 5 > st.limit then st.pos
                        else if b + 4 > st.limit then AlignUp(st.pos, st.origin) + |s.color| + 5
                        else if b + 8 > st.limit then b + 4
                        else if b + 12 > st.limit then b + 8
                        else b + 12
  {
    PutShapeIsWords(st, s);
    var st1 := PutString(st, s.color);
    if st1.Some? {
      PutWordsStop(st1.value, XAt(st.pos, st.origin, |s.color|), EncodeI32(st.endian, s.x),
                   EncodeI32(st.endian, s.y), EncodeI32(st.endian, s.shapesize));
    }
  }

  lemma PutWordsStop(st: Stream, b: nat, v1: seq<byte>, v2: seq<byte>, v3: seq<byte>)
    requires st.Valid() && |v1| == |v2| == |v3| == 4 && b == AlignUp(st.pos, st.origin)
    ensures var r := PutWords(st, v1, v2, v3).1;
            && r == st.(buf := r.buf, pos := r.pos)
            && r.pos == if b + 4 > st.limit then st.pos else if b + 8 > st.limit then b + 4
                        else if b + 12 > st.limit then b + 8 else b + 12
  {
    PutWord(st, b, v1);
    if b + 4 <= st.limit {
      var st1 := PutAligned(st, v1).value;
      PutWord(st1, b + 4, v2);
      if b + 8 <= st.limit {
        PutWord(PutAligned(st1, v2).value, b + 8, v3);
      }
    }
  }

  /** When all fits, what was written is the encoding. */
  lemma WrittenIsCarried(before: seq<byte>, after: seq<byte>, limit: nat, pos: nat, origin: nat, e: Endianness, s: Shape)
    requires origin <= pos && limit <= |before| == |after| && EndAt(pos, origin, |s.color|) <= limit
    requires WroteWhatFits(before, after, limit, pos, origin, e, s)
    ensures Carries(after, pos, origin, e, s)
  {
  }

  // ---------------------------------------------------------------- reading

  /** The shape with colour `c` and the three integers at `b`. */
  function ReadAt(buf: seq<byte>, b: nat, e: Endianness, c: seq<byte>): Sample
    requires b + 12 <= |buf|
  {
    Sample(c, DecodeI32(e, buf[b..b + 4]), DecodeI32(e, buf[b + 4..b + 8]), DecodeI32(e, buf[b + 8..b + 12]))
  }

  /** After the string, a shape is three adjacent integers at the next multiple of 4. */
  lemma GetShapeAt(st: Stream, c: seq<byte>, p: nat, b: nat, previous: Sample)
    requires st.Valid() && st.origin <= p <= st.limit
    requires StringAt(st.buf, st.limit, st.endian, AlignUp(st.pos, st.origin)) == Some((c, p))
    requires b == AlignUp(p, st.origin)
    ensures if b + 12 <= st.limit
            then GetShape(st, previous) == (Done, ReadAt(st.buf, b, st.endian, c), b + 12)
            else GetShape(st, previous).0 == NotEnoughMemory
  {
    WordsRead(st.(pos := p), b, previous, c);
  }

  /** The string read: of the octets that the length field counts, without a trailing NUL. */
  lemma StringRead(buf: seq<byte>, limit: nat, e: Endianness, a: nat)
    requires limit <= |buf|
    ensures StringAt(buf, limit, e, a).None? <==> a + 4 > limit || a + 4 + DecodeU32(e, buf[a..a + 4]) > limit
    ensures StringAt(buf, limit, e, a).Some? ==>
              var (c, end) := StringAt(buf, limit, e, a).value;
              && end == a + 4 + DecodeU32(e, buf[a..a + 4])
              && c == if end > a + 4 && buf[end - 1] == 0 then buf[a + 4..end - 1] else buf[a + 4..end]
  {
  }

  /** The integers that reading leaves: those at `b` that end within the limit, and the old ones
      for the others. `end` is where reading them started. */
  ghost predicate LeavesWords(buf: seq<byte>, limit: nat, e: Endianness, b: nat, end: nat, previous: Sample,
                              status: Status, r: Sample, pos: nat)
    requires limit <= |buf|
  {
    && r.x == (if b + 4 <= limit then DecodeI32(e, buf[b..b + 4]) else previous.x)
    && r.y == (if b + 8 <= limit then DecodeI32(e, buf[b + 4..b + 8]) else previous.y)
    && r.shapesize == (if b + 12 <= limit then DecodeI32(e, buf[b + 8..b + 12]) else previous.shapesize)
    && status == (if b + 12 <= limit then Done else NotEnoughMemory)
    && pos == (if b + 12 <= limit then b + 12 else if b + 8 <= limit then b + 8 else if b + 4 <= limit then b + 4 else end)
  }

  /** What reading leaves in the object on every stream, field by field, whether it throws or not:
      a string that cannot be read leaves everything alone, any other is the colour. */
  lemma GetShapeFields(st: Stream, previous: Sample)
    requires st.Valid()
    ensures var (status, r, pos) := GetShape(st, previous);
            match StringAt(st.buf, st.limit, st.endian, AlignUp(st.pos, st.origin))
            case None => status == NotEnoughMemory && r == previous && pos == st.pos
            case Some((c, end)) =>
              && r.color == c
              && LeavesWords(st.buf, st.limit, st.endian, AlignUp(end, st.origin), end, previous, status, r, pos)
  {
    var s := StringAt(st.buf, st.limit, st.endian, AlignUp(st.pos, st.origin));
    if s.Some? {
      var (c, end) := s.value;
      WordsRead(st.(pos := end), AlignUp(end, st.origin), previous, c);
    }
  }

  lemma WordsRead(st: Stream, b: nat, previous: Sample, c: seq<byte>)
    requires st.Valid() && b == AlignUp(st.pos, st.origin)
    ensures var (status, r, pos) := GetWords(st, previous.(color := c));
            r.color == c && LeavesWords(st.buf, st.limit, st.endian, b, st.pos, previous, status, r, pos)
  {
    GetWord(st, b);
    if b + 4 <= st.limit {
      GetWord(st.(pos := b + 4), b + 4);
      if b + 8 <= st.limit {
        GetWord(st.(pos := b + 8), b + 8);
      }
    }
  }

  lemma GetWord(st: Stream, b: nat)
    requires st.Valid() && b == AlignUp(st.pos, st.origin)
    ensures GetI32(st) == if b + 4 > st.limit then None
                          else Some((DecodeI32(st.endian, st.buf[b..b + 4]), st.(pos := b + 4)))
    ensures AlignUp(b + 4, st.origin) == b + 4
  {
    AlignedStays(b, st.origin);
    AlignedStays(b + 4, st.origin);
  }

  lemma SubSlice(s: seq<byte>, i: nat, j: nat, k: nat, l: nat)
    requires i <= j <= |s| && k <= l <= j - i
    ensures s[i..j][k..l] == s[i + k..i + l]
  {
    assert forall x :: 0 <= x < l - k ==> s[i..j][k..l][x] == s[i..j][k + x];
  }

  lemma ThreeSlices(s: seq<byte>, i: nat, j: nat, k: nat, l: nat)
    requires i <= j <= k <= l <= |s|
    ensures s[i..l] == s[i..j] + s[j..k] + s[k..l]
  {
  }

  lemma CarriedLength(buf: seq<byte>, a: nat, b: nat, e: Endianness, s: Shape)
    requires CarriesAt(buf, a, b, e, s)
    ensures DecodeU32(e, buf[a..a + 4]) == |s.color| + 1
  {
    var n := |s.color|;
    assert buf[a..a + 4] == buf[a..a + 5 + n][..4] == EncodeU32(e, n + 1);
    DecodeEncode(e, n + 1);
  }

  lemma CarriedString(buf: seq<byte>, limit: nat, a: nat, b: nat, e: Endianness, s: Shape)
    requires CarriesAt(buf, a, b, e, s) && a + 5 + |s.color| <= limit <= |buf|
    ensures StringAt(buf, limit, e, a) == Some((s.color, a + 5 + |s.color|))
  {
    var n := |s.color|;
    CarriedLength(buf, a, b, e, s);
    SubSlice(buf, a, a + 5 + n, 4, 4 + n);
    assert buf[a + 4 + n] == buf[a..a + 5 + n][4 + n] == 0;
    assert buf[a..a + 5 + n][4..4 + n] == s.color;
  }

  lemma CarriedIntegers(buf: seq<byte>, a: nat, b: nat, e: Endianness, s: Shape)
    requires CarriesAt(buf, a, b, e, s)
    ensures ReadAt(buf, b, e, s.color) == AsSample(s)
  {
    DecodeEncodeI32(e, s.x);
    DecodeEncodeI32(e, s.y);
    DecodeEncodeI32(e, s.shapesize);
  }

  lemma ReadBack(st: Stream, c: seq<byte>, r: Sample, previous: Sample)
    requires st.Valid() && XAt(st.pos, st.origin, |c|) + 12 <= st.limit
    requires var a := AlignUp(st.pos, st.origin);
             StringAt(st.buf, st.limit, st.endian, a) == Some((c, a + 5 + |c|))
    requires ReadAt(st.buf, XAt(st.pos, st.origin, |c|), st.endian, c) == r
    ensures GetShape(st, previous) == (Done, r, EndAt(st.pos, st.origin, |c|))
  {
    var p, b := AlignUp(st.pos, st.origin) + 5 + |c|, XAt(st.pos, st.origin, |c|);
    assert b == AlignUp(p, st.origin);
    GetShapeAt(st, c, p, b, previous);
  }

  /** Any buffer with the layout reads back as the shape, whatever its padding holds and
      whatever follows the encoding. */
  lemma CarriedIsRead(st: Stream, s: Shape, previous: Sample)
    requires st.Valid() && Carries(st.buf, st.pos, st.origin, st.endian, s)
    requires EndAt(st.pos, st.origin, |s.color|) <= st.limit
    ensures GetShape(st, previous) == (Done, AsSample(s), EndAt(st.pos, st.origin, |s.color|))
  {
    var a, b := AlignUp(st.pos, st.origin), XAt(st.pos, st.origin, |s.color|);
    CarriedString(st.buf, st.limit, a, b, st.endian, s);
    CarriedIntegers(st.buf, a, b, st.endian, s);
    ReadBack(st, s.color, AsSample(s), previous);
  }

  /** A stream that ends before the encoding does makes the reader throw. */
  lemma TruncatedThrows(st: Stream, buf: seq<byte>, s: Shape, previous: Sample)
    requires st.Valid() && Carries(buf, st.pos, st.origin, st.endian, s)
    requires st.limit <= |buf| && st.buf[..st.limit] == buf[..st.limit]
    requires st.limit < EndAt(st.pos, st.origin, |s.color|)
    ensures GetShape(st, previous).0 == NotEnoughMemory
  {
    var n := |s.color|;
    var a, b := AlignUp(st.pos, st.origin), XAt(st.pos, st.origin, n);
    TruncatedString(st.buf, st.limit, buf, a, b, st.endian, s);
    if a + 5 + n <= st.limit {
      var r := StringAt(st.buf, st.limit, st.endian, a);
      GetShapeAt(st, r.value.0, a + 5 + n, b, previous);
    }
  }

  lemma TruncatedString(short: seq<byte>, limit: nat, buf: seq<byte>, a: nat, b: nat, e: Endianness, s: Shape)
    requires CarriesAt(buf, a, b, e, s)
    requires limit <= |short| && limit <= |buf| && short[..limit] == buf[..limit]
    ensures var r := StringAt(short, limit, e, a);
            if a + 5 + |s.color| <= limit then r.Some? && r.value.1 == a + 5 + |s.color| else r.None?
  {
    CarriedLength(buf, a, b, e, s);
    if a + 4 <= limit {
      assert short[a..a + 4] == short[..limit][a..a + 4] == buf[..limit][a..a + 4] == buf[a..a + 4];
    }
  }

  /** The string at `a` is one that a writer may produce: a positive length, a NUL at its
      end and no other. */
  predicate ProperString(buf: seq<byte>, limit: nat, e: Endianness, a: nat)
    requires limit <= |buf|
  {
    && a + 4 <= limit
    && var n := DecodeU32(e, buf[a..a + 4]);
    && 0 < n && a + 4 + n <= limit
    && buf[a + 3 + n] == 0
    && 0 !in buf[a + 4..a + 3 + n]
  }

  lemma ProperStringRead(buf: seq<byte>, limit: nat, e: Endianness, a: nat) returns (c: Color)
    requires limit <= |buf| && ProperString(buf, limit, e, a)
    ensures a + 5 + |c| <= limit
    ensures StringAt(buf, limit, e, a) == Some((c, a + 5 + |c|))
    ensures buf[a..a + 5 + |c|] == StringOctets(e, c)
  {
    var m := DecodeU32(e, buf[a..a + 4]);
    c := buf[a + 4..a + 3 + m];
    assert EncodeU32(e, |c| + 1) == buf[a..a + 4] by {
      EncodeDecode(e, buf[a..a + 4]);
    }
    ThreeSlices(buf, a, a + 4, a + 3 + m, a + 4 + m);
    assert buf[a + 3 + m..a + 4 + m] == [0];
  }

  lemma GetShapeDone(st: Stream, c: seq<byte>, previous: Sample)
    requires st.Valid() && GetShape(st, previous).0 == Done
    requires StringAt(st.buf, st.limit, st.endian, AlignUp(st.pos, st.origin))
             == Some((c, AlignUp(st.pos, st.origin) + 5 + |c|))
    ensures XAt(st.pos, st.origin, |c|) + 12 <= |st.buf|
    ensures GetShape(st, previous).1 == ReadAt(st.buf, XAt(st.pos, st.origin, |c|), st.endian, c)
  {
    GetShapeAt(st, c, AlignUp(st.pos, st.origin) + 5 + |c|, XAt(st.pos, st.origin, |c|), previous);
  }

  lemma AcceptedIsCarried(st: Stream, previous: Sample) returns (s: Shape)
    requires st.Valid() && ProperString(st.buf, st.limit, st.endian, AlignUp(st.pos, st.origin))
    requires GetShape(st, previous).0 == Done
    ensures Carries(st.buf, st.pos, st.origin, st.endian, s)
    ensures GetShape(st, previous).1 == AsSample(s)
  {
    var a := AlignUp(st.pos, st.origin);
    var c := ProperStringRead(st.buf, st.limit, st.endian, a);
    s := CarriedAfterString(st, a, c, previous);
  }

  lemma CarriedAfterString(st: Stream, a: nat, c: Color, previous: Sample) returns (s: Shape)
    requires st.Valid() && GetShape(st, previous).0 == Done && a == AlignUp(st.pos, st.origin)
    requires StringAt(st.buf, st.limit, st.endian, a) == Some((c, a + 5 + |c|))
    requires a + 5 + |c| <= |st.buf| && st.buf[a..a + 5 + |c|] == StringOctets(st.endian, c)
    ensures Carries(st.buf, st.pos, st.origin, st.endian, s)
    ensures GetShape(st, previous).1 == AsSample(s)
  {
    GetShapeDone(st, c, previous);
    s := CarriedBy(st.buf, a, XAt(st.pos, st.origin, |c|), st.endian, c);
  }

  lemma CarriedIsProper(buf: seq<byte>, limit: nat, a: nat, b: nat, e: Endianness, s: Shape)
    requires CarriesAt(buf, a, b, e, s) && limit <= |buf| && StringAt(buf, limit, e, a).Some?
    ensures ProperString(buf, limit, e, a)
  {
    var n := |s.color|;
    CarriedLength(buf, a, b, e, s);
    SubSlice(buf, a, a + 5 + n, 4, 4 + n);
    assert buf[a + 4 + n] == buf[a..a + 5 + n][4 + n] == 0;
    assert buf[a..a + 5 + n][4..4 + n] == s.color;
  }

  /** The buffer carries a sample: its colour can be sent and the layout is that of its shape. */
  predicate CarriesSample(buf: seq<byte>, pos: nat, origin: nat, e: Endianness, r: Sample)
    requires origin <= pos
  {
    0 !in r.color && |r.color| + 1 < TWO_TO_THE_32
    && Carries(buf, pos, origin, e, Shape(r.color, r.x, r.y, r.shapesize))
  }

  /** Reading inverts writing from the other side: an accepted buffer carries the sample that the
      reader returns exactly if its string is proper. */
  lemma AcceptedCarries(st: Stream, previous: Sample)
    requires st.Valid() && GetShape(st, previous).0 == Done
    ensures CarriesSample(st.buf, st.pos, st.origin, st.endian, GetShape(st, previous).1)
            <==> ProperString(st.buf, st.limit, st.endian, AlignUp(st.pos, st.origin))
  {
    var r, a := GetShape(st, previous).1, AlignUp(st.pos, st.origin);
    if ProperString(st.buf, st.limit, st.endian, a) {
      var s := AcceptedIsCarried(st, previous);
    } else if CarriesSample(st.buf, st.pos, st.origin, st.endian, r) {
      CarriedIsProper(st.buf, st.limit, a, XAt(st.pos, st.origin, |r.color|), st.endian,
                      Shape(r.color, r.x, r.y, r.shapesize));
    }
  }

  /** An improper string that is accepted: a length of zero reads as the empty colour. */
  lemma ZeroLengthAccepted(st: Stream, previous: Sample)
    requires st.Valid() && AlignUp(st.pos, st.origin) + 16 <= st.limit
    requires var a := AlignUp(st.pos, st.origin); DecodeU32(st.endian, st.buf[a..a + 4]) == 0
    ensures var a := AlignUp(st.pos, st.origin);
            && GetShape(st, previous) == (Done, ReadAt(st.buf, a + 4, st.endian, []), a + 16)
            && !ProperString(st.buf, st.limit, st.endian, a)
  {
    var a := AlignUp(st.pos, st.origin);
    AlignedStays(a, st.origin);
    AlignedStays(a + 4, st.origin);
    GetShapeAt(st, [], a + 4, a + 4, previous);
  }

  lemma CarriedBy(buf: seq<byte>, a: nat, b: nat, e: Endianness, c: Color) returns (s: Shape)
    requires a + 5 + |c| <= b && b + 12 <= |buf|
    requires buf[a..a + 5 + |c|] == StringOctets(e, c)
    ensures s.color == c && AsSample(s) == ReadAt(buf, b, e, c) && CarriesAt(buf, a, b, e, s)
  {
    var r := ReadAt(buf, b, e, c);
    s := Shape(c, r.x, r.y, r.shapesize);
    EncodeDecodeI32(e, buf[b..b + 4]);
    EncodeDecodeI32(e, buf[b + 4..b + 8]);
    EncodeDecodeI32(e, buf[b + 8..b + 12]);
  }
}
