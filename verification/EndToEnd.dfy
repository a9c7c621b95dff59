/** From the loop to the receiver: what every sample of every run becomes on the wire, and what
    two type objects exchange. */
module EndToEnd {
  import opened Outcomes
  import opened Bytes
  import opened CdrWire
  import opened ShapeLaws
  import opened ShapeTypes
  import opened PayloadLaws
  import opened PubSubTypes
  import opened Pacer
  import opened DdsTime
  import opened CxxLoop
  import opened JavaLoop
  import opened LoopRefinement
  import opened Options
  import opened OptionLaws

  /** A colour that the IDL's bounded string admits. */
  predicate InBound(color: seq<byte>) {
    0 !in color && |color| <= COLOR_MAX_LENGTH
  }

  /** The k-th sample of a run, counting from 0, as a shape. */
  function NthShape(c: Config, k: nat): Shape
    requires InBound(c.color)
  {
    Shape(c.color, 5 * ((k + 1) % 50), c.y, 30)
  }

  /** Every sample that a run writes in a colour within the bound has a payload no longer than
      the type's size, and is read back unchanged from any such payload whatever the byte orders. */
  lemma EverySampleTravels(c: Config, ws: seq<Wakeup<int>>, k: nat, w: seq<byte>, e: Endianness,
                           default: Endianness, previous: Sample)
    requires InBound(c.color) && k < |Pacer.Run(c, ws).sends| && IsPayload(w, e, NthShape(c, k))
    ensures |w| <= PayloadSize(COLOR_MAX_LENGTH)
    ensures Decode(w, |w|, default, previous) == (Returned(true), Pacer.Run(c, ws).sends[k].sample, e)
  {
    RunInv(c, ws);
    CdrSizeMonotone(|c.color|, COLOR_MAX_LENGTH, 0);
    RoundTrip(w, e, NthShape(c, k), w, |w|, default, previous);
  }

  /** The shapes that a run writes, in order. */
  function RunShapes(c: Config, ws: seq<Wakeup<int>>): seq<Shape>
    requires InBound(c.color)
  {
    seq(|Pacer.Run(c, ws).sends|, k requires 0 <= k => NthShape(c, k))
  }

  /** One type object, in any state, computes one and the same key for all samples of a run. */
  lemma OneKeyPerRun(c: Config, ws: seq<Wakeup<int>>, hash: seq<byte> -> Digest, m: KeyMemory)
    requires InBound(c.color) && |m.buffer| == 69
    ensures var sends, handles := Pacer.Run(c, ws).sends, KeyRun(hash, m, RunShapes(c, ws));
            && |handles| == |sends|
            && forall k :: 0 <= k < |sends| ==>
                 AsSample(RunShapes(c, ws)[k]) == sends[k].sample && handles[k] == Some(hash(KeyOctets(c.color)))
  {
    RunInv(c, ws);
    KeyHistory(hash, m, RunShapes(c, ws));
  }

  /** A payload allocated with the type's size carries any shape in the bound from one object to
      another through two type objects, whatever byte order each defaults to and whatever the
      payload and the receiving object held. */
  method Exchange(writer: ShapeTypePubSubType, reader: ShapeTypePubSubType,
                  sample: ShapeType, payload: SerializedPayload, received: ShapeType)
    returns (written: CallResult, read: CallResult)
    requires writer.Valid() && payload.Valid() && writer.typeSize <= payload.maxSize
    requires InBound(sample.color) && sample != received
    modifies payload, payload.data, received
    ensures written == Returned(true) && read == Returned(true)
    ensures received.Value() == sample.Value()
    ensures payload.encapsulation == writer.defaultEndian
  {
    ghost var s, previous := sample.Sent(), received.Value();
    ghost var before := payload.data[..];
    InBoundIsRead(before, payload.maxSize, writer.defaultEndian, s, reader.defaultEndian, previous);
    written := writer.Serialize(sample, payload);
    read := reader.Deserialize(payload, received);
  }

  lemma InBoundIsRead(before: seq<byte>, max: nat, e: Endianness, s: Shape, default: Endianness, previous: Sample)
    requires |s.color| <= COLOR_MAX_LENGTH && PayloadSize(COLOR_MAX_LENGTH) <= max <= |before|
    ensures Encode(before, max, e, s).0 == Returned(true) && PayloadSize(|s.color|) <= |before|
    ensures Decode(Encode(before, max, e, s).1, PayloadSize(|s.color|), default, previous)
            == (Returned(true), AsSample(s), e)
  {
    CdrSizeMonotone(|s.color|, COLOR_MAX_LENGTH, 0);
    EncodeLaws(before, max, e, s);
    SerializedIsRead(before, max, e, s, default, previous);
  }

  // ---------------------------------------------------------------- the two programs

  /** A colour name whose characters are single octets. */
  predicate IsOctets(name: string) {
    forall i :: 0 <= i < |name| ==> name[i] as int < 256
  }

  function OctetsOf(name: string): seq<byte>
    requires IsOctets(name)
  {
    seq(|name|, i requires 0 <= i < |name| => name[i] as int)
  }

  function CxxRunConfig(s: Settings, period: Duration, start: Time): CxxConfig
    requires IsResolved(Cxx, s) && IsOctets(s.color.value)
  {
    CxxConfig(s.sub.Some?, s.pub.Some?, period, start, OctetsOf(s.color.value))
  }

  function JavaRunConfig(s: Settings, period: int64, start: int64, first: char16): JavaConfig
    requires IsResolved(Java, s) && IsOctets(s.color.value)
  {
    JavaConfig(s.sub.Some?, s.pub.Some?, period, start, OctetsOf(s.color.value), first)
  }

  /** The C++ program, given an argument list that it accepts, a period, a clock and samples. */
  function CxxProgram(n: Numerals, args: seq<string>, period: Duration, start: Time): CxxConfig
    requires CxxStarts(n, args)
  {
    CxxRunConfig(Resolve(Cxx, Parse(Cxx, n, args, INITIAL).s), period, start)
  }

  predicate CxxStarts(n: Numerals, args: seq<string>) {
    var p := Parse(Cxx, n, args, INITIAL);
    p.Accepted? && IsOctets(Resolve(Cxx, p.s).color.value)
  }

  /** What a command line of legal options asks the loops to do: publish if -pub is given or
      neither topic is, subscribe if -sub is given or neither topic is. */
  lemma RolesAsked(n: Numerals, gs: seq<Group>, period: Duration, javaPeriod: int64, first: char16, start: Time)
    requires AreLegal(Cxx, n, gs) && AreLegal(Java, n, gs)
    requires CxxStarts(n, Flatten(Cxx, n, gs))
    requires IsOctets(Resolve(Java, ApplyAll(Java, n, gs, INITIAL)).color.value)
    ensures var c := CxxProgram(n, Flatten(Cxx, n, gs), period, start);
            var j := JavaRunConfig(Resolve(Java, ApplyAll(Java, n, gs, INITIAL)), javaPeriod, TotalT(start), first);
            && c.writer == j.writer == (OfFlag(gs, Pub) != [] || OfFlag(gs, Sub) == [])
            && c.reader == j.reader == (OfFlag(gs, Sub) != [] || OfFlag(gs, Pub) == [])
            && c.period == period && c.start == start
            && j.period == javaPeriod && j.start == TotalT(start) && j.first == first
  {
    ParseGroups(Cxx, n, gs, INITIAL);
    GivenIsSome(Cxx, n, gs, Pub);
    GivenIsSome(Cxx, n, gs, Sub);
    GivenIsSome(Java, n, gs, Pub);
    GivenIsSome(Java, n, gs, Sub);
  }

  /** The colour that the C++ program sends has the characters of the last -color, or of the
      default, as its octets, in order. */
  lemma ColorAsked(n: Numerals, gs: seq<Group>, period: Duration, start: Time, shape0: Sample,
                   ws: seq<Wakeup<Time>>, k: nat)
    requires AreLegal(Cxx, n, gs) && CxxStarts(n, Flatten(Cxx, n, gs))
    requires CxxInRange(CxxProgram(n, Flatten(Cxx, n, gs), period, start), ws)
    requires k < |CxxRun(CxxProgram(n, Flatten(Cxx, n, gs), period, start), shape0, ws).sends|
    ensures var octets := CxxRun(CxxProgram(n, Flatten(Cxx, n, gs), period, start), shape0, ws).sends[k].sample.color;
            var name := LastColor(gs);
            |octets| == |name| && forall i :: 0 <= i < |name| ==> octets[i] == name[i] as int
  {
    ColorName(n, gs);
    CxxSamples(CxxProgram(n, Flatten(Cxx, n, gs), period, start), shape0, ws, k);
  }

  /** The Java program on the same list accepts it, and shows the same on the same clock and
      samples with a period of its own. `first` is what its character set makes of the start of
      the colour. */
  ghost predicate JavaFollows(n: Numerals, args: seq<string>, period: Duration, javaPeriod: int64, first: char16,
                              start: Time, shape0: Sample, ws: seq<Wakeup<Time>>)
    requires CxxStarts(n, args)
  {
    var p := Parse(Java, n, args, INITIAL);
    && p.Accepted?
    && IsOctets(Resolve(Java, p.s).color.value)
    && var java := JavaRun(JavaRunConfig(Resolve(Java, p.s), javaPeriod, TotalT(start), first), AbsWakeups(ws));
    && java.Some?
    && Observe(AbsJava(java.value)) == Observe(AbsCxx(CxxRun(CxxProgram(n, args, period, start), shape0, ws)))
  }

  /** From the command line to the samples: exactly when the Java program follows the C++
      program. Its numbers parse, no option of C++ alone is used, and either nothing is
      published, or no pass is made, or the periods are equal and, where a clock reading has
      reached the first due time, the colour given, or the default, starts alike for both. */
  lemma ProgramsAgree(n: Numerals, args: seq<string>, period: Duration, javaPeriod: int64, first: char16,
                      start: Time, shape0: Sample, ws: seq<Wakeup<Time>>)
    requires CxxStarts(n, args) && CxxInRange(CxxProgram(n, args, period, start), ws)
    ensures var c := CxxProgram(n, args, period, start);
            JavaFollows(n, args, period, javaPeriod, first, start, shape0, ws)
            <==> && NumbersParse(n, args) && !UsesCxxOnly(args)
                 && (|| !c.writer || ws == []
                     || (javaPeriod == TotalD(period)
                         && (!CxxSomethingDue(c, ws) || StartsAlike(c.color, first))))
  {
    var c := CxxProgram(n, args, period, start);
    SameRun(n, args);
    BehaviourAgrees(c, javaPeriod, first, shape0, ws);
    var j := Parse(Java, n, args, INITIAL);
    if j.Accepted? {
      assert JavaRunConfig(Resolve(Java, j.s), javaPeriod, TotalT(start), first) == JavaConfigOf(c, javaPeriod, first);
    }
  }

  /** With the periods of the code, 100 ms and 1 s, the Java program follows the C++ program
      exactly if it accepts the list and does not publish, or no pass is made. */
  lemma ShippedProgramsAgree(n: Numerals, args: seq<string>, first: char16, start: Time, shape0: Sample,
                             ws: seq<Wakeup<Time>>)
    requires CxxStarts(n, args) && CxxInRange(CxxProgram(n, args, Duration(0, 100_000_000), start), ws)
    ensures JavaFollows(n, args, Duration(0, 100_000_000), 1_000_000_000, first, start, shape0, ws)
            <==> && NumbersParse(n, args) && !UsesCxxOnly(args)
                 && (!CxxProgram(n, args, Duration(0, 100_000_000), start).writer || ws == [])
  {
    ProgramsAgree(n, args, Duration(0, 100_000_000), 1_000_000_000, first, start, shape0, ws);
  }
}
