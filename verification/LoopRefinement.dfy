/** Both programs' loops refine the machine on integers over whole runs, and so agree with
    each other; the machine's laws hold of what the programs send. */
module LoopRefinement {
  import opened Outcomes
  import opened Bytes
  import opened CdrWire
  import opened DdsTime
  import opened Pacer
  import opened CxxLoop
  import opened JavaLoop

  // ---------------------------------------------------------------- C++ to the machine

  function AbsConfig(c: CxxConfig): Config {
    Config(c.reader, c.writer, TotalD(c.period), TotalT(c.start), c.color, CxxY(c.color))
  }

  // A total of two 32-bit fields always fits 64 bits.
  function AbsWakeup(w: Wakeup<Time>): Wakeup<int64> {
    Wakeup(w.taken, TotalT(w.clock))
  }

  function AbsWakeups(ws: seq<Wakeup<Time>>): seq<Wakeup<int64>> {
    seq(|ws|, i requires 0 <= i < |ws| => AbsWakeup(ws[i]))
  }

  function AbsSends(sends: seq<Send<Time>>): seq<Send<int>> {
    seq(|sends|, i requires 0 <= i < |sends| => Send(TotalT(sends[i].at), sends[i].sample))
  }

  function AbsTimeout(d: Duration): Option<int> {
    if d == DURATION_INFINITE then None else Some(TotalD(d))
  }

  function AbsTimeouts(ds: seq<Duration>): seq<Option<int>> {
    seq(|ds|, i requires 0 <= i < |ds| => AbsTimeout(ds[i]))
  }

  function AbsCxx(s: CxxState): State {
    State(s.waitCount, s.sentCount, s.recvCount, TotalT(s.last), TotalT(s.next), AbsTimeout(s.timeout),
          AbsSends(s.sends), AbsTimeouts(s.timeouts))
  }

  /** A normalized time to which the period can be added within 32-bit seconds. */
  predicate RoomFor(t: Time, period: Duration) {
    Normal(t.nanosec) && InRange(TotalT(t) + TotalD(period))
  }

  ghost predicate CxxInRange(c: CxxConfig, ws: seq<Wakeup<Time>>) {
    && Normal(c.period.nanosec) && RoomFor(c.start, c.period)
    && (c.writer ==> forall i :: 0 <= i < |ws| ==> RoomFor(ws[i].clock, c.period))
  }

  lemma AddPeriod(t: Time, period: Duration)
    requires Normal(period.nanosec) && RoomFor(t, period)
    ensures Normal(Add(t, AsTime(period)).nanosec)
    ensures TotalT(Add(t, AsTime(period))) == TotalT(t) + TotalD(period)
  {
    AddTotals(t, AsTime(period));
  }

  lemma SubtractTimes(a: Time, b: Time)
    requires Normal(a.nanosec) && Normal(b.nanosec) && InRange(TotalT(a) - TotalT(b))
    ensures AbsTimeout(Subtract(AsDuration(a), AsDuration(b))) == Some(TotalT(a) - TotalT(b))
  {
    SubtractTotals(AsDuration(a), AsDuration(b));
  }

  lemma ReceiveRefines(c: CxxConfig, s: CxxState, w: Wakeup<Time>)
    ensures AbsCxx(CxxReceive(c, s, w.taken))
            == AbsCxx(s).(waitCount := s.waitCount + 1,
                          timeouts := AbsTimeouts(s.timeouts) + [AbsTimeout(s.timeout)],
                          recvCount := if c.reader then s.recvCount + CountValid(w.taken) else s.recvCount)
  {
  }

  /** What a C++ state keeps: normalized times whose distances fit a duration. */
  ghost predicate CxxInv(c: CxxConfig, s: CxxState) {
    && Normal(s.last.nanosec) && Normal(s.next.nanosec)
    && InRange(TotalT(s.next) - TotalT(s.last))
  }

  lemma PublishRefines(c: CxxConfig, s: CxxState, now: Time)
    requires Normal(c.period.nanosec) && RoomFor(now, c.period) && CxxInv(c, s)
    ensures CxxInv(c, CxxPublish(c, s, now))
    ensures var p := AbsCxx(s);
            AbsCxx(CxxPublish(c, s, now)) ==
            if TotalT(now) < p.next then p.(timeout := Some(p.next - p.last))
            else p.(sentCount := p.sentCount + 1, last := TotalT(now), next := TotalT(now) + TotalD(c.period),
                    timeout := Some(TotalD(c.period)),
                    sends := p.sends + [Send(TotalT(now), NthSample(c.color, CxxY(c.color), p.sentCount + 1))])
  {
    OrderIsTotal(now, s.next);
    var s2 := if AtLeast(now, s.next) then CxxWrite(c, s, now) else s;
    if AtLeast(now, s.next) {
      AddPeriod(now, c.period);
      var send := Send(now, NthSample(c.color, CxxY(c.color), s.sentCount + 1));
      assert s2.sends == s.sends + [send];
      assert AbsSends(s2.sends) == AbsSends(s.sends) + [Send(TotalT(now), send.sample)];
    }
    SubtractTimes(s2.next, s2.last);
  }

  lemma StepRefines(c: CxxConfig, s: CxxState, w: Wakeup<Time>)
    requires Normal(c.period.nanosec) && (c.writer ==> RoomFor(w.clock, c.period)) && CxxInv(c, s)
    ensures CxxInv(c, CxxStep(c, s, w))
    ensures AbsCxx(CxxStep(c, s, w)) == Step(AbsConfig(c), AbsCxx(s), AbsWakeup(w))
  {
    ReceiveRefines(c, s, w);
    if c.writer {
      PublishRefines(c, CxxReceive(c, s, w.taken), w.clock);
    }
  }

  lemma InitRefines(c: CxxConfig, shape0: Sample)
    requires Normal(c.period.nanosec) && RoomFor(c.start, c.period)
    ensures AbsCxx(CxxInit(c, shape0)) == Init(AbsConfig(c)) && CxxInv(c, CxxInit(c, shape0))
  {
    AddPeriod(c.start, c.period);
    assert AbsSends([]) == [] && AbsTimeouts([]) == [];
  }

  /** The C++ loop, in 32-bit seconds and nanoseconds with carries and borrows, refines the
      machine over every run whose times leave room for the period. What it writes depends
      neither on the samples received into the same buffer nor on the buffer's first content. */
  lemma {:induction false} CxxRefines(c: CxxConfig, shape0: Sample, ws: seq<Wakeup<Time>>)
    requires CxxInRange(c, ws)
    ensures AbsCxx(CxxRun(c, shape0, ws)) == Pacer.Run(AbsConfig(c), AbsWakeups(ws))
    ensures CxxInv(c, CxxRun(c, shape0, ws))
  {
    if ws == [] {
      InitRefines(c, shape0);
    } else {
      var n := |ws| - 1;
      CxxRefines(c, shape0, ws[..n]);
      assert AbsWakeups(ws)[..n] == AbsWakeups(ws[..n]);
      StepRefines(c, CxxRun(c, shape0, ws[..n]), ws[n]);
    }
  }

  // ---------------------------------------------------------------- Java to the machine

  function AbsJavaConfig(c: JavaConfig): Config {
    Config(c.reader, c.writer, c.period, c.start, c.color, JavaY(c.first))
  }

  function AbsJava(s: JavaState): State {
    State(s.waitCount, s.sentCount, s.recvCount, s.last, s.next, s.timeout, s.sends, s.timeouts)
  }

  ghost predicate JavaInRange(c: JavaConfig, ws: seq<Wakeup<int64>>) {
    && FitsLong(c.start + c.period)
    && (c.writer ==> forall i :: 0 <= i < |ws| ==> FitsLong(ws[i].clock + c.period))
  }

  lemma WrapI64Exact(i: int)
    requires FitsLong(i)
    ensures WrapI64(i) == i
  {
  }

  /** Out of range, Java's sums and differences wrap around. */
  lemma WrapI64Congruent(i: int)
    ensures (i - WrapI64(i)) % 0x1_0000_0000_0000_0000 == 0
  {
    assert i == i / 0x1_0000_0000_0000_0000 * 0x1_0000_0000_0000_0000 + i % 0x1_0000_0000_0000_0000;
  }

  lemma JavaStepRefines(c: JavaConfig, s: JavaState, w: Wakeup<int64>)
    requires c.writer ==> FitsLong(w.clock + c.period) && FitsLong(s.next - s.last)
    ensures JavaStep(c, s, w).None? <==> c.color == [] && c.writer && w.clock >= s.next
    ensures JavaStep(c, s, w).Some? ==>
              AbsJava(JavaStep(c, s, w).value) == Step(AbsJavaConfig(c), AbsJava(s), w)
  {
    if c.writer {
      WrapI64Exact(w.clock + c.period);
      WrapI64Exact(c.period);
      WrapI64Exact(s.next - s.last);
    }
  }

  predicate JavaSomethingDue(c: JavaConfig, ws: seq<Wakeup<int64>>) {
    c.writer && exists i :: 0 <= i < |ws| && ws[i].clock >= c.start + c.period
  }

  /** The Java loop on 64-bit nanoseconds refines the machine; it is ended by an exception
      exactly when the colour is empty and a clock reading has reached the first due time. */
  lemma JavaRefines(c: JavaConfig, ws: seq<Wakeup<int64>>)
    requires JavaInRange(c, ws)
    ensures JavaRun(c, ws).None? <==> c.color == [] && JavaSomethingDue(c, ws)
    ensures JavaRun(c, ws).Some? ==> AbsJava(JavaRun(c, ws).value) == Pacer.Run(AbsJavaConfig(c), ws)
  {
    JavaFollowsMachine(c, ws);
    SendsIfDue(AbsJavaConfig(c), ws);
  }

  lemma {:induction false} JavaFollowsMachine(c: JavaConfig, ws: seq<Wakeup<int64>>)
    requires JavaInRange(c, ws)
    ensures JavaRun(c, ws).None? <==> c.color == [] && Pacer.Run(AbsJavaConfig(c), ws).sentCount > 0
    ensures JavaRun(c, ws).Some? ==> AbsJava(JavaRun(c, ws).value) == Pacer.Run(AbsJavaConfig(c), ws)
  {
    var p := AbsJavaConfig(c);
    if ws == [] {
      WrapI64Exact(c.start + c.period);
    } else {
      var prefix, w := ws[..|ws| - 1], ws[|ws| - 1];
      JavaFollowsMachine(c, prefix);
      RunInv(p, prefix);
      var before := JavaRun(c, prefix);
      assert JavaRun(c, ws) == if before.None? then None else JavaStep(c, before.value, w);
      assert Pacer.Run(p, ws) == Step(p, Pacer.Run(p, prefix), w);
      if before.Some? {
        JavaStepRefines(c, before.value, w);
      }
    }
  }

  // ---------------------------------------------------------------- the two programs

  /** The Java configuration for the same endpoints, start and colour, with a period of its own
      and the character that Java makes of the start of the colour. */
  function JavaConfigOf(c: CxxConfig, period: int64, first: char16): JavaConfig {
    JavaConfig(c.reader, c.writer, period, TotalT(c.start), c.color, first)
  }

  /** The publishing C++ loop reads the clock at or after start and period. */
  predicate CxxSomethingDue(c: CxxConfig, ws: seq<Wakeup<Time>>) {
    c.writer && exists i :: 0 <= i < |ws| && TotalT(ws[i].clock) >= TotalT(c.start) + TotalD(c.period)
  }

  lemma SameDue(c: CxxConfig, ws: seq<Wakeup<Time>>)
    ensures CxxSomethingDue(c, ws) <==> SomethingDue(AbsConfig(c), AbsWakeups(ws))
  {
    var p, abs := AbsConfig(c), AbsWakeups(ws);
    assert forall i :: 0 <= i < |ws| ==> abs[i].clock == TotalT(ws[i].clock);
    if CxxSomethingDue(c, ws) {
      var i :| 0 <= i < |ws| && TotalT(ws[i].clock) >= TotalT(c.start) + TotalD(c.period);
      assert abs[i].clock >= p.start + p.period;
    }
  }

  /** What a run shows: its counts, the samples sent and when, the timeouts it waited with. */
  datatype Observation = Observation(
    waitCount: nat, sentCount: nat, recvCount: nat, sends: seq<Send<int>>, timeouts: seq<Option<int>>)

  function Observe(s: State): Observation {
    Observation(s.waitCount, s.sentCount, s.recvCount, s.sends, s.timeouts)
  }

  /** A C char and a Java char that are a multiple of 125 apart, and on the same side of 'A'
      unless they are a multiple of 125 away from it. */
  predicate SameY(a: int, ch: char16) {
    (ch - a) % 125 == 0 && ((ch - 'A' as int) % 125 == 0 || (a < 'A' as int <==> ch < 'A' as int))
  }

  lemma FourTimes(a: int)
    ensures 4 * a % 250 == var r := a % 125; if r <= 62 then 4 * r else 4 * r - 250
  {
    var k, r := a / 125, a % 125;
    if r <= 62 {
      Remainder(4 * a, 2 * k, 4 * r);
    } else {
      Remainder(4 * a, 2 * k + 1, 4 * r - 250);
    }
  }

  lemma Remainder(a: int, q: int, r: int)
    requires a == 250 * q + r && 0 <= r < 250
    ensures a % 250 == r
  {
  }

  lemma FourTimesAlike(a: int, b: int)
    ensures 4 * a % 250 == 4 * b % 250 <==> a % 125 == b % 125
    ensures 4 * a % 250 == 0 <==> a % 125 == 0
  {
    FourTimes(a);
    FourTimes(b);
  }

  lemma Congruent(a: int, b: int)
    ensures (b - a) % 125 == 0 <==> a % 125 == b % 125
  {
  }

  lemma Opposite(a: int)
    ensures a % 125 == 0 <==> -a % 125 == 0
  {
  }

  lemma SameRemainder(a: int, b: int)
    ensures Remainder250(4 * a) == Remainder250(4 * b)
            <==> (b - a) % 125 == 0 && (b % 125 == 0 || (a < 0 <==> b < 0))
  {
    Congruent(a, b);
    if a < 0 && b < 0 {
      assert Remainder250(4 * a) == -(4 * -a % 250) && Remainder250(4 * b) == -(4 * -b % 250);
      FourTimesAlike(-a, -b);
      Congruent(-b, -a);
    } else if a < 0 {
      FourTimesAlike(-a, b);
      FourTimesAlike(b, -a);
      Opposite(a);
    } else if b < 0 {
      FourTimesAlike(a, -b);
      FourTimesAlike(-b, a);
      Opposite(b);
    } else {
      FourTimesAlike(a, b);
    }
  }

  /** The vertical positions agree exactly for such a first octet and first character. */
  lemma YAgrees(color: seq<byte>, first: char16)
    requires color != []
    ensures CxxY(color) == JavaY(first) <==> SameY(CharAt0(color), first)
  {
    SameRemainder(CharAt0(color) - 'A' as int, first - 'A' as int);
  }

  /** If Java takes octets as characters one to one, they agree exactly for ASCII. */
  lemma YAgreesOneToOne(color: seq<byte>, first: char16)
    requires color != [] && first == color[0]
    ensures SameY(CharAt0(color), first) <==> first < 128
  {
  }

  /** First octet of the UTF-8 encoding of a text whose first UTF-16 code unit is `ch`. */
  function Utf8Lead(ch: char16): (octet: byte)
    requires !(0xDC00 <= ch < 0xE000)
  {
    if ch < 0x80 then ch
    else if ch < 0x800 then 0xC0 + ch / 0x40
    else if 0xD800 <= ch < 0xDC00 then 0xF0 + (0x1_0000 + (ch - 0xD800) * 0x400) / 0x4_0000
    else 0xE0 + ch / 0x1000
  }

  /** If Java decodes the octets as UTF-8, they agree exactly for ASCII and for U+013B. */
  lemma YAgreesUtf8(color: seq<byte>, first: char16)
    requires color != [] && !(0xDC00 <= first < 0xE000) && color[0] == Utf8Lead(first)
    ensures SameY(CharAt0(color), first) <==> first < 128 || first == 0x13B
  {
    LeadRange(first);
    if first >= 128 {
      assert CharAt0(color) + 0x100 == color[0] as int;
      if color[0] == 0xC4 {
        assert first == 0x13B <==> (first - 'A' as int) % 125 == 0;
      } else {
        FarFromA(CharAt0(color), first);
      }
    }
  }

  lemma LeadRange(ch: char16)
    requires !(0xDC00 <= ch < 0xE000)
    ensures ch < 128 ==> Utf8Lead(ch) == ch
    ensures ch >= 128 ==> 0xC2 <= Utf8Lead(ch) < 0xF5 && (Utf8Lead(ch) == 0xC4 <==> 0x100 <= ch < 0x140)
  {
  }

  lemma FarFromA(a: int, ch: char16)
    requires -62 <= a < 0 && a != -60 && ch >= 128
    ensures !SameY(a, ch)
  {
    assert (a - 'A' as int) % 125 != 0;
  }

  ghost predicate SameButY(r: State, r': State, y: int32) {
    && r' == r.(sends := r'.sends) && |r'.sends| == |r.sends|
    && forall k :: 0 <= k < |r.sends| ==> r'.sends[k] == r.sends[k].(sample := r.sends[k].sample.(y := y))
  }

  lemma StepIgnoresY(c: Config, y: int32, s: State, s': State, w: Wakeup<int>)
    requires SameButY(s, s', y)
    ensures SameButY(Step(c, s, w), Step(c.(y := y), s', w), y)
  {
  }

  /** The machine's schedule does not depend on the vertical position it writes. */
  lemma {:induction false} ScheduleIgnoresY(c: Config, y: int32, ws: seq<Wakeup<int>>)
    ensures SameButY(Pacer.Run(c, ws), Pacer.Run(c.(y := y), ws), y)
  {
    if ws != [] {
      var prefix := ws[..|ws| - 1];
      ScheduleIgnoresY(c, y, prefix);
      StepIgnoresY(c, y, Pacer.Run(c, prefix), Pacer.Run(c.(y := y), prefix), ws[|ws| - 1]);
    }
  }

  /** The first octet of the colour and Java's first character give the same y. */
  predicate StartsAlike(color: seq<byte>, first: char16) {
    color != [] && SameY(CharAt0(color), first)
  }

  /** With one period, the C++ loop and the Java loop pass through the same states and show the
      same, exactly if nothing was due or the colour starts alike for both. */
  lemma LoopsAgree(c: CxxConfig, first: char16, shape0: Sample, ws: seq<Wakeup<Time>>)
    requires CxxInRange(c, ws)
    ensures var cxx := CxxRun(c, shape0, ws);
            var java := JavaRun(JavaConfigOf(c, TotalD(c.period), first), AbsWakeups(ws));
            && (java.Some? && AbsJava(java.value) == AbsCxx(cxx)
                <==> !CxxSomethingDue(c, ws) || StartsAlike(c.color, first))
            && (java.Some? && Observe(AbsJava(java.value)) == Observe(AbsCxx(cxx))
                <==> !CxxSomethingDue(c, ws) || StartsAlike(c.color, first))
  {
    CxxRefines(c, shape0, ws);
    SameDue(c, ws);
    var jws := AbsWakeups(ws);
    var p := AbsConfig(c);
    SendsIfDue(p, jws);
    RunInv(p, jws);
    var j := JavaConfigOf(c, TotalD(c.period), first);
    JavaRefines(j, jws);
    var y := JavaY(first);
    assert AbsJavaConfig(j) == p.(y := y);
    ScheduleIgnoresY(p, y, jws);
    SameIffSameY(p, y, Pacer.Run(p, jws), Pacer.Run(p.(y := y), jws));
    if c.color != [] {
      YAgrees(c.color, first);
    }
  }

  lemma SameIffSameY(c: Config, y: int32, r: State, r': State)
    requires Inv(c, r) && SameButY(r, r', y)
    ensures r' == r <==> r.sentCount == 0 || c.y == y
    ensures Observe(r') == Observe(r) <==> r.sentCount == 0 || c.y == y
  {
    if r.sentCount > 0 && c.y != y {
      assert r.sends[0].sample.y == c.y && r'.sends[0].sample.y == y;
    } else {
      assert r'.sends == r.sends;
    }
  }

  lemma {:induction false} JavaFirstTimeout(c: JavaConfig, ws: seq<Wakeup<int64>>)
    requires ws != [] && JavaRun(c, ws).Some?
    ensures JavaRun(c, ws).value.timeouts != [] && JavaRun(c, ws).value.timeouts[0] == JavaInit(c).timeout
  {
    if |ws| > 1 {
      JavaFirstTimeout(c, ws[..|ws| - 1]);
    }
  }

  /** A Java program that does not publish never throws, and shows nothing of its period. */
  lemma {:induction false} PassiveIgnoresPeriod(c: JavaConfig, period: int64, ws: seq<Wakeup<int64>>)
    requires !c.writer
    ensures var r, r' := JavaRun(c, ws), JavaRun(c.(period := period), ws);
            && r.Some? && r'.Some?
            && Observe(AbsJava(r'.value)) == Observe(AbsJava(r.value)) && r'.value.timeout == r.value.timeout
  {
    if ws != [] {
      PassiveIgnoresPeriod(c, period, ws[..|ws| - 1]);
    }
  }

  /** A C++ run and a Java run with its own period, on the same clock and samples, show the same. */
  ghost predicate SameBehaviour(c: CxxConfig, period: int64, first: char16, shape0: Sample, ws: seq<Wakeup<Time>>) {
    var java := JavaRun(JavaConfigOf(c, period, first), AbsWakeups(ws));
    java.Some? && Observe(AbsJava(java.value)) == Observe(AbsCxx(CxxRun(c, shape0, ws)))
  }

  /** The two programs show the same exactly if nothing is published, or no pass is made, or
      their periods are equal and, where a clock reading has reached the first due time, the
      colour starts alike for both. */
  lemma BehaviourAgrees(c: CxxConfig, period: int64, first: char16, shape0: Sample, ws: seq<Wakeup<Time>>)
    requires CxxInRange(c, ws)
    ensures SameBehaviour(c, period, first, shape0, ws)
            <==> || !c.writer || ws == []
                 || (period == TotalD(c.period) && (!CxxSomethingDue(c, ws) || StartsAlike(c.color, first)))
  {
    LoopsAgree(c, first, shape0, ws);
    if !c.writer {
      PassiveIgnoresPeriod(JavaConfigOf(c, TotalD(c.period), first), period, AbsWakeups(ws));
    } else if ws != [] && period != TotalD(c.period) {
      CxxRefines(c, shape0, ws);
      FirstTimeout(AbsConfig(c), AbsWakeups(ws));
      if JavaRun(JavaConfigOf(c, period, first), AbsWakeups(ws)).Some? {
        JavaFirstTimeout(JavaConfigOf(c, period, first), AbsWakeups(ws));
      }
    } else if ws == [] {
      assert AbsSends([]) == [] && AbsTimeouts([]) == [];
    }
  }

  /** With the periods that the two programs fix, 100 ms and 1 s, they show the same exactly if
      they do not publish or make no pass. */
  lemma ShippedPeriodsDiffer(c: CxxConfig, first: char16, shape0: Sample, ws: seq<Wakeup<Time>>)
    requires CxxInRange(c, ws) && c.period == Duration(0, 100_000_000)
    ensures SameBehaviour(c, 1_000_000_000, first, shape0, ws) <==> !c.writer || ws == []
  {
    BehaviourAgrees(c, 1_000_000_000, first, shape0, ws);
  }

  // ---------------------------------------------------------------- laws of the C++ loop

  /** `y` is four times the distance of the character from 'A', reduced to less than 250 in
      magnitude without changing its sign. */
  predicate IsY(ch: int, y: int) {
    && -250 < y < 250 && (4 * (ch - 'A' as int) - y) % 250 == 0
    && (ch >= 'A' as int ==> y >= 0) && (ch <= 'A' as int ==> y <= 0)
  }

  /** On every run of the C++ loop, the k-th sample written, counting from 0, depends only on the
      colour and k. Its y comes from the colour's first octet as a signed char, zero if there is
      none. */
  lemma CxxSamples(c: CxxConfig, shape0: Sample, ws: seq<Wakeup<Time>>, k: nat)
    requires CxxInRange(c, ws) && k < |CxxRun(c, shape0, ws).sends|
    ensures var sample := CxxRun(c, shape0, ws).sends[k].sample;
            && sample == Sample(c.color, 5 * ((k + 1) % 50), sample.y, 30)
            && IsY(if c.color == [] then 0 else if c.color[0] < 128 then c.color[0] else c.color[0] as int - 256,
                   sample.y)
  {
    CxxSends(c, shape0, ws);
    SamplesAre(AbsConfig(c), AbsWakeups(ws), k);
    assert AbsSends(CxxRun(c, shape0, ws).sends)[k].sample == CxxRun(c, shape0, ws).sends[k].sample;
    CxxYIsY(c.color);
  }

  lemma CxxYIsY(color: seq<byte>)
    ensures IsY(if color == [] then 0 else if color[0] < 128 then color[0] else color[0] as int - 256, CxxY(color))
  {
  }

  /** recv_count of the C++ loop counts the samples with valid data, and none without a reader. */
  lemma CxxReceived(c: CxxConfig, shape0: Sample, ws: seq<Wakeup<Time>>)
    requires CxxInRange(c, ws)
    ensures CxxRun(c, shape0, ws).recvCount == if c.reader then |ValidSamples(ws)| else 0
  {
    CxxRefines(c, shape0, ws);
    Received(AbsConfig(c), AbsWakeups(ws));
    assert ValidSamples(AbsWakeups(ws)) == ValidSamples(ws);
  }

  /** The timeout of every wait of the C++ loop. */
  lemma CxxTimeoutsAre(c: CxxConfig, shape0: Sample, ws: seq<Wakeup<Time>>, i: nat)
    requires CxxInRange(c, ws) && i < |ws|
    ensures var timeouts := CxxRun(c, shape0, ws).timeouts;
            && |timeouts| == |ws|
            && (!c.writer ==> timeouts[i] == Duration(0x7fff_ffff, 0x7fff_ffff))
            && (c.writer ==> TotalD(timeouts[i]) ==
                             if i == 0 || CxxSomethingDue(c, ws[..i]) then TotalD(c.period)
                             else TotalT(c.start) + TotalD(c.period))
  {
    CxxTimeouts(c, shape0, ws);
    TimeoutsAre(AbsConfig(c), AbsWakeups(ws), i);
    var timeouts := CxxRun(c, shape0, ws).timeouts;
    assert AbsTimeouts(timeouts)[i] == AbsTimeout(timeouts[i]);
    assert AbsWakeups(ws)[..i] == AbsWakeups(ws[..i]);
    SameDue(c, ws[..i]);
  }

  lemma CxxTimeouts(c: CxxConfig, shape0: Sample, ws: seq<Wakeup<Time>>)
    requires CxxInRange(c, ws)
    ensures AbsTimeouts(CxxRun(c, shape0, ws).timeouts) == Pacer.Run(AbsConfig(c), AbsWakeups(ws)).timeouts
    ensures |CxxRun(c, shape0, ws).timeouts| == |AbsTimeouts(CxxRun(c, shape0, ws).timeouts)|
  {
    CxxRefines(c, shape0, ws);
  }

  /** The shared buffer after a pass: the sample sent in it, else the last one received in it, else
      what it held before. */
  lemma CxxBuffer(c: CxxConfig, shape0: Sample, ws: seq<Wakeup<Time>>)
    requires ws != []
    ensures var n := |ws| - 1;
            var s, s' := CxxRun(c, shape0, ws[..n]), CxxRun(c, shape0, ws);
            s'.shape == if s'.sentCount > s.sentCount then
                          Sample(c.color, 5 * (s'.sentCount % 50), CxxY(c.color), 30)
                        else if c.reader && ws[n].taken != [] then ws[n].taken[|ws[n].taken| - 1].sample
                        else s.shape
  {
  }

  lemma CxxSendTime(c: CxxConfig, shape0: Sample, ws: seq<Wakeup<Time>>, k: nat)
    requires CxxInRange(c, ws) && k < |CxxRun(c, shape0, ws).sends|
    ensures k < |Pacer.Run(AbsConfig(c), AbsWakeups(ws)).sends|
    ensures Pacer.Run(AbsConfig(c), AbsWakeups(ws)).sends[k].at == TotalT(CxxRun(c, shape0, ws).sends[k].at)
  {
    CxxRefines(c, shape0, ws);
    assert AbsCxx(CxxRun(c, shape0, ws)).sends[k].at == TotalT(CxxRun(c, shape0, ws).sends[k].at);
  }

  /** On every run of the C++ loop sends are at least a period apart, and on a punctual
      environment no gap reaches two periods and the slack. */
  lemma CxxGaps(c: CxxConfig, shape0: Sample, ws: seq<Wakeup<Time>>, slack: int, k: nat)
    requires CxxInRange(c, ws) && 0 < k < |CxxRun(c, shape0, ws).sends|
    ensures var sends := CxxRun(c, shape0, ws).sends;
            var gap := TotalT(sends[k].at) - TotalT(sends[k - 1].at);
            && gap >= TotalD(c.period)
            && (TotalD(c.period) > 0 && Punctual(AbsConfig(c), AbsWakeups(ws), slack)
                ==> gap < 2 * TotalD(c.period) + slack)
  {
    CxxGapIsGap(c, shape0, ws, k);
    GapBetween(AbsConfig(c), AbsWakeups(ws), slack, k);
  }

  lemma CxxGapIsGap(c: CxxConfig, shape0: Sample, ws: seq<Wakeup<Time>>, k: nat)
    requires CxxInRange(c, ws) && 0 < k < |CxxRun(c, shape0, ws).sends|
    ensures var abs, sends := Pacer.Run(AbsConfig(c), AbsWakeups(ws)).sends, CxxRun(c, shape0, ws).sends;
            k < |abs| && abs[k].at - abs[k - 1].at == TotalT(sends[k].at) - TotalT(sends[k - 1].at)
  {
    CxxSendTime(c, shape0, ws, k - 1);
    CxxSendTime(c, shape0, ws, k);
  }

  /** sent_count periods fit between the start and the last send of the C++ loop. */
  lemma CxxRateLimitCount(c: CxxConfig, shape0: Sample, ws: seq<Wakeup<Time>>)
    requires CxxInRange(c, ws) && CxxRun(c, shape0, ws).sentCount > 0
    ensures var s := CxxRun(c, shape0, ws);
            s.sentCount * TotalD(c.period) <= TotalT(s.last) - TotalT(c.start)
  {
    CxxRefines(c, shape0, ws);
    RateLimitCount(AbsConfig(c), AbsWakeups(ws));
  }

  /** After a pass of the publishing C++ loop the timeout is a period exactly if something was
      due or the clock started at zero; before that it is the absolute due time. */
  lemma CxxTimeoutIsPeriod(c: CxxConfig, shape0: Sample, ws: seq<Wakeup<Time>>)
    requires CxxInRange(c, ws) && c.writer && ws != []
    ensures var s := CxxRun(c, shape0, ws);
            && (TotalD(s.timeout) == TotalD(c.period) <==> CxxSomethingDue(c, ws) || TotalT(c.start) == 0)
            && (!CxxSomethingDue(c, ws) ==> TotalD(s.timeout) == TotalT(c.start) + TotalD(c.period))
  {
    CxxRefines(c, shape0, ws);
    SameDue(c, ws);
    TimeoutIsPeriod(AbsConfig(c), AbsWakeups(ws));
  }

  /** The publishing C++ loop sends exactly at the greedy choice among its clock readings. */
  lemma CxxSendsAreGreedy(c: CxxConfig, shape0: Sample, ws: seq<Wakeup<Time>>)
    requires CxxInRange(c, ws) && c.writer
    ensures SendTimes(AbsSends(CxxRun(c, shape0, ws).sends))
            == Greedy(TotalT(c.start) + TotalD(c.period), TotalD(c.period), Clocks(AbsWakeups(ws)))
  {
    CxxSends(c, shape0, ws);
    SendsAreGreedy(AbsConfig(c), AbsWakeups(ws));
  }

  lemma CxxSends(c: CxxConfig, shape0: Sample, ws: seq<Wakeup<Time>>)
    requires CxxInRange(c, ws)
    ensures AbsSends(CxxRun(c, shape0, ws).sends) == Pacer.Run(AbsConfig(c), AbsWakeups(ws)).sends
  {
    CxxRefines(c, shape0, ws);
  }

  /** Any 50 consecutive samples of the C++ loop visit each multiple of 5 up to 245 once. */
  lemma CxxFiftyVisitAll(c: CxxConfig, shape0: Sample, ws: seq<Wakeup<Time>>, from: nat, v: nat)
    requires CxxInRange(c, ws) && from + 50 <= |CxxRun(c, shape0, ws).sends| && v < 50
    ensures var sends := CxxRun(c, shape0, ws).sends;
            exists i :: from <= i < from + 50 && sends[i].sample.x == 5 * v
              && forall j :: from <= j < from + 50 && sends[j].sample.x == 5 * v ==> j == i
  {
    CxxRefines(c, shape0, ws);
    FiftyVisitAll(AbsConfig(c), AbsWakeups(ws), from, v);
    var abs, sends := Pacer.Run(AbsConfig(c), AbsWakeups(ws)).sends, CxxRun(c, shape0, ws).sends;
    assert forall i :: 0 <= i < |sends| ==> sends[i].sample == AbsSends(sends)[i].sample;
    var i :| from <= i < from + 50 && abs[i].sample.x == 5 * v
             && forall j :: from <= j < from + 50 && abs[j].sample.x == 5 * v ==> j == i;
    assert sends[i].sample.x == 5 * v;
  }

  // ---------------------------------------------------------------- runs that the C++ loop can make

  /** The normalized time with a given total. */
  function TimeOf(total: int): (t: Time)
    requires InRange(total)
    ensures Normal(t.nanosec) && TotalT(t) == total
  {
    Time(total / NANOS_PER_SEC, total % NANOS_PER_SEC)
  }

  function Concrete(ws: seq<Wakeup<int>>): (cs: seq<Wakeup<Time>>)
    requires forall i :: 0 <= i < |ws| ==> InRange(ws[i].clock)
    ensures AbsWakeups(cs) == ws
  {
    seq(|ws|, i requires 0 <= i < |ws| => Wakeup(ws[i].taken, TimeOf(ws[i].clock)))
  }

  /** Every send happens at a clock reading, and those leave room for the period. */
  lemma {:induction false} SendsHaveRoom(c: CxxConfig, shape0: Sample, ws: seq<Wakeup<Time>>)
    requires CxxInRange(c, ws)
    ensures forall k :: 0 <= k < |CxxRun(c, shape0, ws).sends| ==> RoomFor(CxxRun(c, shape0, ws).sends[k].at, c.period)
  {
    if ws != [] {
      SendsHaveRoom(c, shape0, ws[..|ws| - 1]);
    }
  }

  ghost predicate CxxPunctual(c: CxxConfig, ws: seq<Wakeup<Time>>, slack: int) {
    CxxInRange(c, ws) && PunctualFromStart(AbsConfig(c), AbsWakeups(ws), slack)
  }

  /** Exactly when the first send of a punctual run of the C++ loop can be: on time for the
      first wait, or late by up to the absolute due time, as far as 32-bit seconds reach. */
  lemma CxxFirstSendTimes(c: CxxConfig, shape0: Sample, slack: nat, at: int)
    requires c.writer && Normal(c.period.nanosec) && TotalD(c.period) > 0 && RoomFor(c.start, c.period)
    ensures var due := TotalT(c.start) + TotalD(c.period);
            (exists ws :: CxxPunctual(c, ws, slack) && CxxRun(c, shape0, ws).sends != []
                            && TotalT(CxxRun(c, shape0, ws).sends[0].at) == at)
            <==> due <= at && (at <= due + slack || at < 2 * due + slack) && InRange(at + TotalD(c.period))
  {
    var p, due := AbsConfig(c), TotalT(c.start) + TotalD(c.period);
    forall ws | CxxPunctual(c, ws, slack) && CxxRun(c, shape0, ws).sends != []
      ensures var first := TotalT(CxxRun(c, shape0, ws).sends[0].at);
              due <= first && (first <= due + slack || first < 2 * due + slack) && InRange(first + TotalD(c.period))
    {
      CxxSendTime(c, shape0, ws, 0);
      FirstSend(p, AbsWakeups(ws));
      FirstSendBound(p, AbsWakeups(ws), slack);
      SendsHaveRoom(c, shape0, ws);
    }
    if due <= at && (at <= due + slack || at < 2 * due + slack) && InRange(at + TotalD(c.period)) {
      var ws := Concrete(FirstSendAt(p, slack, at));
      FirstSendAttained(p, slack, at);
      CxxRefines(c, shape0, ws);
      CxxSendTime(c, shape0, ws, 0);
    }
  }

  /** In the C++ loop the gap bound of later sends fails for the first one, on some punctual run,
      exactly for clocks after zero that are not yet at the end of the 32-bit range. */
  lemma CxxFirstGapBounded(c: CxxConfig, shape0: Sample, slack: nat)
    requires c.writer && Normal(c.period.nanosec) && TotalD(c.period) > 0 && RoomFor(c.start, c.period)
    ensures var start, period := TotalT(c.start), TotalD(c.period);
            (forall ws :: CxxPunctual(c, ws, slack) && CxxRun(c, shape0, ws).sends != []
               ==> TotalT(CxxRun(c, shape0, ws).sends[0].at) < start + 2 * period + slack)
            <==> start <= 0 || !InRange(start + 3 * period + slack)
  {
    var start, period := TotalT(c.start), TotalD(c.period);
    if start <= 0 || !InRange(start + 3 * period + slack) {
      forall ws | CxxPunctual(c, ws, slack) && CxxRun(c, shape0, ws).sends != []
        ensures TotalT(CxxRun(c, shape0, ws).sends[0].at) < start + 2 * period + slack
      {
        CxxFirstSendTimes(c, shape0, slack, TotalT(CxxRun(c, shape0, ws).sends[0].at));
      }
    } else {
      CxxFirstSendTimes(c, shape0, slack, start + 2 * period + slack);
    }
  }

  /** The bound on gaps is attained by a run of the C++ loop exactly if that run's last reading
      leaves room for the period. */
  lemma CxxGapIsTight(c: CxxConfig, shape0: Sample, slack: nat)
    requires c.writer && Normal(c.period.nanosec) && TotalD(c.period) > 0 && RoomFor(c.start, c.period)
    ensures var period := TotalD(c.period);
            (exists ws :: CxxPunctual(c, ws, slack) && |CxxRun(c, shape0, ws).sends| >= 2
                            && TotalT(CxxRun(c, shape0, ws).sends[1].at) - TotalT(CxxRun(c, shape0, ws).sends[0].at)
                               == 2 * period + slack - 1)
            <==> InRange(TotalT(c.start) + 4 * period + slack - 1)
  {
    var p, period := AbsConfig(c), TotalD(c.period);
    forall ws | CxxPunctual(c, ws, slack) && |CxxRun(c, shape0, ws).sends| >= 2
      ensures TotalT(CxxRun(c, shape0, ws).sends[0].at) >= TotalT(c.start) + period
      ensures InRange(TotalT(CxxRun(c, shape0, ws).sends[1].at) + period)
    {
      CxxSendTime(c, shape0, ws, 0);
      FirstSend(p, AbsWakeups(ws));
      SendsHaveRoom(c, shape0, ws);
    }
    if InRange(TotalT(c.start) + 4 * period + slack - 1) {
      var ws := Concrete(WidestGap(p, slack));
      GapIsTight(p, slack);
      CxxRefines(c, shape0, ws);
      CxxSendTime(c, shape0, ws, 0);
      CxxSendTime(c, shape0, ws, 1);
    }
  }

  // ---------------------------------------------------------------- laws of the Java loop

  /** A Java run in range that no exception has ended. */
  ghost predicate JavaGoesOn(c: JavaConfig, ws: seq<Wakeup<int64>>) {
    JavaInRange(c, ws) && (c.color == [] ==> !JavaSomethingDue(c, ws))
  }

  lemma JavaSends(c: JavaConfig, ws: seq<Wakeup<int64>>)
    requires JavaGoesOn(c, ws)
    ensures JavaRun(c, ws).Some? && JavaRun(c, ws).value.sends == Pacer.Run(AbsJavaConfig(c), ws).sends
  {
    JavaRefines(c, ws);
  }

  /** The publishing Java loop sends exactly at the greedy choice among its clock readings. */
  lemma JavaSendsAreGreedy(c: JavaConfig, ws: seq<Wakeup<int64>>)
    requires JavaGoesOn(c, ws) && c.writer
    ensures JavaRun(c, ws).Some?
            && SendTimes(JavaRun(c, ws).value.sends) == Greedy(c.start + c.period, c.period, Clocks(ws))
  {
    JavaSends(c, ws);
    SendsAreGreedy(AbsJavaConfig(c), ws);
  }

  /** The k-th sample of the Java loop; its y comes from the colour's first UTF-16 code unit. */
  lemma JavaSamples(c: JavaConfig, ws: seq<Wakeup<int64>>, k: nat)
    requires JavaGoesOn(c, ws) && JavaRun(c, ws).Some? && k < |JavaRun(c, ws).value.sends|
    ensures var sample := JavaRun(c, ws).value.sends[k].sample;
            sample == Sample(c.color, 5 * ((k + 1) % 50), sample.y, 30) && IsY(c.first, sample.y)
  {
    JavaSends(c, ws);
    SamplesAre(AbsJavaConfig(c), ws, k);
  }

  /** recv_count and the timeout of every wait of the Java loop. */
  lemma JavaWaits(c: JavaConfig, ws: seq<Wakeup<int64>>, i: nat)
    requires JavaGoesOn(c, ws) && i < |ws|
    ensures JavaRun(c, ws).Some? && |JavaRun(c, ws).value.timeouts| == |ws|
    ensures JavaRun(c, ws).value.recvCount == if c.reader then |ValidSamples(ws)| else 0
    ensures JavaRun(c, ws).value.timeouts[i] ==
            if !c.writer then None
            else if i == 0 || JavaSomethingDue(c, ws[..i]) then Some(c.period)
            else Some(c.start + c.period)
  {
    JavaRefines(c, ws);
    Received(AbsJavaConfig(c), ws);
    TimeoutsAre(AbsJavaConfig(c), ws, i);
  }

  /** Any two sends of the Java loop are as many periods apart as there are sends between. */
  lemma JavaRateLimit(c: JavaConfig, ws: seq<Wakeup<int64>>, i: nat, j: nat)
    requires JavaGoesOn(c, ws) && JavaRun(c, ws).Some? && i <= j < |JavaRun(c, ws).value.sends|
    ensures JavaRun(c, ws).value.sends[j].at - JavaRun(c, ws).value.sends[i].at >= (j - i) * c.period
  {
    JavaSends(c, ws);
    RateLimit(AbsJavaConfig(c), ws, i, j);
  }

  /** On a punctual environment no gap of the Java loop reaches two periods and the slack. */
  lemma JavaGaps(c: JavaConfig, ws: seq<Wakeup<int64>>, slack: int, k: nat)
    requires JavaGoesOn(c, ws) && JavaRun(c, ws).Some? && 0 < k < |JavaRun(c, ws).value.sends|
    requires c.period > 0 && Punctual(AbsJavaConfig(c), ws, slack)
    ensures JavaRun(c, ws).value.sends[k].at - JavaRun(c, ws).value.sends[k - 1].at < 2 * c.period + slack
  {
    JavaSends(c, ws);
    BoundedGap(AbsJavaConfig(c), ws, slack, k);
  }

  ghost predicate JavaPunctual(c: JavaConfig, ws: seq<Wakeup<int64>>, slack: int) {
    JavaInRange(c, ws) && PunctualFromStart(AbsJavaConfig(c), ws, slack)
  }

  function AsLong(w: Wakeup<int>): Wakeup<int64>
    requires FitsLong(w.clock)
  {
    Wakeup(w.taken, w.clock)
  }

  function Longs(ws: seq<Wakeup<int>>): (js: seq<Wakeup<int64>>)
    requires forall i :: 0 <= i < |ws| ==> FitsLong(ws[i].clock)
    ensures js == ws
  {
    seq(|ws|, i requires 0 <= i < |ws| => AsLong(ws[i]))
  }

  lemma {:induction false} JavaSendsHaveRoom(c: JavaConfig, ws: seq<Wakeup<int64>>)
    requires JavaInRange(c, ws) && JavaRun(c, ws).Some?
    ensures forall k :: 0 <= k < |JavaRun(c, ws).value.sends| ==> FitsLong(JavaRun(c, ws).value.sends[k].at + c.period)
  {
    if ws != [] {
      JavaSendsHaveRoom(c, ws[..|ws| - 1]);
    }
  }

  /** Exactly when the first send of a punctual run of the Java loop can be: 64 bits bound it
      where 32-bit seconds bound the C++ loop. */
  lemma JavaFirstSendTimes(c: JavaConfig, slack: nat, at: int)
    requires c.writer && c.period > 0 && c.color != [] && FitsLong(c.start + c.period)
    ensures var due := c.start + c.period;
            (exists ws :: JavaPunctual(c, ws, slack) && JavaRun(c, ws).Some? && JavaRun(c, ws).value.sends != []
                            && JavaRun(c, ws).value.sends[0].at == at)
            <==> due <= at && (at <= due + slack || at < 2 * due + slack) && FitsLong(at + c.period)
  {
    var p, due := AbsJavaConfig(c), c.start + c.period;
    forall ws | JavaPunctual(c, ws, slack) && JavaRun(c, ws).Some? && JavaRun(c, ws).value.sends != []
      ensures var first := JavaRun(c, ws).value.sends[0].at;
              due <= first && (first <= due + slack || first < 2 * due + slack) && FitsLong(first + c.period)
    {
      JavaSends(c, ws);
      FirstSend(p, ws);
      FirstSendBound(p, ws, slack);
      JavaSendsHaveRoom(c, ws);
    }
    if due <= at && (at <= due + slack || at < 2 * due + slack) && FitsLong(at + c.period) {
      var ws := Longs(FirstSendAt(p, slack, at));
      FirstSendAttained(p, slack, at);
      JavaSends(c, ws);
    }
  }

  /** The gap bound of later sends holds for the first send of the Java loop, on all punctual
      runs, exactly for clocks not after zero or at the end of the 64-bit range. */
  lemma JavaFirstGapBounded(c: JavaConfig, slack: nat)
    requires c.writer && c.period > 0 && c.color != [] && FitsLong(c.start + c.period)
    ensures (forall ws :: JavaPunctual(c, ws, slack) && JavaRun(c, ws).Some? && JavaRun(c, ws).value.sends != []
               ==> JavaRun(c, ws).value.sends[0].at < c.start + 2 * c.period + slack)
            <==> c.start <= 0 || !FitsLong(c.start + 3 * c.period + slack)
  {
    if c.start <= 0 || !FitsLong(c.start + 3 * c.period + slack) {
      forall ws | JavaPunctual(c, ws, slack) && JavaRun(c, ws).Some? && JavaRun(c, ws).value.sends != []
        ensures JavaRun(c, ws).value.sends[0].at < c.start + 2 * c.period + slack
      {
        JavaFirstSendTimes(c, slack, JavaRun(c, ws).value.sends[0].at);
      }
    } else {
      JavaFirstSendTimes(c, slack, c.start + 2 * c.period + slack);
    }
  }
}
