/** The send/receive loop of the C++ program's run, built with the InterCOM time operators. */
module CxxLoop {
  import opened Bytes
  import opened CdrWire
  import opened DdsTime
  import opened Pacer

  datatype CxxConfig = CxxConfig(reader: bool, writer: bool, period: Duration, start: Time, color: seq<byte>)

  /** The variables of the loop, the samples written and the timeouts waited with. `shape` is
      both the buffer for received samples and the sample to write. */
  datatype CxxState = CxxState(
    waitCount: nat, sentCount: nat, recvCount: nat,
    last: Time, next: Time, timeout: Duration, shape: Sample,
    sends: seq<Send<Time>>, timeouts: seq<Duration>)

  // A C char is signed; an empty C string starts with its NUL.
  function CharAt0(color: seq<byte>): (c: int)
    ensures -128 <= c < 128
  {
    var b: int := if color == [] then 0 else color[0];
    if b < 128 then b else b - 256
  }

  // a % 250 in C and Java: the remainder has the sign of the dividend.
  function Remainder250(a: int): (r: int)
    ensures -250 < r < 250 && (a - r) % 250 == 0
    ensures (a >= 0 ==> r >= 0) && (a <= 0 ==> r <= 0)
  {
    if a >= 0 then a % 250 else -((-a) % 250)
  }

  function CxxY(color: seq<byte>): int32 {
    Remainder250(4 * (CharAt0(color) - 'A' as int))
  }

  function CxxInit(c: CxxConfig, shape0: Sample): CxxState {
    CxxState(0, 0, 0, Time(0, 0), Add(c.start, AsTime(c.period)),
             if c.writer then c.period else DURATION_INFINITE, shape0, [], [])
  }

  function LastTaken(shape: Sample, taken: seq<Taken>): Sample {
    if taken == [] then shape else taken[|taken| - 1].sample
  }

  function CxxReceive(c: CxxConfig, s: CxxState, taken: seq<Taken>): CxxState {
    var s1 := s.(waitCount := s.waitCount + 1, timeouts := s.timeouts + [s.timeout]);
    if c.reader
    then s1.(recvCount := s.recvCount + CountValid(taken), shape := LastTaken(s.shape, taken))
    else s1
  }

  function CxxWrite(c: CxxConfig, s: CxxState, now: Time): CxxState {
    var shape := s.shape.(color := c.color, x := 5 * ((s.sentCount + 1) % 50), y := CxxY(c.color), shapesize := 30);
    s.(last := now, next := Add(now, AsTime(c.period)), sentCount := s.sentCount + 1,
       shape := shape, sends := s.sends + [Send(now, shape)])
  }

  function CxxPublish(c: CxxConfig, s: CxxState, now: Time): CxxState {
    var s2 := if AtLeast(now, s.next) then CxxWrite(c, s, now) else s;
    s2.(timeout := Subtract(AsDuration(s2.next), AsDuration(s2.last)))
  }

  function CxxStep(c: CxxConfig, s: CxxState, w: Wakeup<Time>): CxxState {
    var s1 := CxxReceive(c, s, w.taken);
    if c.writer then CxxPublish(c, s1, w.clock) else s1
  }

  function CxxRun(c: CxxConfig, shape0: Sample, ws: seq<Wakeup<Time>>): CxxState {
    if ws == [] then CxxInit(c, shape0)
    else CxxStep(c, CxxRun(c, shape0, ws[..|ws| - 1]), ws[|ws| - 1])
  }

  /** The inner loop: every sample is taken into the shared buffer, valid ones are counted. */
  method TakeSamples(taken: seq<Taken>, shape0: Sample, recvCount0: nat) returns (shape: Sample, recvCount: nat)
    ensures shape == LastTaken(shape0, taken)
    ensures recvCount == recvCount0 + CountValid(taken)
  {
    shape, recvCount := shape0, recvCount0;
    var k := 0;
    while k < |taken|
      invariant 0 <= k <= |taken|
      invariant recvCount == recvCount0 + CountValid(taken[..k])
      invariant shape == LastTaken(shape0, taken[..k])
    {
      shape := taken[k].sample;
      if taken[k].valid {
        recvCount := recvCount + 1;
      }
      assert taken[..k + 1][..k] == taken[..k];
      k := k + 1;
    }
    assert taken[..k] == taken;
  }

  /** The first half of a pass: the wait, and what the reader took. */
  method Receive(c: CxxConfig, s0: CxxState, taken: seq<Taken>) returns (s: CxxState)
    ensures s == CxxReceive(c, s0, taken)
  {
    s := s0.(waitCount := s0.waitCount + 1, timeouts := s0.timeouts + [s0.timeout]);
    if c.reader {
      var shape, recvCount := TakeSamples(taken, s.shape, s.recvCount);
      s := s.(shape := shape, recvCount := recvCount);
    }
  }

  /** The second half of a pass: send if due, and set the next timeout. */
  method Publish(c: CxxConfig, s0: CxxState, currentTime: Time) returns (s: CxxState)
    ensures s == CxxPublish(c, s0, currentTime)
  {
    var sendTime := Time(c.period.sec, c.period.nanosec);
    s := s0;
    if AtLeast(currentTime, s.next) {
      s := s.(last := currentTime);
      s := s.(next := Add(s.last, sendTime));
      s := s.(sentCount := s.sentCount + 1);
      var shape := s.shape.(color := c.color);
      shape := shape.(x := 5 * (s.sentCount % 50));
      shape := shape.(y := Remainder250(4 * (CharAt0(c.color) - 'A' as int)));
      shape := shape.(shapesize := 30);
      s := s.(shape := shape, sends := s.sends + [Send(currentTime, shape)]);
    }
    var d1 := Duration(s.next.sec, s.next.nanosec);
    var d2 := Duration(s.last.sec, s.last.nanosec);
    s := s.(timeout := Subtract(d1, d2));
  }

  /** The loop itself; `s` gathers its variables. The environment's wake-ups stand for the wait
      set, the reader and the clock; the loop ends when they do, as the original on a signal. */
  method Run(c: CxxConfig, shape0: Sample, ws: seq<Wakeup<Time>>) returns (s: CxxState)
    ensures s == CxxRun(c, shape0, ws)
  {
    var sendTime := Time(c.period.sec, c.period.nanosec);
    var waitTimeout := if !c.writer then DURATION_INFINITE else c.period;
    s := CxxState(0, 0, 0, Time(0, 0), Add(c.start, sendTime), waitTimeout, shape0, [], []);
    var i := 0;
    while i < |ws|
      invariant 0 <= i <= |ws|
      invariant s == CxxRun(c, shape0, ws[..i])
    {
      s := Receive(c, s, ws[i].taken);
      if c.writer {
        s := Publish(c, s, ws[i].clock);
      }
      assert ws[..i + 1][..i] == ws[..i];
      i := i + 1;
    }
    assert ws[..i] == ws;
  }
}
