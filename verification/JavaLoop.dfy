/** The send/receive loop of the Java program's run, on 64-bit nanosecond counts. */
module JavaLoop {
  import opened Outcomes
  import opened Bytes
  import opened CdrWire
  import opened Pacer
  import CxxLoop

  const TWO_TO_THE_63: int := 0x8000_0000_0000_0000

  // A Java char: a UTF-16 code unit.
  type char16 = c: int | 0 <= c < 0x1_0000

  type int64 = i: int | -TWO_TO_THE_63 <= i < TWO_TO_THE_63

  predicate FitsLong(i: int) {
    -TWO_TO_THE_63 <= i < TWO_TO_THE_63
  }

  function WrapI64(i: int): int64 {
    var u := i % (2 * TWO_TO_THE_63);
    if u < TWO_TO_THE_63 then u else u - 2 * TWO_TO_THE_63
  }

  function AddTime(t1: int64, t2: int64): int64 {
    WrapI64(t1 + t2)
  }

  function SubTime(t1: int64, t2: int64): int64 {
    WrapI64(t1 - t2)
  }

  /** `color` has the octets of the colour as written, and `first` is charAt(0) of the Java
      string for them. An empty colour has no charAt(0), and `first` is then not used. */
  datatype JavaConfig = JavaConfig(
    reader: bool, writer: bool, period: int64, start: int64, color: seq<byte>, first: char16)

  /** The variables of the loop; a timeout of None is the infinite duration. */
  datatype JavaState = JavaState(
    waitCount: nat, sentCount: nat, recvCount: nat,
    last: int64, next: int64, timeout: Option<int64>,
    sends: seq<Send<int64>>, timeouts: seq<Option<int64>>)

  function JavaY(first: char16): int32 {
    CxxLoop.Remainder250(4 * (first - 'A' as int))
  }

  function JavaInit(c: JavaConfig): JavaState {
    JavaState(0, 0, 0, 0, AddTime(c.start, c.period), if c.writer then Some(c.period) else None, [], [])
  }

  function JavaReceive(c: JavaConfig, s: JavaState, taken: seq<Taken>): JavaState {
    s.(waitCount := s.waitCount + 1, timeouts := s.timeouts + [s.timeout],
       recvCount := if c.reader then s.recvCount + CountValid(taken) else s.recvCount)
  }

  /** None: charAt(0) of an empty colour threw, and the exception ended the run. */
  function JavaPublish(c: JavaConfig, s: JavaState, now: int64): Option<JavaState> {
    if now < s.next then Some(s.(timeout := Some(SubTime(s.next, s.last))))
    else if c.color == [] then None
    else
      var next := AddTime(now, c.period);
      var shape := Sample(c.color, 5 * ((s.sentCount + 1) % 50), JavaY(c.first), 30);
      Some(s.(last := now, next := next, sentCount := s.sentCount + 1, timeout := Some(SubTime(next, now)),
              sends := s.sends + [Send(now, shape)]))
  }

  function JavaStep(c: JavaConfig, s: JavaState, w: Wakeup<int64>): Option<JavaState> {
    var s1 := JavaReceive(c, s, w.taken);
    if c.writer then JavaPublish(c, s1, w.clock) else Some(s1)
  }

  function JavaRun(c: JavaConfig, ws: seq<Wakeup<int64>>): Option<JavaState> {
    if ws == [] then Some(JavaInit(c))
    else
      var s :- JavaRun(c, ws[..|ws| - 1]);
      JavaStep(c, s, ws[|ws| - 1])
  }

  lemma {:induction false} ThrownStaysThrown(c: JavaConfig, ws: seq<Wakeup<int64>>, i: nat)
    requires i <= |ws| && JavaRun(c, ws[..i]).None?
    ensures JavaRun(c, ws).None?
    decreases |ws|
  {
    if i < |ws| {
      assert ws[..|ws| - 1][..i] == ws[..i];
      ThrownStaysThrown(c, ws[..|ws| - 1], i);
    } else {
      assert ws[..i] == ws;
    }
  }

  /** The samples of one take, in order; those with data are counted. */
  method TakeSamples(taken: seq<Taken>, recvCount0: nat) returns (recvCount: nat)
    ensures recvCount == recvCount0 + CountValid(taken)
  {
    recvCount := recvCount0;
    var k := 0;
    while k < |taken|
      invariant 0 <= k <= |taken|
      invariant recvCount == recvCount0 + CountValid(taken[..k])
    {
      if taken[k].valid {
        recvCount := recvCount + 1;
      }
      assert taken[..k + 1][..k] == taken[..k];
      k := k + 1;
    }
    assert taken[..k] == taken;
  }

  /** The second half of a pass. Each sample written is a new object. */
  method Publish(c: JavaConfig, s0: JavaState, currentTime: int64) returns (r: Option<JavaState>)
    ensures r == JavaPublish(c, s0, currentTime)
  {
    var s := s0;
    if currentTime >= s.next {
      s := s.(last := currentTime);
      s := s.(next := AddTime(s.last, c.period));
      s := s.(sentCount := s.sentCount + 1);
      if c.color == [] { return None; }
      var shape := Sample(c.color, 5 * (s.sentCount % 50), CxxLoop.Remainder250(4 * (c.first - 'A' as int)), 30);
      s := s.(sends := s.sends + [Send(currentTime, shape)]);
    }
    s := s.(timeout := Some(SubTime(s.next, s.last)));
    return Some(s);
  }

  /** The loop itself; `s` gathers its variables. */
  method Run(c: JavaConfig, ws: seq<Wakeup<int64>>) returns (r: Option<JavaState>)
    ensures r == JavaRun(c, ws)
  {
    var waitTimeout := if !c.writer then None else Some(c.period);
    var s := JavaState(0, 0, 0, 0, AddTime(c.start, c.period), waitTimeout, [], []);
    var i := 0;
    while i < |ws|
      invariant 0 <= i <= |ws|
      invariant JavaRun(c, ws[..i]) == Some(s)
    {
      s := s.(waitCount := s.waitCount + 1, timeouts := s.timeouts + [s.timeout]);
      if c.reader {
        var recvCount := TakeSamples(ws[i].taken, s.recvCount);
        s := s.(recvCount := recvCount);
      }
      assert ws[..i + 1][..i] == ws[..i];
      if c.writer {
        var published := Publish(c, s, ws[i].clock);
        if published.None? {
          ThrownStaysThrown(c, ws, i + 1);
          return None;
        }
        s := published.value;
      }
      i := i + 1;
    }
    assert ws[..i] == ws;
    r := Some(s);
  }
}
