/** The send/receive loop of the eProsima program. Its library's time operators are taken as
    exact: times are integers in the library's unit, and None is its infinite time. */
module EProsimaLoop {
  import opened Outcomes
  import opened CdrWire
  import P = Pacer
  import CxxLoop

  /** The second half of a pass: send if due, through the shared buffer, and set the timeout. */
  method Publish(c: P.Config, s0: P.State, shape0: Sample, currentTime: int) returns (s: P.State, shape: Sample)
    requires c.y == CxxLoop.CxxY(c.color)
    ensures s == P.Publish(c, s0, currentTime)
  {
    s, shape := s0, shape0;
    if currentTime >= s.next {
      s := s.(last := currentTime);
      s := s.(next := s.last + c.period);
      s := s.(sentCount := s.sentCount + 1);
      shape := shape.(color := c.color);
      shape := shape.(x := 5 * (s.sentCount % 50));
      shape := shape.(y := CxxLoop.Remainder250(4 * (CxxLoop.CharAt0(c.color) - 'A' as int)));
      shape := shape.(shapesize := 30);
      s := s.(sends := s.sends + [P.Send(currentTime, shape)]);
    }
    s := s.(timeout := Some(s.next - s.last));
  }

  /** The loop computes the machine's run: the shared buffer shows in no sample. */
  method Run(c: P.Config, shape0: Sample, ws: seq<P.Wakeup<int>>) returns (s: P.State)
    requires c.y == CxxLoop.CxxY(c.color)
    ensures s == P.Run(c, ws)
  {
    var waitTimeout := if !c.writer then None else Some(c.period);
    s := P.State(0, 0, 0, 0, c.start + c.period, waitTimeout, [], []);
    var shape := shape0;
    var i := 0;
    while i < |ws|
      invariant 0 <= i <= |ws|
      invariant s == P.Run(c, ws[..i])
    {
      s := s.(waitCount := s.waitCount + 1, timeouts := s.timeouts + [s.timeout]);
      if c.reader {
        var received, recvCount := CxxLoop.TakeSamples(ws[i].taken, shape, s.recvCount);
        shape := received;
        s := s.(recvCount := recvCount);
      }
      if c.writer {
        s, shape := Publish(c, s, shape, ws[i].clock);
      }
      assert ws[..i + 1][..i] == ws[..i];
      i := i + 1;
    }
    assert ws[..i] == ws;
  }
}
