/** The publish/receive loop on plain integers: the machine that the programs' loops are
    compared with, and the laws of its runs. One step is one pass of the loop; the environment
    supplies the samples a wake-up finds and the clock reading that follows. */
module Pacer {
  import opened Outcomes
  import opened Bytes
  import opened CdrWire

  // ---------------------------------------------------------------- environment

  /** One sample taken from the reader; without valid data it is not counted. */
  datatype Taken = Taken(sample: Sample, valid: bool)

  datatype Wakeup<+T> = Wakeup(taken: seq<Taken>, clock: T)

  function CountValid(taken: seq<Taken>): nat {
    if taken == [] then 0
    else CountValid(taken[..|taken| - 1]) + (if taken[|taken| - 1].valid then 1 else 0)
  }

  // ---------------------------------------------------------------- samples

  /** The k-th sample written, counting from 1. */
  function NthSample(color: seq<byte>, y: int32, k: nat): Sample {
    Sample(color, 5 * (k % 50), y, 30)
  }

  // ---------------------------------------------------------------- the machine

  datatype Config = Config(reader: bool, writer: bool, period: int, start: int, color: seq<byte>, y: int32)

  datatype Send<+T> = Send(at: T, sample: Sample)

  /** `timeouts` lists the timeouts the waits were called with; None is an infinite one. */
  datatype State = State(
    waitCount: nat, sentCount: nat, recvCount: nat,
    last: int, next: int, timeout: Option<int>,
    sends: seq<Send<int>>, timeouts: seq<Option<int>>)

  function Init(c: Config): State {
    State(0, 0, 0, 0, c.start + c.period, if c.writer then Some(c.period) else None, [], [])
  }

  function Receive(c: Config, s: State, taken: seq<Taken>): State {
    s.(waitCount := s.waitCount + 1, timeouts := s.timeouts + [s.timeout],
       recvCount := if c.reader then s.recvCount + CountValid(taken) else s.recvCount)
  }

  function Publish(c: Config, s: State, now: int): State {
    if now < s.next then s.(timeout := Some(s.next - s.last))
    else
      var next := now + c.period;
      s.(sentCount := s.sentCount + 1, last := now, next := next, timeout := Some(next - now),
         sends := s.sends + [Send(now, NthSample(c.color, c.y, s.sentCount + 1))])
  }

  function Step(c: Config, s: State, w: Wakeup<int>): State {
    var s1 := Receive(c, s, w.taken);
    if c.writer then Publish(c, s1, w.clock) else s1
  }

  function Run(c: Config, ws: seq<Wakeup<int>>): State {
    if ws == [] then Init(c)
    else Step(c, Run(c, ws[..|ws| - 1]), ws[|ws| - 1])
  }

  // ---------------------------------------------------------------- what every run keeps

  ghost predicate Inv(c: Config, s: State) {
    && |s.sends| == s.sentCount
    && |s.timeouts| == s.waitCount
    && (c.writer <==> s.timeout.Some?)
    && (s.sentCount == 0 ==> s.last == 0 && s.next == c.start + c.period)
    && (s.sentCount > 0 ==>
          && c.writer
          && s.last == s.sends[s.sentCount - 1].at
          && s.next == s.last + c.period
          && s.timeout == Some(c.period))
    && (forall k :: 0 <= k < |s.sends| ==> s.sends[k].sample == NthSample(c.color, c.y, k + 1))
  }

  lemma StepInv(c: Config, s: State, w: Wakeup<int>)
    requires Inv(c, s)
    ensures Inv(c, Step(c, s, w))
  {
  }

  lemma {:induction false} RunInv(c: Config, ws: seq<Wakeup<int>>)
    ensures Inv(c, Run(c, ws)) && Run(c, ws).waitCount == |ws|
  {
    if ws != [] {
      RunInv(c, ws[..|ws| - 1]);
      StepInv(c, Run(c, ws[..|ws| - 1]), ws[|ws| - 1]);
    }
  }

  /** The first send is at least a period after the start. */
  lemma {:induction false} FirstSend(c: Config, ws: seq<Wakeup<int>>)
    requires Run(c, ws).sends != []
    ensures Run(c, ws).sends[0].at >= c.start + c.period
  {
    var prefix := ws[..|ws| - 1];
    RunInv(c, prefix);
    if Run(c, prefix).sends != [] {
      FirstSend(c, prefix);
    }
  }

  /** Consecutive sends are at least a period apart. */
  lemma {:induction false} PeriodApart(c: Config, ws: seq<Wakeup<int>>, k: nat)
    requires 0 < k < |Run(c, ws).sends|
    ensures Run(c, ws).sends[k].at - Run(c, ws).sends[k - 1].at >= c.period
  {
    var prefix := ws[..|ws| - 1];
    RunInv(c, prefix);
    if k < |Run(c, prefix).sends| {
      PeriodApart(c, prefix, k);
    }
  }

  lemma {:induction false} FirstTimeout(c: Config, ws: seq<Wakeup<int>>)
    requires ws != []
    ensures Run(c, ws).timeouts != [] && Run(c, ws).timeouts[0] == Init(c).timeout
  {
    if |ws| > 1 {
      FirstTimeout(c, ws[..|ws| - 1]);
    }
  }

  /** Rate limit, with no assumption about the clock: any two sends are apart by at least as
      many periods as there are sends between them. */
  lemma {:induction false} RateLimit(c: Config, ws: seq<Wakeup<int>>, i: nat, j: nat)
    requires i <= j < |Run(c, ws).sends|
    ensures Run(c, ws).sends[j].at - Run(c, ws).sends[i].at >= (j - i) * c.period
    decreases j
  {
    if i < j {
      PeriodApart(c, ws, j);
      RateLimit(c, ws, i, j - 1);
      assert (j - i) * c.period == (j - 1 - i) * c.period + c.period;
    }
  }

  lemma {:induction false} PeriodsAfterStart(c: Config, ws: seq<Wakeup<int>>, k: nat)
    requires k < |Run(c, ws).sends|
    ensures Run(c, ws).sends[k].at - c.start >= (k + 1) * c.period
  {
    if k == 0 {
      FirstSend(c, ws);
    } else {
      PeriodApart(c, ws, k);
      PeriodsAfterStart(c, ws, k - 1);
      assert (k + 1) * c.period == k * c.period + c.period;
    }
  }

  /** Counted over a whole run: sent_count periods fit between the start and the last send. */
  lemma RateLimitCount(c: Config, ws: seq<Wakeup<int>>)
    requires Run(c, ws).sentCount > 0
    ensures Run(c, ws).sentCount * c.period <= Run(c, ws).last - c.start
  {
    RunInv(c, ws);
    PeriodsAfterStart(c, ws, Run(c, ws).sentCount - 1);
  }

  // ---------------------------------------------------------------- which readings are sent at

  /** The loop publishes, and some reading has reached the first due time. */
  predicate SomethingDue(c: Config, ws: seq<Wakeup<int>>) {
    c.writer && exists i :: 0 <= i < |ws| && ws[i].clock >= c.start + c.period
  }

  /** A run sends exactly if something was due. */
  lemma {:induction false} SendsIfDue(c: Config, ws: seq<Wakeup<int>>)
    ensures Run(c, ws).sentCount > 0 <==> SomethingDue(c, ws)
  {
    if ws != [] {
      var n := |ws| - 1;
      SendsIfDue(c, ws[..n]);
      RunInv(c, ws[..n]);
      assert SomethingDue(c, ws) <==> SomethingDue(c, ws[..n]) || (c.writer && ws[n].clock >= c.start + c.period);
    }
  }

  /** The greedy choice among clock readings: the first one from `due` on, then each time the
      first one that is a period or more after the one chosen before. */
  function Greedy(due: int, period: int, clocks: seq<int>): seq<int>
    decreases |clocks|
  {
    if clocks == [] then []
    else if clocks[0] < due then Greedy(due, period, clocks[1..])
    else [clocks[0]] + Greedy(clocks[0] + period, period, clocks[1..])
  }

  /** The time from which the choice after `clocks` is made. */
  function DueAfter(due: int, period: int, clocks: seq<int>): int
    decreases |clocks|
  {
    if clocks == [] then due
    else DueAfter(if clocks[0] < due then due else clocks[0] + period, period, clocks[1..])
  }

  lemma {:induction false} GreedyOneMore(due: int, period: int, clocks: seq<int>, now: int)
    ensures var next := DueAfter(due, period, clocks);
            && Greedy(due, period, clocks + [now]) == Greedy(due, period, clocks) + (if now < next then [] else [now])
            && DueAfter(due, period, clocks + [now]) == if now < next then next else now + period
    decreases |clocks|
  {
    if clocks != [] {
      assert (clocks + [now])[1..] == clocks[1..] + [now];
      GreedyOneMore(if clocks[0] < due then due else clocks[0] + period, period, clocks[1..], now);
    }
  }

  function Clocks(ws: seq<Wakeup<int>>): seq<int> {
    seq(|ws|, i requires 0 <= i < |ws| => ws[i].clock)
  }

  function SendTimes(sends: seq<Send<int>>): seq<int> {
    seq(|sends|, i requires 0 <= i < |sends| => sends[i].at)
  }

  /** A publishing run sends exactly at the greedy choice among its clock readings: no reading
      that is due is passed over. */
  lemma {:induction false} SendsAreGreedy(c: Config, ws: seq<Wakeup<int>>)
    requires c.writer
    ensures SendTimes(Run(c, ws).sends) == Greedy(c.start + c.period, c.period, Clocks(ws))
    ensures Run(c, ws).next == DueAfter(c.start + c.period, c.period, Clocks(ws))
  {
    if ws != [] {
      var n := |ws| - 1;
      SendsAreGreedy(c, ws[..n]);
      GreedyOneMore(c.start + c.period, c.period, Clocks(ws[..n]), ws[n].clock);
      assert Clocks(ws) == Clocks(ws[..n]) + [ws[n].clock];
      SendTimesOneMore(c, Run(c, ws[..n]), ws[n]);
    }
  }

  lemma SendTimesOneMore(c: Config, s: State, w: Wakeup<int>)
    requires c.writer
    ensures SendTimes(Step(c, s, w).sends) == SendTimes(s.sends) + (if w.clock < s.next then [] else [w.clock])
  {
  }

  /** The samples received change nothing but their own count. */
  lemma {:induction false} ReceivedIsIgnored(c: Config, ws: seq<Wakeup<int>>, ws': seq<Wakeup<int>>)
    requires Clocks(ws) == Clocks(ws')
    ensures Run(c, ws') == Run(c, ws).(recvCount := Run(c, ws').recvCount)
  {
    assert |ws| == |Clocks(ws)| == |ws'|;
    if ws != [] {
      var n := |ws| - 1;
      assert Clocks(ws[..n]) == Clocks(ws)[..n] == Clocks(ws'[..n]);
      assert ws[n].clock == Clocks(ws)[n] == ws'[n].clock;
      ReceivedIsIgnored(c, ws[..n], ws'[..n]);
      StepIgnoresReceived(c, Run(c, ws[..n]), Run(c, ws'[..n]), ws[n], ws'[n]);
    }
  }

  lemma StepIgnoresReceived(c: Config, s: State, s': State, w: Wakeup<int>, w': Wakeup<int>)
    requires w.clock == w'.clock && s' == s.(recvCount := s'.recvCount)
    ensures Step(c, s', w') == Step(c, s, w).(recvCount := Step(c, s', w').recvCount)
  {
  }

  // ---------------------------------------------------------------- what was received

  /** The samples with valid data of one wake-up, by their places. */
  function ValidIn(i: int, taken: seq<Taken>): set<(int, int)> {
    set k | 0 <= k < |taken| && taken[k].valid :: (i, k)
  }

  /** The samples with valid data, by wake-up and place in it. */
  function ValidSamples<T>(ws: seq<Wakeup<T>>): set<(int, int)> {
    set i, k | 0 <= i < |ws| && 0 <= k < |ws[i].taken| && ws[i].taken[k].valid :: (i, k)
  }

  lemma {:induction false} CountIsSize(i: int, taken: seq<Taken>)
    ensures CountValid(taken) == |ValidIn(i, taken)|
  {
    if taken != [] {
      var n := |taken| - 1;
      CountIsSize(i, taken[..n]);
      assert ValidIn(i, taken) == ValidIn(i, taken[..n]) + (if taken[n].valid then {(i, n)} else {});
    }
  }

  lemma ValidOneMore(ws: seq<Wakeup<int>>)
    requires ws != []
    ensures var n := |ws| - 1;
            |ValidSamples(ws)| == |ValidSamples(ws[..n])| + |ValidIn(n, ws[n].taken)|
  {
    var n := |ws| - 1;
    var before, last := ValidSamples(ws[..n]), ValidIn(n, ws[n].taken);
    assert ValidSamples(ws) == before + last;
    assert before !! last;
  }

  /** recv_count counts the samples with valid data, all of them, and none without a reader. */
  lemma {:induction false} Received(c: Config, ws: seq<Wakeup<int>>)
    ensures Run(c, ws).recvCount == if c.reader then |ValidSamples(ws)| else 0
  {
    if ws == [] {
      assert ValidSamples(ws) == {};
    } else {
      var n := |ws| - 1;
      Received(c, ws[..n]);
      ValidOneMore(ws);
      CountIsSize(n, ws[n].taken);
    }
  }

  // ---------------------------------------------------------------- timeouts and gaps

  /** The timeout after a pass of a publishing loop is the period exactly when something was
      due or the clock started at zero. Before the first send it is the absolute due time,
      because last_send_time is still zero. */
  lemma TimeoutIsPeriod(c: Config, ws: seq<Wakeup<int>>)
    requires c.writer && ws != []
    ensures Run(c, ws).timeout == Some(c.period) <==> SomethingDue(c, ws) || c.start == 0
    ensures !SomethingDue(c, ws) ==> Run(c, ws).timeout == Some(c.start + c.period)
  {
    SendsIfDue(c, ws);
    RunInv(c, ws);
    RunInv(c, ws[..|ws| - 1]);
  }

  /** The timeout of every wait: infinite if nothing is published, a period for the first wait and
      for those after a reading has reached the first due time, and that time in between. */
  lemma {:induction false} TimeoutsAre(c: Config, ws: seq<Wakeup<int>>, i: nat)
    requires i < |ws|
    ensures |Run(c, ws).timeouts| == |ws|
    ensures Run(c, ws).timeouts[i] ==
            if !c.writer then None
            else if i == 0 || SomethingDue(c, ws[..i]) then Some(c.period)
            else Some(c.start + c.period)
  {
    var n := |ws| - 1;
    var prefix := ws[..n];
    TimeoutNoted(c, ws);
    if i < n {
      TimeoutsAre(c, prefix, i);
      assert prefix[..i] == ws[..i];
    } else {
      TimeoutAfter(c, prefix);
    }
  }

  lemma TimeoutNoted(c: Config, ws: seq<Wakeup<int>>)
    requires ws != []
    ensures var prefix := Run(c, ws[..|ws| - 1]);
            Run(c, ws).timeouts == prefix.timeouts + [prefix.timeout] && |prefix.timeouts| == |ws| - 1
  {
    RunInv(c, ws[..|ws| - 1]);
  }

  lemma TimeoutAfter(c: Config, ws: seq<Wakeup<int>>)
    ensures Run(c, ws).timeout ==
            if !c.writer then None
            else if ws == [] || SomethingDue(c, ws) then Some(c.period)
            else Some(c.start + c.period)
  {
    RunInv(c, ws);
    if c.writer && ws != [] {
      TimeoutIsPeriod(c, ws);
    }
  }

  /** Clock reading `i` comes at most `slack` after the wait before it can have ended. */
  ghost predicate OnTime(c: Config, ws: seq<Wakeup<int>>, slack: int, i: nat)
    requires 0 < i < |ws|
  {
    var timeout := Run(c, ws[..i]).timeout;
    timeout.Some? && ws[i].clock <= ws[i - 1].clock + timeout.value + slack
  }

  ghost predicate Punctual(c: Config, ws: seq<Wakeup<int>>, slack: int) {
    c.writer && forall i :: 0 < i < |ws| ==> OnTime(c, ws, slack, i)
  }

  lemma PunctualPrefix(c: Config, ws: seq<Wakeup<int>>, slack: int)
    requires Punctual(c, ws, slack) && ws != []
    ensures Punctual(c, ws[..|ws| - 1], slack)
  {
    var prefix := ws[..|ws| - 1];
    forall i | 0 < i < |prefix| ensures OnTime(c, prefix, slack, i) {
      assert OnTime(c, ws, slack, i);
      assert prefix[..i] == ws[..i];
    }
  }

  /** The reading after a pass that has sent, or follows a send, precedes the next due time:
      hence the bound for the next reading. */
  lemma NextReading(c: Config, ws: seq<Wakeup<int>>, slack: int)
    requires c.period > 0 && Punctual(c, ws, slack) && ws != []
    requires Run(c, ws[..|ws| - 1]).sentCount > 0
    ensures ws[|ws| - 1].clock < Run(c, ws[..|ws| - 1]).last + 2 * c.period + slack
  {
    var n := |ws| - 1;
    var prefix := ws[..n];
    RunInv(c, prefix);
    assert OnTime(c, ws, slack, n);
    var s := Run(c, prefix);
    assert s == Step(c, Run(c, prefix[..n - 1]), ws[n - 1]);
    assert ws[n - 1].clock < s.next;
  }

  /** Bounded gap: on a punctual environment consecutive sends are less than two periods and
      the slack apart, however many early wake-ups received data causes. */
  lemma {:induction false} BoundedGap(c: Config, ws: seq<Wakeup<int>>, slack: int, k: nat)
    requires c.period > 0 && Punctual(c, ws, slack)
    requires 0 < k < |Run(c, ws).sends|
    ensures Run(c, ws).sends[k].at - Run(c, ws).sends[k - 1].at < 2 * c.period + slack
  {
    var prefix := ws[..|ws| - 1];
    RunInv(c, prefix);
    if k < |Run(c, prefix).sends| {
      PunctualPrefix(c, ws, slack);
      BoundedGap(c, prefix, slack, k);
    } else {
      NextReading(c, ws, slack);
    }
  }

  lemma GapBetween(c: Config, ws: seq<Wakeup<int>>, slack: int, k: nat)
    requires 0 < k < |Run(c, ws).sends|
    ensures var gap := Run(c, ws).sends[k].at - Run(c, ws).sends[k - 1].at;
            gap >= c.period && (c.period > 0 && Punctual(c, ws, slack) ==> gap < 2 * c.period + slack)
  {
    PeriodApart(c, ws, k);
    if c.period > 0 && Punctual(c, ws, slack) {
      BoundedGap(c, ws, slack, k);
    }
  }

  /** A send, an early wake-up just before the next is due, and a send as late as can be. */
  function WidestGap(c: Config, slack: nat): seq<Wakeup<int>> {
    var due := c.start + c.period;
    [Wakeup([], due), Wakeup([], due + c.period - 1), Wakeup([], due + 2 * c.period - 1 + slack)]
  }

  /** The bound is attained for every period and slack, by a single early wake-up. */
  lemma GapIsTight(c: Config, slack: nat)
    requires c.writer && c.period > 0
    ensures var ws := WidestGap(c, slack);
            && PunctualFromStart(c, ws, slack) && |Run(c, ws).sends| == 2
            && Run(c, ws).sends[1].at - Run(c, ws).sends[0].at == 2 * c.period + slack - 1
  {
    var ws := WidestGap(c, slack);
    assert ws[..2][..1] == ws[..1] && ws[..1][..0] == [];
    assert Run(c, ws[..1]) == Step(c, Init(c), ws[0]);
    assert Run(c, ws[..2]) == Step(c, Run(c, ws[..1]), ws[1]);
    assert Run(c, ws) == Step(c, Run(c, ws[..2]), ws[2]);
  }

  // ---------------------------------------------------------------- the first send

  /** A punctual run whose first reading, too, is at most `slack` after its wait can have ended. */
  ghost predicate PunctualFromStart(c: Config, ws: seq<Wakeup<int>>, slack: int) {
    Punctual(c, ws, slack) && (ws != [] ==> ws[0].clock <= c.start + c.period + slack)
  }

  /** Before the first send the timeout of every wait but the first is the absolute due time:
      the first send comes on time for the first wait, or less than the due time, counted
      twice, and the slack after zero. */
  lemma {:induction false} FirstSendBound(c: Config, ws: seq<Wakeup<int>>, slack: int)
    requires PunctualFromStart(c, ws, slack) && Run(c, ws).sends != []
    ensures var at := Run(c, ws).sends[0].at;
            at <= c.start + c.period + slack || at < 2 * (c.start + c.period) + slack
  {
    var n := |ws| - 1;
    var prefix := ws[..n];
    RunInv(c, prefix);
    if Run(c, prefix).sends != [] {
      PunctualPrefix(c, ws, slack);
      FirstSendBound(c, prefix, slack);
    } else {
      LastReadingBound(c, ws, slack);
    }
  }

  lemma LastReadingBound(c: Config, ws: seq<Wakeup<int>>, slack: int)
    requires PunctualFromStart(c, ws, slack) && ws != [] && Run(c, ws[..|ws| - 1]).sends == []
    ensures var now := ws[|ws| - 1].clock;
            now <= c.start + c.period + slack || now < 2 * (c.start + c.period) + slack
  {
    var n := |ws| - 1;
    var prefix := ws[..n];
    RunInv(c, prefix);
    if n > 0 {
      SendsIfDue(c, prefix);
      assert prefix[n - 1].clock < c.start + c.period;
      TimeoutIsPeriod(c, prefix);
      assert OnTime(c, ws, slack, n);
    }
  }

  /** The run that sends first at `at`: at once, or after one early wake-up just before the due
      time. */
  function FirstSendAt(c: Config, slack: nat, at: int): seq<Wakeup<int>> {
    if at <= c.start + c.period + slack then [Wakeup([], at)]
    else [Wakeup([], c.start + c.period - 1), Wakeup([], at)]
  }

  lemma FirstSendAttained(c: Config, slack: nat, at: int)
    requires c.writer && c.start + c.period <= at
    requires at <= c.start + c.period + slack || at < 2 * (c.start + c.period) + slack
    ensures PunctualFromStart(c, FirstSendAt(c, slack, at), slack)
    ensures |Run(c, FirstSendAt(c, slack, at)).sends| == 1 && Run(c, FirstSendAt(c, slack, at)).sends[0].at == at
  {
    var ws := FirstSendAt(c, slack, at);
    assert ws[..0] == [] && ws[..1][..0] == [];
    assert Run(c, ws[..1]) == Step(c, Init(c), ws[0]);
    if |ws| == 2 {
      assert Run(c, ws) == Step(c, Run(c, ws[..1]), ws[1]);
    } else {
      assert ws == ws[..1];
    }
  }

  /** Exactly when the first send of a punctual run can be. */
  lemma FirstSendTimes(c: Config, slack: nat, at: int)
    requires c.writer
    ensures (exists ws :: PunctualFromStart(c, ws, slack) && Run(c, ws).sends != [] && Run(c, ws).sends[0].at == at)
            <==> && c.start + c.period <= at
                 && (at <= c.start + c.period + slack || at < 2 * (c.start + c.period) + slack)
  {
    forall ws | PunctualFromStart(c, ws, slack) && Run(c, ws).sends != []
      ensures var first := Run(c, ws).sends[0].at;
              && c.start + c.period <= first
              && (first <= c.start + c.period + slack || first < 2 * (c.start + c.period) + slack)
    {
      FirstSend(c, ws);
      FirstSendBound(c, ws, slack);
    }
    if c.start + c.period <= at && (at <= c.start + c.period + slack || at < 2 * (c.start + c.period) + slack) {
      FirstSendAttained(c, slack, at);
    }
  }

  /** The gap bound of later sends holds for the first one, counted from the start, exactly for
      clocks that do not start after zero. */
  lemma FirstGapBounded(c: Config, slack: nat)
    requires c.writer && c.period > 0
    ensures (forall ws :: PunctualFromStart(c, ws, slack) && Run(c, ws).sends != []
               ==> Run(c, ws).sends[0].at < c.start + 2 * c.period + slack)
            <==> c.start <= 0
  {
    if c.start <= 0 {
      forall ws | PunctualFromStart(c, ws, slack) && Run(c, ws).sends != []
        ensures Run(c, ws).sends[0].at < c.start + 2 * c.period + slack
      {
        FirstSendBound(c, ws, slack);
      }
    } else {
      FirstSendAttained(c, slack, 2 * (c.start + c.period) + slack - 1);
    }
  }

  // ---------------------------------------------------------------- the sample sequence

  lemma ResidueOnce(from: nat, i: nat, j: nat)
    requires from <= i < from + 50 && from <= j < from + 50 && (i + 1) % 50 == (j + 1) % 50
    ensures i == j
  {
  }

  lemma SampleX(c: Config, ws: seq<Wakeup<int>>, i: nat)
    requires i < |Run(c, ws).sends|
    ensures Run(c, ws).sends[i].sample.x == 5 * ((i + 1) % 50)
  {
    RunInv(c, ws);
  }

  /** The k-th sample of a run, counting from 0: the colour, the next multiple of five below 250,
      the same y throughout, and the size 30. */
  lemma SamplesAre(c: Config, ws: seq<Wakeup<int>>, k: nat)
    requires k < |Run(c, ws).sends|
    ensures Run(c, ws).sends[k].sample == Sample(c.color, 5 * ((k + 1) % 50), c.y, 30)
  {
    RunInv(c, ws);
  }

  /** Any 50 consecutive samples of a run visit each multiple of 5 in 0..245 exactly once. */
  lemma FiftyVisitAll(c: Config, ws: seq<Wakeup<int>>, from: nat, v: nat)
    requires from + 50 <= |Run(c, ws).sends| && v < 50
    ensures exists i :: from <= i < from + 50 && Run(c, ws).sends[i].sample.x == 5 * v
              && forall j :: from <= j < from + 50 && Run(c, ws).sends[j].sample.x == 5 * v ==> j == i
  {
    var sends := Run(c, ws).sends;
    var i := ResidueAt(from, v);
    SampleX(c, ws, i);
    assert sends[i].sample.x == 5 * v;
    forall j | from <= j < from + 50 && sends[j].sample.x == 5 * v ensures j == i {
      SampleX(c, ws, j);
      ResidueOnce(from, i, j);
    }
  }

  lemma ResidueAt(from: nat, v: nat) returns (i: nat)
    requires v < 50
    ensures from <= i < from + 50 && (i + 1) % 50 == v
  {
    var r := (from + 1) % 50;
    i := from + (if v >= r then v - r else v + 50 - r);
  }
}
