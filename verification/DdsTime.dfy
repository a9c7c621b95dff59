/** DDS time values of two 32-bit fields and the operators that the InterCOM header adds. */
module DdsTime {
  import opened Bytes

  const NANOS_PER_SEC: int := 1_000_000_000

  datatype Time = Time(sec: int32, nanosec: uint32)
  datatype Duration = Duration(sec: int32, nanosec: uint32)

  // Sentinels of section 2.3.3 of DDS 1.4. TIME_INFINITE is the vendor's counterpart of
  // DURATION_INFINITE.
  const TIME_INVALID := Time(-1, 0xffff_ffff)
  const TIME_INFINITE := Time(0x7fff_ffff, 0x7fff_ffff)
  const DURATION_INFINITE := Duration(0x7fff_ffff, 0x7fff_ffff)

  predicate IsSentinel(t: Time) {
    t == TIME_INVALID || t == TIME_INFINITE
  }

  function WrapU32(i: int): uint32 {
    i % TWO_TO_THE_32
  }

  function WrapI32(i: int): int32 {
    ToSigned(WrapU32(i))
  }

  function NormalizeTime(t: Time): Time {
    if t == TIME_INVALID || t == TIME_INFINITE then t
    else Time(WrapI32(t.sec + t.nanosec / NANOS_PER_SEC), t.nanosec % NANOS_PER_SEC)
  }

  function Add(a: Time, b: Time): Time {
    if a == TIME_INFINITE || b == TIME_INFINITE then TIME_INFINITE
    else if a == TIME_INVALID then TIME_INVALID
    else
      var na, nb := NormalizeTime(a), NormalizeTime(b);
      NormalizeTime(Time(WrapI32(na.sec + nb.sec), WrapU32(na.nanosec + nb.nanosec)))
  }

  function Subtract(a: Duration, b: Duration): Duration {
    var sec := WrapI32(a.sec - b.sec);
    if a.nanosec < b.nanosec
    then Duration(WrapI32(sec - 1), WrapU32(NANOS_PER_SEC + a.nanosec - b.nanosec))
    else Duration(sec, WrapU32(a.nanosec - b.nanosec))
  }

  /** Time_t has no order in the header; its library compares seconds, then nanoseconds. */
  predicate AtLeast(a: Time, b: Time) {
    a.sec > b.sec || (a.sec == b.sec && a.nanosec >= b.nanosec)
  }

  // ---------------------------------------------------------------- meaning

  /** Nanoseconds that a pair stands for. */
  function Total(sec: int, nanosec: int): int {
    sec * NANOS_PER_SEC + nanosec
  }

  function TotalT(t: Time): int { Total(t.sec, t.nanosec) }

  function TotalD(d: Duration): int { Total(d.sec, d.nanosec) }

  predicate Normal(nanosec: int) { 0 <= nanosec < NANOS_PER_SEC }

  function AsDuration(t: Time): Duration { Duration(t.sec, t.nanosec) }

  function AsTime(d: Duration): Time { Time(d.sec, d.nanosec) }

  /** The total has a whole number of seconds that fits the field. */
  predicate InRange(total: int) {
    -TWO_TO_THE_31 * NANOS_PER_SEC <= total < TWO_TO_THE_31 * NANOS_PER_SEC
  }

  // ---------------------------------------------------------------- laws

  lemma WrapU32Exact(i: int)
    requires 0 <= i < TWO_TO_THE_32
    ensures WrapU32(i) == i
  {
  }

  lemma WrapI32Exact(i: int)
    requires -TWO_TO_THE_31 <= i < TWO_TO_THE_31
    ensures WrapI32(i) == i
  {
  }

  lemma WrapI32Add(i: int, j: int)
    ensures WrapI32(WrapI32(i) + j) == WrapI32(i + j)
    ensures WrapI32(j + WrapI32(i)) == WrapI32(i + j)
  {
    var k := i / TWO_TO_THE_32;
    var w := WrapI32(i);
    assert w == i - k * TWO_TO_THE_32 || w == i - (k + 1) * TWO_TO_THE_32;
    if w == i - k * TWO_TO_THE_32 { ModShift(i + j, k); } else { ModShift(i + j, k + 1); }
  }

  lemma ModShift(i: int, k: int)
    ensures (i - k * TWO_TO_THE_32) % TWO_TO_THE_32 == i % TWO_TO_THE_32
  {
  }

  lemma WrapI32Sum(i: int, j: int, carry: int)
    ensures WrapI32(WrapI32(i) + WrapI32(j) + carry) == WrapI32(i + j + carry)
  {
    WrapI32Add(i, WrapI32(j) + carry);
    WrapI32Add(j, i + carry);
  }

  lemma CarryNormalized(s: int, n: uint32)
    requires n < 2 * NANOS_PER_SEC
    ensures NormalizeTime(Time(WrapI32(s), n)) == Time(WrapI32(s + n / NANOS_PER_SEC), n % NANOS_PER_SEC)
  {
    WrapI32Add(s, n / NANOS_PER_SEC);
  }

  /** The sum as the source computes it: total seconds wrapped, nanoseconds carried. */
  lemma AddResult(a: Time, b: Time)
    requires !IsSentinel(a) && !IsSentinel(b)
    ensures var n := a.nanosec % NANOS_PER_SEC + b.nanosec % NANOS_PER_SEC;
            var s := a.sec + b.sec + a.nanosec / NANOS_PER_SEC + b.nanosec / NANOS_PER_SEC;
            Add(a, b) == Time(WrapI32(s + n / NANOS_PER_SEC), n % NANOS_PER_SEC)
  {
    AddNormalized(NormalizeTime(a), NormalizeTime(b),
                  a.sec + a.nanosec / NANOS_PER_SEC, b.sec + b.nanosec / NANOS_PER_SEC);
  }

  lemma AddNormalized(a: Time, b: Time, sa: int, sb: int)
    requires a.sec == WrapI32(sa) && b.sec == WrapI32(sb) && Normal(a.nanosec) && Normal(b.nanosec)
    ensures var n := a.nanosec + b.nanosec;
            NormalizeTime(Time(WrapI32(a.sec + b.sec), WrapU32(n)))
            == Time(WrapI32(sa + sb + n / NANOS_PER_SEC), n % NANOS_PER_SEC)
  {
    var n := a.nanosec + b.nanosec;
    WrapU32Exact(n);
    CarryNormalized(a.sec + b.sec, n);
    WrapI32Sum(sa, sb, n / NANOS_PER_SEC);
  }

  /** Addition of non-sentinels with any nanosec fields: the result is normalized and never a
      sentinel, and it is the sum of the totals exactly when that sum fits the seconds field. */
  lemma AddTotals(a: Time, b: Time)
    requires !IsSentinel(a) && !IsSentinel(b)
    ensures Normal(Add(a, b).nanosec) && !IsSentinel(Add(a, b))
    ensures TotalT(Add(a, b)) == TotalT(a) + TotalT(b) <==> InRange(TotalT(a) + TotalT(b))
  {
    AddResult(a, b);
    var n := a.nanosec % NANOS_PER_SEC + b.nanosec % NANOS_PER_SEC;
    var s := a.sec + b.sec + a.nanosec / NANOS_PER_SEC + b.nanosec / NANOS_PER_SEC + n / NANOS_PER_SEC;
    SplitTotals(a, b);
    assert TotalT(a) + TotalT(b) == Total(s, n % NANOS_PER_SEC);
    if InRange(TotalT(a) + TotalT(b)) {
      WrapI32Exact(s);
    }
  }

  lemma SplitTotals(a: Time, b: Time)
    ensures TotalT(a) == Total(a.sec + a.nanosec / NANOS_PER_SEC, a.nanosec % NANOS_PER_SEC)
    ensures TotalT(b) == Total(b.sec + b.nanosec / NANOS_PER_SEC, b.nanosec % NANOS_PER_SEC)
  {
  }

  /** An infinite operand gives the infinite time, also beside an invalid one; otherwise an
      invalid left operand gives the invalid time. */
  lemma AddSentinels(t: Time)
    ensures Add(Time(0x7fff_ffff, 0x7fff_ffff), t) == Time(0x7fff_ffff, 0x7fff_ffff)
    ensures Add(t, Time(0x7fff_ffff, 0x7fff_ffff)) == Time(0x7fff_ffff, 0x7fff_ffff)
    ensures t != Time(0x7fff_ffff, 0x7fff_ffff) ==> Add(Time(-1, 0xffff_ffff), t) == Time(-1, 0xffff_ffff)
  {
  }

  /** The header checks only the left operand for TIME_INVALID. An invalid right operand is
      added as if it were a time: the sum is invalid, as with the operands exchanged, only for
      a left operand that denotes zero. */
  lemma AddInvalidRight(a: Time)
    requires !IsSentinel(a)
    ensures Add(TIME_INVALID, a) == TIME_INVALID
    ensures Add(a, TIME_INVALID) == TIME_INVALID <==> NormalizeTime(a) == Time(0, 0)
  {
  }

  /** Subtraction subtracts totals exactly when one borrowed second is enough and the difference
      of the seconds, less that borrow, fits the seconds field. */
  lemma SubtractTotals(a: Duration, b: Duration)
    ensures var sec := a.sec - b.sec - (if a.nanosec < b.nanosec then 1 else 0);
            TotalD(Subtract(a, b)) == TotalD(a) - TotalD(b)
            <==> b.nanosec <= a.nanosec + NANOS_PER_SEC && -TWO_TO_THE_31 <= sec < TWO_TO_THE_31
    ensures Normal(a.nanosec) && Normal(b.nanosec) ==> Normal(Subtract(a, b).nanosec)
  {
    var borrow := if a.nanosec < b.nanosec then 1 else 0;
    var sec, nanosec := a.sec - b.sec - borrow, a.nanosec - b.nanosec + borrow * NANOS_PER_SEC;
    SubtractResult(a, b);
    WrapI32Once(sec);
    assert TotalD(a) - TotalD(b) == Total(sec, nanosec);
    assert WrapU32(nanosec) == if nanosec < 0 then nanosec + TWO_TO_THE_32 else nanosec;
  }

  lemma WrapI32Once(i: int)
    requires -TWO_TO_THE_32 <= i < TWO_TO_THE_32
    ensures WrapI32(i) == if i < -TWO_TO_THE_31 then i + TWO_TO_THE_32
                          else if i < TWO_TO_THE_31 then i else i - TWO_TO_THE_32
  {
  }

  lemma SubtractResult(a: Duration, b: Duration)
    ensures var borrow := if a.nanosec < b.nanosec then 1 else 0;
            Subtract(a, b) == Duration(WrapI32(a.sec - b.sec - borrow),
                                       WrapU32(a.nanosec - b.nanosec + borrow * NANOS_PER_SEC))
  {
    WrapI32Add(a.sec - b.sec, -1);
  }

  /** On normalized pairs, the order of the library is the order of totals, and a pair is
      determined by its total. */
  lemma OrderIsTotal(a: Time, b: Time)
    requires Normal(a.nanosec) && Normal(b.nanosec)
    ensures AtLeast(a, b) <==> TotalT(a) >= TotalT(b)
    ensures a == b <==> TotalT(a) == TotalT(b)
  {
  }

  /** (a + b) - a is b again. */
  lemma AddSubtract(a: Time, b: Time)
    requires Normal(a.nanosec) && Normal(b.nanosec) && InRange(TotalT(a) + TotalT(b))
    ensures Subtract(AsDuration(Add(a, b)), AsDuration(a)) == AsDuration(b)
  {
    var c := Add(a, b);
    AddTotals(a, b);
    SubtractTotals(AsDuration(c), AsDuration(a));
    OrderIsTotal(AsTime(Subtract(AsDuration(c), AsDuration(a))), b);
  }
}
