/** The liveliness period of the command line as a lease duration, in the three programs'
    representations. Periods are real numbers: rounding of floats is not modelled. */
module Liveliness {
  import opened Bytes
  import opened DdsTime
  import opened Outcomes

  // A conversion to an integer type truncates toward zero.
  function Truncate(r: real): int {
    if r >= 0.0 then r.Floor else -((-r).Floor)
  }

  /** Periods whose whole seconds fit an int. */
  predicate Convertible(p: real) {
    p < TWO_TO_THE_31 as real
  }

  /** None: the period is not positive, and the default lease is kept. */
  function CxxLease(p: real): Option<(int, int)>
  {
    if p > 0.0
    then Some((Truncate(p), Truncate((p - Truncate(p) as real) * 1000000000.0)))
    else None
  }

  function JavaLease(p: real): Option<int>
  {
    if p > 0.0 then Some(Truncate(p * 1000000000.0)) else None
  }

  function EProsimaLease(p: real): Option<(int, int)>
  {
    if p > 0.0
    then Some((Truncate(p), Truncate((p - Truncate(p) as real) * 4294967000.0)))
    else None
  }

  /** For every period, the C++ pair is a normalized duration with the same total as Java's
      nanosecond count. */
  lemma LeasesAgree(p: real)
    requires Convertible(p)
    ensures CxxLease(p).Some? == JavaLease(p).Some? == (p > 0.0)
    ensures p > 0.0 ==>
              var (sec, nanosec) := CxxLease(p).value;
              && 0 <= sec < TWO_TO_THE_31 && Normal(nanosec)
              && Total(sec, nanosec) == JavaLease(p).value
  {
  }

  /** The eProsima pair counts seconds and units of 2^-32 seconds (section 9.3.2 of DDSI-RTPS
      2.2). Its factor is 296 short of 2^32: the fraction always fits, and the duration falls
      short of the period by less than 297 units. */
  lemma FractionClose(p: real)
    requires 0.0 < p && Convertible(p)
    ensures var (sec, fraction) := EProsimaLease(p).value;
            && 0 <= sec < TWO_TO_THE_31 && 0 <= fraction < TWO_TO_THE_32
            && var units := (p - sec as real) * 4294967296.0;
            fraction as real <= units < fraction as real + 297.0
  {
  }

  /** The pair is exact only for whole seconds: any other period is shortened. */
  lemma FractionExactOnWholeSeconds(p: real)
    requires 0.0 < p && Convertible(p)
    ensures var (sec, fraction) := EProsimaLease(p).value;
            fraction as real == (p - sec as real) * 4294967296.0 <==> p == sec as real
  {
  }

  /** The nanoseconds, and the eProsima seconds and fraction, are the whole numbers next below. */
  lemma LeasesRoundDown(p: real)
    ensures JavaLease(p).Some? == EProsimaLease(p).Some? == (p > 0.0)
    ensures p > 0.0 ==>
              var total := JavaLease(p).value as real;
              var (sec, fraction) := EProsimaLease(p).value;
              && total <= p * 1000000000.0 < total + 1.0
              && sec as real <= p < sec as real + 1.0
              && fraction as real <= (p - sec as real) * 4294967000.0 < fraction as real + 1.0
  {
  }
}
