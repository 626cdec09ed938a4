/**
 * The time arithmetic shared by both timer implementations: adding a
 * number of microseconds to a timespec in place, and the interval-timer
 * settings used to start and to stop a POSIX timer.
 *
 * tv_sec and tv_nsec are 64-bit signed on the platforms the code targets;
 * they are unbounded here, so the (impossible) 64-bit overflow is not
 * modelled.
 */
module TimeSpec {

  const USEC_PER_SEC: nat := 1000000
  const NSEC_PER_USEC: nat := 1000
  const NSEC_PER_SEC: nat := 1000000000
  const U32_LIMIT: nat := 0x1_0000_0000

  /** struct timespec, updated in place by AddTime. */
  class Timespec {
    var sec: int
    var nsec: int

    /** A zeroed timespec. */
    constructor ()
      ensures sec == 0 && nsec == 0
    {
      sec, nsec := 0, 0;
    }

    function Value(): Time
      reads this
    {
      Time(sec, nsec)
    }
  }

  /** A timespec's value. */
  datatype Time = Time(sec: int, nsec: int)

  const ZERO: Time := Time(0, 0)

  /** The instant a timespec denotes, in nanoseconds. */
  function Nanos(t: Time): int
  {
    t.sec * NSEC_PER_SEC + t.nsec
  }

  /** tv_nsec in [0, 10^9), the range timer_settime accepts. */
  predicate Normalised(t: Time)
  {
    0 <= t.nsec < NSEC_PER_SEC
  }

  /**
   * _add_time: us / 10^6 whole seconds are added to tv_sec and the
   * remaining microseconds, as nanoseconds, to tv_nsec. The carry test
   * compares tv_nsec + nsec with tv_nsec, so it only catches a wrap-around
   * and never carries a second out of tv_nsec.
   */
  method AddTime(ts: Timespec, us: nat)
    requires us < U32_LIMIT
    modifies ts
    ensures ts.sec == old(ts.sec) + us / USEC_PER_SEC
    ensures ts.nsec == old(ts.nsec) + us % USEC_PER_SEC * NSEC_PER_USEC
    ensures Nanos(ts.Value()) == Nanos(old(ts.Value())) + us * NSEC_PER_USEC
    ensures old(ts.Value()) == ZERO ==> Normalised(ts.Value())
  {
    ts.sec := ts.sec + us / USEC_PER_SEC;
    var nsec := us % USEC_PER_SEC * NSEC_PER_USEC;
    var carry := if ts.nsec + nsec < ts.nsec then 1 else 0;
    ts.sec := ts.sec + carry;
    ts.nsec := ts.nsec + nsec;
  }

  /** struct itimerspec: the first expiry and the period. */
  datatype ItimerSpec = ItimerSpec(value: Time, interval: Time)

  /** The all-zero itimerspec, which disarms a timer. */
  const DISARMED: ItimerSpec := ItimerSpec(ZERO, ZERO)

  /**
   * _start's setting: a zeroed itimerspec whose first expiry and period
   * each get the interval added, so both are the same normalised time of
   * usec microseconds.
   */
  method StartSpec(usec: nat) returns (its: ItimerSpec)
    requires usec < U32_LIMIT
    ensures its.value == its.interval
    ensures Normalised(its.value) && Nanos(its.value) == usec * NSEC_PER_USEC
    ensures its == DISARMED <==> usec == 0
  {
    var value := new Timespec();
    var interval := new Timespec();
    AddTime(value, usec);
    AddTime(interval, usec);
    its := ItimerSpec(value.Value(), interval.Value());
  }
}
