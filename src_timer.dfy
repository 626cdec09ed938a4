/**
 * The thread-driven interval timer: the same start and stop settings as
 * the signal-driven one, with expiries delivered to a handler that counts
 * one tick and notifies the timer's event with a notification carrying the
 * new count.
 *
 * The POSIX timer is represented by its id and by the last setting passed
 * to timer_settime. Thread creation and exit, the event's observers and
 * locks (which always succeed) are not modelled.
 */
module SrcTimer {
  import opened TimeSpec

  const TICK_LIMIT: nat := 0x1_0000_0000_0000_0000

  /** A tick count: a uint64_t. */
  type Tick64 = x: nat | x < TICK_LIMIT

  /** The notification an expiry produces. */
  class TimerNotification {
    const tick: Tick64

    constructor (tick: nat)
      requires tick < TICK_LIMIT
      ensures this.tick == tick
    {
      this.tick := tick;
    }

    /** Tick: the count the notification was built with, a 64-bit value. */
    function Tick(): (t: nat)
      ensures t == tick && t < TICK_LIMIT
    {
      tick
    }
  }

  class Timer {
    var interval: nat
    var tick: nat
    const timerId: nat
    var armed: ItimerSpec

    ghost predicate Valid()
      reads this
    {
      interval < U32_LIMIT && tick < TICK_LIMIT
    }

    /** A new timer has interval 0 and tick 0 and is not armed. */
    constructor (timerId: nat)
      ensures Valid() && interval == 0 && tick == 0 && this.timerId == timerId && armed == DISARMED
    {
      interval, tick, armed := 0, 0, DISARMED;
      this.timerId := timerId;
    }

    /** Start: the interval is stored and the timer is armed to expire after it, then every interval. */
    method Start(usec: nat)
      requires Valid() && usec < U32_LIMIT
      modifies this
      ensures Valid() && interval == usec && tick == old(tick)
      ensures armed.value == armed.interval && Normalised(armed.value) && Nanos(armed.value) == usec * NSEC_PER_USEC
    {
      interval := usec;
      armed := StartSpec(interval);
    }

    /** Stop: the timer is disarmed (there is no check for a timer that was never created). */
    method Stop()
      requires Valid()
      modifies this
      ensures Valid() && interval == old(interval) && tick == old(tick)
      ensures armed == DISARMED
    {
      armed := DISARMED;
    }

    /** The expiry handler: one more tick (modulo 2^64), carried by the notification. */
    method TimerHandler() returns (n: TimerNotification)
      requires Valid()
      modifies this
      ensures Valid() && interval == old(interval) && armed == old(armed)
      ensures tick == (old(tick) + 1) % TICK_LIMIT
      ensures n.Tick() == tick
    {
      tick := (tick + 1) % TICK_LIMIT;
      n := new TimerNotification(tick);
    }
  }
}
