/**
 * The signal-driven interval timer: Start arms a POSIX timer with the
 * interval as both first expiry and period, Stop disarms it, and every
 * expiry delivered to the timer counts one tick and notifies the timer's
 * observers with the new count.
 *
 * The POSIX timer is represented by its id (what timer_create gave, 0 when
 * creation failed) and by the last setting passed to timer_settime.
 * Signals, observers and locks (which always succeed) are not modelled.
 */
module LibTimer {
  import opened TimeSpec

  /** The tick count is an unsigned 64-bit integer. */
  const TICK_LIMIT: nat := 0x1_0000_0000_0000_0000

  /** What observers receive on an expiry: the tick count after the increment. */
  datatype TimerNotification = TimerNotification(tick: nat)

  class Timer {
    var interval: nat
    var tick: nat
    const timerId: nat
    var armed: ItimerSpec

    ghost predicate Valid()
      reads this
    {
      interval < U32_LIMIT && tick < TICK_LIMIT
    }

    /** A new timer has interval 0 and tick 0 and is not armed. */
    constructor (timerId: nat)
      ensures Valid() && interval == 0 && tick == 0 && this.timerId == timerId && armed == DISARMED
    {
      interval, tick, armed := 0, 0, DISARMED;
      this.timerId := timerId;
    }

    /** Start: the interval is stored and the timer is armed to expire after it, then every interval. */
    method Start(usec: nat)
      requires Valid() && usec < U32_LIMIT
      modifies this
      ensures Valid() && interval == usec && tick == old(tick)
      ensures armed.value == armed.interval && Normalised(armed.value) && Nanos(armed.value) == usec * NSEC_PER_USEC
    {
      interval := usec;
      armed := StartSpec(interval);
    }

    /** Stop: a created timer is disarmed; without a timer nothing happens. */
    method Stop()
      requires Valid()
      modifies this
      ensures Valid() && interval == old(interval) && tick == old(tick)
      ensures armed == if timerId != 0 then DISARMED else old(armed)
    {
      if timerId != 0 {
        armed := DISARMED;
      }
    }

    /** Notify: one more tick (modulo 2^64), handed to the observers. */
    method Notify() returns (n: TimerNotification)
      requires Valid()
      modifies this
      ensures Valid() && interval == old(interval) && armed == old(armed)
      ensures tick == (old(tick) + 1) % TICK_LIMIT
      ensures n.tick == tick
    {
      tick := (tick + 1) % TICK_LIMIT;
      n := TimerNotification(tick);
    }
  }
}
