/** The timer interrupt counters, and the deadline of a sleeping task. */
module Timer {

  const TICKS_PER_SECOND: nat := 1000

  /** Seconds since boot and ticks of the current second; a tick is a millisecond. */
  datatype Clock = Clock(sec: nat, ms: nat)

  predicate ValidClock(c: Clock) { c.ms < TICKS_PER_SECOND }

  /** Milliseconds since boot. */
  function Total(c: Clock): nat { 1000 * c.sec + c.ms }

  /** The counters after one timer interrupt. */
  function Advance(c: Clock): (r: Clock)
    requires ValidClock(c)
    ensures ValidClock(r) && Total(r) == Total(c) + 1
  {
    if c.ms + 1 >= TICKS_PER_SECOND then Clock(c.sec + 1, 0) else Clock(c.sec, c.ms + 1)
  }

  /** Where `sleep_ms` puts the deadline: a leftover of exactly 1000 is not carried into the seconds. */
  function Deadline(now: Clock, ms: nat): Clock {
    var until, leftover := now.sec + ms / 1000, now.ms + ms % 1000;
    if leftover > 1000 then Clock(until + 1, leftover % 1000) else Clock(until, leftover)
  }

  datatype Check = Yes | No | Fails

  /** `SleepBlocker::can_unblock`; `Fails` is its assertion that at most one second was skipped. */
  function CanWake(now: Clock, until: Clock): Check {
    if now.sec < until.sec then No
    else if now.sec - until.sec > 1 then Fails
    else if now.sec > until.sec || now.ms >= until.ms then Yes else No
  }

  /**
   * Whatever the start tick and the duration, the blocker says yes exactly when the requested time has
   * passed; its assertion fails exactly when it is asked more than a second too late.
   */
  lemma SleepIsExact(start: Clock, ms: nat, now: Clock)
    requires ValidClock(start) && ValidClock(now)
    ensures CanWake(now, Deadline(start, ms)) == No <==> Total(now) < Total(start) + ms
    ensures CanWake(now, Deadline(start, ms)) == Fails <==> now.sec > Deadline(start, ms).sec + 1
    ensures Total(now) < Total(start) + ms + 1000 ==> CanWake(now, Deadline(start, ms)) != Fails
  {
  }

  /** After `n` interrupts the counters hold exactly `n` more milliseconds. */
  function AdvanceBy(c: Clock, n: nat): (r: Clock)
    requires ValidClock(c)
    ensures ValidClock(r) && Total(r) == Total(c) + n
    decreases n
  {
    if n == 0 then c else AdvanceBy(Advance(c), n - 1)
  }

  /** A sleeper asked at every interrupt wakes at the first interrupt that completes its time. */
  lemma WakesOnTime(start: Clock, ms: nat, n: nat)
    requires ValidClock(start) && n < ms + 1000
    ensures CanWake(AdvanceBy(start, n), Deadline(start, ms)) == if n < ms then No else Yes
  {
  }
}
