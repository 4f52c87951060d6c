/** The elapsed-time test of the commit debounce, on the controller's 32-bit
    millisecond clock. */
module Debounce {
  import opened Codec

  const CLOCK_MODULUS: nat := 0x1_0000_0000

  /** `since + delay < now` evaluated in `unsigned long` arithmetic: the sum
      wraps at 2^32 before it is compared. */
  function Due(since: u32, delay: u32, now: u32): bool {
    (since + delay) % CLOCK_MODULUS < now
  }

  /** While the deadline does not overflow, the test holds exactly when the
      clock has not wrapped since `since` and more than `delay` milliseconds
      have passed. */
  lemma DueWithoutOverflow(since: u32, delay: u32, now: u32)
    requires since + delay < CLOCK_MODULUS
    ensures Due(since, delay, now) <==> since <= now && now - since > delay
  {
  }

  /** The test is not safe across the clock's rollover: when the deadline
      overflows, it already holds at the very instant `since`, with no time
      elapsed. */
  lemma DueEarlyWhenDeadlineOverflows(since: u32, delay: u32)
    requires since + delay >= CLOCK_MODULUS
    ensures Due(since, delay, since)
  {
  }

  /** ... and once the clock has wrapped past a deadline that did not
      overflow, the test fails however long ago `since` was, until the clock
      climbs back above the deadline. */
  lemma DueStallsAfterClockWraps(since: u32, delay: u32, now: u32)
    requires since + delay < CLOCK_MODULUS && now < since
    ensures !Due(since, delay, now)
  {
  }

  /** The wrap-safe reading of "more than delay has elapsed": the elapsed
      time as unsigned 32-bit subtraction. The debounce does not use it; it
      is here to measure `Due` against. */
  function Elapsed(since: u32, now: u32): (d: u32)
    ensures (since + d) % CLOCK_MODULUS == now
  {
    (now - since) % CLOCK_MODULUS
  }

  /** `Due` agrees with the wrap-safe test exactly when neither the deadline
      overflows nor the clock has wrapped since `since`. */
  lemma DueAgreesWithElapsed(since: u32, delay: u32, now: u32)
    requires since + delay < CLOCK_MODULUS && since <= now
    ensures Due(since, delay, now) <==> Elapsed(since, now) > delay
  {
  }

  /** A concrete stall: 0x1010 ms have elapsed across the rollover, more
      than a 1000 ms period, yet the test does not hold. */
  lemma StallExample()
    ensures Elapsed(0xFFFF_F000, 0x10) == 0x1010
    ensures !Due(0xFFFF_F000, 1000, 0x10)
  {
  }
}
