/**
 * The countdown shown under the code: the whole seconds left in the current
 * 30-second TOTP time step. The clock is read in integer milliseconds since
 * the Unix epoch, as `Date.now()` returns it.
 */
module Countdown {
  /** The time step X of section 4.1 of RFC 6238, in seconds; T0 is 0. */
  const Period: nat := 30

  const MillisPerSecond: nat := 1000

  /** Whole seconds since the Unix epoch. */
  function UnixSeconds(nowMs: nat): nat {
    nowMs / MillisPerSecond
  }

  /** The time-step counter T = floor(unixtime / X) of section 4.2 of RFC 6238. */
  function TimeStep(nowMs: nat): nat {
    UnixSeconds(nowMs) / Period
  }

  /**
   * `30 - Math.floor(Date.now() / 1000 % 30)`: never 0, and exactly the
   * number of seconds until the next time step begins.
   */
  function TimeLeft(nowMs: nat): (left: int)
    ensures 1 <= left <= Period
    ensures UnixSeconds(nowMs) + left == (TimeStep(nowMs) + 1) * Period
  {
    Period - UnixSeconds(nowMs) % Period
  }

  /**
   * From a time t1, a later time t2 is in the same time step exactly when
   * fewer than TimeLeft(t1) seconds have passed (Totp.TokenValidForTimeLeft
   * draws the consequence for the code).
   */
  lemma SameStepIff(t1: nat, t2: nat)
    requires UnixSeconds(t1) <= UnixSeconds(t2)
    ensures TimeStep(t1) == TimeStep(t2) <==> UnixSeconds(t2) - UnixSeconds(t1) < TimeLeft(t1)
  {
  }

  /** Within one time step the countdown drops by exactly the seconds elapsed. */
  lemma CountdownWithinStep(t1: nat, t2: nat)
    requires TimeStep(t1) == TimeStep(t2)
    ensures TimeLeft(t1) - TimeLeft(t2) == UnixSeconds(t2) - UnixSeconds(t1)
  {
  }

  /** The countdown shows the full period exactly at the first second of a step. */
  lemma FullPeriodAtRollover(nowMs: nat)
    ensures TimeLeft(nowMs) == Period <==> UnixSeconds(nowMs) == TimeStep(nowMs) * Period
  {
  }
}
