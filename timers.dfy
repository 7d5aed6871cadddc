/**
 * The countdowns of the game (Pacman's invincibility and the power mode),
 * kept in whole ticks at 60 ticks per second.
 */
module Timers {
  /** One tick of an active countdown: it drops by one, and on reaching zero
      the countdown switches off.  An inactive countdown does not move. */
  function Countdown(active: bool, timer: nat): (r: (bool, nat))
    ensures !active ==> r == (active, timer)
    ensures active ==> r.1 == (if timer > 0 then timer - 1 else 0)
    ensures r.0 <==> active && r.1 > 0
  {
    if !active then (active, timer)
    else if timer <= 1 then (false, 0)
    else (true, timer - 1)
  }

  /** The countdown after n ticks. */
  function CountdownAfter(active: bool, timer: nat, n: nat): (bool, nat)
    decreases n
  {
    if n == 0 then (active, timer)
    else CountdownAfter(Countdown(active, timer).0, Countdown(active, timer).1, n - 1)
  }

  /** A countdown started at t > 0 stays active for t - 1 ticks and switches
      off on tick t, after which it stays off. */
  lemma {:induction false} CountdownLasts(t: nat, n: nat)
    requires t > 0
    ensures n < t ==> CountdownAfter(true, t, n) == (true, t - n)
    ensures n >= t ==> CountdownAfter(true, t, n) == (false, 0)
    decreases n
  {
    if n > 0 {
      if t > 1 {
        CountdownLasts(t - 1, n - 1);
      } else {
        StaysOff(n - 1);
      }
    }
  }

  /** A switched-off countdown never moves again. */
  lemma {:induction false} StaysOff(n: nat)
    ensures CountdownAfter(false, 0, n) == (false, 0)
    decreases n
  {
    if n > 0 {
      StaysOff(n - 1);
    }
  }
}
