/**
 * The session countdown. `timeLeft` is either null (no timed section
 * entered yet) or a number of seconds; once per second the running timer
 * takes one second off, and a timer that reads null or 0 does not run.
 */
module Countdown {
  import opened Optional

  /** The warm-up clock: 15 minutes. */
  const WarmUpSeconds: int := 15 * 60
  /** The speed-challenge clock: 20 minutes. */
  const SpeedSeconds: int := 20 * 60

  /** One elapsed second of the timer effect. */
  function TickValue(t: Option<int>): (r: Option<int>)
    ensures r.Some? <==> t.Some?
    ensures r == t <==> t == None || t == Some(0)
    ensures t.Some? && t.value != 0 ==> r.value == t.value - 1
    ensures t.Some? && t.value >= 0 ==> 0 <= r.value <= t.value
  {
    match t
    case None => None
    case Some(s) => if s == 0 then t else Some(s - 1)
  }

  /** The timer after `n` elapsed seconds. */
  function Ticks(t: Option<int>, n: nat): (r: Option<int>)
    ensures r.Some? <==> t.Some?
    ensures t.Some? && t.value >= 0 ==> 0 <= r.value <= t.value
    decreases n
  {
    if n == 0 then t else Ticks(TickValue(t), n - 1)
  }

  /** A started clock counts down one per second and then stays at 0; it never goes negative. */
  lemma {:induction false} TicksFrom(start: int, n: nat)
    requires start >= 0
    ensures Ticks(Some(start), n) == Some(if n <= start then start - n else 0)
  {
    if n > 0 {
      TicksFrom(if start == 0 then 0 else start - 1, n - 1);
    }
  }

  /** A clock that was never started stays null however many seconds pass. */
  lemma {:induction false} TicksFromNull(n: nat)
    ensures Ticks(None, n) == None
  {
    if n > 0 {
      TicksFromNull(n - 1);
    }
  }

  /** Both section clocks reach exactly 0 when their time is up, and stop there. */
  lemma SectionClocksRunOut(extra: nat)
    ensures Ticks(Some(WarmUpSeconds), WarmUpSeconds + extra) == Some(0)
    ensures Ticks(Some(SpeedSeconds), SpeedSeconds + extra) == Some(0)
  {
    TicksFrom(WarmUpSeconds, WarmUpSeconds + extra);
    TicksFrom(SpeedSeconds, SpeedSeconds + extra);
  }
}
