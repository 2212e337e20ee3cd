/**
 The throttle (main.py, lines 243-245 and 306): the pause after every send is
 `60 / emails_per_minute` seconds. The per-minute input is bounded to 0-60 by
 its widget; zero divides by zero.
 */
module Throttle {
  import opened Wrappers

  /** The two numbers the operator enters; only the per-minute one is ever read. */
  datatype Limits = Limits(perMinute: int, perHour: int)

  /** The widgets' bounds: 0-60 per minute, 0-1000 per hour. */
  predicate InRange(limits: Limits)
  {
    0 <= limits.perMinute <= 60 && 0 <= limits.perHour <= 1000
  }

  datatype ThrottleError = DivisionByZero

  /** Seconds to pause after each send, or the division error for a zero rate. */
  function Delay(limits: Limits): (r: Result<real, ThrottleError>)
    requires InRange(limits)
    ensures r.Err? <==> limits.perMinute == 0
    ensures r.Ok? ==> r.value * (limits.perMinute as real) == 60.0
    ensures r.Ok? ==> 1.0 <= r.value <= 60.0
  {
    if limits.perMinute == 0 then Err(DivisionByZero)
    else Ok(60.0 / (limits.perMinute as real))
  }

  /** Total time spent pausing. */
  function TotalPause(pauses: seq<real>): real
  {
    if pauses == [] then 0.0 else pauses[0] + TotalPause(pauses[1..])
  }

  /**
   `n` pauses of `60/r` add up to `n * 60/r` seconds, which is at least the
   `(n - 1) * 60/r` that separating `n` sends requires.
   */
  lemma {:induction false} TotalPauseOfUniform(pauses: seq<real>, delay: real)
    requires forall i :: 0 <= i < |pauses| ==> pauses[i] == delay
    ensures TotalPause(pauses) == (|pauses| as real) * delay
    ensures delay >= 0.0 && |pauses| > 0 ==> TotalPause(pauses) >= ((|pauses| - 1) as real) * delay
  {
    TotalPauseRepeated(pauses, delay);
    RepeatedIsProduct(|pauses|, delay);
  }

  /** `n` pauses of `delay` seconds, one after another. */
  function Repeated(n: nat, delay: real): real
  {
    if n == 0 then 0.0 else delay + Repeated(n - 1, delay)
  }

  /** Repeating a pause `n` times takes `n` times as long. */
  lemma {:induction false} RepeatedIsProduct(n: nat, delay: real)
    ensures Repeated(n, delay) == (n as real) * delay
  {
    if n > 0 {
      RepeatedIsProduct(n - 1, delay);
    }
  }

  /** A run of equal pauses adds up to that pause repeated once per element. */
  lemma {:induction false} TotalPauseRepeated(pauses: seq<real>, delay: real)
    requires forall i :: 0 <= i < |pauses| ==> pauses[i] == delay
    ensures TotalPause(pauses) == Repeated(|pauses|, delay)
  {
    if pauses != [] {
      TotalPauseRepeated(pauses[1..], delay);
    }
  }
}
