/** The part of the chrono date-time library the threading code relies on: instants are
    counted in nanoseconds since the Unix epoch, and a signed duration is turned into
    whole seconds the way `TimeDelta::num_seconds` does it. */
module Chrono {

  const NanosPerSecond: int := 1_000_000_000

  /** Whole seconds in a signed duration of `nanos` nanoseconds, truncated toward zero:
      chrono keeps a duration as floor seconds plus non-negative nanoseconds and adds
      one back to the seconds of a negative duration that has a fractional part. */
  function NumSeconds(nanos: int): (secs: int)
    ensures nanos >= 0 ==> 0 <= secs && secs * NanosPerSecond <= nanos < (secs + 1) * NanosPerSecond
    ensures nanos < 0 ==> secs <= 0 && (secs - 1) * NanosPerSecond < nanos <= secs * NanosPerSecond
  {
    var floor := nanos / NanosPerSecond;
    var frac := nanos % NanosPerSecond;
    if floor < 0 && frac > 0 then floor + 1 else floor
  }

  /** `now.signed_duration_since(start).num_seconds()`. */
  function SecondsSince(now: int, start: int): (secs: int)
    ensures start == now ==> secs == 0
    ensures now >= start ==> secs >= 0
    ensures now <= start ==> secs <= 0
    ensures -(secs) == NumSeconds(start - now)
  {
    NumSeconds(now - start)
  }

  /** When both instants fall on whole seconds the age is their exact difference. */
  lemma SecondsSinceWhole(nowSecs: int, startSecs: int)
    ensures SecondsSince(nowSecs * NanosPerSecond, startSecs * NanosPerSecond) == nowSecs - startSecs
  {
  }
}
