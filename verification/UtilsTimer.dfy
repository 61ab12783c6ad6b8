/** app/http/utils_timer.c: millisecond deadlines on a 32-bit clock that wraps. */
module UtilsTimer {
  import opened Words

  const UINT32_MAX: u32 := 0xFFFF_FFFF

  /** utils_time_is_expired for one clock sample. */
  predicate IsExpired(end: u32, now: u32) {
    Wrap(now - end) < UINT32_MAX / 2
  }

  /** iotx_time_left for one clock sample. */
  function IotxTimeLeft(end: u32, now: u32): u32 {
    if IsExpired(end, now) then 0 else Wrap(end - now)
  }

  /** utils_time_left: the difference as a signed number, negative ones cut to 0. */
  function UtilsTimeLeft(end: u32, now: u32): u32 {
    var left := ToInt32(Wrap(end - now));
    if left < 0 then 0 else left
  }

  /** A countdown of t started at `start` and read `elapsed` milliseconds later reports
      max(t - elapsed, 0) exactly while it is not more than 0x80000001 ahead and not more
      than 0x7FFFFFFE (modulo 2^32) behind, wherever the clock wraps in between. */
  lemma CountdownExact(start: u32, t: u32, elapsed: nat)
    ensures IotxTimeLeft(Wrap(start + t), Wrap(start + elapsed)) == Max(t - elapsed, 0)
      <==> if elapsed <= t then t - elapsed <= 0x8000_0001 else Wrap(elapsed - t) <= 0x7FFF_FFFE
  {
    hide Wrap;
    WrapDifference(start + t, start + elapsed);
    WrapDifference(start + elapsed, start + t);
    WrapNegate(t - elapsed);
    WrapNegate(elapsed - t);
    if elapsed <= t {
      WrapSmall(t - elapsed);
    }
  }

  /** The case the HTTP client relies on: timeouts below 2^31 ms. */
  lemma CountdownWorks(start: u32, t: u32, elapsed: nat)
    requires t < 0x8000_0000 && elapsed - t <= 0x7FFF_FFFE
    ensures IotxTimeLeft(Wrap(start + t), Wrap(start + elapsed)) == Max(t - elapsed, 0)
    ensures UtilsTimeLeft(Wrap(start + t), Wrap(start + elapsed)) == Max(t - elapsed, 0)
    ensures IsExpired(Wrap(start + t), Wrap(start + elapsed)) <==> elapsed >= t
  {
    hide Wrap;
    WrapDifference(start + t, start + elapsed);
    WrapDifference(start + elapsed, start + t);
    WrapNegate(t - elapsed);
    WrapNegate(elapsed - t);
    WrapSmall(if elapsed <= t then t - elapsed else elapsed - t);
  }

  /** The two notions of remaining time disagree at exactly two distances. */
  lemma TwoTimeLefts(end: u32, now: u32)
    ensures IotxTimeLeft(end, now) != UtilsTimeLeft(end, now)
      <==> Wrap(end - now) == 0x8000_0000 || Wrap(end - now) == 0x8000_0001
  {
  }

  class Timer {
    var time: u32

    /** utils_time_countdown_ms: `Countdown` says what the stored deadline means later on. */
    method CountdownMs(now: u32, millisecond: u32)
      modifies this
      ensures time == Wrap(now + millisecond)
      ensures millisecond < 0x8000_0000 ==> Deadline(time, now, millisecond)
    {
      time := Wrap(now + millisecond);
      if millisecond < 0x8000_0000 {
        forall elapsed: nat | elapsed <= 0x7FFF_FFFE
          ensures IotxTimeLeft(time, Later(now, elapsed)) == Max(millisecond - elapsed, 0)
        {
          CountdownWorks(now, millisecond, elapsed);
        }
      }
    }

    /** utils_time_spend: since the last iotx_time_start. */
    method Spend(now: u32) returns (res: u32)
      ensures forall elapsed: u32 :: now == Later(time, elapsed) ==> res == elapsed
    {
      res := Wrap(now - time);
    }
  }

  /** The clock reading `elapsed` milliseconds after `now`. */
  function Later(now: u32, elapsed: nat): u32 {
    Wrap(now + elapsed)
  }

  ghost predicate Deadline(time: u32, now: u32, t: u32) {
    forall elapsed: nat :: elapsed <= 0x7FFF_FFFE ==> IotxTimeLeft(time, Later(now, elapsed)) == Max(t - elapsed, 0)
  }
}
