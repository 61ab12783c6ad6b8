/** rttos/os_clock.c: the tick interrupt and the catch-up that replays many ticks at once
    after the system slept. */
module OsClock {
  import opened Words

  /** current_clock, current_seconds and second_countdown. */
  datatype Clock = Clock(ticks: u32, seconds: u32, countdown: u32)

  /** `second` is FCLK_SECOND, the number of ticks in a second. */
  ghost predicate Wf(c: Clock, second: u32) {
    1 <= c.countdown <= second
  }

  /** One tick interrupt. */
  function Tick(c: Clock, second: u32): Clock {
    var down := Wrap(c.countdown - 1);
    if down == 0 then Clock(Wrap(c.ticks + 1), Wrap(c.seconds + 1), second)
    else Clock(Wrap(c.ticks + 1), c.seconds, down)
  }

  function Ticks(c: Clock, second: u32, n: nat): Clock {
    if n == 0 then c else Tick(Ticks(c, second, n - 1), second)
  }

  /** The seconds part of the catch-up: whole seconds first, then the remainder. */
  function CatchUp(c: Clock, second: u32, n: nat): Clock
    requires Wf(c, second)
    decreases n
  {
    if n >= second then CatchUp(c.(ticks := Wrap(c.ticks + second), seconds := Wrap(c.seconds + 1)), second, n - second)
    else if c.countdown <= n then Clock(Wrap(c.ticks + n), Wrap(c.seconds + 1), second - (n - c.countdown))
    else Clock(Wrap(c.ticks + n), c.seconds, c.countdown - n)
  }

  lemma {:induction false} TicksWithinASecond(c: Clock, second: u32, n: nat)
    requires Wf(c, second) && n <= second
    ensures Ticks(c, second, n) ==
      if c.countdown <= n then Clock(Wrap(c.ticks + n), Wrap(c.seconds + 1), second - (n - c.countdown))
      else Clock(Wrap(c.ticks + n), c.seconds, c.countdown - n)
    decreases n
  {
    hide Wrap;
    WrapSmall(c.ticks);
    if n > 0 {
      TicksWithinASecond(c, second, n - 1);
      WrapAdd(c.ticks + n - 1, 1);
      WrapSmall(Ticks(c, second, n - 1).countdown - 1);
    }
  }

  lemma {:induction false} TicksAdd(c: Clock, second: u32, m: nat, n: nat)
    ensures Ticks(c, second, m + n) == Ticks(Ticks(c, second, m), second, n)
    decreases n
  {
    if n > 0 {
      TicksAdd(c, second, m, n - 1);
    }
  }

  /** Catching up n ticks in one go leaves the same clock, seconds and countdown as taking
      n tick interrupts, for every n and across every wrap of the 32-bit counters. */
  lemma {:induction false} CatchUpIsTicks(c: Clock, second: u32, n: nat)
    requires Wf(c, second)
    ensures CatchUp(c, second, n) == Ticks(c, second, n)
    ensures Wf(CatchUp(c, second, n), second)
    decreases n
  {
    hide Wrap, Tick;
    if n >= second {
      TicksWithinASecond(c, second, second);
      var c1 := Ticks(c, second, second);
      TicksAdd(c, second, second, n - second);
      CatchUpIsTicks(c1, second, n - second);
    } else {
      TicksWithinASecond(c, second, n);
    }
  }

  const START_TICKS: u32 := 0

  function Start(second: u32): Clock {
    Clock(START_TICKS, 0, second)
  }

  /** From start-up, the seconds counter is the tick count divided by the tick rate. */
  lemma {:induction false} SecondsCountTicks(second: u32, q: nat, r: nat)
    requires r < second
    ensures Ticks(Start(second), second, q * second + r) ==
      Clock(Wrap(q * second + r), Wrap(q), second - r)
    decreases q
  {
    hide Wrap, Tick;
    var c := Start(second);
    WrapSmall(0);
    if q == 0 {
      TicksWithinASecond(c, second, r);
    } else {
      var m := (q - 1) * second + r;
      assert q * second + r == m + second;
      SecondsCountTicks(second, q - 1, r);
      TicksAdd(c, second, m, second);
      TicksWithinASecond(Ticks(c, second, m), second, second);
      WrapAdd(m, second);
      WrapAdd(q - 1, 1);
    }
  }

  class FakeClock {
    const second: u32
    var currentClock: u32
    var currentSeconds: u32
    var secondCountdown: u32

    ghost predicate Valid()
      reads this
    {
      Wf(Value(), second)
    }

    ghost function Value(): Clock
      reads this
    {
      Clock(currentClock, currentSeconds, secondCountdown)
    }

    constructor (second: u32)
      requires second >= 1
      ensures Valid() && this.second == second && Value() == Start(second)
    {
      this.second := second;
      currentClock, currentSeconds, secondCountdown := 0, 0, second;
    }

    method FclkHdl()
      requires Valid()
      modifies this
      ensures Valid() && Value() == Tick(old(Value()), second)
      ensures currentClock == Wrap(old(currentClock) + 1)
      ensures if old(secondCountdown) == 1 then currentSeconds == Wrap(old(currentSeconds) + 1) && secondCountdown == second
              else currentSeconds == old(currentSeconds) && secondCountdown == old(secondCountdown) - 1
    {
      currentClock := Wrap(currentClock + 1);
      secondCountdown := Wrap(secondCountdown - 1);
      if secondCountdown == 0 {
        currentSeconds := Wrap(currentSeconds + 1);
        secondCountdown := second;
      }
    }

    method FclkFreertosUpdateTick(n: u32)
      requires Valid()
      modifies this
      ensures Valid() && Value() == Ticks(old(Value()), second, n)
      ensures currentClock == Wrap(old(currentClock) + n)
    {
      hide Wrap, Ticks, Tick;
      ghost var c := Value();
      CatchUpIsTicks(c, second, n);
      WrapAdd(c.ticks, n);
      ghost var now := c;
      var tick := n;
      currentClock := Wrap(currentClock + tick);
      while tick >= second
        invariant Wf(now, second) && 0 <= tick <= n && currentClock == Wrap(old(currentClock) + n)
        invariant currentClock == Wrap(now.ticks + tick)
        invariant currentSeconds == now.seconds && secondCountdown == now.countdown
        invariant CatchUp(now, second, tick) == CatchUp(c, second, n)
      {
        WrapAdd(now.ticks + second, tick - second);
        now := now.(ticks := Wrap(now.ticks + second), seconds := Wrap(now.seconds + 1));
        currentSeconds := Wrap(currentSeconds + 1);
        tick := tick - second;
      }
      if secondCountdown <= tick {
        currentSeconds := Wrap(currentSeconds + 1);
        secondCountdown := second - (tick - secondCountdown);
      } else {
        secondCountdown := secondCountdown - tick;
      }
    }
  }
}
