/** System ticks (os_clock.c) and millisecond deadlines on a wrapping 32-bit clock
    (utils_timer.c). */
module Clock {
  import opened Bytes

  /** current_clock, current_seconds and second_countdown. */
  datatype Ticker = Ticker(clock: u32, seconds: u32, countdown: u32)

  ghost predicate Running(t: Ticker, second: u32) {
    0 < t.countdown <= second
  }

  /** fclk_hdl */
  function Tick(t: Ticker, second: u32): Ticker
    requires 0 < t.countdown
  {
    if t.countdown == 1
    then Ticker(Wrap32(t.clock + 1), Wrap32(t.seconds + 1), second)
    else Ticker(Wrap32(t.clock + 1), t.seconds, t.countdown - 1)
  }

  /** `n` runs of fclk_hdl */
  function Ticks(t: Ticker, second: u32, n: nat): (r: Ticker)
    requires Running(t, second)
    ensures Running(r, second)
    decreases n
  {
    if n == 0 then t else Tick(Ticks(t, second, n - 1), second)
  }

  /** Where `n` ticks lead, without counting them one by one. */
  function After(t: Ticker, second: u32, n: nat): Ticker
    requires Running(t, second)
  {
    var run := second - t.countdown + n;
    Ticker(Wrap32(t.clock + n), Wrap32(t.seconds + run / second), second - run % second)
  }

  lemma {:induction false} TicksAre(t: Ticker, second: u32, n: nat)
    requires Running(t, second)
    ensures Ticks(t, second, n) == After(t, second, n)
    decreases n
  {
    hide After;
    if n == 0 {
      AfterNone(t, second);
    } else {
      TicksAre(t, second, n - 1);
      AfterNext(t, second, n);
    }
  }

  lemma AfterNone(t: Ticker, second: u32)
    requires Running(t, second)
    ensures After(t, second, 0) == t
  {
    var gone := second - t.countdown;
    ModUnique(gone, second, 0, gone);
  }

  lemma AfterNext(t: Ticker, second: u32, n: nat)
    requires Running(t, second) && n > 0
    requires After(t, second, n - 1).countdown > 0
    ensures After(t, second, n) == Tick(After(t, second, n - 1), second)
  {
    hide Wrap32;
    var run := second - t.countdown + n;
    NextRun(run, second);
    WrapNext(t.seconds + (run - 1) / second);
    WrapNext(t.clock + n - 1);
  }

  /** One more tick: either the second is full or the remainder grows. */
  lemma NextRun(run: nat, second: u32)
    requires 0 < run && 0 < second
    ensures var q, r := (run - 1) / second, (run - 1) % second;
            if r == second - 1 then run / second == q + 1 && run % second == 0
            else run / second == q && run % second == r + 1
  {
    var q, r := (run - 1) / second, (run - 1) % second;
    assert run - 1 == q * second + r;
    if r == second - 1 {
      assert (q + 1) * second == q * second + second;
      ModUnique(run, second, q + 1, 0);
    } else {
      ModUnique(run, second, q, r + 1);
    }
  }

  lemma WrapNext(x: int)
    ensures Wrap32(Wrap32(x) + 1) == Wrap32(x + 1)
  {
  }

  class SystemTicks {
    const second: u32   // FCLK_SECOND
    var currentClock: u32
    var currentSeconds: u32
    var countdown: u32

    function State(): Ticker
      reads this
    {
      Ticker(currentClock, currentSeconds, countdown)
    }

    constructor (second: u32)
      requires 0 < second
      ensures Running(State(), second) && this.second == second && State() == Ticker(0, 0, second)
    {
      this.second := second;
      currentClock, currentSeconds, countdown := 0, 0, second;
    }

    /** fclk_hdl */
    method Handle()
      requires Running(State(), second)
      modifies this
      ensures Running(State(), second) && State() == Tick(old(State()), second)
    {
      currentClock := Wrap32(currentClock + 1);
      countdown := countdown - 1;
      if countdown == 0 {
        currentSeconds := Wrap32(currentSeconds + 1);
        countdown := second;
      }
    }

    /** The loop of fclk_freertos_update_tick: whole seconds are carried over. */
    method CarrySeconds(n: u32) returns (tick: nat, ghost k: nat)
      requires 0 < second
      modifies this`currentSeconds
      ensures n == k * second + tick && tick < second
      ensures currentSeconds == Wrap32(old(currentSeconds) + k)
    {
      tick, k := n, 0;
      while tick >= second
        invariant n == k * second + tick
        invariant currentSeconds == Wrap32(old(currentSeconds) + k)
        decreases tick
      {
        WrapNext(old(currentSeconds) + k);
        assert (k + 1) * second == k * second + second;
        currentSeconds := Wrap32(currentSeconds + 1);
        tick, k := tick - second, k + 1;
      }
    }

    /** fclk_freertos_update_tick: one call for `n` ticks is `n` single ticks. */
    method UpdateTick(n: u32)
      requires Running(State(), second)
      modifies this
      ensures State() == Ticks(old(State()), second, n)
    {
      ghost var t := State();
      TicksAre(t, second, n);
      hide Ticks, Wrap32;
      currentClock := Wrap32(currentClock + n);
      var tick, k := CarrySeconds(n);
      Remainder(t, second, n, k, tick);
      WrapNext(t.seconds + k);
      if countdown <= tick {
        currentSeconds := Wrap32(currentSeconds + 1);
        countdown := second - (tick - countdown);
      } else {
        countdown := countdown - tick;
      }
    }

    /** fclk_reset_count: the running second is not reset. */
    method Reset()
      modifies this
      ensures State() == Ticker(0, 0, old(countdown))
    {
      currentClock, currentSeconds := 0, 0;
    }
  }

  lemma Remainder(t: Ticker, second: u32, n: nat, k: nat, tick: nat)
    requires Running(t, second) && n == k * second + tick && tick < second
    ensures var run := second - t.countdown + n;
            if t.countdown <= tick
            then run / second == k + 1 && run % second == tick - t.countdown
            else run / second == k && run % second == second - t.countdown + tick
  {
    var run := second - t.countdown + n;
    if t.countdown <= tick {
      assert run == (k + 1) * second + (tick - t.countdown);
      ModUnique(run, second, k + 1, tick - t.countdown);
    } else {
      ModUnique(run, second, k, second - t.countdown + tick);
    }
  }

  /** Between resets the tick counter stays in step with seconds and countdown. */
  lemma {:induction false} InStep(t: Ticker, second: u32, n: nat)
    requires Running(t, second)
    ensures var r := Ticks(t, second, n);
            Wrap32(r.clock - r.seconds * second + r.countdown) == Wrap32(t.clock - t.seconds * second + t.countdown)
    decreases n
  {
    if n > 0 {
      InStep(t, second, n - 1);
      StepInStep(Ticks(t, second, n - 1), second);
    }
  }

  lemma StepInStep(u: Ticker, second: u32)
    requires Running(u, second)
    ensures var r := Tick(u, second);
            Wrap32(r.clock - r.seconds * second + r.countdown) == Wrap32(u.clock - u.seconds * second + u.countdown)
  {
    var r := Tick(u, second);
    var a := (u.clock + 1) / TWO32;
    assert r.clock == u.clock + 1 - a * TWO32;
    if u.countdown == 1 {
      var b := (u.seconds + 1) / TWO32;
      assert r.seconds == u.seconds + 1 - b * TWO32;
      assert r.seconds * second == u.seconds * second + second - b * TWO32 * second;
      SameWrap(u.clock - u.seconds * second + u.countdown,
               r.clock - r.seconds * second + r.countdown, b * second - a);
    } else {
      SameWrap(u.clock - u.seconds * second + u.countdown,
               r.clock - r.seconds * second + r.countdown, -a);
    }
  }

  lemma SameWrap(x: int, y: int, k: int)
    requires y == x + k * TWO32
    ensures Wrap32(x) == Wrap32(y)
  {
    var q := x / TWO32;
    ModUnique(y, TWO32, q + k, x % TWO32);
  }

  // ---------------------------------------------------------------- deadlines

  const HALF: u32 := 0x7FFF_FFFF   // UINT32_MAX / 2

  /** utils_time_countdown_ms */
  function Deadline(now: u32, ms: u32): u32 {
    Wrap32(now + ms)
  }

  /** utils_time_is_expired */
  predicate Expired(end: u32, now: u32) {
    Wrap32(now - end) < HALF
  }

  /** iotx_time_left */
  function TimeLeft(end: u32, now: u32): u32 {
    if Expired(end, now) then 0 else Wrap32(end - now)
  }

  /** utils_time_left */
  function UtilsTimeLeft(end: u32, now: u32): u32 {
    var left := Wrap32(end - now);
    if left > HALF then 0 else left   // the sign bit of int32_t
  }

  /** For every start, countdown and elapsed time the expiry test tells the truth exactly
      while the deadline is less than 2^31 - 1 ms past or at most 2^31 + 1 ms ahead. */
  lemma ExpiryExact(start: u32, ms: u32, elapsed: u32)
    ensures (Expired(Deadline(start, ms), Wrap32(start + elapsed)) <==> elapsed >= ms) <==>
            (if elapsed >= ms then elapsed - ms < HALF else ms - elapsed <= HALF + 2)
  {
    var d := elapsed - ms;
    WrapDifference(start, ms, elapsed);
    if d >= 0 {
      ModUnique(d, TWO32, 0, d);
    } else {
      ModUnique(d, TWO32, -1, d + TWO32);
    }
  }

  lemma WrapDifference(start: u32, a: u32, b: u32)
    ensures Wrap32(Wrap32(start + b) - Wrap32(start + a)) == Wrap32(b - a)
  {
    var p, q := (start + b) / TWO32, (start + a) / TWO32;
    SameWrap(Wrap32(start + b) - Wrap32(start + a), b - a, p - q);
  }

  /** Within the range callers use, both remaining-time functions are the plain difference. */
  lemma TimeLeftExact(start: u32, ms: u32, elapsed: u32)
    requires ms < HALF && elapsed < HALF
    ensures var end, now := Deadline(start, ms), Wrap32(start + elapsed);
            var left := if elapsed >= ms then 0 else ms - elapsed;
            TimeLeft(end, now) == left && UtilsTimeLeft(end, now) == left
  {
    ExpiryExact(start, ms, elapsed);
    WrapDifference(start, elapsed, ms);
    var d := ms - elapsed;
    if d >= 0 {
      ModUnique(d, TWO32, 0, d);
    } else {
      ModUnique(d, TWO32, -1, d + TWO32);
    }
  }
}
