/** The bounded retry policy (src/retry.rs). Time is in milliseconds and real, a sleep
    moves the clock by its length, and the outcomes, their durations and the jitter are
    an arbitrary script. */
module Retry {
  import opened Outcomes

  type Duration = d: real | d >= 0.0

  const MAX_ATTEMPTS: nat := 3
  const BASE_DELAY: nat := 200
  const MAX_DELAY: nat := 5_000
  const U32_MAX: nat := 0xFFFF_FFFF
  const DURATION_MAX: nat := 0xFFFF_FFFF_FFFF_FFFF * 1_000 + 999

  function Min(a: nat, b: nat): nat {
    if a < b then a else b
  }

  function Pow2(n: nat): nat {
    if n == 0 then 1 else 2 * Pow2(n - 1)
  }

  /** As written, in `u32` and saturating `Duration` arithmetic. */
  function BackoffFor(attempt: nat): nat
    requires attempt <= U32_MAX
  {
    var shift := Min(if attempt >= 1 then attempt - 1 else 0, 32);
    var factor := if shift < 32 then Pow2(shift) else U32_MAX;
    Min(Min(BASE_DELAY * factor, DURATION_MAX), MAX_DELAY)
  }

  lemma {:induction false} Pow2Grows(m: nat, n: nat)
    requires m <= n
    ensures 1 <= Pow2(m) <= Pow2(n)
  {
    if m < n {
      Pow2Grows(m, n - 1);
    } else if m > 0 {
      Pow2Grows(m - 1, m - 1);
    }
  }

  lemma Pow2Of32()
    ensures Pow2(5) == 32 && Pow2(32) == 0x1_0000_0000
  {
    assert Pow2(5) == 2 * Pow2(4) == 4 * Pow2(3) == 8 * Pow2(2) == 16 * Pow2(1);
    assert Pow2(8) == 2 * Pow2(7) == 4 * Pow2(6) == 8 * Pow2(5);
    Pow2Sum(8, 8);
    Pow2Sum(16, 16);
  }

  lemma {:induction false} Pow2Sum(m: nat, n: nat)
    ensures Pow2(m + n) == Pow2(m) * Pow2(n)
  {
    if n > 0 {
      Pow2Sum(m, n - 1);
    }
  }

  /** The saturations never show: the backoff doubles from the base up to the cap, for
      every attempt number a `u32` can hold. */
  lemma BackoffIsExponential(n: nat)
    requires 1 <= n <= 0xFFFF_FFFF
    ensures BackoffFor(n) == Min(5_000, 200 * Pow2(n - 1))
  {
    Pow2Of32();
    var shift := Min(n - 1, 32);
    Pow2Grows(shift, n - 1);
    if shift < 32 {
      Pow2Grows(shift, 32);
    } else {
      Pow2Grows(32, n - 1);
    }
  }

  lemma BackoffIsMonotone(m: nat, n: nat)
    requires m <= n <= U32_MAX
    ensures BackoffFor(m) <= BackoffFor(n)
  {
    if m >= 1 {
      BackoffIsExponential(m);
      BackoffIsExponential(n);
      Pow2Grows(m - 1, n - 1);
    } else if n >= 1 {
      BackoffIsExponential(n);
      Pow2Grows(0, n - 1);
    }
  }

  function Clamp(fraction: real): real {
    if fraction < 0.0 then 0.0 else if fraction > 1.0 then 1.0 else fraction
  }

  function Jittered(backoff: nat, fraction: real): (d: Duration)
    ensures d <= backoff as real
  {
    var (b, f) := (backoff as real, Clamp(fraction));
    assert 0.0 <= b * f <= b;
    b * f
  }

  /** Full jitter: the fraction drawn, kept within [0, 1], spreads the delay evenly over
      everything from no wait to the whole backoff; a hint only raises it. */
  lemma JitterIsFull(attempt: nat, hint: Option<Duration>, fraction: real)
    requires 1 <= attempt <= U32_MAX
    ensures var (d, whole) := (DelayFor(attempt, None, fraction), Min(5_000, 200 * Pow2(attempt - 1)) as real);
            && (fraction <= 0.0 ==> d == 0.0) && (fraction >= 1.0 ==> d == whole)
            && (0.0 <= fraction <= 1.0 ==> d == fraction * whole)
            && (hint.Some? ==> DelayFor(attempt, hint, fraction) in {d, hint.value})
  {
    BackoffIsExponential(attempt);
  }

  function Hint(retryAfter: Option<Duration>): Duration {
    if retryAfter.Some? then retryAfter.value else 0.0
  }

  /** Full jitter, raised to any hint. */
  function DelayFor(attempt: nat, retryAfter: Option<Duration>, fraction: real): (d: Duration)
    requires attempt <= U32_MAX
    ensures retryAfter.Some? ==> d >= retryAfter.value
    ensures d <= BackoffFor(attempt) as real + Hint(retryAfter)
  {
    var jittered := Jittered(BackoffFor(attempt), fraction);
    if retryAfter.Some? && retryAfter.value > jittered then retryAfter.value else jittered
  }

  predicate IsRetryable(e: AxiamError) {
    e.Network?
  }

  datatype OpResult<T> = Done(value: T) | Failed(err: AxiamError, retryAfter: Option<Duration>)

  /** What one attempt will bring: how long it takes, how it ends, and the jitter drawn. */
  datatype Turn<T> = Turn(took: Duration, result: OpResult<T>, fraction: real)

  datatype Event = Started(attempt: nat, at: real) | Retrying(attempt: nat, delay: Duration) | Slept(delay: Duration)

  datatype Finish<T> = Value(value: T) | Ended(err: AxiamError, atDeadline: bool, retryAfter: Option<Duration>)

  datatype Outcome<T> = Outcome(finish: Finish<T>, trace: seq<Event>, now: real)

  function Cap(enabled: bool): nat {
    if enabled then MAX_ATTEMPTS else 1
  }

  /** The wait before the next attempt, and whether it ends at the deadline. */
  function WaitFor(delay: Duration, deadline: Option<real>, now: real): (w: (Duration, bool))
    ensures w.0 <= delay
    ensures w.1 <==> deadline.Some? && now + delay >= deadline.value
    ensures !w.1 ==> w.0 == delay
  {
    match deadline
    case None => (delay, false)
    case Some(at) =>
      var left := if at > now then at - now else 0.0;
      if delay >= left then (left, true) else (delay, false)
  }

  /** A bounded run does not sleep for nothing; an unbounded one always sleeps. */
  function WaitEvents(attempt: nat, delay: Duration, deadline: Option<real>): seq<Event> {
    [Retrying(attempt, delay)] + if deadline.None? || delay > 0.0 then [Slept(delay)] else []
  }

  /** One attempt and, when another may follow, the wait: how the run ends here, if it
      does, what was seen, and the clock afterwards. */
  function TakeTurn<T>(cap: nat, attempt: nat, deadline: Option<real>, turn: Turn<T>, now: real)
    : (Option<Finish<T>>, seq<Event>, real)
    requires attempt <= U32_MAX
  {
    var (start, ended) := ([Started(attempt, now)], now + turn.took);
    match turn.result
    case Done(v) => (Some(Value(v)), start, ended)
    case Failed(err, hint) =>
      if attempt >= cap || !IsRetryable(err) then (Some(Ended(err, false, hint)), start, ended)
      else
        var (delay, atDeadline) := WaitFor(DelayFor(attempt, hint, turn.fraction), deadline, ended);
        (if atDeadline then Some(Ended(err, true, hint)) else None,
         start + WaitEvents(attempt, delay, deadline), ended + delay)
  }

  /** The run from its `attempt`-th attempt on. */
  function RunFrom<T>(cap: nat, attempt: nat, deadline: Option<real>, script: nat -> Turn<T>, now: real): Outcome<T>
    requires 1 <= attempt <= cap <= U32_MAX
    decreases cap - attempt
  {
    var (finish, seen, clock) := TakeTurn(cap, attempt, deadline, script(attempt), now);
    if finish.Some? then Outcome(finish.value, seen, clock)
    else
      var rest := RunFrom(cap, attempt + 1, deadline, script, clock);
      rest.(trace := seen + rest.trace)
  }

  /** The caller's clock and what telemetry and the sleeper saw. */
  class World {
    var now: real
    var trace: seq<Event>

    constructor (now: real)
      ensures this.now == now && trace == []
    {
      this.now, trace := now, [];
    }

    method Sleep(d: Duration)
      modifies this
      ensures now == old(now) + d && trace == old(trace) + [Slept(d)]
    {
      now, trace := now + d, trace + [Slept(d)];
    }

    method Note(e: Event)
      modifies this`trace
      ensures trace == old(trace) + [e]
    {
      trace := trace + [e];
    }
  }

  /** One turn of the loop. */
  method Turnover<T>(cap: nat, attempt: nat, deadline: Option<real>, turn: Turn<T>, w: World)
    returns (r: Option<Finish<T>>)
    requires attempt <= U32_MAX
    modifies w
    ensures var (finish, seen, clock) := TakeTurn(cap, attempt, deadline, turn, old(w.now));
            r == finish && w.trace == old(w.trace) + seen && w.now == clock
  {
    w.Note(Started(attempt, w.now));
    w.now := w.now + turn.took;
    if turn.result.Done? {
      return Some(Value(turn.result.value));
    }
    var err, hint := turn.result.err, turn.result.retryAfter;
    if attempt >= cap || !IsRetryable(err) {
      return Some(Ended(err, false, hint));
    }
    var (delay, atDeadline) := WaitFor(DelayFor(attempt, hint, turn.fraction), deadline, w.now);
    w.Note(Retrying(attempt, delay));
    if deadline.None? || delay > 0.0 {
      w.Sleep(delay);
    }
    return if atDeadline then Some(Ended(err, true, hint)) else None;
  }

  /** A turn that does not end the run leaves the rest of it to come. */
  lemma AfterTurn<T>(cap: nat, attempt: nat, deadline: Option<real>, script: nat -> Turn<T>, now: real)
    requires 1 <= attempt <= cap <= U32_MAX
    ensures var (finish, seen, clock) := TakeTurn(cap, attempt, deadline, script(attempt), now);
            var run := RunFrom(cap, attempt, deadline, script, now);
            if finish.Some? then run == Outcome(finish.value, seen, clock)
            else
              && attempt < cap
              && var rest := RunFrom(cap, attempt + 1, deadline, script, clock);
                 run.finish == rest.finish && run.now == rest.now && run.trace == seen + rest.trace
  {
  }

  /** What `RunUntil` still owes: the finish, the final clock, and the whole trace. */
  ghost predicate Owes<T>(goal: Outcome<T>, rest: Outcome<T>, trace: seq<Event>) {
    goal.finish == rest.finish && goal.now == rest.now && goal.trace == trace + rest.trace
  }

  method RunUntil<T>(enabled: bool, deadline: Option<real>, script: nat -> Turn<T>, w: World) returns (r: Finish<T>)
    modifies w
    ensures var spec := RunFrom(Cap(enabled), 1, deadline, script, old(w.now));
            Owes(Outcome(r, w.trace, w.now), spec, old(w.trace))
  {
    hide TakeTurn, RunFrom;
    var cap, attempt := Cap(enabled), 1;
    ghost var whole := RunFrom(cap, 1, deadline, script, w.now);
    ghost var goal := whole.(trace := w.trace + whole.trace);
    while true
      invariant 1 <= attempt <= cap
      invariant Owes(goal, RunFrom(cap, attempt, deadline, script, w.now), w.trace)
      decreases cap - attempt
    {
      AfterTurn(cap, attempt, deadline, script, w.now);
      ghost var before := w.trace;
      ghost var seen := TakeTurn(cap, attempt, deadline, script(attempt), w.now).1;
      var finish := Turnover(cap, attempt, deadline, script(attempt), w);
      if finish.Some? {
        return finish.value;
      }
      attempt := attempt + 1;
      ghost var rest := RunFrom(cap, attempt, deadline, script, w.now);
      assert before + (seen + rest.trace) == (before + seen) + rest.trace;
    }
  }
}
