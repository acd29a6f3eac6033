/** What every retried run keeps, whatever the outcomes, hints, jitter and clock. */
module RetryLaws {
  import opened Outcomes
  import opened Retry

  /** The attempts of a trace, in order. */
  function Attempts(trace: seq<Event>): seq<nat> {
    if trace == [] then []
    else if trace[0].Started? then [trace[0].attempt] + Attempts(trace[1..])
    else Attempts(trace[1..])
  }

  function TotalSlept(trace: seq<Event>): real {
    if trace == [] then 0.0
    else if trace[0].Slept? then trace[0].delay + TotalSlept(trace[1..])
    else TotalSlept(trace[1..])
  }

  lemma {:induction false} TraceConcat(a: seq<Event>, b: seq<Event>)
    ensures Attempts(a + b) == Attempts(a) + Attempts(b)
    ensures TotalSlept(a + b) == TotalSlept(a) + TotalSlept(b)
  {
    if a == [] {
      assert a + b == b;
    } else {
      TraceConcat(a[1..], b);
      assert (a + b)[0] == a[0] && (a + b)[1..] == a[1..] + b;
    }
  }

  function UpTo(from: nat, last: nat): seq<nat>
    requires from <= last + 1
    decreases last + 1 - from
  {
    if from > last then [] else [from] + UpTo(from + 1, last)
  }

  /** What one turn shows, for the laws below. */
  lemma TurnShows<T>(cap: nat, attempt: nat, deadline: Option<real>, turn: Turn<T>, now: real)
    requires attempt <= U32_MAX
    ensures var (finish, seen, clock) := TakeTurn(cap, attempt, deadline, turn, now);
            && Attempts(seen) == [attempt]
            && clock == now + turn.took + TotalSlept(seen)
            && (finish.None? ==> turn.result.Failed? && turn.result.err.Network? && attempt < cap)
            && (finish.Some? && finish.value.Value? ==> turn.result == Done(finish.value.value))
            && (finish.Some? && finish.value.Ended? ==>
                  && turn.result == Failed(finish.value.err, finish.value.retryAfter)
                  && (finish.value.atDeadline || attempt >= cap || !finish.value.err.Network?))
  {
    var (finish, seen, clock) := TakeTurn(cap, attempt, deadline, turn, now);
    var start: seq<Event> := [Started(attempt, now)];
    assert start[1..] == [] && Attempts(start) == [attempt] + Attempts([]) && TotalSlept(start) == 0.0;
    if seen != start {
      var waits := seen[1..];
      assert seen == start + waits;
      TraceConcat(start, waits);
      var delay := waits[0].delay;
      assert waits[1..] == (if deadline.None? || delay > 0.0 then [Slept(delay)] else []);
      if waits[1..] != [] {
        assert waits[1..][1..] == [];
      }
      assert Attempts(waits) == Attempts(waits[1..]) == [] && TotalSlept(waits) == delay;
    }
  }

  /** The run makes attempts `attempt..k`, each but the last a retryable failure; its
      finish is the `k`-th outcome; and it stops short of the cap only on a value, on a
      failure that is not retryable, or at the deadline. */
  lemma {:induction false} RunIsBounded<T>(
    cap: nat, attempt: nat, deadline: Option<real>, script: nat -> Turn<T>, now: real)
    returns (k: nat)
    requires 1 <= attempt <= cap <= U32_MAX
    ensures attempt <= k <= cap
    ensures var run := RunFrom(cap, attempt, deadline, script, now);
            && Attempts(run.trace) == UpTo(attempt, k)
            && (forall n :: attempt <= n < k ==> script(n).result.Failed? && script(n).result.err.Network?)
            && (match run.finish
                case Value(v) => script(k).result == Done(v)
                case Ended(err, atDeadline, hint) =>
                  script(k).result == Failed(err, hint) && (atDeadline || k == cap || !err.Network?))
    decreases cap - attempt
  {
    hide TakeTurn, RunFrom;
    var (finish, seen, clock) := TakeTurn(cap, attempt, deadline, script(attempt), now);
    TurnShows(cap, attempt, deadline, script(attempt), now);
    AfterTurn(cap, attempt, deadline, script, now);
    if finish.Some? {
      k := attempt;
    } else {
      k := RunIsBounded(cap, attempt + 1, deadline, script, clock);
      TraceConcat(seen, RunFrom(cap, attempt + 1, deadline, script, clock).trace);
    }
  }

  /** At most three attempts, one when retries are disabled; and all of those are made
      unless one brings a value or a decisive failure, or the deadline comes. */
  lemma AtMostThreeAttempts<T>(enabled: bool, deadline: Option<real>, script: nat -> Turn<T>, now: real)
    ensures var run := RunFrom(Cap(enabled), 1, deadline, script, now);
            var most := if enabled then 3 else 1;
            && |Attempts(run.trace)| <= most
            && (|Attempts(run.trace)| < most ==>
                  || run.finish.Value? || !run.finish.err.Network?
                  || (deadline.Some? && run.finish.atDeadline))
  {
    var k := RunIsBounded(Cap(enabled), 1, deadline, script, now);
    UpToLength(1, k);
    DeadlineNeedsOne(Cap(enabled), 1, deadline, script, now);
  }

  lemma {:induction false} DeadlineNeedsOne<T>(
    cap: nat, attempt: nat, deadline: Option<real>, script: nat -> Turn<T>, now: real)
    requires 1 <= attempt <= cap <= U32_MAX
    ensures var finish := RunFrom(cap, attempt, deadline, script, now).finish;
            finish.Ended? && finish.atDeadline ==> deadline.Some?
    decreases cap - attempt
  {
    var (finish, seen, clock) := TakeTurn(cap, attempt, deadline, script(attempt), now);
    AfterTurn(cap, attempt, deadline, script, now);
    if finish.None? {
      DeadlineNeedsOne(cap, attempt + 1, deadline, script, clock);
    }
  }

  lemma {:induction false} UpToLength(from: nat, last: nat)
    requires from <= last + 1
    ensures |UpTo(from, last)| == last + 1 - from
    decreases last + 1 - from
  {
    if from <= last {
      UpToLength(from + 1, last);
    }
  }

  /** Every wait was announced by one Retry event with the same delay, right before it;
      every announced wait of positive length, and without a deadline every announced
      wait, is served right after. */
  ghost predicate WaitsAnnounced(trace: seq<Event>, deadline: Option<real>) {
    && (forall i :: 0 <= i < |trace| && trace[i].Slept? ==>
          i > 0 && trace[i - 1].Retrying? && trace[i - 1].delay == trace[i].delay)
    && (forall i :: 0 <= i < |trace| && trace[i].Retrying? && (deadline.None? || trace[i].delay > 0.0) ==>
          i + 1 < |trace| && trace[i + 1] == Slept(trace[i].delay))
    && (trace != [] ==> trace[0].Started?)
  }

  lemma AnnouncedConcat(a: seq<Event>, b: seq<Event>, deadline: Option<real>)
    requires WaitsAnnounced(a, deadline) && WaitsAnnounced(b, deadline) && a != []
    ensures WaitsAnnounced(a + b, deadline)
  {
    var all := a + b;
    forall i | 0 <= i < |all| && all[i].Slept?
      ensures i > 0 && all[i - 1].Retrying? && all[i - 1].delay == all[i].delay
    {
      if i >= |a| {
        assert b[i - |a|].Slept? && all[i - 1] == b[i - |a| - 1];
      }
    }
    forall i | 0 <= i < |all| && all[i].Retrying? && (deadline.None? || all[i].delay > 0.0)
      ensures i + 1 < |all| && all[i + 1] == Slept(all[i].delay)
    {
      if i >= |a| {
        assert b[i - |a|].Retrying? && all[i + 1] == b[i - |a| + 1];
      }
    }
  }

  lemma TurnAnnounces<T>(cap: nat, attempt: nat, deadline: Option<real>, turn: Turn<T>, now: real)
    requires attempt <= U32_MAX
    ensures var seen := TakeTurn(cap, attempt, deadline, turn, now).1;
            seen != [] && WaitsAnnounced(seen, deadline)
  {
  }

  lemma {:induction false} EveryWaitIsAnnounced<T>(
    cap: nat, attempt: nat, deadline: Option<real>, script: nat -> Turn<T>, now: real)
    requires 1 <= attempt <= cap <= U32_MAX
    ensures WaitsAnnounced(RunFrom(cap, attempt, deadline, script, now).trace, deadline)
    decreases cap - attempt
  {
    hide TakeTurn, RunFrom, WaitsAnnounced;
    var (finish, seen, clock) := TakeTurn(cap, attempt, deadline, script(attempt), now);
    AfterTurn(cap, attempt, deadline, script, now);
    TurnAnnounces(cap, attempt, deadline, script(attempt), now);
    if finish.None? {
      EveryWaitIsAnnounced(cap, attempt + 1, deadline, script, clock);
      AnnouncedConcat(seen, RunFrom(cap, attempt + 1, deadline, script, clock).trace, deadline);
    }
  }

  /** Every Retry event directly follows the attempt whose number it carries. */
  ghost predicate RetriesFollowAttempts(trace: seq<Event>) {
    forall i :: 0 <= i < |trace| && trace[i].Retrying? ==>
      i > 0 && trace[i - 1].Started? && trace[i - 1].attempt == trace[i].attempt
  }

  lemma FollowConcat(a: seq<Event>, b: seq<Event>)
    requires RetriesFollowAttempts(a) && RetriesFollowAttempts(b)
    ensures RetriesFollowAttempts(a + b)
  {
    var all := a + b;
    forall i | 0 <= i < |all| && all[i].Retrying?
      ensures i > 0 && all[i - 1].Started? && all[i - 1].attempt == all[i].attempt
    {
      if i >= |a| {
        assert b[i - |a|].Retrying? && all[i - 1] == b[i - |a| - 1];
      }
    }
  }

  predicate AtDeadline<T>(finish: Finish<T>) {
    finish.Ended? && finish.atDeadline
  }

  lemma TurnFollows<T>(cap: nat, attempt: nat, deadline: Option<real>, turn: Turn<T>, now: real)
    requires attempt <= U32_MAX
    ensures var (finish, seen, clock) := TakeTurn(cap, attempt, deadline, turn, now);
            && RetriesFollowAttempts(seen) && seen != []
            && (finish.Some? ==> (seen[|seen| - 1].Started? <==> !AtDeadline(finish.value)))
  {
  }

  /** A Retry event carries the number of the attempt just before it, and no event and no
      wait follows a value, a decisive failure or the last failure: a run ends with an
      attempt, unless it ends at the deadline. */
  lemma {:induction false} NothingFollowsTheLastAttempt<T>(
    cap: nat, attempt: nat, deadline: Option<real>, script: nat -> Turn<T>, now: real)
    requires 1 <= attempt <= cap <= U32_MAX
    ensures var run := RunFrom(cap, attempt, deadline, script, now);
            && RetriesFollowAttempts(run.trace) && run.trace != []
            && (run.trace[|run.trace| - 1].Started? <==> !AtDeadline(run.finish))
    decreases cap - attempt
  {
    hide TakeTurn, RunFrom, RetriesFollowAttempts, AtDeadline;
    var (finish, seen, clock) := TakeTurn(cap, attempt, deadline, script(attempt), now);
    AfterTurn(cap, attempt, deadline, script, now);
    TurnFollows(cap, attempt, deadline, script(attempt), now);
    if finish.None? {
      NothingFollowsTheLastAttempt(cap, attempt + 1, deadline, script, clock);
      FollowConcat(seen, RunFrom(cap, attempt + 1, deadline, script, clock).trace);
    }
  }

  lemma TurnBeatsDeadline<T>(cap: nat, attempt: nat, at: real, turn: Turn<T>, now: real)
    requires attempt <= U32_MAX
    ensures var (finish, seen, clock) := TakeTurn(cap, attempt, Some(at), turn, now);
            && (finish.None? ==> clock < at)
            && (forall e :: e in seen && e.Started? ==> e.attempt == attempt)
  {
  }

  /** Under a deadline every attempt after the first starts strictly before it. */
  lemma {:induction false} RetriesBeatTheDeadline<T>(
    cap: nat, attempt: nat, at: real, script: nat -> Turn<T>, now: real)
    requires 1 <= attempt <= cap <= U32_MAX
    ensures forall e :: e in RunFrom(cap, attempt, Some(at), script, now).trace && e.Started? && e.attempt > attempt ==>
              e.at < at
    decreases cap - attempt
  {
    hide TakeTurn, RunFrom;
    var (finish, seen, clock) := TakeTurn(cap, attempt, Some(at), script(attempt), now);
    AfterTurn(cap, attempt, Some(at), script, now);
    TurnBeatsDeadline(cap, attempt, at, script(attempt), now);
    if finish.None? {
      var rest := RunFrom(cap, attempt + 1, Some(at), script, clock);
      RetriesBeatTheDeadline(cap, attempt + 1, at, script, clock);
      FirstEvent(cap, attempt + 1, Some(at), script, clock);
      var k := RunIsBounded(cap, attempt + 1, Some(at), script, clock);
      forall e | e in rest.trace && e.Started?
        ensures e.at < at
      {
        StartedOnce(rest.trace, e, attempt + 1, k);
      }
    }
  }

  lemma FirstEvent<T>(cap: nat, attempt: nat, deadline: Option<real>, script: nat -> Turn<T>, now: real)
    requires 1 <= attempt <= cap <= U32_MAX
    ensures var trace := RunFrom(cap, attempt, deadline, script, now).trace;
            trace != [] && trace[0] == Started(attempt, now)
  {
  }

  /** The first event is the only start of the first attempt. */
  lemma StartedOnce(trace: seq<Event>, e: Event, from: nat, last: nat)
    requires from <= last && trace != [] && trace[0].Started? && trace[0].attempt == from
    requires Attempts(trace) == UpTo(from, last) && e in trace && e.Started?
    ensures e == trace[0] || e.attempt > from
  {
    if e != trace[0] {
      assert e in trace[1..];
      StartedAreAttempts(trace[1..], e);
      assert Attempts(trace)[1..] == Attempts(trace[1..]) && UpTo(from, last)[1..] == UpTo(from + 1, last);
      UpToBounds(from + 1, last, e.attempt);
    }
  }

  lemma {:induction false} StartedAreAttempts(trace: seq<Event>, e: Event)
    requires e in trace && e.Started?
    ensures e.attempt in Attempts(trace)
  {
    if trace[0] != e {
      StartedAreAttempts(trace[1..], e);
    }
  }

  lemma {:induction false} UpToBounds(from: nat, last: nat, n: nat)
    requires from <= last + 1 && n in UpTo(from, last)
    ensures from <= n <= last
    decreases last + 1 - from
  {
    if n != from {
      UpToBounds(from + 1, last, n);
    }
  }

  /** Another attempt may follow this one's outcome, deadlines aside. */
  predicate MayRetry<T>(cap: nat, attempt: nat, turn: Turn<T>) {
    attempt < cap && turn.result.Failed? && turn.result.err.Network?
  }

  /** What an attempt's outcome leads to: if it may be retried and the delay drawn ends
      strictly before any deadline, the next attempt, at the end of exactly that delay;
      if it may be retried and the delay does not, the end of the run at the deadline. */
  ghost predicate Follows<T>(
    cap: nat, deadline: Option<real>, script: nat -> Turn<T>, run: Outcome<T>, e: Event)
    requires e.Started? && e.attempt <= U32_MAX
  {
    var turn := script(e.attempt);
    MayRetry(cap, e.attempt, turn) ==>
      var next := e.at + turn.took + DelayFor(e.attempt, turn.result.retryAfter, turn.fraction);
      if deadline.None? || next < deadline.value then Started(e.attempt + 1, next) in run.trace
      else run.finish == Ended(turn.result.err, true, turn.result.retryAfter)
  }

  lemma TurnLeadsOn<T>(cap: nat, attempt: nat, deadline: Option<real>, turn: Turn<T>, now: real)
    requires attempt <= U32_MAX
    ensures var (finish, seen, clock) := TakeTurn(cap, attempt, deadline, turn, now);
            && (forall e :: e in seen && e.Started? ==> e == Started(attempt, now))
            && (MayRetry(cap, attempt, turn) ==>
                  var next := now + turn.took + DelayFor(attempt, turn.result.retryAfter, turn.fraction);
                  if deadline.None? || next < deadline.value then finish.None? && clock == next
                  else finish == Some(Ended(turn.result.err, true, turn.result.retryAfter)))
  {
  }

  lemma FollowsInLonger<T>(
    cap: nat, deadline: Option<real>, script: nat -> Turn<T>, rest: Outcome<T>, run: Outcome<T>, e: Event)
    requires e.Started? && e.attempt <= U32_MAX && Follows(cap, deadline, script, rest, e)
    requires rest.finish == run.finish && forall x :: x in rest.trace ==> x in run.trace
    ensures Follows(cap, deadline, script, run, e)
  {
  }

  lemma FirstFollows<T>(cap: nat, attempt: nat, deadline: Option<real>, script: nat -> Turn<T>, now: real)
    requires 1 <= attempt <= cap <= U32_MAX
    ensures Follows(cap, deadline, script, RunFrom(cap, attempt, deadline, script, now), Started(attempt, now))
  {
    var (finish, seen, clock) := TakeTurn(cap, attempt, deadline, script(attempt), now);
    hide TakeTurn, RunFrom, DelayFor;
    AfterTurn(cap, attempt, deadline, script, now);
    TurnLeadsOn(cap, attempt, deadline, script(attempt), now);
    if finish.None? {
      FirstEvent(cap, attempt + 1, deadline, script, clock);
    }
  }

  /** So the outcome of every attempt of a run leads on. */
  lemma {:induction false} EveryOutcomeLeadsOn<T>(
    cap: nat, attempt: nat, deadline: Option<real>, script: nat -> Turn<T>, now: real)
    requires 1 <= attempt <= cap <= U32_MAX
    ensures var run := RunFrom(cap, attempt, deadline, script, now);
            forall e :: e in run.trace && e.Started? ==> e.attempt <= U32_MAX && Follows(cap, deadline, script, run, e)
    decreases cap - attempt
  {
    hide TakeTurn, RunFrom, DelayFor, Follows;
    var run := RunFrom(cap, attempt, deadline, script, now);
    var (finish, seen, clock) := TakeTurn(cap, attempt, deadline, script(attempt), now);
    AfterTurn(cap, attempt, deadline, script, now);
    TurnLeadsOn(cap, attempt, deadline, script(attempt), now);
    FirstFollows(cap, attempt, deadline, script, now);
    if finish.None? {
      var rest := RunFrom(cap, attempt + 1, deadline, script, clock);
      EveryOutcomeLeadsOn(cap, attempt + 1, deadline, script, clock);
      forall e | e in rest.trace && e.Started?
        ensures Follows(cap, deadline, script, run, e)
      {
        FollowsInLonger(cap, deadline, script, rest, run, e);
      }
    }
  }

  /** The clock moves by the attempts and the waits, and a run ended at the deadline ends
      exactly there, or at its last failure if that was later. */
  lemma {:induction false} DeadlineIsExact<T>(cap: nat, attempt: nat, at: real, script: nat -> Turn<T>, now: real)
    requires 1 <= attempt <= cap <= U32_MAX
    ensures var run := RunFrom(cap, attempt, Some(at), script, now);
            run.finish.Ended? && run.finish.atDeadline ==>
              run.now >= at && (run.now == at || run.trace[|run.trace| - 1].Retrying?)
    decreases cap - attempt
  {
    var (finish, seen, clock) := TakeTurn(cap, attempt, Some(at), script(attempt), now);
    AfterTurn(cap, attempt, Some(at), script, now);
    if finish.None? {
      FirstEvent(cap, attempt + 1, Some(at), script, clock);
      DeadlineIsExact(cap, attempt + 1, at, script, clock);
    }
  }

  // --- Waiting time ---

  function HintOf<T>(turn: Turn<T>): Duration {
    if turn.result.Failed? then Hint(turn.result.retryAfter) else 0.0
  }

  /** The backoffs and hints of attempts `attempt` to `cap - 1`. */
  function WaitBudget<T>(cap: nat, attempt: nat, script: nat -> Turn<T>): real
    requires attempt <= cap <= U32_MAX
    decreases cap - attempt
  {
    if attempt == cap then 0.0
    else BackoffFor(attempt) as real + HintOf(script(attempt)) + WaitBudget(cap, attempt + 1, script)
  }

  lemma {:induction false} WaitWithinBudget<T>(
    cap: nat, attempt: nat, deadline: Option<real>, script: nat -> Turn<T>, now: real)
    requires 1 <= attempt <= cap <= U32_MAX
    ensures 0.0 <= TotalSlept(RunFrom(cap, attempt, deadline, script, now).trace) <= WaitBudget(cap, attempt, script)
    decreases cap - attempt
  {
    hide DelayFor, Jittered, BackoffFor;
    var turn := script(attempt);
    var (finish, seen, clock) := TakeTurn(cap, attempt, deadline, turn, now);
    TurnShows(cap, attempt, deadline, turn, now);
    AfterTurn(cap, attempt, deadline, script, now);
    BudgetIsPositive(cap, attempt, script);
    if clock != now + turn.took {
      assert clock - (now + turn.took) <= DelayFor(attempt, turn.result.retryAfter, turn.fraction);
    }
    if finish.None? {
      WaitWithinBudget(cap, attempt + 1, deadline, script, clock);
      TraceConcat(seen, RunFrom(cap, attempt + 1, deadline, script, clock).trace);
    } else if attempt < cap {
      BudgetIsPositive(cap, attempt + 1, script);
    }
  }

  lemma {:induction false} BudgetIsPositive<T>(cap: nat, attempt: nat, script: nat -> Turn<T>)
    requires attempt <= cap <= U32_MAX
    ensures WaitBudget(cap, attempt, script) >= 0.0
    decreases cap - attempt
  {
    if attempt < cap {
      BudgetIsPositive(cap, attempt + 1, script);
      assert HintOf(script(attempt)) >= 0.0;
    }
  }

  /** In every run the waits add up to at most 600 ms and the hints of the attempts that
      can be followed by another. */
  lemma TotalWaitIsBounded<T>(enabled: bool, deadline: Option<real>, script: nat -> Turn<T>, now: real)
    ensures TotalSlept(RunFrom(Cap(enabled), 1, deadline, script, now).trace)
         <= 600.0 + HintOf(script(1)) + HintOf(script(2))
  {
    WaitWithinBudget(Cap(enabled), 1, deadline, script, now);
    BackoffIsExponential(1);
    BackoffIsExponential(2);
    assert Pow2(1) == 2;
    assert HintOf(script(1)) >= 0.0 && HintOf(script(2)) >= 0.0;
  }

  /** `Retry-After` is a floor: without a deadline no wait is shorter than its hint. */
  lemma {:induction false} HintIsAFloor<T>(cap: nat, attempt: nat, script: nat -> Turn<T>, now: real)
    requires 1 <= attempt <= cap <= U32_MAX
    ensures forall e :: e in RunFrom(cap, attempt, None, script, now).trace && e.Retrying? ==>
              e.delay >= HintOf(script(e.attempt))
    decreases cap - attempt
  {
    hide DelayFor, Jittered, BackoffFor;
    var (finish, seen, clock) := TakeTurn(cap, attempt, None, script(attempt), now);
    AfterTurn(cap, attempt, None, script, now);
    assert forall e :: e in seen && e.Retrying? ==> e.delay >= HintOf(script(e.attempt));
    if finish.None? {
      HintIsAFloor(cap, attempt + 1, script, clock);
    }
  }
}
