/** What the SSF receiver promises of any sequence of `verify_set` and `poll` calls: no
    jti is accepted twice within the replay window. */
module SsfRunLaws {
  import opened Outcomes
  import opened ExpiryLog
  import opened Ssf
  import opened SsfPollLaws

  datatype Call = CallVerifySet(token: WireSet, key: KeyAnswer) | CallPoll(reply: Reply)

  ghost function AfterCall(cfg: Config, st: StoreState, call: Call): StoreState {
    match call
    case CallVerifySet(token, key) => VerifySet(cfg, st, token, key).1
    case CallPoll(reply) => Poll(cfg, st, reply).1
  }

  /** The keys of each reply are those of a map. */
  predicate Proper(call: Call) {
    call.CallPoll? && call.reply.Sets? ==> DistinctKeys(call.reply.sets)
  }

  ghost function StateBefore(cfg: Config, st: StoreState, calls: seq<Call>, k: nat): StoreState
    requires k <= |calls|
  {
    if k == 0 then st else AfterCall(cfg, StateBefore(cfg, st, calls, k - 1), calls[k - 1])
  }

  // --- The log of acceptances ---

  /** Acceptances of one jti do not overlap, each lasts the window, none is in the future. */
  ghost predicate Sound(st: StoreState, window: nat) {
    && Apart(st.log)
    && forall i :: 0 <= i < |st.log| ==> st.log[i].until == st.log[i].at + window && st.log[i].at <= st.clock
  }

  lemma RecordedKeepsSound(st: StoreState, window: nat, event: SecurityEvent)
    requires Sound(st, window)
    ensures Sound(Recorded(st, window, event).1, window)
  {
    AskKeepsApart(st.log, event.jti, st.Later().clock, window);
    hide Apart;
  }

  lemma {:induction false} SettleKeepsSound(st: StoreState, window: nat, judged: seq<Judged>, down: bool)
    requires Sound(st, window)
    ensures Sound(Settle(st, window, judged, down).1, window)
    decreases |judged|
  {
    if judged != [] {
      if judged[0].verdict.Ok? {
        RecordedKeepsSound(st, window, judged[0].verdict.value);
      }
      var (fate, st1) := SettleOne(st, window, judged[0].verdict, down);
      SettleKeepsSound(st1, window, judged[1..], down || fate.Unjudged?);
    }
  }

  lemma CallKeepsSound(cfg: Config, st: StoreState, call: Call)
    requires Sound(st, cfg.window)
    ensures Sound(AfterCall(cfg, st, call), cfg.window)
  {
    match call
    case CallVerifySet(token, key) =>
      if Judge(cfg, token, key, None).Ok? {
        RecordedKeepsSound(st, cfg.window, Judge(cfg, token, key, None).value);
      }
    case CallPoll(reply) =>
      if reply.Sets? && JudgeAll(cfg, reply.sets).Ok? {
        SettleKeepsSound(st, cfg.window, JudgeAll(cfg, reply.sets).value, false);
      }
  }

  lemma {:induction false} RunKeepsSound(cfg: Config, st: StoreState, calls: seq<Call>, k: nat)
    requires Sound(st, cfg.window) && k <= |calls|
    ensures Sound(StateBefore(cfg, st, calls, k), cfg.window)
  {
    if k > 0 {
      RunKeepsSound(cfg, st, calls, k - 1);
      CallKeepsSound(cfg, StateBefore(cfg, st, calls, k - 1), calls[k - 1]);
    }
  }

  lemma CallGrowsLog(cfg: Config, st: StoreState, call: Call)
    requires Proper(call)
    ensures st.log <= AfterCall(cfg, st, call).log
  {
    if call.CallPoll? {
      PollIsAllOrNothing(cfg, st, call.reply);
    }
  }

  lemma {:induction false} LogOnlyGrows(cfg: Config, st: StoreState, calls: seq<Call>, i: nat, j: nat)
    requires i <= j <= |calls| && forall k :: 0 <= k < |calls| ==> Proper(calls[k])
    ensures StateBefore(cfg, st, calls, i).log <= StateBefore(cfg, st, calls, j).log
    decreases j - i
  {
    if i < j {
      LogOnlyGrows(cfg, st, calls, i, j - 1);
      CallGrowsLog(cfg, StateBefore(cfg, st, calls, j - 1), calls[j - 1]);
    }
  }

  // --- What the calls return, and when it was accepted ---

  /** The jtis a call hands to its caller as accepted. */
  ghost function Returns(cfg: Config, st: StoreState, call: Call): seq<string> {
    match call
    case CallVerifySet(token, key) =>
      var v := VerifySet(cfg, st, token, key).0;
      if v.Ok? then [v.value.jti] else []
    case CallPoll(reply) =>
      var r := Poll(cfg, st, reply).0;
      if r.Ok? then EventJtis(r.value.events) else []
  }

  /** When the store is asked for the `i`-th SET of a reply. */
  function AskedAt(cfg: Config, st: StoreState, sets: seq<Offer>, i: nat): nat
    requires i < |sets| && JudgeAll(cfg, sets).Ok?
  {
    ClockAfter(st, CountOk(JudgeAll(cfg, sets).value[..i]) + 1)
  }

  /** The call returns this jti, accepted at this instant of the store's clock. */
  ghost predicate ReturnsAt(cfg: Config, st: StoreState, call: Call, jti: string, at: nat) {
    && jti in Returns(cfg, st, call)
    && match call
       case CallVerifySet(_, _) => at == ClockAfter(st, 1)
       case CallPoll(reply) =>
         && reply.Sets? && JudgeAll(cfg, reply.sets).Ok?
         && exists i :: 0 <= i < |reply.sets| && reply.sets[i].jti == jti && at == AskedAt(cfg, st, reply.sets, i)
  }

  /** Whatever a call returns was accepted at some instant. */
  lemma ReturnsAtSomeInstant(cfg: Config, st: StoreState, call: Call, jti: string) returns (at: nat)
    requires Proper(call) && jti in Returns(cfg, st, call)
    ensures ReturnsAt(cfg, st, call, jti, at)
  {
    match call
    case CallVerifySet(_, _) => at := ClockAfter(st, 1);
    case CallPoll(reply) =>
      var events := Poll(cfg, st, reply).0.value.events;
      var k :| 0 <= k < |events| && EventJtis(events)[k] == jti;
      var i := EventsAreOffered(cfg, st, reply.sets, reply.moreAvailable, events[k]);
      at := AskedAt(cfg, st, reply.sets, i);
  }

  /** What one turn of step 9 leaves for the next. */
  lemma TurnMoves(st: StoreState, window: nat, j: Judged, n: nat)
    requires j.verdict.Ok? ==> j.verdict.value.jti == j.jti
    ensures var (fate, st1) := SettleOne(st, window, j.verdict, false);
            && (j.verdict.Err? ==> st1 == st && !fate.Accepted?)
            && (j.verdict.Ok? && !fate.Unjudged? ==> ClockAfter(st1, n) == ClockAfter(st, n + 1))
            && (fate.Accepted? ==> Record(j.jti, ClockAfter(st, 1), ClockAfter(st, 1) + window) in st1.log)
  {
    var (fate, st1) := SettleOne(st, window, j.verdict, false);
    assert ClockAfter(st, 1) == ClockAfter(st.Later(), 0);
    if j.verdict.Ok? && !fate.Unjudged? {
      ClockIgnoresLog(st1, st.Later(), n);
    }
  }

  lemma CountShifts(judged: seq<Judged>, i: nat)
    requires 0 < i < |judged|
    ensures CountOk(judged[..i]) == (if judged[0].verdict.Ok? then 1 else 0) + CountOk(judged[1..][..i - 1])
  {
    assert judged[..i][1..] == judged[1..][..i - 1];
  }

  lemma RecordStays(r: Record, log: seq<Record>, later: seq<Record>)
    requires r in log && log <= later
    ensures r in later
  {
    var k :| 0 <= k < |log| && log[k] == r;
    assert later[k] == r;
  }

  lemma FirstIsRecorded(st: StoreState, window: nat, judged: seq<Judged>)
    requires Clean(judged) && judged != [] && Settle(st, window, judged, false).0[0].Accepted?
    ensures var at := ClockAfter(st, 1);
            Record(judged[0].jti, at, at + window) in Settle(st, window, judged, false).1.log
  {
    var (fate, st1) := SettleOne(st, window, judged[0].verdict, false);
    var at := ClockAfter(st, 1);
    TurnMoves(st, window, judged[0], 0);
    hide SettleOne, ClockAfter;
    SettleGrowsByEvents(st1, window, judged[1..], fate.Unjudged?);
    RecordStays(Record(judged[0].jti, at, at + window), st1.log, Settle(st, window, judged, false).1.log);
  }

  lemma {:induction false} AcceptedIsRecorded(st: StoreState, window: nat, judged: seq<Judged>, i: nat)
    requires Clean(judged) && i < |judged| && Settle(st, window, judged, false).0[i].Accepted?
    ensures var at := ClockAfter(st, CountOk(judged[..i]) + 1);
            Record(judged[i].jti, at, at + window) in Settle(st, window, judged, false).1.log
    decreases |judged|
  {
    if i == 0 {
      assert CountOk(judged[..0]) == 0;
      FirstIsRecorded(st, window, judged);
    } else {
      var (fate, st1) := SettleOne(st, window, judged[0].verdict, false);
      var rest := judged[1..];
      hide SettleOne, ClockAfter, CountOk;
      CountShifts(judged, i);
      TurnMoves(st, window, judged[0], CountOk(rest[..i - 1]) + 1);
      if fate.Unjudged? {
        SettleWhenDown(st1, window, rest);
      } else {
        AcceptedIsRecorded(st1, window, rest, i - 1);
      }
    }
  }

  lemma ReturnIsAccepted(cfg: Config, st: StoreState, sets: seq<Offer>, more: bool, i: nat)
    requires DistinctKeys(sets) && Poll(cfg, st, Sets(sets, more)).0.Ok? && i < |sets|
    requires sets[i].jti in EventJtis(Poll(cfg, st, Sets(sets, more)).0.value.events)
    ensures JudgeAll(cfg, sets).Ok?
    ensures var judged := JudgeAll(cfg, sets).value;
            var (fates, after) := Settle(st, cfg.window, judged, false);
            && Clean(judged) && |judged| == |sets| && judged[i].jti == sets[i].jti
            && fates[i].Accepted? && Poll(cfg, st, Sets(sets, more)).1 == after
  {
    var judged := JudgeAll(cfg, sets).value;
    PhaseOneIsClean(cfg, sets);
    FatesAreLabelled(cfg, st, sets);
    hide Judge, JudgeAll, Clean, Distinct;
    ListOfFate(Keys(judged), Fates(cfg, st, sets), i);
    assert Keys(judged)[i] == judged[i].jti;
  }

  lemma PollReturnWasNotHeld(cfg: Config, st: StoreState, sets: seq<Offer>, more: bool, i: nat)
    requires DistinctKeys(sets) && Poll(cfg, st, Sets(sets, more)).0.Ok? && i < |sets|
    requires sets[i].jti in EventJtis(Poll(cfg, st, Sets(sets, more)).0.value.events)
    ensures JudgeAll(cfg, sets).Ok? && !Holds(st.log, sets[i].jti, AskedAt(cfg, st, sets, i))
  {
    assert JudgeAll(cfg, sets).Ok?;
    hide Poll, JudgeAll, Judge, JudgeOffer, Holds, OutageWithin, ClockAfter, CountOk, EventJtis, DistinctKeys;
    PollPlaces(cfg, st, sets, more, i);
  }

  lemma PollReturnIsRecorded(cfg: Config, st: StoreState, sets: seq<Offer>, more: bool, i: nat)
    requires DistinctKeys(sets) && Poll(cfg, st, Sets(sets, more)).0.Ok? && i < |sets|
    requires sets[i].jti in EventJtis(Poll(cfg, st, Sets(sets, more)).0.value.events)
    ensures var at := AskedAt(cfg, st, sets, i);
            Record(sets[i].jti, at, at + cfg.window) in Poll(cfg, st, Sets(sets, more)).1.log
  {
    hide Poll, JudgeAll, Settle, ClockAfter, CountOk, Clean, EventJtis, DistinctKeys;
    ReturnIsAccepted(cfg, st, sets, more, i);
    AcceptedIsRecorded(st, cfg.window, JudgeAll(cfg, sets).value, i);
  }

  /** An acceptance was not held before, and is on record from its instant on. */
  lemma ReturnIsRecorded(cfg: Config, st: StoreState, call: Call, jti: string, at: nat)
    requires Proper(call) && ReturnsAt(cfg, st, call, jti, at)
    ensures !Holds(st.log, jti, at)
    ensures Record(jti, at, at + cfg.window) in AfterCall(cfg, st, call).log
  {
    match call
    case CallVerifySet(token, key) =>
      hide Judge, Holds;
      assert ClockAfter(st, 1) == ClockAfter(st.Later(), 0);
    case CallPoll(reply) =>
      hide Poll, Holds, JudgeAll, AskedAt, EventJtis, DistinctKeys;
      var i :| 0 <= i < |reply.sets| && reply.sets[i].jti == jti && at == AskedAt(cfg, st, reply.sets, i);
      PollReturnWasNotHeld(cfg, st, reply.sets, reply.moreAvailable, i);
      PollReturnIsRecorded(cfg, st, reply.sets, reply.moreAvailable, i);
  }

  lemma LiveIsHeld(log: seq<Record>, more: seq<Record>, r: Record)
    requires log <= more && r in log
    ensures forall t: nat :: t < r.until ==> Holds(more, r.id, t)
  {
    var i :| 0 <= i < |log| && log[i] == r;
    assert more[i] == r;
  }

  lemma ReturnStaysRecorded(cfg: Config, st: StoreState, calls: seq<Call>, i: nat, j: nat, jti: string, a: nat)
    requires i < j < |calls| && forall k :: 0 <= k < |calls| ==> Proper(calls[k])
    requires ReturnsAt(cfg, StateBefore(cfg, st, calls, i), calls[i], jti, a)
    ensures forall t: nat :: t < a + cfg.window ==> Holds(StateBefore(cfg, st, calls, j).log, jti, t)
  {
    hide ReturnsAt, AfterCall, Proper, Holds;
    var (first, next) := (StateBefore(cfg, st, calls, i), StateBefore(cfg, st, calls, i + 1));
    assert next == AfterCall(cfg, first, calls[i]);
    hide StateBefore;
    ReturnIsRecorded(cfg, first, calls[i], jti, a);
    LogOnlyGrows(cfg, st, calls, i + 1, j);
    LiveIsHeld(next.log, StateBefore(cfg, st, calls, j).log, Record(jti, a, a + cfg.window));
  }

  /** In no run of calls is a jti returned as accepted twice within the window. */
  lemma NoDoubleAcceptance(cfg: Config, st: StoreState, calls: seq<Call>, i: nat, j: nat, jti: string, a: nat, b: nat)
    requires i < j < |calls| && forall k :: 0 <= k < |calls| ==> Proper(calls[k])
    requires ReturnsAt(cfg, StateBefore(cfg, st, calls, i), calls[i], jti, a)
    requires ReturnsAt(cfg, StateBefore(cfg, st, calls, j), calls[j], jti, b)
    ensures b >= a + cfg.window && (Configurable(cfg) ==> b >= a + 7 * 86_400_000)
  {
    hide ReturnsAt, StateBefore, AfterCall, Proper, Holds;
    ReturnStaysRecorded(cfg, st, calls, i, j, jti, a);
    ReturnIsRecorded(cfg, StateBefore(cfg, st, calls, j), calls[j], jti, b);
  }
}
