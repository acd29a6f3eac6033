/** The receiver and its stores as the objects of src/ssf.rs: a pruned table behind
    `check_and_record`, and the loops of `poll` and `verify_set`, each proved against
    the functions of module Ssf. */
module SsfReceiver {
  import opened Outcomes
  import opened ExpiryLog
  import opened Ssf

  /** The in-memory table, in an environment that moves the clock and injects the
      outages a pluggable store may report. `log` and `asked` are its history. */
  class ReplayStore {
    var seen: map<string, nat>
    var clock: nat
    var script: seq<Beat>
    ghost var log: seq<Record>
    ghost var asked: seq<string>

    /** The pruned table answers exactly as the unpruned log of all acceptances would. */
    ghost predicate Valid()
      reads this
    {
      Agrees(seen, log, clock)
    }

    ghost function State(): StoreState
      reads this
    {
      StoreState(log, clock, script, asked)
    }

    constructor (clock: nat, script: seq<Beat>)
      ensures Valid() && State() == StoreState([], clock, script, [])
    {
      this.seen, this.clock, this.script := map[], clock, script;
      log, asked := [], [];
    }

    method CheckAndRecord(jti: string, window: nat) returns (answer: Result<bool, StoreError>)
      requires Valid()
      modifies this
      ensures Valid()
      ensures (answer, State()) == old(State()).CheckAndRecord(jti, window)
    {
      var beat := if script == [] then Beat(0, None) else script[0];
      var now := clock + beat.advance;
      PruneAgrees(seen, log, clock, now);
      clock, script := now, if script == [] then [] else script[1..];
      asked := asked + [jti];
      if beat.outage.Some? {
        return Err(beat.outage.value);
      }
      seen := Prune(seen, now);
      if jti in seen {
        return Ok(false);
      }
      InsertAgrees(seen, log, now, jti, now + window);
      seen := seen[jti := now + window];
      log := log + [Record(jti, now, now + window)];
      return Ok(true);
    }
  }

  lemma EventsAppend(fates: seq<Fate>, f: Fate)
    ensures Events(fates + [f]) == if f.Accepted? then Events(fates) + [f.event] else Events(fates)
  {
    if fates != [] {
      assert (fates + [f])[1..] == fates[1..] + [f];
    }
  }

  lemma ListsAppend(keys: seq<string>, fates: seq<Fate>, key: string, f: Fate)
    requires |keys| == |fates|
    ensures RefusedSets(keys + [key], fates + [f])
         == if f.Refused? then RefusedSets(keys, fates) + [RefusedSet(key, f.reason)] else RefusedSets(keys, fates)
    ensures UnjudgedKeys(keys + [key], fates + [f])
         == if f.Unjudged? then UnjudgedKeys(keys, fates) + [key] else UnjudgedKeys(keys, fates)
  {
    if fates != [] {
      assert (fates + [f])[1..] == fates[1..] + [f] && (keys + [key])[1..] == keys[1..] + [key];
      ListsAppend(keys[1..], fates[1..], key, f);
    }
  }

  /** The whole batch, from the fates already settled and what the rest will bring. */
  ghost predicate SettledSoFar(
    before: StoreState, now: StoreState, window: nat, judged: seq<Judged>, done: seq<Fate>, down: bool)
  {
    && |done| <= |judged|
    && var (rest, after) := Ssf.Settle(now, window, judged[|done|..], down);
       Ssf.Settle(before, window, judged, false) == (done + rest, after)
  }

  lemma SettledSoFarStarts(before: StoreState, window: nat, judged: seq<Judged>)
    ensures SettledSoFar(before, before, window, judged, [], false)
  {
    var fates := Ssf.Settle(before, window, judged, false).0;
    assert judged[0..] == judged && [] + fates == fates;
  }

  lemma SettledSoFarGrows(
    before: StoreState, now: StoreState, window: nat, judged: seq<Judged>, done: seq<Fate>, down: bool)
    requires SettledSoFar(before, now, window, judged, done, down) && |done| < |judged|
    ensures var (fate, next) := SettleOne(now, window, judged[|done|].verdict, down);
            SettledSoFar(before, next, window, judged, done + [fate], down || fate.Unjudged?)
  {
    var (fate, next) := SettleOne(now, window, judged[|done|].verdict, down);
    assert judged[|done|..][1..] == judged[|done| + 1..];
    var rest := Ssf.Settle(next, window, judged[|done| + 1..], down || fate.Unjudged?).0;
    assert done + ([fate] + rest) == (done + [fate]) + rest;
  }

  lemma SettledSoFarEnds(
    before: StoreState, now: StoreState, window: nat, judged: seq<Judged>, done: seq<Fate>, down: bool)
    requires SettledSoFar(before, now, window, judged, done, down) && |done| == |judged|
    ensures Ssf.Settle(before, window, judged, false) == (done, now)
  {
    assert judged[|done|..] == [] && done + [] == done;
  }

  /** Phase one of a whole batch, from the part already judged and the outcome of the rest. */
  function Prefixed(done: seq<Judged>, rest: Result<seq<Judged>, AxiamError>): Result<seq<Judged>, AxiamError> {
    match rest
    case Err(e) => Err(e)
    case Ok(tail) => Ok(done + tail)
  }

  lemma PrefixedGrows(done: seq<Judged>, more: seq<Judged>, rest: Result<seq<Judged>, AxiamError>)
    ensures Prefixed([], rest) == rest
    ensures Prefixed(done, Prefixed(more, rest)) == Prefixed(done + more, rest)
  {
    if rest.Ok? {
      assert [] + rest.value == rest.value && done + (more + rest.value) == (done + more) + rest.value;
    }
  }

  class SsfReceiver {
    const cfg: Config
    const store: ReplayStore

    constructor (cfg: Config, store: ReplayStore)
      ensures this.cfg == cfg && this.store == store
    {
      this.cfg, this.store := cfg, store;
    }

    /** A window shorter than the transmitter's retention, or an empty issuer or
        audience, is refused. */
    static method New(cfg: Config, store: ReplayStore) returns (r: Result<SsfReceiver, AxiamError>)
      ensures r.Ok? <==> cfg.window >= 7 * 86_400_000 && cfg.issuer != "" && cfg.audience != ""
      ensures r.Ok? ==> r.value.cfg == cfg && r.value.store == store
    {
      if cfg.window < MIN_REPLAY_WINDOW {
        return Err(Network);
      }
      if cfg.issuer == "" || cfg.audience == "" {
        return Err(Network);
      }
      var receiver := new SsfReceiver(cfg, store);
      return Ok(receiver);
    }

    /** Step 9. */
    method Record(event: SecurityEvent) returns (r: Verdict)
      requires store.Valid()
      modifies store
      ensures store.Valid()
      ensures (r, store.State()) == Recorded(old(store.State()), cfg.window, event)
    {
      var answer := store.CheckAndRecord(event.jti, cfg.window);
      match answer {
        case Ok(true) => r := Ok(event);
        case Ok(false) => r := Refuse(Replayed);
        case Err(cause) => r := Err(StoreFailure(cause));
      }
    }

    method VerifySet(token: WireSet, key: KeyAnswer) returns (r: Verdict)
      requires store.Valid()
      modifies store
      ensures store.Valid()
      ensures (r, store.State()) == Ssf.VerifySet(cfg, old(store.State()), token, key)
    {
      r := Judge(cfg, token, key, None);
      if r.Ok? {
        r := Record(r.value);
      }
    }

    /** Phase one of `poll`: nothing is recorded. */
    method JudgeBatch(sets: seq<Offer>) returns (r: Result<seq<Judged>, AxiamError>)
      ensures r == JudgeAll(cfg, sets)
    {
      var judged: seq<Judged> := [];
      var i := 0;
      assert sets[0..] == sets;
      PrefixedGrows([], [], JudgeAll(cfg, sets));
      while i < |sets|
        invariant 0 <= i <= |sets|
        invariant JudgeAll(cfg, sets) == Prefixed(judged, JudgeAll(cfg, sets[i..]))
      {
        var verdict := Judge(cfg, sets[i].token, sets[i].key, Some(sets[i].jti));
        assert sets[i..][1..] == sets[i + 1..];
        if verdict.Err? && verdict.error.SetFailureReason().None? {
          return Err(verdict.error);
        }
        PrefixedGrows(judged, [Judged(sets[i].jti, verdict)], JudgeAll(cfg, sets[i + 1..]));
        judged := judged + [Judged(sets[i].jti, verdict)];
        i := i + 1;
      }
      assert sets[i..] == [] && judged + [] == judged;
      return Ok(judged);
    }

    /** Phase two for one SET. */
    method Settle(verdict: Verdict, down: bool) returns (fate: Fate)
      requires store.Valid()
      modifies store
      ensures store.Valid()
      ensures (fate, store.State()) == SettleOne(old(store.State()), cfg.window, verdict, down)
    {
      if down && verdict.Ok? {
        return Unjudged;
      }
      var v := verdict;
      if v.Ok? {
        v := Record(v.value);
      }
      match v {
        case Ok(event) => fate := Accepted(event);
        case Err(e) =>
          match e.SetFailureReason() {
            case Some(reason) => fate := Refused(reason);
            case None => fate := Unjudged;
          }
      }
    }

    /** Phase two: the store is not asked again once a SET was left unjudged. */
    method SettleBatch(judged: seq<Judged>)
      returns (events: seq<SecurityEvent>, refused: seq<RefusedSet>, unjudged: seq<string>)
      requires store.Valid()
      modifies store
      ensures store.Valid()
      ensures var (fates, after) := Ssf.Settle(old(store.State()), cfg.window, judged, false);
              && store.State() == after && events == Events(fates)
              && refused == RefusedSets(Keys(judged), fates) && unjudged == UnjudgedKeys(Keys(judged), fates)
    {
      events, refused, unjudged := [], [], [];
      ghost var done: seq<Fate>, before, keys := [], store.State(), Keys(judged);
      var i := 0;
      assert keys[..0] == [] && |keys| == |judged| && forall k :: 0 <= k < |keys| ==> keys[k] == judged[k].jti;
      assert Events(done) == [] && RefusedSets(keys[..0], done) == [] && UnjudgedKeys(keys[..0], done) == [];
      hide Ssf.Settle, SettleOne, Events, RefusedSets, UnjudgedKeys, SettledSoFar, Keys;
      SettledSoFarStarts(before, cfg.window, judged);
      while i < |judged|
        invariant 0 <= i <= |judged| && |done| == i
        invariant store.Valid()
        invariant events == Events(done)
        invariant refused == RefusedSets(keys[..i], done) && unjudged == UnjudgedKeys(keys[..i], done)
        invariant SettledSoFar(before, store.State(), cfg.window, judged, done, unjudged != [])
      {
        SettledSoFarGrows(before, store.State(), cfg.window, judged, done, unjudged != []);
        var fate := Settle(judged[i].verdict, unjudged != []);
        EventsAppend(done, fate);
        ListsAppend(keys[..i], done, judged[i].jti, fate);
        assert keys[..i + 1] == keys[..i] + [judged[i].jti];
        match fate {
          case Accepted(event) => events := events + [event];
          case Refused(reason) => refused := refused + [RefusedSet(judged[i].jti, reason)];
          case Unjudged => unjudged := unjudged + [judged[i].jti];
        }
        done := done + [fate];
        i := i + 1;
      }
      assert keys[..i] == keys;
      SettledSoFarEnds(before, store.State(), cfg.window, judged, done, unjudged != []);
    }

    /** `poll`, given the transmitter's answer; `alarm` is the telemetry count of SETs
        left unjudged. */
    method Poll(reply: Reply) returns (r: Result<PollResult, AxiamError>, alarm: Option<nat>)
      requires store.Valid()
      modifies store
      ensures store.Valid()
      ensures (r, store.State()) == Ssf.Poll(cfg, old(store.State()), reply)
      ensures alarm == if r.Ok? && r.value.unjudged != [] then Some(|r.value.unjudged|) else None
    {
      if reply.Failed? {
        return Err(reply.error), None;
      }
      var phaseOne := JudgeBatch(reply.sets);
      if phaseOne.Err? {
        return Err(phaseOne.error), None;
      }
      var events, refused, unjudged := SettleBatch(phaseOne.value);
      r := Ok(PollResult(events, reply.moreAvailable, refused, unjudged));
      alarm := if unjudged != [] then Some(|unjudged|) else None;
    }
  }

  // --- Discovery, at most once a minute after a failure ---

  const FAILED_FETCH_MIN_INTERVAL: nat := 60_000

  /** What a fetch of the SSF configuration would bring: a failure, a `jwks_uri` that is
      then refused as insecure, or one that a verifier is built on. */
  datatype Fetch = Fails | Insecure | Finds

  datatype DiscoveryCall = DiscoveryCall(begin: nat, end: nat, fetch: Fetch)

  datatype DiscoveryState = DiscoveryState(failedAt: Option<nat>, ready: bool) {
    predicate Fetches(call: DiscoveryCall) {
      !ready && (failedAt.None? || call.begin >= failedAt.value + FAILED_FETCH_MIN_INTERVAL)
    }

    function After(call: DiscoveryCall): DiscoveryState {
      if !Fetches(call) then this
      else DiscoveryState(if call.fetch.Fails? then Some(call.end) else None, call.fetch.Finds?)
    }
  }

  class KeyDiscovery {
    var failedAt: Option<nat>
    var ready: bool

    constructor ()
      ensures State() == DiscoveryState(None, false)
    {
      failedAt, ready := None, false;
    }

    function State(): DiscoveryState
      reads this
    {
      DiscoveryState(failedAt, ready)
    }

    method Verifier(call: DiscoveryCall) returns (r: Result<(), AxiamError>, fetched: bool)
      modifies this
      ensures fetched == old(State()).Fetches(call) && State() == old(State()).After(call)
      ensures r.Ok? <==> ready
      ensures r.Err? ==> r.error.SetFailureReason().None?
    {
      if ready {
        return Ok(()), false;
      }
      if failedAt.Some? && call.begin < failedAt.value + FAILED_FETCH_MIN_INTERVAL {
        return Err(Network), false;
      }
      failedAt := if call.fetch.Fails? then Some(call.end) else None;
      if !call.fetch.Finds? {
        return Err(Network), true;
      }
      ready := true;
      return Ok(()), true;
    }
  }

  function StateBefore(st: DiscoveryState, calls: seq<DiscoveryCall>, k: nat): DiscoveryState
    requires k <= |calls|
  {
    if k == 0 then st else StateBefore(st, calls, k - 1).After(calls[k - 1])
  }

  predicate InOrder(calls: seq<DiscoveryCall>) {
    && (forall i :: 0 <= i < |calls| ==> calls[i].begin <= calls[i].end)
    && forall i, j :: 0 <= i < j < |calls| ==> calls[i].end <= calls[j].begin
  }

  /** An outage costs at most one fetch a minute: whatever calls come between, no fetch
      starts within a minute of the end of a failed one. */
  lemma {:induction false} FailedFetchesAreSpaced(st: DiscoveryState, calls: seq<DiscoveryCall>, i: nat, j: nat)
    requires InOrder(calls) && i < j < |calls|
    requires StateBefore(st, calls, i).Fetches(calls[i]) && calls[i].fetch.Fails?
    requires StateBefore(st, calls, j).Fetches(calls[j])
    ensures calls[j].begin >= calls[i].end + 60_000
  {
    if calls[j].begin < calls[i].end + 60_000 {
      LimitHolds(st, calls, i, j);
    }
  }

  /** The limit is for failures only, and for a minute: after a document whose `jwks_uri`
      is refused the very next SET fetches again, and after a failed fetch the first one
      that comes when the minute is over. */
  lemma LimitedIffFailed(st: DiscoveryState, first: DiscoveryCall, next: DiscoveryCall)
    requires st.Fetches(first) && !first.fetch.Finds?
    requires first.end <= next.begin
    ensures st.After(first).Fetches(next) <==> first.fetch.Insecure? || next.begin >= first.end + 60_000
  {
  }

  /** Until the minute is over the failure stays on record. */
  lemma {:induction false} LimitHolds(st: DiscoveryState, calls: seq<DiscoveryCall>, i: nat, k: nat)
    requires InOrder(calls) && i < k < |calls|
    requires StateBefore(st, calls, i).Fetches(calls[i]) && calls[i].fetch.Fails?
    requires calls[k].begin < calls[i].end + 60_000
    ensures StateBefore(st, calls, k) == DiscoveryState(Some(calls[i].end), false)
    decreases k
  {
    if k > i + 1 {
      LimitHolds(st, calls, i, k - 1);
    }
  }
}
