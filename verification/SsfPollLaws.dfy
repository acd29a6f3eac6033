/** What `SsfReceiver::poll` promises of every batch, proved of `Ssf.Poll`. */
module SsfPollLaws {
  import opened Outcomes
  import opened ExpiryLog
  import opened Ssf

  // --- What decides a SET's fate, without walking the batch ---

  function CountOk(judged: seq<Judged>): nat {
    if judged == [] then 0 else (if judged[0].verdict.Ok? then 1 else 0) + CountOk(judged[1..])
  }

  /** One of the first `n` store calls meets an outage. */
  ghost predicate OutageWithin(script: seq<Beat>, n: nat) {
    exists k :: 0 <= k < n && k < |script| && script[k].outage.Some?
  }

  /** The clock as the `n`-th store call from `st` reads it. */
  function ClockAfter(st: StoreState, n: nat): nat
    decreases n
  {
    if n == 0 then st.clock else ClockAfter(st.Later(), n - 1)
  }

  /** A batch that phase one let through: no open verdict, each event under its own key. */
  ghost predicate Clean(judged: seq<Judged>) {
    forall i :: 0 <= i < |judged| ==>
      && !IsNoVerdict(judged[i].verdict)
      && (judged[i].verdict.Ok? ==> judged[i].verdict.value.jti == judged[i].jti)
      && judged[i].verdict != Refuse(Replayed)
  }

  ghost predicate Distinct(judged: seq<Judged>) {
    forall i, j :: 0 <= i < j < |judged| ==> judged[i].jti != judged[j].jti
  }

  /** The fate of a SET that is the `nth` to need the store, said of the state before
      the batch alone. */
  ghost function FateAt(st: StoreState, j: Judged, nth: nat): Fate {
    match j.verdict
    case Err(e) => FateOf(j.verdict)
    case Ok(event) =>
      if OutageWithin(st.script, nth) then Unjudged
      else if Holds(st.log, j.jti, ClockAfter(st, nth)) then Refused(Replayed)
      else Accepted(event)
  }

  ghost function ExpectedFate(st: StoreState, judged: seq<Judged>, i: nat): Fate
    requires i < |judged|
  {
    FateAt(st, judged[i], CountOk(judged[..i]) + 1)
  }

  lemma OutageStep(st: StoreState, n: nat)
    ensures OutageWithin(st.script, n + 1) <==> st.Next().outage.Some? || OutageWithin(st.Later().script, n)
  {
    if OutageWithin(st.Later().script, n) {
      var k :| 0 <= k < n && k < |st.Later().script| && st.Later().script[k].outage.Some?;
      assert st.script[k + 1].outage.Some?;
    }
    if OutageWithin(st.script, n + 1) {
      var k :| 0 <= k < n + 1 && k < |st.script| && st.script[k].outage.Some?;
      if k > 0 {
        assert st.Later().script[k - 1].outage.Some?;
      }
    }
    if st.Next().outage.Some? {
      assert st.script[0].outage.Some?;
    }
  }

  /** Same clock and faults to come, and the same answer for `id`: nothing else matters to it. */
  lemma {:induction false} ClockIgnoresLog(a: StoreState, b: StoreState, n: nat)
    requires a.clock == b.clock && a.script == b.script
    ensures ClockAfter(a, n) == ClockAfter(b, n)
    decreases n
  {
    if n > 0 {
      ClockIgnoresLog(a.Later(), b.Later(), n - 1);
    }
  }

  lemma {:induction false} SettleWhenDown(st: StoreState, window: nat, judged: seq<Judged>)
    ensures Settle(st, window, judged, true).1 == st
    ensures forall i :: 0 <= i < |judged| ==>
              Settle(st, window, judged, true).0[i]
              == if judged[i].verdict.Ok? then Unjudged else FateOf(judged[i].verdict)
    decreases |judged|
  {
    if judged != [] {
      SettleWhenDown(st, window, judged[1..]);
    }
  }

  /** The call for one jti leaves every other SET's expected fate as it was. */
  lemma FateShifts(st: StoreState, window: nat, first: SecurityEvent, j: Judged, nth: nat)
    requires nth > 0 && first.jti != j.jti && st.Next().outage.None?
    ensures FateAt(st, j, nth + 1) == FateAt(Recorded(st, window, first).1, j, nth)
  {
    var st1 := Recorded(st, window, first).1;
    OutageStep(st, nth);
    ClockIgnoresLog(st1, st.Later(), nth);
    HoldsAfterAppend(st.log, Record(first.jti, st1.clock, st1.clock + window), j.jti, ClockAfter(st, nth + 1));
  }

  lemma FirstFate(st: StoreState, window: nat, j: Judged)
    requires !IsNoVerdict(j.verdict) && (j.verdict.Ok? ==> j.verdict.value.jti == j.jti)
    ensures SettleOne(st, window, j.verdict, false).0 == FateAt(st, j, 1)
  {
  }

  /** Each SET's fate depends only on its own verdict, on whether the store has failed
      by the time its turn comes, and on whether its jti was already held. */
  lemma {:induction false} FatesAreExpected(st: StoreState, window: nat, judged: seq<Judged>, i: nat)
    requires Clean(judged) && Distinct(judged) && i < |judged|
    ensures Settle(st, window, judged, false).0[i] == ExpectedFate(st, judged, i)
    decreases |judged|
  {
    hide OutageWithin, Holds, ClockAfter;
    var (fate, st1) := SettleOne(st, window, judged[0].verdict, false);
    FirstFate(st, window, judged[0]);
    if i == 0 {
      assert judged[..0] == [];
    } else {
      var rest := judged[1..];
      var before := CountOk(rest[..i - 1]);
      assert judged[..i][1..] == rest[..i - 1] && judged[..i][0] == judged[0] && rest[i - 1] == judged[i];
      if judged[0].verdict.Err? {
        FatesAreExpected(st, window, rest, i - 1);
      } else if fate.Unjudged? {
        SettleWhenDown(st1, window, rest);
        OutageStep(st, before + 1);
        OutageStep(st, 0);
      } else {
        FatesAreExpected(st1, window, rest, i - 1);
        FateShifts(st, window, judged[0].verdict.value, judged[i], before + 1);
      }
    }
  }

  // --- Phase one ---

  ghost predicate JudgedAs(cfg: Config, sets: seq<Offer>, judged: seq<Judged>) {
    |judged| == |sets| && forall i :: 0 <= i < |sets| ==> judged[i] == JudgeOffer(cfg, sets[i])
  }

  /** Phase one fails exactly when some SET got no verdict, with the first such failure. */
  lemma {:induction false} JudgeAllIsAllOrNothing(cfg: Config, sets: seq<Offer>)
    ensures JudgeAll(cfg, sets).Ok? ==> JudgedAs(cfg, sets, JudgeAll(cfg, sets).value)
    ensures JudgeAll(cfg, sets).Ok? <==> forall i :: 0 <= i < |sets| ==> !IsNoVerdict(JudgeOffer(cfg, sets[i]).verdict)
    ensures JudgeAll(cfg, sets).Err? ==>
              exists i :: 0 <= i < |sets| && JudgeOffer(cfg, sets[i]).verdict == Err(JudgeAll(cfg, sets).error)
                       && forall j :: 0 <= j < i ==> !IsNoVerdict(JudgeOffer(cfg, sets[j]).verdict)
  {
    if sets != [] && !IsNoVerdict(JudgeOffer(cfg, sets[0]).verdict) {
      var rest := sets[1..];
      JudgeAllIsAllOrNothing(cfg, rest);
      assert forall i :: 0 < i < |sets| ==> sets[i] == rest[i - 1];
      assert forall i :: 0 <= i < |rest| ==> rest[i] == sets[i + 1];
      if JudgeAll(cfg, rest).Err? {
        var i :| 0 <= i < |rest| && JudgeOffer(cfg, rest[i]).verdict == Err(JudgeAll(cfg, rest).error)
              && forall j :: 0 <= j < i ==> !IsNoVerdict(JudgeOffer(cfg, rest[j]).verdict);
        assert JudgeOffer(cfg, sets[i + 1]).verdict == Err(JudgeAll(cfg, sets).error);
      }
    }
  }

  lemma PhaseOneIsClean(cfg: Config, sets: seq<Offer>)
    requires JudgeAll(cfg, sets).Ok? && DistinctKeys(sets)
    ensures Clean(JudgeAll(cfg, sets).value) && Distinct(JudgeAll(cfg, sets).value)
  {
    JudgeAllIsAllOrNothing(cfg, sets);
    forall i | 0 <= i < |sets|
      ensures JudgeOffer(cfg, sets[i]).verdict != Refuse(Replayed)
    {
      JudgeStopsAtTheFirstFailure(cfg, sets[i].token, sets[i].key, Some(sets[i].jti));
    }
  }

  // --- The log grows by the events, and the store is asked no more than it must ---

  predicate RecordsEvent(r: Record, event: SecurityEvent, window: nat, from: nat, to: nat) {
    r.id == event.jti && r.until == r.at + window && from <= r.at <= to
  }

  /** The log gained one record per event, in order, made between the two clocks. */
  ghost predicate GrewBy(st: StoreState, after: StoreState, window: nat, events: seq<SecurityEvent>) {
    && |after.log| == |st.log| + |events| && st.log <= after.log && st.clock <= after.clock
    && forall k :: 0 <= k < |events| ==>
         RecordsEvent(after.log[|st.log| + k], events[k], window, st.clock, after.clock)
  }

  function OkJtis(judged: seq<Judged>): seq<string> {
    if judged == [] then []
    else if judged[0].verdict.Ok? then [judged[0].verdict.value.jti] + OkJtis(judged[1..])
    else OkJtis(judged[1..])
  }

  /** How many calls come before the outage, the failing one included. */
  function CallsUntilOutage(script: seq<Beat>, n: nat): (calls: nat)
    ensures calls <= n
    decreases n
  {
    if n == 0 then 0
    else if script == [] then n
    else if script[0].outage.Some? then 1
    else 1 + CallsUntilOutage(script[1..], n - 1)
  }

  lemma TurnGrows(st: StoreState, window: nat, v: Verdict, down: bool)
    ensures var (fate, st1) := SettleOne(st, window, v, down);
            GrewBy(st, st1, window, Events([fate]))
  {
    var fate := SettleOne(st, window, v, down).0;
    assert [fate][1..] == [];
  }

  lemma GrewByTransitive(
    a: StoreState, b: StoreState, c: StoreState, window: nat, first: seq<SecurityEvent>, second: seq<SecurityEvent>)
    requires GrewBy(a, b, window, first) && GrewBy(b, c, window, second)
    ensures GrewBy(a, c, window, first + second)
  {
    var (n, all) := (|a.log|, first + second);
    forall k | 0 <= k < |all|
      ensures RecordsEvent(c.log[n + k], all[k], window, a.clock, c.clock)
    {
      if k < |first| {
        assert RecordsEvent(b.log[n + k], first[k], window, a.clock, b.clock) && c.log[n + k] == b.log[n + k];
      } else {
        assert RecordsEvent(c.log[|b.log| + (k - |first|)], second[k - |first|], window, b.clock, c.clock);
      }
    }
  }

  lemma {:induction false} SettleGrowsByEvents(st: StoreState, window: nat, judged: seq<Judged>, down: bool)
    ensures var (fates, after) := Settle(st, window, judged, down);
            GrewBy(st, after, window, Events(fates))
    decreases |judged|
  {
    if judged != [] {
      var (fate, st1) := SettleOne(st, window, judged[0].verdict, down);
      var (fates, after) := Settle(st1, window, judged[1..], down || fate.Unjudged?);
      TurnGrows(st, window, judged[0].verdict, down);
      SettleGrowsByEvents(st1, window, judged[1..], down || fate.Unjudged?);
      hide SettleOne, GrewBy;
      GrewByTransitive(st, st1, after, window, Events([fate]), Events(fates));
      assert [fate][1..] == [] && ([fate] + fates)[1..] == fates;
      assert Events([fate] + fates) == Events([fate]) + Events(fates);
    }
  }

  /** One verified SET is one call, and the last one if it meets the outage. */
  lemma TurnAsks(st: StoreState, window: nat, event: SecurityEvent)
    ensures var (fate, st1) := SettleOne(st, window, Ok(event), false);
            && st1.asked == st.asked + [event.jti] && st1.script == st.Later().script
            && (fate.Unjudged? <==> st.Next().outage.Some?)
  {
  }

  lemma CallsStep(st: StoreState, jti: string, rest: seq<string>)
    ensures ([jti] + rest)[..CallsUntilOutage(st.script, 1 + |rest|)]
         == [jti] + if st.Next().outage.Some? then [] else rest[..CallsUntilOutage(st.Later().script, |rest|)]
  {
    EmptyScript(|rest|);
  }

  lemma {:induction false} SettleAsksUntilOutage(st: StoreState, window: nat, judged: seq<Judged>)
    requires Clean(judged)
    ensures var n := CallsUntilOutage(st.script, |OkJtis(judged)|);
            Settle(st, window, judged, false).1.asked == st.asked + OkJtis(judged)[..n]
    decreases |judged|
  {
    if judged != [] {
      var (verdict, rest) := (judged[0].verdict, judged[1..]);
      var (fate, st1) := SettleOne(st, window, verdict, false);
      if verdict.Err? {
        SettleAsksUntilOutage(st, window, rest);
      } else {
        TurnAsks(st, window, verdict.value);
        hide SettleOne, CallsUntilOutage;
        CallsStep(st, verdict.value.jti, OkJtis(rest));
        if fate.Unjudged? {
          SettleWhenDown(st1, window, rest);
        } else {
          SettleAsksUntilOutage(st1, window, rest);
        }
      }
    }
  }

  lemma {:induction false} EmptyScript(n: nat)
    ensures CallsUntilOutage([], n) == n
  {
  }

  // --- The three lists together are the batch ---

  predicate Subsequence(xs: seq<string>, ys: seq<string>) {
    if xs == [] then true
    else ys != [] && ((xs[0] == ys[0] && Subsequence(xs[1..], ys[1..])) || Subsequence(xs, ys[1..]))
  }

  function EventJtis(events: seq<SecurityEvent>): seq<string> {
    seq(|events|, i requires 0 <= i < |events| => events[i].jti)
  }

  function RefusedJtis(refused: seq<RefusedSet>): seq<string> {
    seq(|refused|, i requires 0 <= i < |refused| => refused[i].jti)
  }

  /** Every accepted event sits under its own key. */
  ghost predicate Labelled(keys: seq<string>, fates: seq<Fate>) {
    |keys| == |fates| && forall i :: 0 <= i < |fates| && fates[i].Accepted? ==> fates[i].event.jti == keys[i]
  }

  lemma EventTail(e: SecurityEvent, es: seq<SecurityEvent>)
    ensures EventJtis([e] + es) == [e.jti] + EventJtis(es)
  {
  }

  lemma RefusedTail(jti: string, why: Reason, rs: seq<RefusedSet>)
    ensures RefusedJtis([RefusedSet(jti, why)] + rs) == [jti] + RefusedJtis(rs)
  {
  }

  lemma {:induction false} ListsKeepTheOrder(keys: seq<string>, fates: seq<Fate>)
    requires Labelled(keys, fates)
    ensures Subsequence(EventJtis(Events(fates)), keys)
    ensures Subsequence(RefusedJtis(RefusedSets(keys, fates)), keys)
    ensures Subsequence(UnjudgedKeys(keys, fates), keys)
    ensures |Events(fates)| + |RefusedSets(keys, fates)| + |UnjudgedKeys(keys, fates)| == |keys|
  {
    if keys != [] {
      ListsKeepTheOrder(keys[1..], fates[1..]);
      var (es, rs) := (Events(fates[1..]), RefusedSets(keys[1..], fates[1..]));
      match fates[0]
      case Accepted(e) => EventTail(e, es);
      case Refused(why) => RefusedTail(keys[0], why, rs);
      case Unjudged =>
    }
  }

  lemma {:induction false} ListsHoldOnlyKeys(keys: seq<string>, fates: seq<Fate>, x: string)
    requires Labelled(keys, fates) && x !in keys
    ensures x !in EventJtis(Events(fates)) && x !in UnjudgedKeys(keys, fates)
    ensures forall r :: RefusedSet(x, r) !in RefusedSets(keys, fates)
  {
    if keys != [] {
      assert keys[0] in keys && x !in keys[1..];
      ListsHoldOnlyKeys(keys[1..], fates[1..], x);
      var es := Events(fates[1..]);
      if fates[0].Accepted? {
        assert EventJtis([fates[0].event] + es) == [keys[0]] + EventJtis(es);
      }
    }
  }

  /** A key is in exactly the list its fate names. */
  lemma {:induction false} ListOfFate(keys: seq<string>, fates: seq<Fate>, i: nat)
    requires Labelled(keys, fates) && i < |keys|
    requires forall a, b :: 0 <= a < b < |keys| ==> keys[a] != keys[b]
    ensures keys[i] in EventJtis(Events(fates)) <==> fates[i].Accepted?
    ensures forall r :: RefusedSet(keys[i], r) in RefusedSets(keys, fates) <==> fates[i] == Refused(r)
    ensures keys[i] in UnjudgedKeys(keys, fates) <==> fates[i].Unjudged?
  {
    var (ks, fs) := (keys[1..], fates[1..]);
    if fates[0].Accepted? {
      assert EventJtis([fates[0].event] + Events(fs)) == [keys[0]] + EventJtis(Events(fs));
    }
    if i == 0 {
      ListsHoldOnlyKeys(ks, fs, keys[0]);
    } else {
      assert ks[i - 1] == keys[i] && fs[i - 1] == fates[i];
      ListOfFate(ks, fs, i - 1);
    }
  }

  // --- The laws of poll ---

  /** All or nothing: an error leaves the store as it was; a result grew the log by
      exactly its events, in order, and the store saw the verified SETs up to and
      including its first failure and no others. */
  lemma PollIsAllOrNothing(cfg: Config, st: StoreState, reply: Reply)
    requires reply.Sets? ==> DistinctKeys(reply.sets)
    ensures var (r, after) := Poll(cfg, st, reply);
            match r
            case Err(_) => after == st
            case Ok(result) =>
              && GrewBy(st, after, cfg.window, result.events)
              && st.asked <= after.asked
              && (var verified := OkJtis(JudgeAll(cfg, reply.sets).value);
                  after.asked == st.asked + verified[..CallsUntilOutage(st.script, |verified|)])
  {
    if Poll(cfg, st, reply).0.Ok? {
      var judged := JudgeAll(cfg, reply.sets).value;
      PhaseOneIsClean(cfg, reply.sets);
      SettleGrowsByEvents(st, cfg.window, judged, false);
      SettleAsksUntilOutage(st, cfg.window, judged);
    }
  }

  lemma LiveAfterGrowth(st: StoreState, after: StoreState, window: nat, events: seq<SecurityEvent>, id: string, t: nat)
    requires GrewBy(st, after, window, events) && after.clock <= t < st.clock + window
    ensures Holds(after.log, id, t) <==> Holds(st.log, id, t) || id in EventJtis(events)
  {
    var n := |st.log|;
    if Holds(st.log, id, t) {
      var i :| 0 <= i < n && st.log[i].id == id && st.log[i].until > t;
      assert after.log[i] == st.log[i];
    }
    if id in EventJtis(events) {
      var k :| 0 <= k < |events| && EventJtis(events)[k] == id;
      assert RecordsEvent(after.log[n + k], events[k], window, st.clock, after.clock);
    }
    if Holds(after.log, id, t) {
      var i :| 0 <= i < |after.log| && after.log[i].id == id && after.log[i].until > t;
      if i < n {
        assert st.log[i] == after.log[i];
      } else {
        assert RecordsEvent(after.log[n + (i - n)], events[i - n], window, st.clock, after.clock);
        assert EventJtis(events)[i - n] == id;
      }
    }
  }

  /** Asked of any instant while the batch's records are all live: the live jtis are the
      old ones and exactly those of `events`. */
  lemma LiveAfterPoll(cfg: Config, st: StoreState, reply: Reply, id: string, t: nat)
    requires reply.Sets? ==> DistinctKeys(reply.sets)
    requires Poll(cfg, st, reply).0.Ok? && Poll(cfg, st, reply).1.clock <= t < st.clock + cfg.window
    ensures Holds(Poll(cfg, st, reply).1.log, id, t)
       <==> Holds(st.log, id, t) || id in EventJtis(Poll(cfg, st, reply).0.value.events)
  {
    PollIsAllOrNothing(cfg, st, reply);
    var (r, after) := Poll(cfg, st, reply);
    LiveAfterGrowth(st, after, cfg.window, r.value.events, id, t);
  }

  ghost function Fates(cfg: Config, st: StoreState, sets: seq<Offer>): (fates: seq<Fate>)
    requires JudgeAll(cfg, sets).Ok?
  {
    Settle(st, cfg.window, JudgeAll(cfg, sets).value, false).0
  }

  lemma FatesAreLabelled(cfg: Config, st: StoreState, sets: seq<Offer>)
    requires JudgeAll(cfg, sets).Ok? && DistinctKeys(sets)
    ensures var keys := Keys(JudgeAll(cfg, sets).value);
            && Labelled(keys, Fates(cfg, st, sets))
            && (forall a, b :: 0 <= a < b < |keys| ==> keys[a] != keys[b])
            && |keys| == |sets| && forall i :: 0 <= i < |sets| ==> keys[i] == sets[i].jti
  {
    hide JudgeAll, Settle, Judge, OutageWithin, Holds, ClockAfter, CountOk;
    var judged := JudgeAll(cfg, sets).value;
    JudgeAllIsAllOrNothing(cfg, sets);
    PhaseOneIsClean(cfg, sets);
    forall i | 0 <= i < |judged|
      ensures Fates(cfg, st, sets)[i] == ExpectedFate(st, judged, i)
    {
      FatesAreExpected(st, cfg.window, judged, i);
    }
  }

  /** The batch is conserved: the three lists keep the transmitter's order and hold
      every key of the reply exactly once between them. */
  lemma PollConserves(cfg: Config, st: StoreState, sets: seq<Offer>, more: bool)
    requires DistinctKeys(sets) && Poll(cfg, st, Sets(sets, more)).0.Ok?
    ensures var r := Poll(cfg, st, Sets(sets, more)).0.value;
            var keys := seq(|sets|, i requires 0 <= i < |sets| => sets[i].jti);
            && Subsequence(EventJtis(r.events), keys) && Subsequence(RefusedJtis(r.refused), keys)
            && Subsequence(r.unjudged, keys)
            && |r.events| + |r.refused| + |r.unjudged| == |sets| && r.moreAvailable == more
    ensures var r := Poll(cfg, st, Sets(sets, more)).0.value;
            forall i :: 0 <= i < |sets| ==>
              && (sets[i].jti in EventJtis(r.events) || sets[i].jti in r.unjudged
                  || exists why :: RefusedSet(sets[i].jti, why) in r.refused)
  {
    var (keys, fates) := (Keys(JudgeAll(cfg, sets).value), Fates(cfg, st, sets));
    FatesAreLabelled(cfg, st, sets);
    ListsKeepTheOrder(keys, fates);
    assert keys == seq(|sets|, i requires 0 <= i < |sets| => sets[i].jti);
    forall i | 0 <= i < |sets|
      ensures && (fates[i].Accepted? <==> sets[i].jti in EventJtis(Events(fates)))
              && (fates[i].Unjudged? <==> sets[i].jti in UnjudgedKeys(keys, fates))
              && (forall why :: RefusedSet(sets[i].jti, why) in RefusedSets(keys, fates) <==> fates[i] == Refused(why))
    {
      ListOfFate(keys, fates, i);
    }
  }

  /** Which list, exactly: a SET failing steps 1-8 is refused for its own reason; one
      that passes is unjudged from the store's first failure on, `Replayed` if its jti
      was already held, and otherwise an event. */
  lemma PollPlaces(cfg: Config, st: StoreState, sets: seq<Offer>, more: bool, i: nat)
    requires DistinctKeys(sets) && Poll(cfg, st, Sets(sets, more)).0.Ok? && i < |sets|
    ensures var r := Poll(cfg, st, Sets(sets, more)).0.value;
            var v := JudgeOffer(cfg, sets[i]).verdict;
            var nth := CountOk(JudgeAll(cfg, sets).value[..i]) + 1;
            var down := OutageWithin(st.script, nth);
            var held := Holds(st.log, sets[i].jti, ClockAfter(st, nth));
            && (sets[i].jti in EventJtis(r.events) <==> v.Ok? && !down && !held)
            && (sets[i].jti in r.unjudged <==> v.Ok? && down)
            && (forall why :: RefusedSet(sets[i].jti, why) in r.refused <==>
                  if v.Ok? then why == Replayed && !down && held else v == Refuse(why))
  {
    var judged := JudgeAll(cfg, sets).value;
    var (keys, fates) := (Keys(judged), Fates(cfg, st, sets));
    JudgeAllIsAllOrNothing(cfg, sets);
    PhaseOneIsClean(cfg, sets);
    FatesAreLabelled(cfg, st, sets);
    ListOfFate(keys, fates, i);
    hide Judge, JudgeAll, Settle, OutageWithin, Holds, ClockAfter, CountOk, Clean, Distinct;
    FatesAreExpected(st, cfg.window, judged, i);
    assert judged[i] == JudgeOffer(cfg, sets[i]);
  }

  /** Nothing is refused under a key the reply did not use. */
  lemma RefusedKeysWereOffered(cfg: Config, st: StoreState, sets: seq<Offer>, more: bool, x: RefusedSet)
    returns (i: nat)
    requires DistinctKeys(sets) && Poll(cfg, st, Sets(sets, more)).0.Ok?
    requires x in Poll(cfg, st, Sets(sets, more)).0.value.refused
    ensures i < |sets| && sets[i].jti == x.jti
  {
    var keys := Keys(JudgeAll(cfg, sets).value);
    FatesAreLabelled(cfg, st, sets);
    if x.jti !in keys {
      ListsHoldOnlyKeys(keys, Fates(cfg, st, sets), x.jti);
    }
    i :| 0 <= i < |keys| && keys[i] == x.jti;
  }

  lemma {:induction false} EventsAreFates(fates: seq<Fate>, e: SecurityEvent) returns (i: nat)
    requires e in Events(fates)
    ensures i < |fates| && fates[i] == Accepted(e)
  {
    if fates[0] == Accepted(e) {
      i := 0;
    } else {
      var k := EventsAreFates(fates[1..], e);
      i := k + 1;
    }
  }

  /** The event is this SET's, member for member: verified with a key found for it, from
      the configured issuer, to this receiver, and under the expected jti, if any. */
  predicate IsEventOf(cfg: Config, token: WireSet, key: KeyAnswer, expected: Option<string>, e: SecurityEvent) {
    && token.Compact? && key == Found(true)
    && NamesSetType(token.header.typ) && token.header.alg == Some("EdDSA") && token.header.kid.Some?
    && var c := token.claims;
       && Some(e.jti) == c.jti && (expected.Some? ==> e.jti == expected.value) && IsOneEvent(c, expected)
       && e.iss == cfg.issuer == c.iss.GetOr("")
       && e.aud == c.aud && Addresses(e.aud, cfg.audience)
       && Some(e.iat) == c.iat && Some(e.subId) == c.subId && e.txn == c.txn
       && c.events == Some([(e.eventType, e.event)])
  }

  lemma AcceptedIsEventOf(cfg: Config, token: WireSet, key: KeyAnswer, expected: Option<string>, e: SecurityEvent)
    requires Judge(cfg, token, key, expected) == Ok(e)
    ensures IsEventOf(cfg, token, key, expected, e)
  {
    var events := token.claims.events.value;
    JudgeStopsAtTheFirstFailure(cfg, token, key, expected);
    assert events == [events[0]] && events[0] == (events[0].0, events[0].1);
  }

  /** Every event returned is that of a SET of the reply, under its own key. */
  lemma EventsAreOffered(cfg: Config, st: StoreState, sets: seq<Offer>, more: bool, e: SecurityEvent)
    returns (i: nat)
    requires DistinctKeys(sets) && Poll(cfg, st, Sets(sets, more)).0.Ok?
    requires e in Poll(cfg, st, Sets(sets, more)).0.value.events
    ensures i < |sets| && e.jti == sets[i].jti
    ensures IsEventOf(cfg, sets[i].token, sets[i].key, Some(sets[i].jti), e)
  {
    var judged := JudgeAll(cfg, sets).value;
    i := EventsAreFates(Fates(cfg, st, sets), e);
    hide Judge, Settle, OutageWithin, Holds, ClockAfter, CountOk;
    JudgeAllIsAllOrNothing(cfg, sets);
    PhaseOneIsClean(cfg, sets);
    FatesAreExpected(st, cfg.window, judged, i);
    AcceptedIsEventOf(cfg, sets[i].token, sets[i].key, Some(sets[i].jti), e);
  }
}
