/** The whole exchange of RFC 8936 section 2.4: a transmitter's buffer, this SDK's
    receiver over a fallible store, and a caller that follows the documented rules for
    `ack` and `setErrs`. Requests and replies may be lost, key fetches and the store may
    fail at any point, SETs may also be pushed; the steps interleave freely. */
module SsfProtocol {
  import opened Outcomes
  import opened ExpiryLog
  import opened Ssf
  import opened SsfPollLaws
  import opened SsfRunLaws

  /** What the three parties have seen, oldest first. */
  datatype Note =
    | Returned(jti: string)                                       // accepted and handed to the caller
    | RefusedAs(jti: string, token: WireSet, reason: Reason)      // refused by a poll, under this key
    | Left(jti: string, token: WireSet)                           // removed from the transmitter's buffer

  datatype Sys = Sys(
    issued: map<string, WireSet>, buffer: map<string, WireSet>, inFlight: Option<seq<string>>,
    store: StoreState, history: seq<Note>)

  datatype Step =
    | Issue(jti: string, token: WireSet)
    | Post(acks: seq<string>, errs: seq<string>, offered: seq<string>)
    | LoseReply
    | Receive(keys: seq<KeyAnswer>, moreAvailable: bool)
    | Push(token: WireSet, key: KeyAnswer)

  ghost predicate Init(s: Sys) {
    s.issued == map[] && s.buffer == map[] && s.inFlight == None && s.store.log == [] && s.history == []
  }

  /** The caller acknowledges what it was given, and what was refused as replayed. */
  ghost predicate MayAck(history: seq<Note>, jti: string) {
    Returned(jti) in history || exists token :: RefusedAs(jti, token, Replayed) in history
  }

  /** The caller reports what was refused for any other reason. */
  ghost predicate MayReport(history: seq<Note>, jti: string) {
    exists token, reason :: reason != Replayed && RefusedAs(jti, token, reason) in history
  }

  ghost predicate Enabled(s: Sys, step: Step) {
    match step
    case Issue(jti, _) => jti !in s.issued  // a jti names one SET (section 2.2 of RFC 8417)
    case Post(acks, errs, offered) =>
      && (forall j :: j in acks ==> MayAck(s.history, j))
      && (forall j :: j in errs ==> MayReport(s.history, j))
      && (forall a, b :: 0 <= a < b < |offered| ==> offered[a] != offered[b])
      && (forall j :: j in offered ==> j in Discharge(s.buffer, acks + errs).0)
    case LoseReply => true
    case Receive(keys, _) => s.inFlight.Some? && |keys| == |s.inFlight.value|
    case Push(_, _) => true
  }

  /** The transmitter drops what was acknowledged or reported. */
  function Discharge(buffer: map<string, WireSet>, jtis: seq<string>): (map<string, WireSet>, seq<Note>) {
    if jtis == [] then (buffer, [])
    else
      var (left, notes) := Discharge(buffer - {jtis[0]}, jtis[1..]);
      (left, if jtis[0] in buffer then [Left(jtis[0], buffer[jtis[0]])] + notes else notes)
  }

  function TokenOf(issued: map<string, WireSet>, jti: string): WireSet {
    if jti in issued then issued[jti] else NotAString
  }

  function Offers(issued: map<string, WireSet>, jtis: seq<string>, keys: seq<KeyAnswer>): seq<Offer>
    requires |keys| == |jtis|
  {
    seq(|jtis|, i requires 0 <= i < |jtis| => Offer(jtis[i], TokenOf(issued, jtis[i]), keys[i]))
  }

  function ReturnedNotes(events: seq<SecurityEvent>): seq<Note> {
    seq(|events|, i requires 0 <= i < |events| => Returned(events[i].jti))
  }

  function RefusedNotes(issued: map<string, WireSet>, refused: seq<RefusedSet>): seq<Note> {
    seq(|refused|, i requires 0 <= i < |refused| =>
      RefusedAs(refused[i].jti, TokenOf(issued, refused[i].jti), refused[i].reason))
  }

  ghost function Apply(cfg: Config, s: Sys, step: Step): Sys
    requires Enabled(s, step)
  {
    match step
    case Issue(jti, token) => s.(issued := s.issued[jti := token], buffer := s.buffer[jti := token])
    case Post(acks, errs, offered) =>
      var (buffer, notes) := Discharge(s.buffer, acks + errs);
      s.(buffer := buffer, inFlight := Some(offered), history := s.history + notes)
    case LoseReply => s.(inFlight := None)
    case Receive(keys, more) =>
      var (r, store) := Poll(cfg, s.store, Sets(Offers(s.issued, s.inFlight.value, keys), more));
      if r.Err? then s.(inFlight := None, store := store)
      else s.(inFlight := None, store := store,
              history := s.history + ReturnedNotes(r.value.events) + RefusedNotes(s.issued, r.value.refused))
    case Push(token, key) =>
      var (v, store) := VerifySet(cfg, s.store, token, key);
      s.(store := store, history := if v.Ok? then s.history + [Returned(v.value.jti)] else s.history)
  }

  // --- The invariant ---

  /** What must come before a note in the history. */
  ghost predicate Backed(earlier: seq<Note>, note: Note) {
    match note
    case Returned(_) => true
    case RefusedAs(j, _, reason) => reason == Replayed ==> Returned(j) in earlier
    case Left(j, token) =>
      Returned(j) in earlier || exists reason :: reason != Replayed && RefusedAs(j, token, reason) in earlier
  }

  ghost predicate Safe(history: seq<Note>) {
    forall k :: 0 <= k < |history| ==> Backed(history[..k], history[k])
  }

  ghost predicate Inv(s: Sys) {
    && Safe(s.history)
    && (forall i :: 0 <= i < |s.store.log| ==> Returned(s.store.log[i].id) in s.history)
    && (forall n :: n in s.history && n.RefusedAs? ==> n.jti in s.issued && s.issued[n.jti] == n.token)
    && (s.inFlight.Some? ==>
          && (forall a, b :: 0 <= a < b < |s.inFlight.value| ==> s.inFlight.value[a] != s.inFlight.value[b])
          && (forall j :: j in s.inFlight.value ==> j in s.issued))
    && Accounted(s)
  }

  /** Every SET ever issued is still in the buffer or is on record as having left it. */
  ghost predicate Accounted(s: Sys) {
    && s.buffer.Keys <= s.issued.Keys
    && forall j :: j in s.issued ==>
         if j in s.buffer then s.buffer[j] == s.issued[j] else Left(j, s.issued[j]) in s.history
  }

  lemma BackedLater(earlier: seq<Note>, more: seq<Note>, note: Note)
    requires Backed(earlier, note)
    ensures Backed(earlier + more, note)
  {
    if note.Left? && Returned(note.jti) !in earlier {
      var reason :| reason != Replayed && RefusedAs(note.jti, note.token, reason) in earlier;
      assert RefusedAs(note.jti, note.token, reason) in earlier + more;
    }
  }

  lemma SafeAppend(history: seq<Note>, more: seq<Note>)
    requires Safe(history) && forall n :: n in more ==> Backed(history, n)
    ensures Safe(history + more)
  {
    var all := history + more;
    forall k | 0 <= k < |all|
      ensures Backed(all[..k], all[k])
    {
      if k < |history| {
        assert all[..k] == history[..k];
      } else {
        assert all[..k] == history + more[..k - |history|] && all[k] in more;
        BackedLater(history, more[..k - |history|], all[k]);
      }
    }
  }

  /** Discharging removes exactly the named SETs and notes each one that was there. */
  lemma {:induction false} DischargeNotes(buffer: map<string, WireSet>, jtis: seq<string>)
    ensures var (left, notes) := Discharge(buffer, jtis);
            && left == buffer - (set j | j in jtis)
            && (forall n :: n in notes ==> n.Left? && n.jti in jtis && n.jti in buffer && n.token == buffer[n.jti])
            && (forall j :: j in jtis && j in buffer ==> Left(j, buffer[j]) in notes)
    decreases |jtis|
  {
    if jtis != [] {
      var rest := buffer - {jtis[0]};
      DischargeNotes(rest, jtis[1..]);
      assert (set j | j in jtis) == {jtis[0]} + (set j | j in jtis[1..]);
      forall j | j in jtis && j in buffer
        ensures Left(j, buffer[j]) in Discharge(buffer, jtis).1
      {
        if j != jtis[0] {
          assert j in jtis[1..] && j in rest;
        }
      }
    }
  }

  lemma PostKeepsInv(cfg: Config, s: Sys, step: Step)
    requires Inv(s) && step.Post? && Enabled(s, step)
    ensures Inv(Apply(cfg, s, step))
  {
    var gone := step.acks + step.errs;
    var notes := Discharge(s.buffer, gone).1;
    DischargeNotes(s.buffer, gone);
    forall n | n in notes
      ensures Backed(s.history, n)
    {
      if n.jti in step.acks {
        AckIsBacked(s.history, n.jti);
      } else {
        var token, reason :| reason != Replayed && RefusedAs(n.jti, token, reason) in s.history;
        assert s.buffer[n.jti] == s.issued[n.jti] == RefusedAs(n.jti, token, reason).token;
      }
    }
    SafeAppend(s.history, notes);
  }

  /** A replayed refusal always follows the return of that jti. */
  lemma AckIsBacked(history: seq<Note>, jti: string)
    requires Safe(history) && MayAck(history, jti)
    ensures Returned(jti) in history
  {
    if exists token :: RefusedAs(jti, token, Replayed) in history {
      var token :| RefusedAs(jti, token, Replayed) in history;
      var k :| 0 <= k < |history| && history[k] == RefusedAs(jti, token, Replayed);
      assert Backed(history[..k], history[k]);
    }
  }

  lemma ReceiveKeepsInv(cfg: Config, s: Sys, step: Step)
    requires Inv(s) && step.Receive? && Enabled(s, step)
    ensures Inv(Apply(cfg, s, step))
  {
    var sets := Offers(s.issued, s.inFlight.value, step.keys);
    var (r, after) := Poll(cfg, s.store, Sets(sets, step.moreAvailable));
    PollIsAllOrNothing(cfg, s.store, Sets(sets, step.moreAvailable));
    if r.Ok? {
      var (returned, refused) := (ReturnedNotes(r.value.events), RefusedNotes(s.issued, r.value.refused));
      forall n | n in refused
        ensures Backed(s.history + returned, n) && n.jti in s.issued && s.issued[n.jti] == n.token
      {
        var k :| 0 <= k < |refused| && refused[k] == n;
        RefusalIsBacked(cfg, s, sets, step.moreAvailable, r.value.refused[k]);
        BackedLater(s.history, returned, n);
      }
      SafeAppend(s.history, returned);
      SafeAppend(s.history + returned, refused);
      forall i | 0 <= i < |after.log|
        ensures Returned(after.log[i].id) in s.history + returned + refused
      {
        LogIsReturned(s, after, cfg.window, r.value.events, i);
      }
    }
  }

  lemma LogIsReturned(s: Sys, after: StoreState, window: nat, events: seq<SecurityEvent>, i: nat)
    requires Inv(s) && GrewBy(s.store, after, window, events) && i < |after.log|
    ensures Returned(after.log[i].id) in s.history + ReturnedNotes(events)
  {
    var n := |s.store.log|;
    if i < n {
      assert after.log[i] == s.store.log[i];
    } else {
      assert RecordsEvent(after.log[n + (i - n)], events[i - n], window, s.store.clock, after.clock);
      assert ReturnedNotes(events)[i - n] == Returned(after.log[i].id);
    }
  }

  /** Only a jti already in the log, hence already returned, is refused as replayed. */
  lemma RefusalIsBacked(cfg: Config, s: Sys, sets: seq<Offer>, more: bool, x: RefusedSet)
    requires Inv(s) && DistinctKeys(sets) && Poll(cfg, s.store, Sets(sets, more)).0.Ok?
    requires forall i :: 0 <= i < |sets| ==> sets[i].jti in s.issued && sets[i].token == s.issued[sets[i].jti]
    requires x in Poll(cfg, s.store, Sets(sets, more)).0.value.refused
    ensures x.jti in s.issued && (x.reason == Replayed ==> Returned(x.jti) in s.history)
  {
    var i := RefusedKeysWereOffered(cfg, s.store, sets, more, x);
    PollPlaces(cfg, s.store, sets, more, i);
    JudgeStopsAtTheFirstFailure(cfg, sets[i].token, sets[i].key, Some(sets[i].jti));
    hide Poll;
    hide Judge;
  }

  lemma PushKeepsInv(cfg: Config, s: Sys, step: Step)
    requires Inv(s) && step.Push?
    ensures Inv(Apply(cfg, s, step))
  {
    var (v, after) := VerifySet(cfg, s.store, step.token, step.key);
    if v.Ok? {
      SafeAppend(s.history, [Returned(v.value.jti)]);
    }
    assert after.log == s.store.log || after.log == s.store.log + [after.log[|s.store.log|]];
  }

  lemma StepKeepsInv(cfg: Config, s: Sys, step: Step)
    requires Inv(s) && Enabled(s, step)
    ensures Inv(Apply(cfg, s, step))
  {
    match step
    case Post(_, _, _) => PostKeepsInv(cfg, s, step);
    case Receive(_, _) => ReceiveKeepsInv(cfg, s, step);
    case Push(_, _) => PushKeepsInv(cfg, s, step);
    case _ =>
  }

  // --- Runs ---

  /** `t` is reached from `s` by these steps, each enabled when it is taken. */
  ghost predicate Reaches(cfg: Config, s: Sys, steps: seq<Step>, t: Sys)
    decreases |steps|
  {
    if steps == [] then s == t
    else Enabled(s, steps[0]) && Reaches(cfg, Apply(cfg, s, steps[0]), steps[1..], t)
  }

  lemma {:induction false} RunKeepsInv(cfg: Config, s: Sys, steps: seq<Step>, t: Sys)
    requires Inv(s) && Reaches(cfg, s, steps, t)
    ensures Inv(t)
    decreases |steps|
  {
    if steps != [] {
      StepKeepsInv(cfg, s, steps[0]);
      RunKeepsInv(cfg, Apply(cfg, s, steps[0]), steps[1..], t);
    }
  }

  /** In every run, a SET leaves the transmitter's buffer only after its jti was returned
      to the caller as accepted, or after that very SET was refused for a reason other
      than having been replayed. */
  lemma NoSetIsLost(cfg: Config, s: Sys, steps: seq<Step>, t: Sys, i: nat)
    requires Init(s) && Reaches(cfg, s, steps, t)
    requires i < |t.history| && t.history[i].Left?
    ensures var (jti, token, earlier) := (t.history[i].jti, t.history[i].token, t.history[..i]);
            Returned(jti) in earlier || exists reason :: reason != Replayed && RefusedAs(jti, token, reason) in earlier
  {
    RunKeepsInv(cfg, s, steps, t);
    assert Backed(t.history[..i], t.history[i]);
  }

  /** So a SET that was neither, however many polls left it unjudged or failed over it,
      is still there to be offered again, unchanged. */
  lemma UnsettledSetsStay(cfg: Config, s: Sys, steps: seq<Step>, t: Sys, jti: string)
    requires Init(s) && Reaches(cfg, s, steps, t) && jti in t.issued
    requires Returned(jti) !in t.history
    requires forall n :: n in t.history && n.RefusedAs? && n.jti == jti ==> n.reason == Replayed
    ensures jti in t.buffer && t.buffer[jti] == t.issued[jti]
  {
    RunKeepsInv(cfg, s, steps, t);
    forall i | 0 <= i < |t.history|
      ensures t.history[i] != Left(jti, t.issued[jti])
    {
      if t.history[i].Left? {
        NoSetIsLost(cfg, s, steps, t, i);
        PrefixOf(t.history, i);
      }
    }
  }

  /** No key fetch and no store call fails while this reply is received. */
  ghost predicate FaultFree(s: Sys, step: Step) {
    && step.Receive? && s.inFlight.Some?
    && (forall k :: 0 <= k < |step.keys| ==> !step.keys[k].FetchFailed?)
    && !OutageWithin(s.store.script, |s.inFlight.value|)
  }

  /** And nothing stays for want of trying: a reply received without a fault settles every
      SET in it, so that the caller's next request may acknowledge or report each one. */
  lemma FaultFreeReplySettles(cfg: Config, s: Sys, step: Step, jti: string)
    requires Inv(s) && Enabled(s, step) && FaultFree(s, step) && jti in s.inFlight.value
    ensures MayAck(Apply(cfg, s, step).history, jti) || MayReport(Apply(cfg, s, step).history, jti)
  {
    var (sets, i) := (Offers(s.issued, s.inFlight.value, step.keys), IndexOf(s.inFlight.value, jti));
    assert sets[i].jti == jti && forall k :: 0 <= k < |sets| ==> sets[k].key == step.keys[k];
    assert DistinctKeys(sets);
    hide *;
    EveryoneJudged(cfg, sets);
    UpStoreLeavesNone(cfg, s.store, sets, step.moreAvailable, i);
    SettledIsNoted(cfg, s, step, sets, i);
  }

  ghost function IndexOf(xs: seq<string>, x: string): (i: nat)
    requires x in xs
    ensures i < |xs| && xs[i] == x
  {
    var i :| 0 <= i < |xs| && xs[i] == x; i
  }

  lemma EveryoneJudged(cfg: Config, sets: seq<Offer>)
    requires forall k :: 0 <= k < |sets| ==> !sets[k].key.FetchFailed?
    ensures JudgeAll(cfg, sets).Ok?
  {
    forall k | 0 <= k < |sets|
      ensures !IsNoVerdict(JudgeOffer(cfg, sets[k]).verdict)
    {
      JudgeStopsAtTheFirstFailure(cfg, sets[k].token, sets[k].key, Some(sets[k].jti));
    }
    JudgeAllIsAllOrNothing(cfg, sets);
  }

  lemma UpStoreLeavesNone(cfg: Config, st: StoreState, sets: seq<Offer>, more: bool, i: nat)
    requires DistinctKeys(sets) && JudgeAll(cfg, sets).Ok? && i < |sets|
    requires !OutageWithin(st.script, |sets|)
    ensures Poll(cfg, st, Sets(sets, more)).0.Ok?
    ensures sets[i].jti !in Poll(cfg, st, Sets(sets, more)).0.value.unjudged
  {
    CountOkIsBounded(JudgeAll(cfg, sets).value[..i]);
    PollPlaces(cfg, st, sets, more, i);
  }

  lemma {:induction false} CountOkIsBounded(judged: seq<Judged>)
    ensures CountOk(judged) <= |judged|
  {
    if judged != [] {
      CountOkIsBounded(judged[1..]);
    }
  }

  lemma SettledIsNoted(cfg: Config, s: Sys, step: Step, sets: seq<Offer>, i: nat)
    requires step.Receive? && Enabled(s, step) && sets == Offers(s.issued, s.inFlight.value, step.keys) && i < |sets|
    requires DistinctKeys(sets) && Poll(cfg, s.store, Sets(sets, step.moreAvailable)).0.Ok?
    requires sets[i].jti !in Poll(cfg, s.store, Sets(sets, step.moreAvailable)).0.value.unjudged
    ensures MayAck(Apply(cfg, s, step).history, sets[i].jti) || MayReport(Apply(cfg, s, step).history, sets[i].jti)
  {
    var r := Poll(cfg, s.store, Sets(sets, step.moreAvailable)).0.value;
    var (history, jti) := (Apply(cfg, s, step).history, sets[i].jti);
    var (returned, refused) := (ReturnedNotes(r.events), RefusedNotes(s.issued, r.refused));
    assert history == s.history + returned + refused;
    PollConserves(cfg, s.store, sets, step.moreAvailable);
    if jti in EventJtis(r.events) {
      var k :| 0 <= k < |r.events| && EventJtis(r.events)[k] == jti;
      assert returned[k] == Returned(jti) && returned[k] in history;
    } else {
      var why :| RefusedSet(jti, why) in r.refused;
      var k :| 0 <= k < |r.refused| && r.refused[k] == RefusedSet(jti, why);
      assert refused[k] == RefusedAs(jti, TokenOf(s.issued, jti), why) && refused[k] in history;
    }
  }

  lemma PrefixOf(history: seq<Note>, i: nat)
    requires i <= |history|
    ensures forall n :: n in history[..i] ==> n in history
  {
  }

  /** From any state of a run: a request whose reply offers a SET, that reply received
      without a fault, and one more request rid the buffer of the SET. */
  lemma FaultFreeRoundDischarges(cfg: Config, s: Sys, post: Step, receive: Step, jti: string) returns (settle: Step)
    requires Inv(s) && post.Post? && Enabled(s, post) && jti in post.offered
    requires var asked := Apply(cfg, s, post); Enabled(asked, receive) && FaultFree(asked, receive)
    ensures var answered := Apply(cfg, Apply(cfg, s, post), receive);
            && settle in {Post([jti], [], []), Post([], [jti], [])}
            && Enabled(answered, settle) && jti !in Apply(cfg, answered, settle).buffer
  {
    var asked := Apply(cfg, s, post);
    var answered := Apply(cfg, asked, receive);
    StepKeepsInv(cfg, s, post);
    FaultFreeReplySettles(cfg, asked, receive, jti);
    settle := if MayAck(answered.history, jti) then Post([jti], [], []) else Post([], [jti], []);
    hide Inv, MayAck, MayReport, FaultFree;
    assert settle.acks + settle.errs == [jti];
    DischargeNotes(answered.buffer, [jti]);
  }

  /** So in every run each buffered SET is three steps from leaving, two requests and a
      reply, once one key fetch and one store call succeed. */
  lemma EverySetCanLeave(
    cfg: Config, s: Sys, steps: seq<Step>, t: Sys, jti: string, key: KeyAnswer, more: bool) returns (settle: Step)
    requires Init(s) && Reaches(cfg, s, steps, t) && jti in t.buffer
    requires !key.FetchFailed? && !OutageWithin(t.store.script, 1)
    ensures var (post, receive) := (Post([], [], [jti]), Receive([key], more));
            && Enabled(t, post) && Enabled(Apply(cfg, t, post), receive)
            && var answered := Apply(cfg, Apply(cfg, t, post), receive);
               && Enabled(answered, settle) && jti !in Apply(cfg, answered, settle).buffer
  {
    RunKeepsInv(cfg, s, steps, t);
    var (post, receive) := (Post([], [], [jti]), Receive([key], more));
    assert post.acks + post.errs == [];
    assert Enabled(t, post) && FaultFree(Apply(cfg, t, post), receive);
    settle := FaultFreeRoundDischarges(cfg, t, post, receive, jti);
  }

  // --- No SET is returned twice within the window ---

  function ReturnedJtis(history: seq<Note>): seq<string> {
    if history == [] then []
    else if history[0].Returned? then [history[0].jti] + ReturnedJtis(history[1..])
    else ReturnedJtis(history[1..])
  }

  function Ids(log: seq<Record>): seq<string> {
    seq(|log|, i requires 0 <= i < |log| => log[i].id)
  }

  /** What the caller was given is what the store has accepted, in order. */
  ghost predicate InStep(cfg: Config, s: Sys) {
    ReturnedJtis(s.history) == Ids(s.store.log) && Sound(s.store, cfg.window)
  }

  lemma {:induction false} ReturnedConcat(a: seq<Note>, b: seq<Note>)
    ensures ReturnedJtis(a + b) == ReturnedJtis(a) + ReturnedJtis(b)
  {
    if a == [] {
      assert a + b == b;
    } else {
      ReturnedConcat(a[1..], b);
      assert (a + b)[0] == a[0] && (a + b)[1..] == a[1..] + b;
    }
  }

  lemma {:induction false} NoneReturned(notes: seq<Note>)
    requires forall n :: n in notes ==> !n.Returned?
    ensures ReturnedJtis(notes) == []
  {
    if notes != [] {
      NoneReturned(notes[1..]);
    }
  }

  lemma {:induction false} EventsAreReturned(events: seq<SecurityEvent>)
    ensures ReturnedJtis(ReturnedNotes(events)) == EventJtis(events)
  {
    if events != [] {
      EventsAreReturned(events[1..]);
      assert ReturnedNotes(events)[1..] == ReturnedNotes(events[1..]);
      assert EventJtis(events) == [events[0].jti] + EventJtis(events[1..]);
    }
  }

  lemma IdsGrow(st: StoreState, after: StoreState, window: nat, events: seq<SecurityEvent>)
    requires GrewBy(st, after, window, events)
    ensures Ids(after.log) == Ids(st.log) + EventJtis(events)
  {
    forall i | 0 <= i < |after.log|
      ensures Ids(after.log)[i] == (Ids(st.log) + EventJtis(events))[i]
    {
      if i >= |st.log| {
        assert RecordsEvent(after.log[|st.log| + (i - |st.log|)], events[i - |st.log|], window, st.clock, after.clock);
      }
    }
  }

  lemma ReceiveKeepsInStep(cfg: Config, s: Sys, step: Step)
    requires Inv(s) && InStep(cfg, s) && step.Receive? && Enabled(s, step)
    ensures InStep(cfg, Apply(cfg, s, step))
  {
    var reply := Sets(Offers(s.issued, s.inFlight.value, step.keys), step.moreAvailable);
    var (r, after) := Poll(cfg, s.store, reply);
    PollIsAllOrNothing(cfg, s.store, reply);
    CallKeepsSound(cfg, s.store, CallPoll(reply));
    if r.Ok? {
      var (returned, refused) := (ReturnedNotes(r.value.events), RefusedNotes(s.issued, r.value.refused));
      assert Apply(cfg, s, step).history == s.history + returned + refused;
      hide Poll, Apply;
      ReturnedConcat(s.history, returned);
      ReturnedConcat(s.history + returned, refused);
      EventsAreReturned(r.value.events);
      NoneReturned(refused);
      IdsGrow(s.store, after, cfg.window, r.value.events);
    }
  }

  lemma PushKeepsInStep(cfg: Config, s: Sys, step: Step)
    requires InStep(cfg, s) && step.Push?
    ensures InStep(cfg, Apply(cfg, s, step))
  {
    var (v, after) := VerifySet(cfg, s.store, step.token, step.key);
    CallKeepsSound(cfg, s.store, CallVerifySet(step.token, step.key));
    if v.Ok? {
      ReturnedConcat(s.history, [Returned(v.value.jti)]);
      assert Ids(after.log) == Ids(s.store.log) + [v.value.jti];
    }
  }

  lemma StepKeepsInStep(cfg: Config, s: Sys, step: Step)
    requires Inv(s) && InStep(cfg, s) && Enabled(s, step)
    ensures InStep(cfg, Apply(cfg, s, step))
  {
    match step
    case Receive(_, _) => ReceiveKeepsInStep(cfg, s, step);
    case Push(_, _) => PushKeepsInStep(cfg, s, step);
    case Post(acks, errs, _) =>
      DischargeNotes(s.buffer, acks + errs);
      NoneReturned(Discharge(s.buffer, acks + errs).1);
      ReturnedConcat(s.history, Discharge(s.buffer, acks + errs).1);
    case _ =>
  }

  lemma {:induction false} RunKeepsInStep(cfg: Config, s: Sys, steps: seq<Step>, t: Sys)
    requires Inv(s) && InStep(cfg, s) && Reaches(cfg, s, steps, t)
    ensures InStep(cfg, t)
    decreases |steps|
  {
    if steps != [] {
      StepKeepsInv(cfg, s, steps[0]);
      StepKeepsInStep(cfg, s, steps[0]);
      RunKeepsInStep(cfg, Apply(cfg, s, steps[0]), steps[1..], t);
    }
  }

  /** How many returns came before the `m`-th note. */
  function ReturnsBefore(history: seq<Note>, m: nat): nat
    requires m <= |history|
  {
    |ReturnedJtis(history[..m])|
  }

  lemma ReturnedByPosition(history: seq<Note>, m: nat, n: nat)
    requires m < n <= |history| && history[m].Returned?
    ensures ReturnsBefore(history, m) < ReturnsBefore(history, n)
    ensures ReturnedJtis(history[..n])[ReturnsBefore(history, m)] == history[m].jti
  {
    var (before, note, later) := (history[..m], [history[m]], history[m + 1..n]);
    assert history[..n] == before + (note + later);
    ReturnedConcat(before, note + later);
    ReturnedConcat(note, later);
  }

  /** In every run, two returns of one jti to the caller, by poll or push, were accepted
      at least the replay window apart. */
  lemma ReturnsAreApart(cfg: Config, s: Sys, steps: seq<Step>, t: Sys, m: nat, n: nat)
    requires Init(s) && Reaches(cfg, s, steps, t) && m < n < |t.history|
    requires t.history[m].Returned? && t.history[m] == t.history[n]
    ensures var (first, second) := (ReturnsBefore(t.history, m), ReturnsBefore(t.history, n));
            && first < second < |t.store.log|
            && t.store.log[first].id == t.store.log[second].id == t.history[m].jti
            && t.store.log[second].at >= t.store.log[first].at + cfg.window
  {
    RunKeepsInStep(cfg, s, steps, t);
    var (h, all) := (t.history, |t.history|);
    assert h[..all] == h;
    ReturnedByPosition(h, m, n);
    ReturnedByPosition(h, m, all);
    ReturnedByPosition(h, n, all);
    assert Ids(t.store.log)[ReturnsBefore(h, m)] == h[m].jti && Ids(t.store.log)[ReturnsBefore(h, n)] == h[m].jti;
  }
}
