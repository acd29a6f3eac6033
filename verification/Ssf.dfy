/** The SSF receiver of src/ssf.rs on values: steps 1-8 (`Judge`), the replay store's
    answers (`StoreState.CheckAndRecord`), and the two-phase poll
    (`Poll`). The classes of module SsfReceiver are proved against these functions; what
    every poll and every run of calls keeps is in SsfPollLaws and SsfRunLaws. */
module Ssf {
  import opened Outcomes
  import opened ExpiryLog
  import Text

  // --- SETs and what a receiver is told about their keys ---

  type Json = string  // opaque

  datatype Header = Header(typ: Option<string>, alg: Option<string>, kid: Option<string>)

  datatype Audience = One(name: string) | Many(names: seq<Option<string>>) | Other

  datatype Claims = Claims(
    iss: Option<string>, aud: Audience, exp: bool, sub: bool, jti: Option<string>, iat: Option<int>,
    subId: Option<Json>, events: Option<seq<(string, Json)>>, txn: Option<string>)

  /** One value of a poll reply's `sets` map. */
  datatype WireSet = NotAString | Undecodable | Compact(header: Header, claims: Claims, signature: string)

  type NoVerdict = e: AxiamError | e.SetFailureReason().None? witness Network

  /** The JWKS lookup for one SET: the fetch failed, or it found no key, a key that
      cannot be used, or a key under which the signature does or does not verify. */
  datatype KeyAnswer = FetchFailed(error: NoVerdict) | NoKey | Unusable | Found(verifies: bool)

  datatype Config = Config(issuer: string, audience: string, window: nat)

  const MIN_REPLAY_WINDOW: nat := 7 * 24 * 60 * 60 * 1000

  predicate Configurable(cfg: Config) {
    cfg.window >= MIN_REPLAY_WINDOW && cfg.issuer != "" && cfg.audience != ""
  }

  datatype SecurityEvent = SecurityEvent(
    jti: string, iat: int, iss: string, aud: Audience, txn: Option<string>, eventType: string,
    event: Json, subId: Json)

  type Verdict = Result<SecurityEvent, AxiamError>

  function Refuse(reason: Reason): Verdict {
    Err(Auth(Some(reason)))
  }

  predicate IsSetType(typ: Option<string>) {
    typ.Some? && Text.Lowercase(typ.value) in ["secevent+jwt", "application/secevent+jwt"]
  }

  predicate NamesReceiver(aud: Audience, audience: string) {
    match aud
    case One(name) => name == audience
    case Many(names) => Some(audience) in names
    case Other => false
  }

  /** Steps 1-8, recording nothing. */
  function Judge(cfg: Config, token: WireSet, key: KeyAnswer, expected: Option<string>): Verdict {
    if !token.Compact? then Refuse(Malformed)
    else if !IsSetType(token.header.typ) then Refuse(InvalidType)
    else if token.header.alg != Some("EdDSA") || token.header.kid.None? then Refuse(InvalidKey)
    else if key.FetchFailed? then Err(key.error)
    else if key != Found(true) then Refuse(InvalidKey)
    else if token.claims.iss.GetOr("") != cfg.issuer then Refuse(InvalidIssuer)
    else if !NamesReceiver(token.claims.aud, cfg.audience) then Refuse(InvalidAudience)
    else JudgeClaims(token.claims, cfg.issuer, expected)
  }

  /** Step 8. */
  function JudgeClaims(c: Claims, issuer: string, expected: Option<string>): Verdict {
    if c.exp || c.sub then Refuse(InvalidRequest)
    else if c.jti.None? || c.jti.value == "" then Refuse(InvalidRequest)
    else if c.iat.None? || c.subId.None? then Refuse(InvalidRequest)
    else if c.events.None? || |c.events.value| != 1 then Refuse(InvalidRequest)
    else if expected.Some? && expected != c.jti then Refuse(InvalidRequest)
    else
      var (eventType, event) := c.events.value[0];
      Ok(SecurityEvent(c.jti.value, c.iat.value, issuer, c.aud, c.txn, eventType, event, c.subId.value))
  }

  predicate IsNoVerdict(v: Verdict) {
    v.Err? && v.error.SetFailureReason().None?
  }

  /** How far a failure got: the step at which each reason is given. */
  function Step(reason: Reason): nat {
    match reason
    case Malformed => 1
    case InvalidType => 2
    case InvalidKey => 3
    case InvalidIssuer => 6
    case InvalidAudience => 7
    case InvalidRequest => 8
    case Replayed => 9
  }

  /** How many of the steps a SET got through: all eight, or those before the failure. */
  function Reached(v: Verdict): nat {
    if v.Ok? then 9 else if v.error.SetFailureReason().None? then 4 else Step(v.error.SetFailureReason().value)
  }

  /** What step 8 asks of the claims. */
  predicate IsOneEvent(c: Claims, expected: Option<string>) {
    && !c.exp && !c.sub && c.jti.GetOr("") != "" && c.iat.Some? && c.subId.Some?
    && c.events.Some? && |c.events.value| == 1 && (expected.Some? ==> expected == c.jti)
  }

  /** The text in any ASCII case. */
  predicate Spells(s: string, lower: string) {
    |s| == |lower| && forall i :: 0 <= i < |s| ==> s[i] == lower[i] || ('A' <= s[i] <= 'Z' && s[i] + ' ' == lower[i])
  }

  lemma SpellsIff(s: string, lower: string)
    requires forall i :: 0 <= i < |lower| ==> !('A' <= lower[i] <= 'Z')
    ensures Text.Lowercase(s) == lower <==> Spells(s, lower)
  {
    if Text.Lowercase(s) == lower {
      forall i | 0 <= i < |s|
        ensures s[i] == lower[i] || ('A' <= s[i] <= 'Z' && s[i] + ' ' == lower[i])
      {
        assert Text.ToLower(s[i]) == lower[i];
      }
    }
  }

  /** Step 7 in terms of the claim: this receiver's name, alone or among others. */
  predicate Addresses(aud: Audience, audience: string) {
    aud == One(audience) || exists i :: aud.Many? && 0 <= i < |aud.names| && aud.names[i] == Some(audience)
  }

  predicate NamesSetType(typ: Option<string>) {
    typ.Some? && (Spells(typ.value, "secevent+jwt") || Spells(typ.value, "application/secevent+jwt"))
  }

  /** Each step is passed exactly when those before it were and its own test holds: the
      first failing step decides, no claim is read before the signature verified, a
      failed key fetch is the only way to no verdict, and step 9 alone says `Replayed`. */
  lemma JudgeStopsAtTheFirstFailure(cfg: Config, token: WireSet, key: KeyAnswer, expected: Option<string>)
    ensures var v := Judge(cfg, token, key, expected);
            var signed := Reached(v) > 2 && token.header.alg == Some("EdDSA") && token.header.kid.Some?;
            && (Reached(v) > 1 <==> token.Compact?)
            && (Reached(v) > 2 <==> token.Compact? && NamesSetType(token.header.typ))
            && (Reached(v) == 4 <==> signed && key.FetchFailed?)
            && (Reached(v) > 4 <==> signed && key == Found(true))
            && (Reached(v) > 6 <==> Reached(v) > 4 && token.claims.iss.GetOr("") == cfg.issuer)
            && (Reached(v) > 7 <==> Reached(v) > 6 && Addresses(token.claims.aud, cfg.audience))
            && (Reached(v) == 9 <==> Reached(v) > 7 && IsOneEvent(token.claims, expected))
            && (Reached(v) == 9 <==> v.Ok?)
            && (IsNoVerdict(v) ==> v.error == key.error)
  {
    if token.Compact? && token.header.typ.Some? {
      SpellsIff(token.header.typ.value, "secevent+jwt");
      SpellsIff(token.header.typ.value, "application/secevent+jwt");
    }
  }

  // --- Step 9: the replay store ---

  /** What a store reports when it cannot answer: an error of this SDK, or any other. */
  datatype StoreError = Own(error: AxiamError) | Foreign

  /** What one call to the store meets: how far the clock has moved, and an outage or not. */
  datatype Beat = Beat(advance: nat, outage: Option<StoreError>)

  /** The store as its contract describes it: the acceptances so far, the clock, the
      faults still to come, and every identifier it was asked about. */
  datatype StoreState = StoreState(log: seq<Record>, clock: nat, script: seq<Beat>, asked: seq<string>) {

    function Next(): Beat {
      if script == [] then Beat(0, None) else script[0]
    }

    function Later(): StoreState {
      this.(clock := clock + Next().advance, script := if script == [] then [] else script[1..])
    }

    ghost function CheckAndRecord(jti: string, window: nat): (Result<bool, StoreError>, StoreState) {
      var met := Later().(asked := asked + [jti]);
      if Next().outage.Some? then (Err(Next().outage.value), met)
      else
        var (isNew, log') := Ask(log, jti, met.clock, window);
        (Ok(isNew), met.(log := log'))
    }
  }

  /** A store failure never carries a reason code, whatever the store raised; an error
      of this SDK passes through unchanged unless it is a refusal. */
  function StoreFailure(cause: StoreError): (e: NoVerdict)
    ensures cause == Own(e) || (e == Network && (cause.Own? ==> exists r :: cause.error == Auth(Some(r))))
  {
    if cause.Own? && cause.error.SetFailureReason().None? then cause.error else Network
  }

  ghost function Recorded(st: StoreState, window: nat, event: SecurityEvent): (Verdict, StoreState) {
    match st.CheckAndRecord(event.jti, window)
    case (Ok(true), st') => (Ok(event), st')
    case (Ok(false), st') => (Refuse(Replayed), st')
    case (Err(cause), st') => (Err(StoreFailure(cause)), st')
  }

  // --- poll ---

  /** One entry of the reply's `sets` map, with the key lookup it will meet. */
  datatype Offer = Offer(jti: string, token: WireSet, key: KeyAnswer)

  datatype Judged = Judged(jti: string, verdict: Verdict)

  datatype RefusedSet = RefusedSet(jti: string, reason: Reason)

  datatype PollResult = PollResult(
    events: seq<SecurityEvent>, moreAvailable: bool, refused: seq<RefusedSet>, unjudged: seq<string>)

  /** The transmitter's answer, after the retries: none, or the `sets` in map order. */
  datatype Reply = Failed(error: AxiamError) | Sets(sets: seq<Offer>, moreAvailable: bool)

  predicate DistinctKeys(sets: seq<Offer>) {
    forall i, j :: 0 <= i < j < |sets| ==> sets[i].jti != sets[j].jti
  }

  function JudgeOffer(cfg: Config, o: Offer): Judged {
    Judged(o.jti, Judge(cfg, o.token, o.key, Some(o.jti)))
  }

  /** Phase one: every SET judged, or the first failure that is no verdict. */
  function JudgeAll(cfg: Config, sets: seq<Offer>): (r: Result<seq<Judged>, AxiamError>)
    ensures r.Ok? ==> |r.value| == |sets|
  {
    if sets == [] then Ok([])
    else
      var head := JudgeOffer(cfg, sets[0]);
      if IsNoVerdict(head.verdict) then Err(head.verdict.error)
      else
        match JudgeAll(cfg, sets[1..])
        case Err(e) => Err(e)
        case Ok(rest) => Ok([head] + rest)
  }

  datatype Fate = Accepted(event: SecurityEvent) | Refused(reason: Reason) | Unjudged

  function FateOf(v: Verdict): Fate {
    if v.Ok? then Accepted(v.value)
    else if v.error.SetFailureReason().Some? then Refused(v.error.SetFailureReason().value)
    else Unjudged
  }

  /** Step 9 for one SET; once the store has failed it is not asked again. */
  ghost function SettleOne(st: StoreState, window: nat, v: Verdict, down: bool): (Fate, StoreState) {
    if v.Err? then (FateOf(v), st)
    else if down then (Unjudged, st)
    else var (r, st') := Recorded(st, window, v.value); (FateOf(r), st')
  }

  /** Phase two: what becomes of each SET, in the transmitter's order. */
  ghost function Settle(st: StoreState, window: nat, judged: seq<Judged>, down: bool): (r: (seq<Fate>, StoreState))
    ensures |r.0| == |judged|
    decreases |judged|
  {
    if judged == [] then ([], st)
    else
      var (fate, st1) := SettleOne(st, window, judged[0].verdict, down);
      var (fates, st2) := Settle(st1, window, judged[1..], down || fate.Unjudged?);
      ([fate] + fates, st2)
  }

  function Events(fates: seq<Fate>): seq<SecurityEvent> {
    if fates == [] then []
    else if fates[0].Accepted? then [fates[0].event] + Events(fates[1..])
    else Events(fates[1..])
  }

  function RefusedSets(keys: seq<string>, fates: seq<Fate>): seq<RefusedSet>
    requires |keys| == |fates|
  {
    if fates == [] then []
    else if fates[0].Refused? then [RefusedSet(keys[0], fates[0].reason)] + RefusedSets(keys[1..], fates[1..])
    else RefusedSets(keys[1..], fates[1..])
  }

  function UnjudgedKeys(keys: seq<string>, fates: seq<Fate>): seq<string>
    requires |keys| == |fates|
  {
    if fates == [] then []
    else if fates[0].Unjudged? then [keys[0]] + UnjudgedKeys(keys[1..], fates[1..])
    else UnjudgedKeys(keys[1..], fates[1..])
  }

  function Keys(judged: seq<Judged>): seq<string> {
    seq(|judged|, i requires 0 <= i < |judged| => judged[i].jti)
  }

  ghost function Poll(cfg: Config, st: StoreState, reply: Reply): (Result<PollResult, AxiamError>, StoreState) {
    match reply
    case Failed(e) => (Err(e), st)
    case Sets(sets, more) =>
      match JudgeAll(cfg, sets)
      case Err(e) => (Err(e), st)
      case Ok(judged) =>
        var (fates, st') := Settle(st, cfg.window, judged, false);
        (Ok(PollResult(Events(fates), more, RefusedSets(Keys(judged), fates), UnjudgedKeys(Keys(judged), fates))), st')
  }

  ghost function VerifySet(cfg: Config, st: StoreState, token: WireSet, key: KeyAnswer): (Verdict, StoreState) {
    match Judge(cfg, token, key, None)
    case Err(e) => (Err(e), st)
    case Ok(event) => Recorded(st, cfg.window, event)
  }
}
