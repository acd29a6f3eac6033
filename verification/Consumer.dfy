/** The AMQP consumer's gates (src/amqp/consumer.rs): signature, key version, freshness
    and nonce, over a table of nonces that prunes itself. Each delivery reads one clock. */
module Consumer {
  import opened Outcomes
  import opened Hex
  import opened ExpiryLog
  import opened AmqpWire

  const MIN_ACCEPTED_KEY_VERSION: int := 2
  const DEFAULT_FRESHNESS_SKEW: int := 300_000

  datatype Config = Config(crypto: Crypto, key: seq<Byte>, skew: int, parseTime: string -> Option<int>)

  /** Twice the skew, or the fallback when that is no `std::time::Duration`. */
  function Ttl(skew: int): (ttl: nat)
    ensures ttl == if skew < 0 then 600_000 else skew + skew
  {
    if skew >= 0 then 2 * skew else 2 * DEFAULT_FRESHNESS_SKEW
  }

  predicate IsFresh(skew: int, issuedAt: int, now: int) {
    -skew <= now - issuedAt <= skew
  }

  datatype ReplayFields = ReplayFields(keyVersion: int, nonce: string, issuedAt: int)

  function ExtractReplayFields(cfg: Config, body: Json): Option<ReplayFields> {
    if !body.Obj? then None
    else
      match (Get(body.members, "key_version"), Get(body.members, "nonce"), Get(body.members, "issued_at"))
      case (Some(Num(v)), Some(Str(nonce)), Some(Str(at))) =>
        if 0 <= v < 256 && cfg.parseTime(at).Some? then Some(ReplayFields(v, nonce, cfg.parseTime(at).value)) else None
      case _ => None
  }

  /** The fields are those members of an object, of these types and in these ranges, and
      there are none without all three. */
  lemma FieldsIff(cfg: Config, body: Json, f: ReplayFields)
    ensures ExtractReplayFields(cfg, body) == Some(f)
       <==> && body.Obj? && 0 <= f.keyVersion <= 255 && Get(body.members, "key_version") == Some(Num(f.keyVersion))
            && Get(body.members, "nonce") == Some(Str(f.nonce))
            && exists at :: Get(body.members, "issued_at") == Some(Str(at)) && cfg.parseTime(at) == Some(f.issuedAt)
  {
  }

  datatype Rejection = NotJson | BadSignature | MissingFields | OldKeyVersion | NotFresh | SeenNonce

  datatype Outcome = Dispatched(body: Json) | Rejected(why: Rejection)

  /** A delivery as received: when, and what its bytes parse to. */
  datatype Arrival = Arrival(now: nat, data: Option<Json>)

  /** The gates a delivery passes before the nonce table is asked; what then remains
      is its replay fields. */
  function Screen(cfg: Config, a: Arrival): Result<ReplayFields, Rejection> {
    if a.data.None? then Err(NotJson)
    else if !Authentic(cfg.crypto, cfg.key, a.data.value) then Err(BadSignature)
    else
      match ExtractReplayFields(cfg, Unsigned(a.data.value))
      case None => Err(MissingFields)
      case Some(f) =>
        if f.keyVersion < MIN_ACCEPTED_KEY_VERSION then Err(OldKeyVersion)
        else if !IsFresh(cfg.skew, f.issuedAt, a.now) then Err(NotFresh)
        else Ok(f)
  }

  ghost function Receive(cfg: Config, log: seq<Record>, a: Arrival): (Outcome, seq<Record>) {
    match Screen(cfg, a)
    case Err(why) => (Rejected(why), log)
    case Ok(f) =>
      var (isNew, log') := Ask(log, f.nonce, a.now, Ttl(cfg.skew));
      (if isNew then Dispatched(Unsigned(a.data.value)) else Rejected(SeenNonce), log')
  }

  // --- The objects ---

  class ReplayGuard {
    const skew: int
    var seen: map<string, nat>
    ghost var log: seq<Record>
    ghost var clock: nat

    ghost predicate Valid()
      reads this
    {
      Agrees(seen, log, clock)
    }

    constructor (skew: int)
      ensures Valid() && this.skew == skew && log == [] && clock == 0
    {
      this.skew, seen := skew, map[];
      log, clock := [], 0;
    }

    method CheckAndRecordNonce(nonce: string, now: nat) returns (isNew: bool)
      requires Valid() && clock <= now
      modifies this
      ensures Valid() && clock == now
      ensures (isNew, log) == Ask(old(log), nonce, now, Ttl(skew))
    {
      PruneAgrees(seen, log, clock, now);
      seen := Prune(seen, now);
      clock := now;
      if nonce in seen {
        return false;
      }
      InsertAgrees(seen, log, now, nonce, now + Ttl(skew));
      seen := seen[nonce := now + Ttl(skew)];
      log := log + [Record(nonce, now, now + Ttl(skew))];
      return true;
    }
  }

  datatype Action = Handled(body: Json) | Ack | Nack(requeue: bool)

  /** What is done with a delivery: the handler and then one ack, or one nack. */
  function ActionsOf(o: Outcome): seq<Action> {
    match o
    case Dispatched(body) => [Handled(body), Ack]
    case Rejected(_) => [Nack(false)]
  }

  class Delivery {
    const data: Option<Json>
    var actions: seq<Action>

    constructor (data: Option<Json>)
      ensures this.data == data && actions == []
    {
      this.data, actions := data, [];
    }

    method Do(action: Action)
      modifies this
      ensures actions == old(actions) + [action]
    {
      actions := actions + [action];
    }
  }

  method ValidateReplayProtection(cfg: Config, body: Json, guard: ReplayGuard, now: nat)
    returns (r: Result<(), Rejection>)
    requires guard.Valid() && guard.clock <= now && guard.skew == cfg.skew
    modifies guard
    ensures guard.Valid() && guard.clock <= now
    ensures match ExtractReplayFields(cfg, body)
            case None => r == Err(MissingFields) && guard.log == old(guard.log)
            case Some(f) =>
              if f.keyVersion < MIN_ACCEPTED_KEY_VERSION then r == Err(OldKeyVersion) && guard.log == old(guard.log)
              else if !IsFresh(cfg.skew, f.issuedAt, now) then r == Err(NotFresh) && guard.log == old(guard.log)
              else
                && (r.Ok?, guard.log) == Ask(old(guard.log), f.nonce, now, Ttl(cfg.skew))
                && (r.Err? ==> r.error == SeenNonce)
  {
    var fields := ExtractReplayFields(cfg, body);
    if fields.None? {
      return Err(MissingFields);
    }
    if fields.value.keyVersion < MIN_ACCEPTED_KEY_VERSION {
      return Err(OldKeyVersion);
    }
    if !IsFresh(guard.skew, fields.value.issuedAt, now) {
      return Err(NotFresh);
    }
    var isNew := guard.CheckAndRecordNonce(fields.value.nonce, now);
    return if isNew then Ok(()) else Err(SeenNonce);
  }

  method VerifyAndDispatch(cfg: Config, delivery: Delivery, guard: ReplayGuard, now: nat)
    requires guard.Valid() && guard.clock <= now && guard.skew == cfg.skew
    modifies delivery, guard
    ensures guard.Valid() && guard.clock <= now
    ensures var (outcome, log) := Receive(cfg, old(guard.log), Arrival(now, delivery.data));
            guard.log == log && delivery.actions == old(delivery.actions) + ActionsOf(outcome)
    ensures SettledExactlyOnce(delivery.actions[|old(delivery.actions)|..])
  {
    SettledOnce(cfg, guard.log, Arrival(now, delivery.data));
    if delivery.data.None? {
      delivery.Do(Nack(false));
      return;
    }
    var body := delivery.data.value;
    var sig := SignatureOf(body);
    if body.Obj? {
      body := Obj(ShiftRemove(body.members, SIGNATURE));
    }
    var canonical := cfg.crypto.compact(body);
    var verified := sig.Some? && VerifyPayload(cfg.crypto, cfg.key, canonical, sig.value);
    if !verified {
      delivery.Do(Nack(false));
      return;
    }
    var gates := ValidateReplayProtection(cfg, body, guard, now);
    if gates.Err? {
      delivery.Do(Nack(false));
      return;
    }
    delivery.Do(Handled(body));
    delivery.Do(Ack);
  }

  // --- One delivery ---

  /** Dispatched exactly when authentic, complete, current, fresh and not seen; a
      rejection leaves the nonce log as it was. */
  lemma DispatchedIff(cfg: Config, log: seq<Record>, a: Arrival)
    ensures var (outcome, log') := Receive(cfg, log, a);
            && (outcome.Dispatched? <==>
                  && a.data.Some? && Authentic(cfg.crypto, cfg.key, a.data.value)
                  && (var f := ExtractReplayFields(cfg, Unsigned(a.data.value));
                      && f.Some? && f.value.keyVersion >= 2 && IsFresh(cfg.skew, f.value.issuedAt, a.now)
                      && !Holds(log, f.value.nonce, a.now)))
            && (outcome.Rejected? ==> log' == log)
  {
  }

  /** One settlement among these actions, never a requeue, and the handler ran exactly
      when it was an ack, before it. */
  ghost predicate SettledExactlyOnce(done: seq<Action>) {
    && |multiset(done) * multiset{Ack, Nack(false), Nack(true)}| == 1
    && (Ack in done <==> exists body :: done == [Handled(body), Ack])
    && ((exists body :: Handled(body) in done) ==> Ack in done)
    && Nack(true) !in done
  }

  lemma SettledOnce(cfg: Config, log: seq<Record>, a: Arrival)
    ensures SettledExactlyOnce(ActionsOf(Receive(cfg, log, a).0))
  {
    var (done, settle) := (ActionsOf(Receive(cfg, log, a).0), multiset{Ack, Nack(false), Nack(true)});
    if |done| == 2 {
      assert done == [done[0], Ack];
      assert multiset(done) * settle == multiset{Ack};
    } else {
      assert multiset(done) * settle == multiset{Nack(false)};
    }
  }

  // --- Any sequence of deliveries ---

  ghost function LogBefore(cfg: Config, log: seq<Record>, run: seq<Arrival>, k: nat): seq<Record>
    requires k <= |run|
  {
    if k == 0 then log else Receive(cfg, LogBefore(cfg, log, run, k - 1), run[k - 1]).1
  }

  ghost function OutcomeAt(cfg: Config, log: seq<Record>, run: seq<Arrival>, k: nat): Outcome
    requires k < |run|
  {
    Receive(cfg, LogBefore(cfg, log, run, k), run[k]).0
  }

  predicate InOrder(run: seq<Arrival>) {
    forall i, j :: 0 <= i < j < |run| ==> run[i].now <= run[j].now
  }

  lemma {:induction false} LogOnlyGrows(cfg: Config, log: seq<Record>, run: seq<Arrival>, i: nat, j: nat)
    requires i <= j <= |run|
    ensures LogBefore(cfg, log, run, i) <= LogBefore(cfg, log, run, j)
    decreases j - i
  {
    if i < j {
      LogOnlyGrows(cfg, log, run, i, j - 1);
    }
  }

  /** While the record of a dispatch is live, its nonce is not dispatched again. */
  lemma RecordHolds(cfg: Config, log: seq<Record>, run: seq<Arrival>, i: nat, j: nat)
    requires InOrder(run) && i < j < |run|
    requires OutcomeAt(cfg, log, run, i).Dispatched? && OutcomeAt(cfg, log, run, j).Dispatched?
    requires Screen(cfg, run[i]).value.nonce == Screen(cfg, run[j]).value.nonce
    ensures run[j].now >= run[i].now + Ttl(cfg.skew)
  {
    var before := LogBefore(cfg, log, run, i);
    LogOnlyGrows(cfg, log, run, i + 1, j);
    assert LogBefore(cfg, log, run, i + 1)[|before|].id == Screen(cfg, run[i]).value.nonce;
    assert LogBefore(cfg, log, run, j)[|before|].until == run[i].now + Ttl(cfg.skew);
  }

  /** A nonce dispatched once is not dispatched again for twice the skew. */
  lemma NonceWindow(cfg: Config, log: seq<Record>, run: seq<Arrival>, i: nat, j: nat)
    requires InOrder(run) && i < j < |run|
    requires OutcomeAt(cfg, log, run, i).Dispatched? && OutcomeAt(cfg, log, run, j).Dispatched?
    requires Screen(cfg, run[i]).value.nonce == Screen(cfg, run[j]).value.nonce
    ensures run[j].now >= run[i].now + 2 * cfg.skew
  {
    RecordHolds(cfg, log, run, i, j);
  }

  /** Why twice the skew is long enough: a nonce dispatched at `t1` is never dispatched
      again in a body issued before `t1 + skew`, in any run, even after its entry has
      been pruned. */
  lemma NonceNeverDispatchedTwice(cfg: Config, log: seq<Record>, run: seq<Arrival>, i: nat, j: nat)
    requires InOrder(run) && i < j < |run|
    requires OutcomeAt(cfg, log, run, i).Dispatched? && Screen(cfg, run[j]).Ok?
    requires Screen(cfg, run[j]).value.nonce == Screen(cfg, run[i]).value.nonce
    requires Screen(cfg, run[j]).value.issuedAt < run[i].now + cfg.skew
    ensures OutcomeAt(cfg, log, run, j).Rejected?
  {
    if OutcomeAt(cfg, log, run, j).Dispatched? {
      RecordHolds(cfg, log, run, i, j);
    }
  }

  /** Two deliveries of one message: the same body once the signature is taken off,
      however each of them spells or places it. */
  predicate SameMessage(a: Option<Json>, b: Option<Json>) {
    a.Some? && b.Some? && Unsigned(a.value) == Unsigned(b.value)
  }

  /** So a message issued before `t1 + skew` is never dispatched a second time. */
  lemma NeverDispatchedTwice(cfg: Config, log: seq<Record>, run: seq<Arrival>, i: nat, j: nat)
    requires InOrder(run) && i < j < |run| && SameMessage(run[i].data, run[j].data)
    requires OutcomeAt(cfg, log, run, i).Dispatched?
    requires Screen(cfg, run[i]).value.issuedAt < run[i].now + cfg.skew
    ensures OutcomeAt(cfg, log, run, j).Rejected?
  {
    if OutcomeAt(cfg, log, run, j).Dispatched? {
      NonceNeverDispatchedTwice(cfg, log, run, i, j);
    }
  }

  /** `again` delivers the message of `a` once more, and is dispatched too. */
  ghost predicate DispatchedAgain(cfg: Config, log: seq<Record>, a: Arrival, again: Arrival) {
    && again.now >= a.now && SameMessage(a.data, again.data)
    && Receive(cfg, Receive(cfg, log, a).1, again).0.Dispatched?
  }

  /** And exactly then. A message issued at the far edge of the window, `t1 + skew`, is
      fresh at the very instant its nonce is forgotten, and a redelivery then is dispatched;
      no other redelivery of it is, however its signature was altered. */
  lemma SecondDispatchIff(cfg: Config, log: seq<Record>, a: Arrival)
    requires Receive(cfg, log, a).0.Dispatched?
    ensures (exists again :: DispatchedAgain(cfg, log, a, again)) <==> Screen(cfg, a).value.issuedAt == a.now + cfg.skew
    ensures Screen(cfg, a).value.issuedAt == a.now + cfg.skew ==>
              DispatchedAgain(cfg, log, a, Arrival(a.now + 2 * cfg.skew, a.data))
  {
    var (after, f) := (Receive(cfg, log, a).1, Screen(cfg, a).value);
    var edge := a.now + 2 * cfg.skew;
    if f.issuedAt == a.now + cfg.skew {
      HoldsAfterAppend(log, Record(f.nonce, a.now, a.now + Ttl(cfg.skew)), f.nonce, edge);
      assert Holds(log, f.nonce, edge) ==> Holds(log, f.nonce, a.now);
      assert DispatchedAgain(cfg, log, a, Arrival(edge, a.data));
    }
    forall again | DispatchedAgain(cfg, log, a, again)
      ensures f.issuedAt == a.now + cfg.skew
    {
      assert after[|log|] == Record(f.nonce, a.now, a.now + Ttl(cfg.skew));
    }
  }

  /** Rejected deliveries, forged ones among them, spend no nonce: whatever was rejected
      first, the next delivery fares as if it had come alone. */
  lemma {:induction false} RejectionsSpendNothing(cfg: Config, log: seq<Record>, run: seq<Arrival>, k: nat)
    requires k < |run| && forall i :: 0 <= i < k ==> OutcomeAt(cfg, log, run, i).Rejected?
    ensures LogBefore(cfg, log, run, k) == log
    ensures OutcomeAt(cfg, log, run, k) == Receive(cfg, log, run[k]).0
  {
    if k > 0 {
      RejectionsSpendNothing(cfg, log, run, k - 1);
      assert OutcomeAt(cfg, log, run, k - 1).Rejected?;
    }
  }
}
