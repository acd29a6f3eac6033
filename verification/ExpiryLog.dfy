/** A table that forgets: identifiers remembered until an instant, and the plain
    append-only log of acceptances that the table is meant to answer for. Both the
    SET replay store and the AMQP nonce guard are such tables. */
module ExpiryLog {

  datatype Record = Record(id: string, at: nat, until: nat)

  /** Some acceptance of `id` has not expired at `now`. */
  ghost predicate Holds(log: seq<Record>, id: string, now: nat) {
    exists i :: 0 <= i < |log| && log[i].id == id && log[i].until > now
  }

  /** Drop every entry whose expiry is not strictly later than `now`. */
  function Prune(seen: map<string, nat>, now: nat): map<string, nat> {
    map id | id in seen && seen[id] > now :: seen[id]
  }

  /** From `clock` on, the table answers every question as the whole log would. */
  ghost predicate Agrees(seen: map<string, nat>, log: seq<Record>, clock: nat) {
    forall id, t: nat :: t >= clock ==> ((id in seen && seen[id] > t) <==> Holds(log, id, t))
  }

  /** Two acceptances of one identifier never overlap. */
  ghost predicate Apart(log: seq<Record>) {
    forall i, j :: 0 <= i < j < |log| && log[i].id == log[j].id ==> log[i].until <= log[j].at
  }

  /** What one check-and-record does to the log. */
  ghost function Ask(log: seq<Record>, id: string, now: nat, window: nat): (bool, seq<Record>) {
    if Holds(log, id, now) then (false, log) else (true, log + [Record(id, now, now + window)])
  }

  lemma PruneAgrees(seen: map<string, nat>, log: seq<Record>, clock: nat, now: nat)
    requires Agrees(seen, log, clock) && clock <= now
    ensures Agrees(Prune(seen, now), log, now)
    ensures forall id :: id in Prune(seen, now) <==> Holds(log, id, now)
  {
    forall id, t: nat | t >= now
      ensures (id in Prune(seen, now) && Prune(seen, now)[id] > t) <==> Holds(log, id, t)
    {
      assert Holds(log, id, t) <==> id in seen && seen[id] > t;
    }
  }

  lemma HoldsAfterAppend(log: seq<Record>, r: Record, id: string, t: nat)
    ensures Holds(log + [r], id, t) <==> Holds(log, id, t) || (r.id == id && r.until > t)
  {
    assert (log + [r])[|log|] == r;
    if Holds(log, id, t) {
      var i :| 0 <= i < |log| && log[i].id == id && log[i].until > t;
      assert (log + [r])[i] == log[i];
    }
  }

  lemma InsertAgrees(seen: map<string, nat>, log: seq<Record>, now: nat, id: string, until: nat)
    requires Agrees(seen, log, now) && !Holds(log, id, now)
    ensures Agrees(seen[id := until], log + [Record(id, now, until)], now)
  {
    var r := Record(id, now, until);
    forall other, t: nat | t >= now
      ensures (other in seen[id := until] && seen[id := until][other] > t) <==> Holds(log + [r], other, t)
    {
      HoldsAfterAppend(log, r, other, t);
      assert Holds(log, other, t) <==> other in seen && seen[other] > t;
      assert Holds(log, id, t) ==> Holds(log, id, now);
    }
  }

  lemma AskKeepsApart(log: seq<Record>, id: string, now: nat, window: nat)
    requires Apart(log)
    ensures Apart(Ask(log, id, now, window).1)
  {
    if !Holds(log, id, now) {
      forall i | 0 <= i < |log| && log[i].id == id
        ensures log[i].until <= now
      {
      }
    }
  }
}
