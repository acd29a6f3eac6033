/** The signed audit event (src/amqp/messages.rs): the reserved-namespace refusal, the
    declared field order of its wire form, and `sign`. */
module AuditMessage {
  import opened Outcomes
  import opened Hex
  import opened AmqpWire
  import opened ExpiryLog
  import opened Consumer
  import Text

  type U8 = n: int | 0 <= n < 256

  const RESERVED_PREFIXES: seq<string> := ["tenants.", "gdpr."]

  /** `prefix` and the head of `action` differ at most in ASCII case. */
  predicate HasPrefixIgnoringCase(action: string, prefix: string) {
    |prefix| <= |action| && Text.Lowercase(action[..|prefix|]) == Text.Lowercase(prefix)
  }

  predicate IsReserved(action: string) {
    exists i :: 0 <= i < |RESERVED_PREFIXES| && HasPrefixIgnoringCase(action, RESERVED_PREFIXES[i])
  }

  lemma PrefixIff(action: string, p: string)
    requires Text.Lowercase(p) == p
    ensures HasPrefixIgnoringCase(action, p) <==> exists tail :: Text.Lowercase(action) == p + tail
  {
    var lower := Text.Lowercase(action);
    if HasPrefixIgnoringCase(action, p) {
      assert lower[..|p|] == Text.Lowercase(action[..|p|]);
      assert lower == p + lower[|p|..];
    }
    if tail :| lower == p + tail {
      assert Text.Lowercase(action[..|p|]) == lower[..|p|] == p;
    }
  }

  /** The reserved actions are those a lowercasing makes begin with a reserved namespace. */
  lemma ReservedIff(action: string)
    ensures IsReserved(action)
       <==> || (exists tail :: Text.Lowercase(action) == "tenants." + tail)
            || (exists tail :: Text.Lowercase(action) == "gdpr." + tail)
  {
    var first, second := RESERVED_PREFIXES[0], RESERVED_PREFIXES[1];
    assert Text.Lowercase(first) == first && Text.Lowercase(second) == second;
    hide Text.Lowercase;
    PrefixIff(action, first);
    PrefixIff(action, second);
  }

  /** Every field but the signature, as JSON values in declaration order. */
  datatype Fields = Fields(
    tenantId: string, actorId: string, actorType: string, action: string, resourceId: Option<string>,
    outcome: string, ipAddress: Option<string>, metadata: Option<Json>, keyVersion: U8, nonce: string,
    issuedAt: string)

  type Slot = (string, Option<Json>)

  function OptionalStr(value: Option<string>): Option<Json> {
    if value.Some? then Some(Str(value.value)) else None
  }

  /** The declared fields in order, each with the value to emit, if any. */
  function Slots(f: Fields, signature: Option<string>): seq<Slot> {
    [("tenant_id", Some(Str(f.tenantId))), ("actor_id", Some(Str(f.actorId))),
     ("actor_type", Some(Str(f.actorType))), ("action", Some(Str(f.action))),
     ("resource_id", OptionalStr(f.resourceId)), ("outcome", Some(Str(f.outcome))),
     ("ip_address", OptionalStr(f.ipAddress)), ("metadata", f.metadata),
     ("key_version", Some(Num(f.keyVersion))), ("nonce", Some(Str(f.nonce))),
     ("issued_at", Some(Str(f.issuedAt))), (SIGNATURE, OptionalStr(signature))]
  }

  /** Absent options are skipped. */
  function Emit(slots: seq<Slot>): Members {
    if slots == [] then []
    else if slots[0].1.Some? then [(slots[0].0, slots[0].1.value)] + Emit(slots[1..])
    else Emit(slots[1..])
  }

  /** What `serde` serializes the message to. */
  function Wire(f: Fields, signature: Option<string>): Members {
    Emit(Slots(f, signature))
  }

  class AuditEvent {
    const fields: Fields
    var signature: Option<string>

    constructor (fields: Fields, signature: Option<string>)
      ensures this.fields == fields && this.signature == signature
    {
      this.fields, this.signature := fields, signature;
    }

    /** A reserved action is refused with the message untouched; any other message is
        signed over its unsigned form, whatever signature it carried before. */
    method Sign(c: Crypto, key: seq<Byte>) returns (r: Result<(), AxiamError>)
      modifies this
      ensures r.Err? <==> IsReserved(fields.action)
      ensures r.Err? ==> signature == old(signature)
      ensures r.Ok? ==> signature == Some(SignPayload(c, key, c.compact(Obj(Wire(fields, None)))))
    {
      if IsReserved(fields.action) {
        return Err(Network);
      }
      signature := None;
      var bytes := c.compact(Obj(Wire(fields, signature)));
      signature := Some(SignPayload(c, key, bytes));
      return Ok(());
    }
  }

  lemma {:induction false} EmitNamesOnlySlots(slots: seq<Slot>, key: string)
    requires forall i :: 0 <= i < |slots| ==> slots[i].0 != key
    ensures !HasKey(Emit(slots), key)
  {
    if slots != [] {
      EmitNamesOnlySlots(slots[1..], key);
      if slots[0].1.Some? {
        HasKeyCons((slots[0].0, slots[0].1.value), Emit(slots[1..]));
      }
    }
  }

  lemma {:induction false} EmitKeepsUnique(slots: seq<Slot>)
    requires forall i, j :: 0 <= i < j < |slots| ==> slots[i].0 != slots[j].0
    ensures UniqueKeys(Emit(slots))
  {
    if slots != [] {
      var rest := Emit(slots[1..]);
      EmitKeepsUnique(slots[1..]);
      EmitNamesOnlySlots(slots[1..], slots[0].0);
      assert forall i :: 0 <= i < |rest| ==> HasKey(rest, rest[i].0);
    }
  }

  /** No two fields share a name. */
  lemma SlotNamesDiffer(f: Fields, signature: Option<string>)
    ensures forall i, j :: 0 <= i < j < 12 ==> Slots(f, signature)[i].0 != Slots(f, signature)[j].0
  {
  }

  lemma {:induction false} EmitConcat(a: seq<Slot>, b: seq<Slot>)
    ensures Emit(a + b) == Emit(a) + Emit(b)
  {
    if a == [] {
      assert a + b == b;
    } else {
      EmitConcat(a[1..], b);
      assert (a + b)[1..] == a[1..] + b;
    }
  }

  /** The wire form of every signed message verifies, and its canonical form is the
      message without its signature. */
  lemma SignedMessageVerifies(c: Crypto, key: seq<Byte>, f: Fields)
    ensures var signed := SignPayload(c, key, c.compact(Obj(Wire(f, None))));
            var body := Obj(Collect(Wire(f, Some(signed))));
            Authentic(c, key, body) && Unsigned(body) == Obj(Wire(f, None))
  {
    var m := Wire(f, None);
    var signed := SignPayload(c, key, c.compact(Obj(m)));
    var (declared, last) := (Slots(f, None)[..11], (SIGNATURE, Some(Str(signed))));
    SlotNamesDiffer(f, None);
    EmitConcat(declared, [Slots(f, None)[11]]);
    EmitConcat(declared, [last]);
    assert Slots(f, None) == declared + [Slots(f, None)[11]] && Slots(f, Some(signed)) == declared + [last];
    assert Emit([Slots(f, None)[11]]) == [] && Emit([last]) == [(SIGNATURE, Str(signed))] by {
      assert Emit([]) == [];
    }
    EmitKeepsUnique(Slots(f, None));
    EmitNamesOnlySlots(declared, SIGNATURE);
    assert m == Emit(declared);
    SignedDeliveryVerifies(c, key, m, |m|);
    assert Wire(f, Some(signed)) == m[..|m|] + [(SIGNATURE, Str(signed))] + m[|m|..];
  }

  lemma {:induction false} GetEmitted(slots: seq<Slot>, i: nat)
    requires i < |slots|
    requires forall a, b :: 0 <= a < b < |slots| ==> slots[a].0 != slots[b].0
    ensures Get(Emit(slots), slots[i].0) == slots[i].1
  {
    if i > 0 {
      GetEmitted(slots[1..], i - 1);
    } else if slots[0].1.None? {
      EmitNamesOnlySlots(slots[1..], slots[0].0);
      RemoveAbsent(Emit(slots[1..]), slots[0].0);
    }
  }

  /** The member's value is this text, or the member is absent with the option. */
  predicate Holding(m: Members, key: string, text: Option<string>) {
    (text.None? ==> Get(m, key) == None) && (text.Some? ==> Get(m, key) == Some(Str(text.value)))
  }

  /** Every field is on the wire under its name, an absent option not at all. */
  lemma EveryFieldIsOnTheWire(f: Fields, signature: Option<string>)
    ensures var m := Wire(f, signature);
            && Holding(m, "tenant_id", Some(f.tenantId)) && Holding(m, "actor_id", Some(f.actorId))
            && Holding(m, "actor_type", Some(f.actorType)) && Holding(m, "action", Some(f.action))
            && Holding(m, "resource_id", f.resourceId) && Holding(m, "outcome", Some(f.outcome))
            && Holding(m, "ip_address", f.ipAddress) && Get(m, "metadata") == f.metadata
            && Get(m, "key_version") == Some(Num(f.keyVersion)) && Holding(m, "nonce", Some(f.nonce))
            && Holding(m, "issued_at", Some(f.issuedAt)) && Holding(m, "hmac_signature", signature)
  {
    var slots := Slots(f, signature);
    SlotNamesDiffer(f, signature);
    hide Emit, Get;
    GetEmitted(slots, 0);
    GetEmitted(slots, 1);
    GetEmitted(slots, 2);
    GetEmitted(slots, 3);
    GetEmitted(slots, 4);
    GetEmitted(slots, 5);
    GetEmitted(slots, 6);
    GetEmitted(slots, 7);
    GetEmitted(slots, 8);
    GetEmitted(slots, 9);
    GetEmitted(slots, 10);
    GetEmitted(slots, 11);
  }

  /** The field names in the order they are declared. */
  const DECLARED: seq<string> :=
    ["tenant_id", "actor_id", "actor_type", "action", "resource_id", "outcome", "ip_address", "metadata",
     "key_version", "nonce", "issued_at", "hmac_signature"]

  /** These members come under these names, in this order, some perhaps left out. */
  ghost predicate InOrderOf(m: Members, names: seq<string>) {
    if m == [] then true
    else exists i :: 0 <= i < |names| && m[0].0 == names[i] && InOrderOf(m[1..], names[i + 1..])
  }

  lemma {:induction false} EmitInOrder(slots: seq<Slot>, names: seq<string>)
    requires |slots| == |names| && forall i :: 0 <= i < |slots| ==> slots[i].0 == names[i]
    ensures InOrderOf(Emit(slots), names)
  {
    if slots != [] {
      EmitInOrder(slots[1..], names[1..]);
      var (m, rest) := (Emit(slots), Emit(slots[1..]));
      if slots[0].1.Some? {
        assert m[1..] == rest && m[0].0 == names[0] && InOrderOf(m[1..], names[0 + 1..]);
      } else if rest != [] {
        var i :| 0 <= i < |names[1..]| && rest[0].0 == names[1..][i] && InOrderOf(rest[1..], names[1..][i + 1..]);
        assert names[1..][i + 1..] == names[i + 1 + 1..] && m[0].0 == names[i + 1];
      }
    }
  }

  /** The wire form keeps the declared order, which is what the MAC covers. */
  lemma WireKeepsTheOrder(f: Fields, signature: Option<string>)
    ensures InOrderOf(Wire(f, signature), DECLARED)
  {
    EmitInOrder(Slots(f, signature), DECLARED);
  }

  lemma FieldsReadBack(cfg: Config, f: Fields, at: int)
    requires cfg.parseTime(f.issuedAt) == Some(at)
    ensures ExtractReplayFields(cfg, Obj(Wire(f, None))) == Some(ReplayFields(f.keyVersion, f.nonce, at))
  {
    SlotNamesDiffer(f, None);
    GetEmitted(Slots(f, None), 8);
    GetEmitted(Slots(f, None), 9);
    GetEmitted(Slots(f, None), 10);
  }

  /** From producer to handler: a message signed with the consumer's key is dispatched,
      as the message without its signature, exactly when its key version is current, it
      is fresh, and its nonce has not been seen. */
  lemma SignedMessageIsDispatchedIff(cfg: Config, f: Fields, at: int, log: seq<Record>, now: nat)
    requires cfg.parseTime(f.issuedAt) == Some(at)
    ensures var signed := SignPayload(cfg.crypto, cfg.key, cfg.crypto.compact(Obj(Wire(f, None))));
            var outcome := Receive(cfg, log, Arrival(now, Some(Obj(Collect(Wire(f, Some(signed))))))).0;
            && (outcome.Dispatched? <==>
                  f.keyVersion >= 2 && at - cfg.skew <= now <= at + cfg.skew && !Holds(log, f.nonce, now))
            && (outcome.Dispatched? ==> outcome.body == Obj(Wire(f, None)))
  {
    hide Wire;
    var signed := SignPayload(cfg.crypto, cfg.key, cfg.crypto.compact(Obj(Wire(f, None))));
    SignedMessageVerifies(cfg.crypto, cfg.key, f);
    FieldsReadBack(cfg, f, at);
    DispatchedIff(cfg, log, Arrival(now, Some(Obj(Collect(Wire(f, Some(signed)))))));
  }

  /** The edge is real: a message issued `skew` ahead of the consumer's clock is dispatched
      when it is first delivered, and again twice the skew later. */
  lemma EdgeMessageIsDispatchedTwice(cfg: Config, f: Fields, now: nat)
    requires cfg.skew >= 0 && f.keyVersion >= 2 && cfg.parseTime(f.issuedAt) == Some(now + cfg.skew)
    ensures var signed := SignPayload(cfg.crypto, cfg.key, cfg.crypto.compact(Obj(Wire(f, None))));
            var first := Arrival(now, Some(Obj(Collect(Wire(f, Some(signed))))));
            && Receive(cfg, [], first).0.Dispatched?
            && DispatchedAgain(cfg, [], first, first.(now := now + 2 * cfg.skew))
  {
    hide Wire;
    var signed := SignPayload(cfg.crypto, cfg.key, cfg.crypto.compact(Obj(Wire(f, None))));
    var first := Arrival(now, Some(Obj(Collect(Wire(f, Some(signed))))));
    SignedMessageVerifies(cfg.crypto, cfg.key, f);
    FieldsReadBack(cfg, f, now + cfg.skew);
    SignedMessageIsDispatchedIff(cfg, f, now + cfg.skew, [], now);
    SecondDispatchIff(cfg, [], first);
  }
}
