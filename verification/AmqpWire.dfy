/** The signed AMQP body: an ordered JSON object, the removal of its signature field, and
    the HMAC over the compact bytes of what remains (src/amqp/hmac.rs and the first half
    of `verify_and_dispatch`). The MAC and the JSON printer are arbitrary functions. */
module AmqpWire {
  import opened Outcomes
  import opened Hex
  import Text

  type Members = seq<(string, Json)>

  datatype Json =
    | Null | Bool(b: bool) | Num(n: int) | Float(text: string) | Str(s: string)
    | Arr(items: seq<Json>) | Obj(members: Members)

  type Mac = b: seq<Byte> | |b| == 32 witness seq(32, _ => 0)

  type MacFunction = (seq<Byte>, seq<Byte>) -> Mac

  datatype Crypto = Crypto(mac: MacFunction, compact: Json -> seq<Byte>)

  const SIGNATURE: string := "hmac_signature"

  // --- An insertion-ordered map, as serde_json's `preserve_order` keeps it ---

  predicate HasKey(m: Members, k: string) {
    exists i :: 0 <= i < |m| && m[i].0 == k
  }

  predicate UniqueKeys(m: Members) {
    forall i, j :: 0 <= i < j < |m| ==> m[i].0 != m[j].0
  }

  function Get(m: Members, k: string): Option<Json> {
    if m == [] then None else if m[0].0 == k then Some(m[0].1) else Get(m[1..], k)
  }

  /** A repeated key keeps its place and takes the new value. */
  function Insert(m: Members, k: string, v: Json): Members {
    if m == [] then [(k, v)] else if m[0].0 == k then [(k, v)] + m[1..] else [m[0]] + Insert(m[1..], k, v)
  }

  /** The object parsed from the members of a JSON text, repeated keys included. */
  function Collect(raw: Members): Members {
    if raw == [] then [] else Insert(Collect(raw[..|raw| - 1]), raw[|raw| - 1].0, raw[|raw| - 1].1)
  }

  /** Remove a key and keep the order of the others. */
  function ShiftRemove(m: Members, k: string): Members {
    if m == [] then [] else if m[0].0 == k then m[1..] else [m[0]] + ShiftRemove(m[1..], k)
  }

  /** A JSON text with every occurrence of a member deleted. */
  function Without(raw: Members, k: string): Members {
    if raw == [] then []
    else if raw[|raw| - 1].0 == k then Without(raw[..|raw| - 1], k)
    else Without(raw[..|raw| - 1], k) + [raw[|raw| - 1]]
  }

  /** The last value given for a key in a JSON text. */
  function LastOf(raw: Members, k: string): Option<Json> {
    if raw == [] then None
    else if raw[|raw| - 1].0 == k then Some(raw[|raw| - 1].1)
    else LastOf(raw[..|raw| - 1], k)
  }

  lemma HasKeyCons(e: (string, Json), m: Members)
    ensures forall x :: HasKey([e] + m, x) <==> e.0 == x || HasKey(m, x)
  {
    var all := [e] + m;
    forall x
      ensures HasKey(all, x) <==> e.0 == x || HasKey(m, x)
    {
      assert all[0] == e;
      if HasKey(m, x) {
        var i :| 0 <= i < |m| && m[i].0 == x;
        assert all[i + 1].0 == x;
      }
    }
  }

  lemma {:induction false} InsertAbsent(m: Members, k: string, v: Json)
    requires !HasKey(m, k)
    ensures Insert(m, k, v) == m + [(k, v)]
  {
    if m != [] {
      HasKeyCons(m[0], m[1..]);
      assert m == [m[0]] + m[1..];
      InsertAbsent(m[1..], k, v);
    }
  }

  lemma {:induction false} InsertPresent(m: Members, k: string, v: Json)
    requires HasKey(m, k)
    ensures |Insert(m, k, v)| == |m| && forall i :: 0 <= i < |m| ==> Insert(m, k, v)[i].0 == m[i].0
  {
    HasKeyCons(m[0], m[1..]);
    assert m == [m[0]] + m[1..];
    if m[0].0 != k {
      InsertPresent(m[1..], k, v);
    }
  }

  lemma InsertKeepsUnique(m: Members, k: string, v: Json)
    requires UniqueKeys(m)
    ensures UniqueKeys(Insert(m, k, v))
  {
    if HasKey(m, k) {
      InsertPresent(m, k, v);
    } else {
      InsertAbsent(m, k, v);
    }
  }

  lemma {:induction false} CollectIsUnique(raw: Members)
    ensures UniqueKeys(Collect(raw))
  {
    if raw != [] {
      var n := |raw| - 1;
      CollectIsUnique(raw[..n]);
      InsertKeepsUnique(Collect(raw[..n]), raw[n].0, raw[n].1);
    }
  }

  lemma {:induction false} RemoveAbsent(m: Members, k: string)
    requires !HasKey(m, k)
    ensures ShiftRemove(m, k) == m && Get(m, k) == None
  {
    if m != [] {
      HasKeyCons(m[0], m[1..]);
      assert m == [m[0]] + m[1..];
      RemoveAbsent(m[1..], k);
    }
  }

  /** Removing a key undoes its insertion, and commutes with inserting another. */
  lemma {:induction false} RemoveAfterInsert(m: Members, k: string, v: Json, x: string)
    requires UniqueKeys(m)
    ensures ShiftRemove(Insert(m, k, v), x) == if k == x then ShiftRemove(m, x) else Insert(ShiftRemove(m, x), k, v)
    ensures Get(Insert(m, k, v), x) == if k == x then Some(v) else Get(m, x)
  {
    if m != [] {
      var (e, rest) := (m[0], m[1..]);
      assert m == [e] + rest;
      HasKeyCons(e, rest);
      if e.0 == k {
        assert ([(k, v)] + rest)[1..] == rest;
        if k != x {
          assert ([e] + ShiftRemove(rest, x))[1..] == ShiftRemove(rest, x);
        }
      } else {
        RemoveAfterInsert(rest, k, v, x);
        var r := Insert(rest, k, v);
        assert ([e] + r)[1..] == r;
        if e.0 != x {
          assert ([e] + ShiftRemove(rest, x))[1..] == ShiftRemove(rest, x);
        }
      }
    }
  }

  /** Deleting the field from the parsed object is parsing the text without it. */
  lemma {:induction false} RemoveFromCollected(raw: Members, k: string)
    ensures ShiftRemove(Collect(raw), k) == Collect(Without(raw, k))
    ensures Get(Collect(raw), k) == LastOf(raw, k)
  {
    if raw != [] {
      var n := |raw| - 1;
      var (init, last) := (raw[..n], raw[n]);
      RemoveFromCollected(init, k);
      CollectIsUnique(init);
      RemoveAfterInsert(Collect(init), last.0, last.1, k);
      if last.0 != k {
        var w := Without(init, k);
        assert (w + [last])[..|w|] == w;
      } else {
        assert Without(raw, k) == Without(init, k);
      }
    }
  }

  lemma {:induction false} CollectUnique(m: Members)
    requires UniqueKeys(m)
    ensures Collect(m) == m
  {
    if m != [] {
      var n := |m| - 1;
      CollectUnique(m[..n]);
      InsertAbsent(m[..n], m[n].0, m[n].1);
      assert m == m[..n] + [m[n]];
    }
  }

  lemma {:induction false} WithoutIsFilter(left: Members, right: Members, k: string)
    ensures Without(left + right, k) == Without(left, k) + Without(right, k)
    ensures LastOf(left + right, k) == if LastOf(right, k).Some? then LastOf(right, k) else LastOf(left, k)
    decreases |right|
  {
    if right == [] {
      assert left + right == left;
    } else {
      var n := |right| - 1;
      var all := left + right;
      WithoutIsFilter(left, right[..n], k);
      assert |all| - 1 == |left| + n && all[|all| - 1] == right[n] && all[..|all| - 1] == left + right[..n];
    }
  }

  lemma {:induction false} WithoutAbsent(m: Members, k: string)
    requires !HasKey(m, k)
    ensures Without(m, k) == m && LastOf(m, k) == None
  {
    if m != [] {
      var n := |m| - 1;
      assert m[n].0 != k && !HasKey(m[..n], k);
      WithoutAbsent(m[..n], k);
      assert m == m[..n] + [m[n]];
    }
  }

  // --- Signing and verifying ---

  function SignPayload(c: Crypto, key: seq<Byte>, payload: seq<Byte>): string {
    Encode(c.mac(key, payload))
  }

  /** Undecodable hex stands for no bytes, which no MAC equals. */
  predicate VerifyPayload(c: Crypto, key: seq<Byte>, payload: seq<Byte>, signature: string) {
    Decode(signature).GetOr([]) == c.mac(key, payload)
  }

  /** Exactly the signer's own text verifies, in either case. */
  lemma VerifiesIffSigned(c: Crypto, key: seq<Byte>, payload: seq<Byte>, signature: string)
    ensures VerifyPayload(c, key, payload, signature) <==> Text.Lowercase(signature) == SignPayload(c, key, payload)
  {
    DecodesIff(signature, c.mac(key, payload));
  }

  /** The signature field of a body, when it is a string. */
  function SignatureOf(body: Json): Option<string> {
    if !body.Obj? then None
    else
      match Get(body.members, SIGNATURE)
      case Some(Str(s)) => Some(s)
      case _ => None
  }

  function Unsigned(body: Json): Json {
    if body.Obj? then Obj(ShiftRemove(body.members, SIGNATURE)) else body
  }

  predicate Authentic(c: Crypto, key: seq<Byte>, body: Json) {
    SignatureOf(body).Some? && VerifyPayload(c, key, c.compact(Unsigned(body)), SignatureOf(body).value)
  }

  /** A delivered text verifies exactly when its last `hmac_signature` is the hex MAC of
      the compact bytes of the same text without that member, wherever it stood. */
  lemma AuthenticIff(c: Crypto, key: seq<Byte>, raw: Members)
    ensures Unsigned(Obj(Collect(raw))) == Obj(Collect(Without(raw, "hmac_signature")))
    ensures var last := LastOf(raw, "hmac_signature");
            var signed := SignPayload(c, key, c.compact(Obj(Collect(Without(raw, "hmac_signature")))));
            Authentic(c, key, Obj(Collect(raw)))
            <==> (last.Some? && last.value.Str? && Text.Lowercase(last.value.s) == signed)
  {
    RemoveFromCollected(raw, SIGNATURE);
    if SignatureOf(Obj(Collect(raw))).Some? {
      VerifiesIffSigned(c, key, c.compact(Unsigned(Obj(Collect(raw)))), SignatureOf(Obj(Collect(raw))).value);
    }
  }

  /** Sign an object's compact bytes, put the signature in at any position: the delivery's
      canonical bytes are those signed, so it verifies, and the handler gets the object. */
  lemma SignedDeliveryVerifies(c: Crypto, key: seq<Byte>, m: Members, at: nat)
    requires UniqueKeys(m) && !HasKey(m, SIGNATURE) && at <= |m|
    ensures var raw := m[..at] + [(SIGNATURE, Str(SignPayload(c, key, c.compact(Obj(m)))))] + m[at..];
            Authentic(c, key, Obj(Collect(raw))) && Unsigned(Obj(Collect(raw))) == Obj(m)
  {
    var member := (SIGNATURE, Str(SignPayload(c, key, c.compact(Obj(m)))));
    var raw := m[..at] + [member] + m[at..];
    assert m == m[..at] + m[at..] && !HasKey(m[..at], SIGNATURE) && !HasKey(m[at..], SIGNATURE);
    WithoutAbsent(m[..at], SIGNATURE);
    WithoutAbsent(m[at..], SIGNATURE);
    WithoutIsFilter(m[..at] + [member], m[at..], SIGNATURE);
    WithoutIsFilter(m[..at], [member], SIGNATURE);
    assert Without([member], SIGNATURE) == [] && LastOf([member], SIGNATURE) == Some(member.1);
    assert m[..at] + [] == m[..at];
    CollectUnique(m);
    AuthenticIff(c, key, raw);
    EncodedIsLowercase(c.mac(key, c.compact(Obj(m))));
  }

  lemma EncodedIsLowercase(b: seq<Byte>)
    ensures Text.Lowercase(Encode(b)) == Encode(b)
  {
  }
}
