/** Webhook verification (src/webhook.rs): a hand-written header parser, a comparison
    against every candidate signature, and a two-sided window in `i64` arithmetic. */
module Webhook {
  import opened Outcomes
  import opened Text
  import opened Decimal
  import opened Hex
  import AmqpWire

  type MacFunction = AmqpWire.MacFunction

  const MAC_LEN: nat := 32
  const U64_MAX: int := 0xFFFF_FFFF_FFFF_FFFF

  type U64 = x: int | 0 <= x <= U64_MAX

  datatype Error =
    | NotAPair | DuplicateT | MissingSignature | InvalidTimestamp | TimestampMismatch | SignatureMismatch
    | Stale(skew: int, tolerance: int)

  datatype Options = Options(
    tolerance: U64, now: I64, timestampHeader: Option<string>, eventType: Option<string>, deliveryId: Option<string>)

  datatype WebhookEvent = WebhookEvent(
    timestamp: I64, eventType: Option<string>, deliveryId: Option<string>, body: seq<Byte>)

  // --- The header ---

  datatype Field = Blank | Bare | Pair(key: string, value: string)

  function FieldOf(segment: string): Field {
    var pair := Trim(segment);
    if pair == "" then Blank
    else
      match SplitOnce(pair, '=')
      case None => Bare
      case Some((k, v)) => Pair(Trim(k), Trim(v))
  }

  function FieldsOf(segments: seq<string>): seq<Field> {
    seq(|segments|, i requires 0 <= i < |segments| => FieldOf(segments[i]))
  }

  /** The values of one key, in order. */
  function ValuesOf(fields: seq<Field>, key: string): seq<string> {
    if fields == [] then []
    else if fields[0].Pair? && fields[0].key == key then [fields[0].value] + ValuesOf(fields[1..], key)
    else ValuesOf(fields[1..], key)
  }

  /** Up to the first bare token or second `t`, whichever comes first. */
  function ScanFrom(fields: seq<Field>, rawT: Option<string>): (r: Result<Option<string>, Error>)
  {
    if fields == [] then Ok(rawT)
    else if fields[0].Bare? then Err(NotAPair)
    else if fields[0].Pair? && fields[0].key == "t" then
      if rawT.Some? then Err(DuplicateT) else ScanFrom(fields[1..], Some(fields[0].value))
    else ScanFrom(fields[1..], rawT)
  }

  lemma {:induction false} ScanIff(fields: seq<Field>, rawT: Option<string>)
    ensures ScanFrom(fields, rawT).Ok? <==>
            && (forall i :: 0 <= i < |fields| ==> !fields[i].Bare?)
            && |ValuesOf(fields, "t")| + (if rawT.Some? then 1 else 0) <= 1
    ensures ScanFrom(fields, rawT).Ok? ==>
              var ts := ValuesOf(fields, "t");
              ScanFrom(fields, rawT).value == if ts == [] then rawT else Some(ts[0])
  {
    if fields != [] {
      if fields[0].Pair? && fields[0].key == "t" && rawT.None? {
        ScanIff(fields[1..], Some(fields[0].value));
      } else if !fields[0].Bare? {
        ScanIff(fields[1..], rawT);
      }
      assert forall i :: 0 < i < |fields| ==> fields[i] == fields[1..][i - 1];
    }
  }

  // --- The window ---

  function SaturatingSub(a: I64, b: I64): I64 {
    if a - b < I64_MIN then I64_MIN else if a - b > I64_MAX then I64_MAX else a - b
  }

  function UnsignedAbs(a: I64): U64 {
    if a < 0 then 0 - a else a
  }

  function Distance(a: int, b: int): int {
    if a >= b then a - b else b - a
  }

  predicate InWindow(now: I64, timestamp: I64, tolerance: U64) {
    UnsignedAbs(SaturatingSub(now, timestamp)) <= tolerance
  }

  /** The saturating test is the mathematical one except where the true distance is over
      the tolerance and the saturated one is not. */
  lemma WindowIff(now: I64, timestamp: I64, tolerance: U64)
    ensures (InWindow(now, timestamp, tolerance) <==> Distance(now, timestamp) <= tolerance)
       <==> !(now - timestamp > tolerance >= I64_MAX) && !(timestamp - now > tolerance >= I64_MAX + 1)
  {
  }

  /** So for every clock and timestamp it is exact precisely when the tolerance is below
      2^63 - 1 seconds, or is the largest there is. */
  lemma WindowIsExactIff(tolerance: U64)
    ensures (forall now: I64, t: I64 :: InWindow(now, t, tolerance) <==> Distance(now, t) <= tolerance)
       <==> tolerance < I64_MAX || tolerance == U64_MAX
  {
    if I64_MAX <= tolerance < U64_MAX {
      assert InWindow(I64_MAX, I64_MIN, tolerance) && Distance(I64_MAX, I64_MIN) == U64_MAX;
    }
  }

  // --- The verdict ---

  function Ascii(s: string): seq<Byte>
    requires forall k :: 0 <= k < |s| ==> s[k] as int < 256
  {
    seq(|s|, k requires 0 <= k < |s| => s[k] as int)
  }

  /** These bytes are `t`, one per character, a dot, and the body. */
  predicate IsSignedText(b: seq<Byte>, t: string, body: seq<Byte>) {
    && |b| == |t| + 1 + |body| && b[|t|] == '.' as int && b[|t| + 1..] == body
    && forall k :: 0 <= k < |t| ==> b[k] == t[k] as int
  }

  /** The bytes the MAC covers: the `t` field as it stood on the wire, a dot, the body. */
  function SignedBytes(t: string, body: seq<Byte>): (b: seq<Byte>)
    requires ParseI64(t).Some?
    ensures IsSignedText(b, t, body)
  {
    ParsedIsPlain(t);
    Ascii(t) + [46] + body
  }

  /** A separate header must parse and agree; an absent one is no objection. */
  predicate HeaderAgrees(header: Option<string>, timestamp: I64) {
    header.None? || ParseI64(Trim(header.value)) == Some(timestamp)
  }

  predicate Matches(candidate: string, expected: seq<Byte>) {
    Decode(candidate) == Some(expected)
  }

  /** The checks in their order. */
  function Verdict(mac: MacFunction, secret: seq<Byte>, header: string, body: seq<Byte>, o: Options)
    : Result<WebhookEvent, Error>
  {
    var fields := FieldsOf(Split(header, ','));
    var v1 := ValuesOf(fields, "v1");
    match ScanFrom(fields, None)
    case Err(e) => Err(e)
    case Ok(None) => Err(InvalidTimestamp)
    case Ok(Some(t)) =>
      if ParseI64(t).None? then Err(InvalidTimestamp)
      else
        var timestamp := ParseI64(t).value;
        if !HeaderAgrees(o.timestampHeader, timestamp) then Err(TimestampMismatch)
        else if v1 == [] then Err(MissingSignature)
        else if !exists i :: 0 <= i < |v1| && Matches(v1[i], mac(secret, SignedBytes(t, body))) then
          Err(SignatureMismatch)
        else if !InWindow(o.now, timestamp, o.tolerance) then
          Err(Stale(UnsignedAbs(SaturatingSub(o.now, timestamp)), o.tolerance))
        else Ok(WebhookEvent(timestamp, o.eventType, o.deliveryId, body))
  }

  ghost predicate NoBare(fields: seq<Field>) {
    forall i :: 0 <= i < |fields| ==> !fields[i].Bare?
  }

  /** Some `v1` is the MAC of the signed text. */
  ghost predicate Carries(mac: MacFunction, secret: seq<Byte>, fields: seq<Field>, body: seq<Byte>, t: string)
    requires ParseI64(t).Some?
  {
    exists v1 :: v1 in ValuesOf(fields, "v1") && Decode(v1) == Some(mac(secret, SignedBytes(t, body)))
  }

  /** A header carries a genuine, timely signature. */
  ghost predicate Genuine(mac: MacFunction, secret: seq<Byte>, header: string, body: seq<Byte>, o: Options, t: string) {
    var fields := FieldsOf(Split(header, ','));
    && NoBare(fields) && ValuesOf(fields, "t") == [t] && ParseI64(t).Some?
    && HeaderAgrees(o.timestampHeader, ParseI64(t).value) && Carries(mac, secret, fields, body, t)
    && InWindow(o.now, ParseI64(t).value, o.tolerance)
  }

  /** Success is exactly that: every non-blank segment a pair, one `t` that is an `i64`,
      any separate timestamp agreeing, some `v1` the MAC of `t.body`, and in the window. */
  lemma VerifiesIffGenuine(mac: MacFunction, secret: seq<Byte>, header: string, body: seq<Byte>, o: Options)
    ensures Verdict(mac, secret, header, body, o).Ok? <==> exists t :: Genuine(mac, secret, header, body, o, t)
    ensures forall t :: Genuine(mac, secret, header, body, o, t) ==>
              Verdict(mac, secret, header, body, o)
              == Ok(WebhookEvent(ParseI64(t).value, o.eventType, o.deliveryId, body))
  {
    var fields := FieldsOf(Split(header, ','));
    var (ts, v1) := (ValuesOf(fields, "t"), ValuesOf(fields, "v1"));
    ScanIff(fields, None);
    forall t | Genuine(mac, secret, header, body, o, t)
      ensures Verdict(mac, secret, header, body, o)
           == Ok(WebhookEvent(ParseI64(t).value, o.eventType, o.deliveryId, body))
    {
      var v :| v in v1 && Decode(v) == Some(mac(secret, SignedBytes(t, body)));
      var i :| 0 <= i < |v1| && v1[i] == v;
      assert Matches(v1[i], mac(secret, SignedBytes(t, body)));
    }
    if Verdict(mac, secret, header, body, o).Ok? {
      assert ts == [ts[0]];
      var i :| 0 <= i < |v1| && Matches(v1[i], mac(secret, SignedBytes(ts[0], body)));
      assert v1[i] in v1;
      assert Genuine(mac, secret, header, body, o, ts[0]);
    }
  }

  // --- The verdict, said of the header's text ---

  /** The segment is this key and value, cut at its first `=`, with any blanks around. */
  ghost predicate IsPair(segment: string, key: string, value: string) {
    exists k, v :: '=' !in k && segment == k + ['='] + v && Padded(k, key) && Padded(v, value)
  }

  lemma PairIff(segment: string, key: string, value: string)
    ensures FieldOf(segment) == Pair(key, value) <==> IsPair(segment, key, value)
  {
    FieldOfText(segment);
    forall k, v | '=' !in k && segment == k + ['='] + v
      ensures FieldOf(segment) == Pair(key, value) <==> Padded(k, key) && Padded(v, value)
    {
      PairReadsBack(k, v);
      TrimIff(k, key);
      TrimIff(v, value);
    }
    if FieldOf(segment) == Pair(key, value) {
      var cut := SplitOnce(segment, '=').value;
      assert segment == cut.0 + ['='] + cut.1;
      assert Padded(cut.0, key) && Padded(cut.1, value);
    }
  }

  /** What kind of field a segment is. */
  lemma FieldOfText(segment: string)
    ensures FieldOf(segment).Blank? <==> AllOf(segment, IsWhitespace)
    ensures FieldOf(segment).Pair? <==> '=' in segment
  {
    TrimIff(segment, "");
    var lead, tail := StripSpec(segment, IsWhitespace);
    if Trim(segment) == "" {
      assert AllOf(lead + tail, IsWhitespace) && segment == lead + tail;
    }
    if AllOf(segment, IsWhitespace) {
      assert segment == segment + "" + "";
      StripPadded(segment, "", "", IsWhitespace);
    }
    if '=' in segment {
      var i :| 0 <= i < |segment| && segment[i] == '=';
      assert '=' in Trim(segment);
    }
  }

  /** The header and options vouch for the body, with `t` and `n` its time as written and
      as meant. */
  ghost predicate Vouches(
    mac: MacFunction, secret: seq<Byte>, segments: seq<string>, body: seq<Byte>, o: Options, t: string, n: I64)
  {
    && BlanksAndPairs(segments) && OnePair(segments, "t", t) && Reads(t, n)
    && TellsTime(o.timestampHeader, n) && Signs(mac, secret, segments, body, t)
    && InWindow(o.now, n, o.tolerance)
  }

  ghost predicate BlanksAndPairs(segments: seq<string>) {
    forall i :: 0 <= i < |segments| ==> AllOf(segments[i], IsWhitespace) || '=' in segments[i]
  }

  /** A separate header, if there is one, is this time, with any blanks around. */
  ghost predicate TellsTime(header: Option<string>, n: I64) {
    header.Some? ==> exists h :: Padded(header.value, h) && Reads(h, n)
  }

  /** Some `v1` is the hex, in either case, of the MAC of `t`, a dot and the body. */
  ghost predicate Signs(mac: MacFunction, secret: seq<Byte>, segments: seq<string>, body: seq<Byte>, t: string) {
    exists v, b :: SomePair(segments, "v1", v) && IsSignedText(b, t, body) && Lowercase(v) == Encode(mac(secret, b))
  }

  ghost predicate SomePair(segments: seq<string>, key: string, value: string) {
    exists i :: 0 <= i < |segments| && IsPair(segments[i], key, value)
  }

  /** One segment has this key, with this value. */
  ghost predicate OnePair(segments: seq<string>, key: string, value: string) {
    exists i :: 0 <= i < |segments| && IsPair(segments[i], key, value)
             && NoOtherPair(segments, key, i)
  }

  ghost predicate NoOtherPair(segments: seq<string>, key: string, i: nat) {
    forall j, x :: 0 <= j < |segments| && j != i ==> !IsPair(segments[j], key, x)
  }

  lemma {:induction false} ListedIff(fields: seq<Field>, key: string, value: string)
    ensures value in ValuesOf(fields, key) <==> exists i :: 0 <= i < |fields| && fields[i] == Pair(key, value)
  {
    if fields != [] {
      ListedIff(fields[1..], key, value);
      assert forall i :: 0 < i < |fields| ==> fields[i] == fields[1..][i - 1];
      assert forall i :: 0 <= i < |fields| - 1 ==> fields[1..][i] == fields[i + 1];
    }
  }

  lemma {:induction false} TwoListed(fields: seq<Field>, key: string, i: nat, j: nat)
    requires i < j < |fields| && fields[i].Pair? && fields[j].Pair? && fields[i].key == fields[j].key == key
    ensures |ValuesOf(fields, key)| >= 2
  {
    if i == 0 {
      ValueIsListed(fields[1..], key, j - 1);
    } else {
      TwoListed(fields[1..], key, i - 1, j - 1);
    }
  }

  /** One field has this key, with this value. */
  ghost predicate OneField(fields: seq<Field>, key: string, value: string) {
    exists i :: 0 <= i < |fields| && fields[i] == Pair(key, value) && NoOther(fields, key, i)
  }

  ghost predicate NoOther(fields: seq<Field>, key: string, i: nat) {
    forall j, x :: 0 <= j < |fields| && j != i ==> fields[j] != Pair(key, x)
  }

  lemma OnlyIff(fields: seq<Field>, key: string, value: string)
    ensures ValuesOf(fields, key) == [value] <==> OneField(fields, key, value)
  {
    if ValuesOf(fields, key) == [value] {
      assert value in ValuesOf(fields, key);
      ListedIff(fields, key, value);
      var i :| 0 <= i < |fields| && fields[i] == Pair(key, value);
      forall j, x | 0 <= j < |fields| && j != i
        ensures fields[j] != Pair(key, x)
      {
        if fields[j] == Pair(key, x) {
          TwoListed(fields, key, if i < j then i else j, if i < j then j else i);
        }
      }
      assert NoOther(fields, key, i);
    }
    if OneField(fields, key, value) {
      var i :| 0 <= i < |fields| && fields[i] == Pair(key, value) && NoOther(fields, key, i);
      forall j | 0 <= j < |fields| && j != i && fields[j].Pair?
        ensures fields[j].key != key
      {
        assert fields[j] == Pair(fields[j].key, fields[j].value);
      }
      OnlyOneValue(fields, key, i);
    }
  }

  /** The fields with this key are the segments with it. */
  ghost predicate Reflects(fields: seq<Field>, segments: seq<string>, key: string) {
    && |fields| == |segments|
    && forall i, x :: 0 <= i < |segments| ==> (fields[i] == Pair(key, x) <==> IsPair(segments[i], key, x))
  }

  lemma OneFieldIff(fields: seq<Field>, segments: seq<string>, key: string, value: string)
    requires Reflects(fields, segments, key)
    ensures OneField(fields, key, value) <==> OnePair(segments, key, value)
  {
    hide IsPair;
    if OneField(fields, key, value) {
      var i :| 0 <= i < |fields| && fields[i] == Pair(key, value) && NoOther(fields, key, i);
      forall j, x | 0 <= j < |segments| && j != i
        ensures !IsPair(segments[j], key, x)
      {
        assert fields[j] != Pair(key, x);
      }
      assert IsPair(segments[i], key, value) && NoOtherPair(segments, key, i);
    }
    if OnePair(segments, key, value) {
      var i :| 0 <= i < |segments| && IsPair(segments[i], key, value) && NoOtherPair(segments, key, i);
      assert fields[i] == Pair(key, value) && NoOther(fields, key, i);
    }
  }

  lemma OnePairIff(segments: seq<string>, key: string, value: string)
    ensures ValuesOf(FieldsOf(segments), key) == [value] <==> OnePair(segments, key, value)
  {
    var fields := FieldsOf(segments);
    hide ValuesOf, OnePair, OneField, IsPair;
    OnlyIff(fields, key, value);
    forall i, x | 0 <= i < |segments|
      ensures fields[i] == Pair(key, x) <==> IsPair(segments[i], key, x)
    {
      PairIff(segments[i], key, x);
    }
    OneFieldIff(fields, segments, key, value);
  }

  lemma SomePairIff(segments: seq<string>, key: string, value: string)
    ensures value in ValuesOf(FieldsOf(segments), key) <==> SomePair(segments, key, value)
  {
    ListedIff(FieldsOf(segments), key, value);
    forall i | 0 <= i < |segments|
      ensures FieldsOf(segments)[i] == Pair(key, value) <==> IsPair(segments[i], key, value)
    {
      PairIff(segments[i], key, value);
    }
  }

  lemma NoBareIff(segments: seq<string>)
    ensures NoBare(FieldsOf(segments)) <==> BlanksAndPairs(segments)
  {
    forall i | 0 <= i < |segments|
      ensures FieldsOf(segments)[i].Bare? <==> !AllOf(segments[i], IsWhitespace) && '=' !in segments[i]
    {
      FieldOfText(segments[i]);
    }
  }

  lemma HeaderAgreesIff(header: Option<string>, n: I64)
    ensures HeaderAgrees(header, n) <==> TellsTime(header, n)
  {
    if header.Some? {
      TrimIff(header.value, Trim(header.value));
      ParsesIff(Trim(header.value), n);
      forall h | Padded(header.value, h)
        ensures h == Trim(header.value)
      {
        TrimIff(header.value, h);
      }
    }
  }

  /** The signed text is determined by what it is made of. */
  lemma SignedTextIsOne(b: seq<Byte>, c: seq<Byte>, t: string, body: seq<Byte>)
    requires IsSignedText(b, t, body) && IsSignedText(c, t, body)
    ensures b == c
  {
    assert b[..|t|] == c[..|t|] && b == b[..|t|] + [b[|t|]] + b[|t| + 1..] && c == c[..|t|] + [c[|t|]] + c[|t| + 1..];
  }

  lemma SignatureIff(mac: MacFunction, secret: seq<Byte>, segments: seq<string>, body: seq<Byte>, t: string)
    requires ParseI64(t).Some?
    ensures Carries(mac, secret, FieldsOf(segments), body, t) <==> Signs(mac, secret, segments, body, t)
  {
    var text := SignedBytes(t, body);
    forall v
      ensures v in ValuesOf(FieldsOf(segments), "v1") <==> SomePair(segments, "v1", v)
      ensures Decode(v) == Some(mac(secret, text)) <==> Lowercase(v) == Encode(mac(secret, text))
    {
      SomePairIff(segments, "v1", v);
      DecodesIff(v, mac(secret, text));
    }
    forall b | IsSignedText(b, t, body)
      ensures b == text
    {
      SignedTextIsOne(b, text, t, body);
    }
  }

  lemma GenuineIffVouches(
    mac: MacFunction, secret: seq<Byte>, header: string, body: seq<Byte>, o: Options, t: string, n: I64)
    ensures Genuine(mac, secret, header, body, o, t) && ParseI64(t) == Some(n)
       <==> Vouches(mac, secret, Split(header, ','), body, o, t, n)
  {
    var segments := Split(header, ',');
    NoBareIff(segments);
    OnePairIff(segments, "t", t);
    ParsesIff(t, n);
    HeaderAgreesIff(o.timestampHeader, n);
    hide FieldsOf, ValuesOf, OnePair, Reads, HeaderAgrees, TellsTime, ParseI64, Carries, Signs, InWindow;
    hide NoBare, BlanksAndPairs;
    if ParseI64(t).Some? {
      SignatureIff(mac, secret, segments, body, t);
    }
  }

  /** Success is exactly that the header's text vouches for the body. */
  lemma VerifiesIffVouched(mac: MacFunction, secret: seq<Byte>, header: string, body: seq<Byte>, o: Options)
    ensures Verdict(mac, secret, header, body, o).Ok?
       <==> exists t, n: I64 :: Vouches(mac, secret, Split(header, ','), body, o, t, n)
    ensures forall t, n: I64 :: Vouches(mac, secret, Split(header, ','), body, o, t, n) ==>
              Verdict(mac, secret, header, body, o) == Ok(WebhookEvent(n, o.eventType, o.deliveryId, body))
  {
    VerifiesIffGenuine(mac, secret, header, body, o);
    hide Verdict, Genuine, Vouches, Split;
    var segments := Split(header, ',');
    forall t, n: I64 | Vouches(mac, secret, segments, body, o, t, n)
      ensures Genuine(mac, secret, header, body, o, t) && ParseI64(t) == Some(n)
    {
      GenuineIffVouches(mac, secret, header, body, o, t, n);
    }
    if t :| Genuine(mac, secret, header, body, o, t) {
      GenuineHasTime(mac, secret, header, body, o, t);
      GenuineIffVouches(mac, secret, header, body, o, t, ParseI64(t).value);
    }
  }

  lemma GenuineHasTime(mac: MacFunction, secret: seq<Byte>, header: string, body: seq<Byte>, o: Options, t: string)
    requires Genuine(mac, secret, header, body, o, t)
    ensures ParseI64(t).Some?
  {
  }

  /** The same with the signature as hex in either case and the true distance in time. */
  lemma GenuineVerifies(
    mac: MacFunction, secret: seq<Byte>, header: string, body: seq<Byte>, o: Options, raw: string, v1: string)
    requires var fields := FieldsOf(Split(header, ','));
             && (forall i :: 0 <= i < |fields| ==> !fields[i].Bare?)
             && ValuesOf(fields, "t") == [raw] && v1 in ValuesOf(fields, "v1")
    requires ParseI64(raw).Some? && HeaderAgrees(o.timestampHeader, ParseI64(raw).value)
    requires Lowercase(v1) == Encode(mac(secret, SignedBytes(raw, body)))
    requires Distance(o.now, ParseI64(raw).value) <= o.tolerance
    ensures Verdict(mac, secret, header, body, o)
         == Ok(WebhookEvent(ParseI64(raw).value, o.eventType, o.deliveryId, body))
  {
    DecodesIff(v1, mac(secret, SignedBytes(raw, body)));
    WindowIff(o.now, ParseI64(raw).value, o.tolerance);
    assert Genuine(mac, secret, header, body, o, raw);
    VerifiesIffGenuine(mac, secret, header, body, o);
  }

  // --- The method ---

  lemma ValuesAppend(fields: seq<Field>, f: Field, key: string)
    ensures ValuesOf(fields + [f], key)
         == ValuesOf(fields, key) + if f.Pair? && f.key == key then [f.value] else []
  {
    if fields != [] {
      assert (fields + [f])[1..] == fields[1..] + [f];
    }
  }

  /** Decode into a buffer of exactly the right size; on failure its bytes mean nothing. */
  method DecodeToSlice(s: string, out: array<Byte>) returns (ok: bool)
    modifies out
    ensures ok <==> Decode(s).Some? && |Decode(s).value| == out.Length
    ensures ok ==> Decode(s) == Some(out[..])
  {
    if |s| != 2 * out.Length {
      return false;
    }
    var k := 0;
    assert s[0..] == s;
    DecodedFromStarts(s);
    while k < out.Length
      invariant 0 <= k <= out.Length
      invariant DecodedFrom(s, out[..k])
    {
      var high, low := Value(s[2 * k]), Value(s[2 * k + 1]);
      ghost var done := out[..k];
      assert s[2 * k..][0] == s[2 * k] && s[2 * k..][1] == s[2 * k + 1];
      if high.None? || low.None? {
        return false;
      }
      out[k] := Merge(high.value, low.value);
      DecodedFromGrows(s, done);
      assert out[..k + 1] == done + [Merge(high.value, low.value)];
      k := k + 1;
    }
    assert out[..k] == out[..] && s[2 * k..] == [] && out[..] + [] == out[..];
    return true;
  }

  /** `done` is what the first pairs of `s` decode to. */
  ghost predicate DecodedFrom(s: string, done: seq<Byte>) {
    && 2 * |done| <= |s|
    && Decode(s) == (if Decode(s[2 * |done|..]).Some? then Some(done + Decode(s[2 * |done|..]).value) else None)
  }

  lemma DecodedFromStarts(s: string)
    ensures DecodedFrom(s, [])
  {
    assert s[0..] == s;
    if Decode(s).Some? {
      assert [] + Decode(s).value == Decode(s).value;
    }
  }

  lemma DecodedFromGrows(s: string, done: seq<Byte>)
    requires DecodedFrom(s, done) && 2 * |done| + 2 <= |s|
    requires Value(s[2 * |done|]).Some? && Value(s[2 * |done| + 1]).Some?
    ensures DecodedFrom(s, done + [Merge(Value(s[2 * |done|]).value, Value(s[2 * |done| + 1]).value)])
  {
    var (n, b) := (2 * |done|, Merge(Value(s[2 * |done|]).value, Value(s[2 * |done| + 1]).value));
    var (rest, later) := (s[n..], s[n + 2..]);
    assert rest[2..] == later && rest[0] == s[n] && rest[1] == s[n + 1];
    if Decode(later).Some? {
      assert done + ([b] + Decode(later).value) == (done + [b]) + Decode(later).value;
    }
  }

  /** Every candidate is decoded and compared; the outcome is folded, never returned early. */
  method AnyMatches(candidates: seq<string>, expected: seq<Byte>) returns (matched: bool)
    requires |expected| == MAC_LEN
    ensures matched <==> exists i :: 0 <= i < |candidates| && Matches(candidates[i], expected)
  {
    matched := false;
    var decoded := new Byte[MAC_LEN](_ => 0);
    for i := 0 to |candidates|
      invariant matched <==> exists j :: 0 <= j < i && Matches(candidates[j], expected)
    {
      var ok := DecodeToSlice(candidates[i], decoded);
      var isMatch := ok && decoded[..] == expected;
      assert isMatch <==> Matches(candidates[i], expected);
      matched := matched || isMatch;
    }
  }

  method ParseHeader(header: string) returns (r: Result<(Option<string>, seq<string>), Error>)
    ensures var fields := FieldsOf(Split(header, ','));
            r == match ScanFrom(fields, None)
                 case Err(e) => Err(e)
                 case Ok(t) => Ok((t, ValuesOf(fields, "v1")))
  {
    hide FieldOf, Split, ValuesOf;
    var rawT: Option<string>, v1Values: seq<string> := None, [];
    var segments := Split(header, ',');
    ghost var fields := FieldsOf(segments);
    assert fields[0..] == fields && fields[..0] == [];
    NoValue(fields[..0], "v1");
    for i := 0 to |segments|
      invariant ScanFrom(fields, None) == ScanFrom(fields[i..], rawT)
      invariant v1Values == ValuesOf(fields[..i], "v1")
    {
      ValuesAppend(fields[..i], fields[i], "v1");
      assert fields[..i] + [fields[i]] == fields[..i + 1] && fields[i..][1..] == fields[i + 1..];
      match FieldOf(segments[i]) {
        case Blank =>
        case Bare => return Err(NotAPair);
        case Pair(key, value) =>
          if key == "t" {
            if rawT.Some? {
              return Err(DuplicateT);
            }
            rawT := Some(value);
          } else if key == "v1" {
            v1Values := v1Values + [value];
          }
      }
    }
    assert fields[..|segments|] == fields;
    return Ok((rawT, v1Values));
  }

  method VerifyWebhook(mac: MacFunction, secret: seq<Byte>, header: string, body: seq<Byte>, o: Options)
    returns (r: Result<WebhookEvent, Error>)
    ensures r == Verdict(mac, secret, header, body, o)
  {
    var parsed := ParseHeader(header);
    if parsed.Err? {
      return Err(parsed.error);
    }
    var (rawT, v1Values) := parsed.value;
    if rawT.None? {
      return Err(InvalidTimestamp);
    }
    var timestamp := ParseI64(rawT.value);
    if timestamp.None? {
      return Err(InvalidTimestamp);
    }
    if o.timestampHeader.Some? {
      var headerTs := ParseI64(Trim(o.timestampHeader.value));
      if headerTs != timestamp {
        return Err(TimestampMismatch);
      }
    }
    if v1Values == [] {
      return Err(MissingSignature);
    }
    var expected := mac(secret, SignedBytes(rawT.value, body));
    var matched := AnyMatches(v1Values, expected);
    if !matched {
      return Err(SignatureMismatch);
    }
    var skew := UnsignedAbs(SaturatingSub(o.now, timestamp.value));
    if skew > o.tolerance {
      return Err(Stale(skew, o.tolerance));
    }
    return Ok(WebhookEvent(timestamp.value, o.eventType, o.deliveryId, body));
  }

  // --- Headers built around a correct pair ---

  /** A segment: blank, or a key and a value, each with any padding. */
  datatype Segment = Padding(text: string) | KeyValue(key: string, value: string)

  predicate WellFormed(s: Segment) {
    match s
    case Padding(text) => AllOf(text, IsWhitespace)
    case KeyValue(k, v) => '=' !in k && ',' !in k && ',' !in v
  }

  function Render(s: Segment): string {
    match s
    case Padding(text) => text
    case KeyValue(k, v) => k + ['='] + v
  }

  function Rendered(segments: seq<Segment>): seq<string> {
    seq(|segments|, i requires 0 <= i < |segments| => Render(segments[i]))
  }

  function Meaning(s: Segment): Field {
    match s
    case Padding(_) => Blank
    case KeyValue(k, v) => Pair(Trim(k), Trim(v))
  }

  function Meanings(segments: seq<Segment>): seq<Field> {
    seq(|segments|, i requires 0 <= i < |segments| => Meaning(segments[i]))
  }

  lemma PaddingIsBlank(text: string)
    requires AllOf(text, IsWhitespace)
    ensures FieldOf(text) == Blank && ',' !in text
  {
    assert text == text + [] + [];
    StripPadded(text, [], [], IsWhitespace);
    assert forall k :: 0 <= k < |text| ==> IsWhitespace(text[k]);
  }

  lemma PairReadsBack(k: string, v: string)
    requires '=' !in k
    ensures FieldOf(k + ['='] + v) == Pair(Trim(k), Trim(v))
  {
    var (l, r) := (StripLeft(k, IsWhitespace), StripRight(v, IsWhitespace));
    StripAround(k, '=', v, IsWhitespace);
    var lead := LeftPart(k, IsWhitespace);
    assert '=' !in l by { assert k == lead + l; }
    SplitOnceAt(l, r, '=');
    StripAfterLeft(k, IsWhitespace);
    StripAfterRight(v, IsWhitespace);
  }

  /** What is written is what is read. */
  lemma SegmentReadsBack(s: Segment)
    requires WellFormed(s)
    ensures FieldOf(Render(s)) == Meaning(s) && ',' !in Render(s)
  {
    match s
    case Padding(text) => PaddingIsBlank(text);
    case KeyValue(k, v) => PairReadsBack(k, v);
  }

  lemma HeaderReadsBack(segments: seq<Segment>)
    requires segments != [] && forall i :: 0 <= i < |segments| ==> WellFormed(segments[i])
    ensures FieldsOf(Split(Join(Rendered(segments), ','), ','))
         == Meanings(segments)
  {
    forall i | 0 <= i < |segments|
      ensures FieldOf(Rendered(segments)[i]) == Meaning(segments[i]) && ',' !in Rendered(segments)[i]
    {
      SegmentReadsBack(segments[i]);
    }
    SplitJoin(Rendered(segments), ',');
  }

  lemma {:induction false} OnlyOneValue(fields: seq<Field>, key: string, at: nat)
    requires at < |fields| && fields[at].Pair? && fields[at].key == key
    requires forall i :: 0 <= i < |fields| && i != at && fields[i].Pair? ==> fields[i].key != key
    ensures ValuesOf(fields, key) == [fields[at].value]
  {
    if at == 0 {
      NoValue(fields[1..], key);
    } else {
      OnlyOneValue(fields[1..], key, at - 1);
    }
  }

  lemma {:induction false} NoValue(fields: seq<Field>, key: string)
    requires forall i :: 0 <= i < |fields| && fields[i].Pair? ==> fields[i].key != key
    ensures ValuesOf(fields, key) == []
  {
    if fields != [] {
      NoValue(fields[1..], key);
    }
  }

  lemma {:induction false} ValueIsListed(fields: seq<Field>, key: string, at: nat)
    requires at < |fields| && fields[at].Pair? && fields[at].key == key
    ensures fields[at].value in ValuesOf(fields, key)
  {
    if at > 0 {
      ValueIsListed(fields[1..], key, at - 1);
    }
  }

  predicate HasKeyAt(segments: seq<Segment>, i: nat, key: string) {
    i < |segments| && segments[i].KeyValue? && Trim(segments[i].key) == key
  }

  predicate OnlyTimestampAt(segments: seq<Segment>, t: nat) {
    HasKeyAt(segments, t, "t") && forall i :: 0 <= i < |segments| && i != t ==> !HasKeyAt(segments, i, "t")
  }

  lemma FieldsOfBuilt(segments: seq<Segment>, t: nat, v: nat)
    requires OnlyTimestampAt(segments, t) && HasKeyAt(segments, v, "v1")
    ensures forall i :: 0 <= i < |Meanings(segments)| ==> !Meanings(segments)[i].Bare?
    ensures ValuesOf(Meanings(segments), "t") == [Trim(segments[t].value)]
    ensures Trim(segments[v].value) in ValuesOf(Meanings(segments), "v1")
  {
    var fields := Meanings(segments);
    forall i | 0 <= i < |fields| && i != t && fields[i].Pair?
      ensures fields[i].key != "t"
    {
      assert !HasKeyAt(segments, i, "t");
    }
    OnlyOneValue(fields, "t", t);
    ValueIsListed(fields, "v1", v);
  }

  /** Any header that has one `t` and a correct `v1` for it verifies when fresh, whatever
      unknown keys, paddings and further `v1` values surround them, in any order. */
  lemma BuiltHeaderVerifies(
    mac: MacFunction, secret: seq<Byte>, segments: seq<Segment>, body: seq<Byte>, o: Options, t: nat, v: nat)
    requires forall i :: 0 <= i < |segments| ==> WellFormed(segments[i])
    requires OnlyTimestampAt(segments, t) && HasKeyAt(segments, v, "v1")
    requires var raw := Trim(segments[t].value);
             && ParseI64(raw).Some? && HeaderAgrees(o.timestampHeader, ParseI64(raw).value)
             && Lowercase(Trim(segments[v].value)) == Encode(mac(secret, SignedBytes(raw, body)))
             && Distance(o.now, ParseI64(raw).value) <= o.tolerance
    ensures Verdict(mac, secret, Join(Rendered(segments), ','), body, o)
         == Ok(WebhookEvent(ParseI64(Trim(segments[t].value)).value, o.eventType, o.deliveryId, body))
  {
    var header := Join(Rendered(segments), ',');
    HeaderReadsBack(segments);
    FieldsOfBuilt(segments, t, v);
    hide *;
    GenuineVerifies(mac, secret, header, body, o, Trim(segments[t].value), Trim(segments[v].value));
  }

  /** What the server sends: `t=<seconds>,v1=<lowercase hex>`. */
  function ServerSegments(mac: MacFunction, secret: seq<Byte>, timestamp: I64, body: seq<Byte>): seq<Segment> {
    ParsePrinted(timestamp);
    [KeyValue("t", PrintInt(timestamp)),
     KeyValue("v1", Encode(mac(secret, SignedBytes(PrintInt(timestamp), body))))]
  }

  lemma PlainIsBare(s: string)
    requires forall k :: 0 <= k < |s| ==> !IsWhitespace(s[k])
    ensures Trim(s) == s
  {
  }

  lemma {:induction false} HexIsPlain(b: seq<Byte>)
    ensures forall k :: 0 <= k < |Encode(b)| ==> !IsWhitespace(Encode(b)[k]) && Encode(b)[k] != ','
  {
    if b != [] {
      HexIsPlain(b[1..]);
      ValueOfDigit(b[0] / 16);
      ValueOfDigit(b[0] % 16);
      assert Encode(b)[2..] == Encode(b[1..]);
      assert forall k :: 2 <= k < |Encode(b)| ==> Encode(b)[k] == Encode(b[1..])[k - 2];
    }
  }

  lemma BareKeys()
    ensures Trim("t") == "t" && Trim("v1") == "v1" && "t" != "v1"
  {
  }

  lemma NumeralIsPlain(n: I64)
    ensures ParseI64(PrintInt(n)) == Some(n) && Trim(PrintInt(n)) == PrintInt(n) && ',' !in PrintInt(n)
  {
  }

  lemma TagIsPlain(tag: seq<Byte>)
    ensures Trim(Encode(tag)) == Encode(tag) == Lowercase(Encode(tag)) && ',' !in Encode(tag)
  {
    HexIsPlain(tag);
    DecodeEncoded(tag);
    DecodesIff(Encode(tag), tag);
    PlainIsBare(Encode(tag));
  }

  /** A delivery signed by the server verifies in any window that covers it. */
  lemma ServerDeliveryVerifies(mac: MacFunction, secret: seq<Byte>, timestamp: I64, body: seq<Byte>, o: Options)
    requires o.timestampHeader in [None, Some(PrintInt(timestamp))] && Distance(o.now, timestamp) <= o.tolerance
    ensures var header := Join(Rendered(ServerSegments(mac, secret, timestamp, body)), ',');
            Verdict(mac, secret, header, body, o) == Ok(WebhookEvent(timestamp, o.eventType, o.deliveryId, body))
  {
    hide Verdict, FieldsOf, Trim, Encode, Lowercase, PrintInt, ParseI64, Join, Rendered;
    NumeralIsPlain(timestamp);
    TagIsPlain(mac(secret, SignedBytes(PrintInt(timestamp), body)));
    BareKeys();
    BuiltHeaderVerifies(mac, secret, ServerSegments(mac, secret, timestamp, body), body, o, 0, 1);
  }
}
