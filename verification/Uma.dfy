/** The `WWW-Authenticate: UMA` challenge (src/uma.rs): its printer, its parser, and
    exactly which challenges survive the trip. */
module Uma {
  import opened Outcomes
  import opened Text

  datatype Challenge = Challenge(realm: Option<string>, asUri: Option<string>, ticket: Option<string>)

  const NOTHING: Challenge := Challenge(None, None, None)

  /** A part that is no pair, or whose key is unknown, changes nothing. */
  function Assign(c: Challenge, part: string): Challenge {
    match SplitOnce(part, '=')
    case None => c
    case Some((k, v)) =>
      var (key, value) := (Trim(k), Strip(Trim(v), IsQuote));
      if key == "realm" then c.(realm := Some(value))
      else if key == "as_uri" then c.(asUri := Some(value))
      else if key == "ticket" then c.(ticket := Some(value))
      else c
  }

  function AssignAll(c: Challenge, parts: seq<string>): Challenge
    decreases |parts|
  {
    if parts == [] then c else AssignAll(Assign(c, parts[0]), parts[1..])
  }

  /** What follows the scheme, when the header is a UMA challenge. */
  function AfterScheme(header: string): Option<string> {
    var h := Trim(header);
    if !("UMA" <= h) then None
    else
      var rest := h[3..];
      if rest != "" && !IsWhitespace(rest[0]) then None else Some(rest)
  }

  function Parse(header: string): Option<Challenge> {
    match AfterScheme(header)
    case None => None
    case Some(rest) => Some(AssignAll(NOTHING, Split(rest, ',')))
  }

  method ParseChallenge(header: string) returns (r: Option<Challenge>)
    ensures r == Parse(header)
  {
    var rest := AfterScheme(header);
    if rest.None? {
      return None;
    }
    var challenge := NOTHING;
    var parts := Split(rest.value, ',');
    assert parts[0..] == parts;
    for i := 0 to |parts|
      invariant AssignAll(NOTHING, parts) == AssignAll(challenge, parts[i..])
    {
      assert parts[i..][0] == parts[i] && parts[i..][1..] == parts[i + 1..];
      var cut := SplitOnce(parts[i], '=');
      if cut.None? {
        continue;
      }
      var (key, value) := (Trim(cut.value.0), Strip(Trim(cut.value.1), IsQuote));
      if key == "realm" {
        challenge := challenge.(realm := Some(value));
      } else if key == "as_uri" {
        challenge := challenge.(asUri := Some(value));
      } else if key == "ticket" {
        challenge := challenge.(ticket := Some(value));
      }
    }
    return Some(challenge);
  }

  function Quoted(key: string, value: string): string {
    " " + key + "=\"" + value + "\""
  }

  /** `UMA realm="…", as_uri="…", ticket="…"` */
  function ChallengeHeader(realm: string, asUri: string, ticket: string): string {
    "UMA" + Quoted("realm", realm) + "," + Quoted("as_uri", asUri) + "," + Quoted("ticket", ticket)
  }

  // --- What the parser reads, said of the header's text ---

  /** The part gives this key this value: blanks around either are dropped, and then the
      double quotes around the value. */
  ghost predicate Gives(part: string, key: string, value: string) {
    exists k, v, quoted ::
      '=' !in k && part == k + ['='] + v && Padded(k, key) && Padded(v, quoted) && Wrapped(quoted, value, IsQuote)
  }

  ghost predicate NeverGives(parts: seq<string>, key: string) {
    forall i, value :: 0 <= i < |parts| ==> !Gives(parts[i], key, value)
  }

  /** The last part to give the key gives it this value. */
  ghost predicate LastGives(parts: seq<string>, key: string, value: string) {
    exists i :: 0 <= i < |parts| && Gives(parts[i], key, value) && NeverGives(parts[i + 1..], key)
  }

  const KEYS: seq<string> := ["realm", "as_uri", "ticket"]

  /** The value a challenge holds for one of its three keys. */
  function Held(c: Challenge, key: string): Option<string> {
    if key == "realm" then c.realm else if key == "as_uri" then c.asUri else c.ticket
  }

  /** The key and value of a part, if it is a pair. */
  function Given(part: string): Option<(string, string)> {
    match SplitOnce(part, '=')
    case None => None
    case Some((k, v)) => Some((Trim(k), Strip(Trim(v), IsQuote)))
  }

  lemma GivesIff(part: string, key: string, value: string)
    ensures Gives(part, key, value) <==> Given(part) == Some((key, value))
  {
    forall k, v | '=' !in k && part == k + ['='] + v
      ensures SplitOnce(part, '=') == Some((k, v))
      ensures Trim(k) == key <==> Padded(k, key)
    {
      SplitOnceAt(k, v, '=');
      TrimIff(k, key);
    }
    forall v, quoted
      ensures Trim(v) == quoted <==> Padded(v, quoted)
      ensures Strip(quoted, IsQuote) == value <==> Wrapped(quoted, value, IsQuote)
    {
      TrimIff(v, quoted);
      StripIff(quoted, value, IsQuote);
    }
    if Given(part) == Some((key, value)) {
      var cut := SplitOnce(part, '=').value;
      assert part == cut.0 + ['='] + cut.1 && Padded(cut.1, Trim(cut.1));
    }
  }

  lemma AssignIff(c: Challenge, part: string, key: string)
    requires key in KEYS
    ensures Held(Assign(c, part), key)
         == if Given(part).Some? && Given(part).value.0 == key then Some(Given(part).value.1) else Held(c, key)
  {
  }

  /** Each key holds what the last part to give it gave, whatever the order of the parts
      and whatever other keys there are. */
  lemma {:induction false} LastOneStays(c: Challenge, parts: seq<string>, key: string, value: string)
    requires key in KEYS
    ensures Held(AssignAll(c, parts), key) == Some(value)
       <==> LastGives(parts, key, value) || (NeverGives(parts, key) && Held(c, key) == Some(value))
    decreases |parts|
  {
    if parts != [] {
      var (head, rest) := (parts[0], parts[1..]);
      LastOneStays(Assign(c, head), rest, key, value);
      AssignIff(c, head, key);
      forall x
        ensures Gives(head, key, x) <==> Given(head) == Some((key, x))
      {
        GivesIff(head, key, x);
      }
      hide Gives, Given, Assign, Held;
      NeverGivesCons(head, rest, key);
      LastGivesCons(head, rest, key, value);
    }
  }

  lemma NeverGivesCons(head: string, rest: seq<string>, key: string)
    ensures NeverGives([head] + rest, key) <==> (forall x :: !Gives(head, key, x)) && NeverGives(rest, key)
  {
    hide Gives;
    var all := [head] + rest;
    assert all[0] == head && forall i :: 0 <= i < |rest| ==> rest[i] == all[i + 1];
    assert forall i :: 0 < i < |all| ==> all[i] == rest[i - 1];
  }

  lemma LastGivesCons(head: string, rest: seq<string>, key: string, value: string)
    ensures LastGives([head] + rest, key, value)
       <==> LastGives(rest, key, value) || (Gives(head, key, value) && NeverGives(rest, key))
  {
    hide Gives, NeverGives;
    var all := [head] + rest;
    assert all[0] == head && all[0 + 1..] == rest;
    if i :| 0 <= i < |rest| && Gives(rest[i], key, value) && NeverGives(rest[i + 1..], key) {
      assert all[i + 1] == rest[i] && all[i + 2..] == rest[i + 1..];
    }
    if i :| 0 <= i < |all| && Gives(all[i], key, value) && NeverGives(all[i + 1..], key) {
      if i > 0 {
        var k := i - 1;
        assert all[i] == rest[k] && all[i + 1..] == rest[k + 1..];
      }
    }
  }

  /** A UMA challenge is the scheme and nothing more, or the scheme and a blank. */
  lemma SchemeIff(header: string, rest: string)
    ensures AfterScheme(header) == Some(rest)
       <==> Padded(header, "UMA" + rest) && (rest == "" || IsWhitespace(rest[0]))
  {
    TrimIff(header, "UMA" + rest);
    if AfterScheme(header) == Some(rest) {
      assert Trim(header) == "UMA" + rest;
    }
    assert ("UMA" + rest)[3..] == rest;
  }

  /** Parsing succeeds exactly on UMA challenges, and then each of the three keys holds what
      the last part to give it gave, and nothing when none did. */
  lemma ParsesIff(header: string, key: string)
    requires key in KEYS
    ensures Parse(header).Some?
       <==> exists rest :: Padded(header, "UMA" + rest) && (rest == "" || IsWhitespace(rest[0]))
    ensures forall rest :: Padded(header, "UMA" + rest) && (rest == "" || IsWhitespace(rest[0])) ==>
              && Parse(header).Some?
              && forall value ::
                   Held(Parse(header).value, key) == Some(value) <==> LastGives(Split(rest, ','), key, value)
  {
    forall rest
      ensures AfterScheme(header) == Some(rest)
         <==> Padded(header, "UMA" + rest) && (rest == "" || IsWhitespace(rest[0]))
    {
      SchemeIff(header, rest);
    }
    if AfterScheme(header).Some? {
      var parts := Split(AfterScheme(header).value, ',');
      forall value
        ensures Held(Parse(header).value, key) == Some(value) <==> LastGives(parts, key, value)
      {
        LastOneStays(NOTHING, parts, key, value);
      }
    }
  }

  /** No comma anywhere, and no double quote at either end. */
  predicate Plain(s: string) {
    ',' !in s && Bare(s, IsQuote)
  }

  predicate PlainChallenge(c: Challenge) {
    && (c.realm.Some? ==> Plain(c.realm.value)) && (c.asUri.Some? ==> Plain(c.asUri.value))
    && (c.ticket.Some? ==> Plain(c.ticket.value))
  }

  lemma StripKeepsOut(s: string, p: char -> bool, c: char)
    requires c !in s
    ensures c !in Strip(s, p) && Bare(Strip(s, p), p)
  {
    var lead, tail := StripSpec(s, p);
    assert s == lead + Strip(s, p) + tail;
  }

  /** A parser that cuts at commas and trims quotes can only store plain values. */
  lemma {:induction false} AssignsOnlyPlain(c: Challenge, parts: seq<string>)
    requires PlainChallenge(c) && forall i :: 0 <= i < |parts| ==> ',' !in parts[i]
    ensures PlainChallenge(AssignAll(c, parts))
    decreases |parts|
  {
    if parts != [] {
      if SplitOnce(parts[0], '=').Some? {
        var v := SplitOnce(parts[0], '=').value.1;
        assert ',' !in v;
        StripKeepsOut(v, IsWhitespace, ',');
        StripKeepsOut(Trim(v), IsQuote, ',');
      }
      AssignsOnlyPlain(Assign(c, parts[0]), parts[1..]);
    }
  }

  lemma QuotedReadsBack(c: Challenge, key: string, value: string)
    requires Bare(value, IsQuote) && key in ["realm", "as_uri", "ticket"]
    ensures Assign(c, Quoted(key, value)) ==
            if key == "realm" then c.(realm := Some(value))
            else if key == "as_uri" then c.(asUri := Some(value))
            else c.(ticket := Some(value))
  {
    var quoted := "\"" + value + "\"";
    assert Quoted(key, value) == (" " + key) + ['='] + quoted;
    SplitOnceAt(" " + key, quoted, '=');
    assert " " + key == " " + key + [] && quoted == [] + quoted + [];
    StripPadded(" ", key, [], IsWhitespace);
    StripPadded([], quoted, [], IsWhitespace);
    StripPadded("\"", value, "\"", IsQuote);
  }

  lemma JoinThree(a: string, b: string, c: string)
    ensures Join([a, b, c], ',') == a + "," + b + "," + c
  {
    assert Join([c], ',') == c && [a, b, c][1..] == [b, c] && [b, c][1..] == [c];
    assert Join([b, c], ',') == b + [','] + c;
  }

  lemma SchemeIsCut(rest: string)
    requires rest != "" && rest[0] == ' ' && rest[|rest| - 1] == '"'
    ensures AfterScheme("UMA" + rest) == Some(rest)
  {
  }

  lemma HeaderParts(realm: string, asUri: string, ticket: string)
    ensures AfterScheme(ChallengeHeader(realm, asUri, ticket))
         == Some(Join([Quoted("realm", realm), Quoted("as_uri", asUri), Quoted("ticket", ticket)], ','))
  {
    var (a, b, c) := (Quoted("realm", realm), Quoted("as_uri", asUri), Quoted("ticket", ticket));
    var rest := a + "," + b + "," + c;
    JoinThree(a, b, c);
    assert a[0] == ' ' && c[|c| - 1] == '"';
    hide Quoted, AfterScheme;
    assert ChallengeHeader(realm, asUri, ticket) == "UMA" + rest;
    SchemeIsCut(rest);
  }

  lemma PlainReadsBack(realm: string, asUri: string, ticket: string)
    requires Plain(realm) && Plain(asUri) && Plain(ticket)
    ensures AssignAll(NOTHING, [Quoted("realm", realm), Quoted("as_uri", asUri), Quoted("ticket", ticket)])
         == Challenge(Some(realm), Some(asUri), Some(ticket))
  {
    var (p1, p2, p3) := (Quoted("realm", realm), Quoted("as_uri", asUri), Quoted("ticket", ticket));
    QuotedReadsBack(NOTHING, "realm", realm);
    var c1 := NOTHING.(realm := Some(realm));
    QuotedReadsBack(c1, "as_uri", asUri);
    var c2 := c1.(asUri := Some(asUri));
    QuotedReadsBack(c2, "ticket", ticket);
    hide Assign, Quoted;
    assert [p1, p2, p3][1..] == [p2, p3] && [p2, p3][1..] == [p3] && [p3][1..] == [];
    assert AssignAll(c2, [p3]) == Assign(c2, p3);
    assert AssignAll(c1, [p2, p3]) == AssignAll(c2, [p3]);
  }

  /** The three values come back unchanged exactly when none contains a comma and none
      starts or ends with a double quote. */
  lemma RoundTripIff(realm: string, asUri: string, ticket: string)
    ensures Parse(ChallengeHeader(realm, asUri, ticket)) == Some(Challenge(Some(realm), Some(asUri), Some(ticket)))
       <==> Plain(realm) && Plain(asUri) && Plain(ticket)
  {
    var parts := [Quoted("realm", realm), Quoted("as_uri", asUri), Quoted("ticket", ticket)];
    HeaderParts(realm, asUri, ticket);
    hide AssignAll, Quoted, ChallengeHeader, AfterScheme;
    AssignsOnlyPlain(NOTHING, Split(Join(parts, ','), ','));
    if Plain(realm) && Plain(asUri) && Plain(ticket) {
      forall i | 0 <= i < 3
        ensures ',' !in parts[i]
      {
        QuotedHasNoComma(realm, asUri, ticket, i);
      }
      SplitJoin(parts, ',');
      PlainReadsBack(realm, asUri, ticket);
    }
  }

  lemma QuotedHasNoComma(realm: string, asUri: string, ticket: string, i: nat)
    requires i < 3 && Plain(realm) && Plain(asUri) && Plain(ticket)
    ensures ',' !in [Quoted("realm", realm), Quoted("as_uri", asUri), Quoted("ticket", ticket)][i]
  {
  }
}
