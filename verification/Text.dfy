/** The string operations the SDK's hand-written parsers are built from:
    splitting, trimming and joining, each with the property that pins it down. */
module Text {
  import opened Outcomes

  /** Unicode White_Space, which Rust's `str::trim` removes. */
  predicate IsWhitespace(c: char) {
    var n := c as int;
    || 0x9 <= n <= 0xD || n == 0x20 || n == 0x85 || n == 0xA0 || n == 0x1680
    || 0x2000 <= n <= 0x200A || n == 0x2028 || n == 0x2029 || n == 0x202F
    || n == 0x205F || n == 0x3000
  }

  /** The 25 White_Space characters. */
  lemma BlanksAreWhiteSpace(c: char)
    ensures IsWhitespace(c) <==>
            c as int in {0x9, 0xA, 0xB, 0xC, 0xD, 0x20, 0x85, 0xA0, 0x1680, 0x2000, 0x2001, 0x2002, 0x2003, 0x2004,
                         0x2005, 0x2006, 0x2007, 0x2008, 0x2009, 0x200A, 0x2028, 0x2029, 0x202F, 0x205F, 0x3000}
  {
  }

  /** ASCII case folding. */
  function ToLower(c: char): char {
    if 'A' <= c <= 'Z' then (c as int - 'A' as int + 'a' as int) as char else c
  }

  function Lowercase(s: string): string {
    seq(|s|, i requires 0 <= i < |s| => ToLower(s[i]))
  }

  /** The 26 capitals become the small letters in the same place, and nothing else changes. */
  lemma OnlyCapitalsFold(c: char, i: nat)
    requires i < 26
    ensures ToLower("ABCDEFGHIJKLMNOPQRSTUVWXYZ"[i]) == "abcdefghijklmnopqrstuvwxyz"[i]
    ensures ToLower(c) != c <==> 'A' <= c <= 'Z'
  {
  }

  predicate IsQuote(c: char) {
    c == '"'
  }

  predicate AllOf(s: string, p: char -> bool) {
    forall k :: 0 <= k < |s| ==> p(s[k])
  }

  /** No character satisfying `p` at either end. */
  predicate Bare(s: string, p: char -> bool) {
    s != [] ==> !p(s[0]) && !p(s[|s| - 1])
  }

  function StripLeft(s: string, p: char -> bool): (r: string)
    ensures r != [] ==> !p(r[0])
  {
    if s != [] && p(s[0]) then StripLeft(s[1..], p) else s
  }

  function StripRight(s: string, p: char -> bool): (r: string)
    ensures r != [] ==> !p(r[|r| - 1])
  {
    if s != [] && p(s[|s| - 1]) then StripRight(s[..|s| - 1], p) else s
  }

  /** Remove every leading and trailing character satisfying `p`. */
  function Strip(s: string, p: char -> bool): string {
    StripRight(StripLeft(s, p), p)
  }

  function Trim(s: string): string {
    Strip(s, IsWhitespace)
  }

  lemma {:induction false} StripLeftPadded(left: string, rest: string, p: char -> bool)
    requires AllOf(left, p) && (rest == [] || !p(rest[0]))
    ensures StripLeft(left + rest, p) == rest
  {
    if left == [] {
      assert left + rest == rest;
    } else {
      assert p(left[0]) && (left + rest)[1..] == left[1..] + rest;
      StripLeftPadded(left[1..], rest, p);
    }
  }

  lemma {:induction false} StripRightPadded(rest: string, right: string, p: char -> bool)
    requires AllOf(right, p) && (rest == [] || !p(rest[|rest| - 1]))
    ensures StripRight(rest + right, p) == rest
  {
    if right == [] {
      assert rest + right == rest;
    } else {
      var n := |right| - 1;
      assert p(right[n]) && (rest + right)[..|rest| + n] == rest + right[..n];
      StripRightPadded(rest, right[..n], p);
    }
  }

  /** Padding around a bare core is exactly what `Strip` removes. */
  lemma StripPadded(left: string, core: string, right: string, p: char -> bool)
    requires AllOf(left, p) && AllOf(right, p) && Bare(core, p)
    ensures Strip(left + core + right, p) == core
  {
    if core == [] {
      assert AllOf(left + right, p) && left + core + right == (left + right) + [];
      StripLeftPadded(left + right, [], p);
    } else {
      assert left + core + right == left + (core + right);
      StripLeftPadded(left, core + right, p);
      StripRightPadded(core, right, p);
    }
  }

  /** What stripping one end takes away. */
  lemma {:induction false} LeftPart(s: string, p: char -> bool) returns (lead: string)
    ensures s == lead + StripLeft(s, p) && AllOf(lead, p)
  {
    lead := [];
    if s != [] && p(s[0]) {
      var rest := LeftPart(s[1..], p);
      lead := [s[0]] + rest;
    }
  }

  lemma {:induction false} RightPart(s: string, p: char -> bool) returns (tail: string)
    ensures s == StripRight(s, p) + tail && AllOf(tail, p)
  {
    tail := [];
    if s != [] && p(s[|s| - 1]) {
      var rest := RightPart(s[..|s| - 1], p);
      tail := rest + [s[|s| - 1]];
    }
  }

  /** Stripping leaves a bare core, and takes only what it strips. */
  lemma StripSpec(s: string, p: char -> bool) returns (lead: string, tail: string)
    ensures s == lead + Strip(s, p) + tail && AllOf(lead, p) && AllOf(tail, p) && Bare(Strip(s, p), p)
  {
    lead := LeftPart(s, p);
    tail := RightPart(StripLeft(s, p), p);
    var (l, r) := (StripLeft(s, p), Strip(s, p));
    assert s == (lead + r) + tail;
    assert r != [] ==> r[0] == l[0];
  }

  /** `s` is `core` wrapped in characters satisfying `p`, if in any, and `core` is bare of them. */
  ghost predicate Wrapped(s: string, core: string, p: char -> bool) {
    Bare(core, p) && exists lead, tail :: s == lead + core + tail && AllOf(lead, p) && AllOf(tail, p)
  }

  lemma StripIff(s: string, core: string, p: char -> bool)
    ensures Strip(s, p) == core <==> Wrapped(s, core, p)
  {
    if Strip(s, p) == core {
      var lead, tail := StripSpec(s, p);
    }
    if Wrapped(s, core, p) {
      var lead, tail :| s == lead + core + tail && AllOf(lead, p) && AllOf(tail, p);
      StripPadded(lead, core, tail, p);
    }
  }

  /** `s` is `core` with blanks at either end, if any. */
  ghost predicate Padded(s: string, core: string) {
    Wrapped(s, core, IsWhitespace)
  }

  lemma TrimIff(s: string, core: string)
    ensures Trim(s) == core <==> Padded(s, core)
  {
    StripIff(s, core, IsWhitespace);
  }

  lemma Regroup(a: string, b: string, c: string, d: string)
    ensures (a + b) + c + d == a + (b + c + d)
    ensures a + b + (c + d) == (a + b + c) + d
  {
  }

  /** Trimming around a character that stays trims each side outward. */
  lemma StripAround(a: string, c: char, b: string, p: char -> bool)
    requires !p(c)
    ensures Strip(a + [c] + b, p) == StripLeft(a, p) + [c] + StripRight(b, p)
  {
    var (l, r) := (StripLeft(a, p), StripRight(b, p));
    var lead := LeftPart(a, p);
    var tail := RightPart(b, p);
    Regroup(lead, l, [c], b);
    StripLeftPadded(lead, l + [c] + b, p);
    Regroup(l, [c], r, tail);
    StripRightPadded(l + [c] + r, tail, p);
  }

  lemma StripAfterLeft(s: string, p: char -> bool)
    ensures Strip(StripLeft(s, p), p) == Strip(s, p)
  {
  }

  lemma StripAfterRight(s: string, p: char -> bool)
    ensures Strip(StripRight(s, p), p) == Strip(s, p)
  {
    var (t, r) := (StripRight(s, p), Strip(s, p));
    var lead, tail := StripSpec(s, p);
    if r == [] {
      assert AllOf(s, p) && s == [] + s;
      StripRightPadded([], s, p);
    } else {
      StripRightPadded(lead + r, tail, p);
      assert lead + r == lead + r + [];
      StripPadded(lead, r, [], p);
    }
  }

  /** The pieces between separators; never empty, and `Join` puts them back. */
  function Split(s: string, sep: char): (parts: seq<string>)
    ensures parts != []
    ensures forall i :: 0 <= i < |parts| ==> sep !in parts[i]
    ensures Join(parts, sep) == s
  {
    if s == [] then [[]]
    else
      var rest := Split(s[1..], sep);
      if s[0] == sep then
        assert ([[]] + rest)[1..] == rest;
        [[]] + rest
      else
        var parts := [[s[0]] + rest[0]] + rest[1..];
        assert parts[1..] == rest[1..];
        parts
  }

  function Join(parts: seq<string>, sep: char): string
    requires parts != []
  {
    if |parts| == 1 then parts[0] else parts[0] + [sep] + Join(parts[1..], sep)
  }

  /** A joined list of separator-free pieces splits into the same pieces. */
  lemma {:induction false} SplitJoin(parts: seq<string>, sep: char)
    requires parts != []
    requires forall i :: 0 <= i < |parts| ==> sep !in parts[i]
    ensures Split(Join(parts, sep), sep) == parts
    decreases |parts|, |parts[0]|
  {
    var whole := Join(parts, sep);
    if parts[0] != [] {
      var shorter := [parts[0][1..]] + parts[1..];
      assert shorter[1..] == parts[1..];
      SplitJoin(shorter, sep);
      assert whole[1..] == Join(shorter, sep);
      assert whole[0] == parts[0][0] && parts[0][0] in parts[0];
      assert [whole[0]] + shorter[0] == parts[0];
    } else if |parts| > 1 {
      SplitJoin(parts[1..], sep);
      assert whole[1..] == Join(parts[1..], sep);
    }
  }

  /** Cut at the first separator, if there is one. */
  function SplitOnce(s: string, sep: char): (r: Option<(string, string)>)
    ensures r.None? <==> sep !in s
    ensures r.Some? ==> s == r.value.0 + [sep] + r.value.1 && sep !in r.value.0
  {
    if s == [] then None
    else if s[0] == sep then Some(([], s[1..]))
    else
      match SplitOnce(s[1..], sep)
      case None => None
      case Some((k, v)) => Some(([s[0]] + k, v))
  }

  lemma {:induction false} SplitOnceAt(k: string, v: string, sep: char)
    requires sep !in k
    ensures SplitOnce(k + [sep] + v, sep) == Some((k, v))
  {
    var s := k + [sep] + v;
    if k != [] {
      assert k[0] in k;
      SplitOnceAt(k[1..], v, sep);
      assert s[1..] == k[1..] + [sep] + v;
      assert [k[0]] + k[1..] == k;
    } else {
      assert s[1..] == v;
    }
  }
}
