/** Base 16 (section 8 of RFC 4648): lowercase out, either case in. */
module Hex {
  import opened Outcomes
  import opened Text

  type Byte = x: int | 0 <= x < 256

  function Digit(v: nat): char
    requires v < 16
  {
    if v < 10 then (v + '0' as int) as char else (v - 10 + 'a' as int) as char
  }

  lemma DigitsAreTheSixteen(v: nat)
    requires v < 16
    ensures Digit(v) == "0123456789abcdef"[v]
  {
  }

  function Value(c: char): (v: Option<nat>)
    ensures v.Some? ==> v.value < 16 && Digit(v.value) == ToLower(c)
    ensures v.None? ==> forall d :: 0 <= d < 16 ==> Digit(d) != ToLower(c)
  {
    if '0' <= c <= '9' then
      Some(c as int - '0' as int)
    else if 'a' <= c <= 'f' then Some(c as int - 'a' as int + 10)
    else if 'A' <= c <= 'F' then Some(c as int - 'A' as int + 10)
    else None
  }

  function Encode(b: seq<Byte>): (s: string)
    ensures |s| == 2 * |b|
  {
    if b == [] then [] else [Digit(b[0] / 16), Digit(b[0] % 16)] + Encode(b[1..])
  }

  function Decode(s: string): (r: Option<seq<Byte>>)
    ensures r.Some? ==> |s| == 2 * |r.value|
  {
    if s == [] then Some([])
    else if |s| == 1 then None
    else
      var (h, l, rest) := (Value(s[0]), Value(s[1]), Decode(s[2..]));
      if h.Some? && l.Some? && rest.Some? then Some([Merge(h.value, l.value)] + rest.value) else None
  }

  lemma ValueOfDigit(v: nat)
    requires v < 16
    ensures Value(Digit(v)) == Some(v) && ToLower(Digit(v)) == Digit(v)
  {
  }

  lemma DigitOf(c: char, v: nat)
    requires v < 16
    ensures ToLower(c) == Digit(v) <==> Value(c) == Some(v)
  {
  }

  function Merge(h: nat, l: nat): (v: Byte)
    requires h < 16 && l < 16
    ensures v / 16 == h && v % 16 == l
  {
    16 * h + l
  }

  lemma DecodeStep(s: string, b: seq<Byte>)
    requires |s| >= 2 && b != []
    ensures Decode(s) == Some(b)
       <==> Value(s[0]) == Some(b[0] / 16) && Value(s[1]) == Some(b[0] % 16) && Decode(s[2..]) == Some(b[1..])
  {
    var (h, l, rest) := (Value(s[0]), Value(s[1]), Decode(s[2..]));
    if h.Some? && l.Some? && rest.Some? {
      var v := Merge(h.value, l.value);
      assert v == 16 * (v / 16) + v % 16 && b[0] == 16 * (b[0] / 16) + b[0] % 16;
      assert [v] + rest.value == b <==> v == b[0] && rest.value == b[1..] by {
        assert b == [b[0]] + b[1..];
        assert ([v] + rest.value)[1..] == rest.value;
      }
    }
  }

  /** Decoding accepts exactly the strings that encode the bytes, in either case. */
  lemma {:induction false} DecodesIff(s: string, b: seq<Byte>)
    ensures Decode(s) == Some(b) <==> Lowercase(s) == Encode(b)
  {
    if |s| >= 2 && b != [] {
      DecodesIff(s[2..], b[1..]);
      DecodeStep(s, b);
      DigitOf(s[0], b[0] / 16);
      DigitOf(s[1], b[0] % 16);
      var (lower, code) := (Lowercase(s), Encode(b));
      assert lower == [ToLower(s[0]), ToLower(s[1])] + Lowercase(s[2..]);
      assert lower[2..] == Lowercase(s[2..]) && code[2..] == Encode(b[1..]);
    }
  }

  lemma {:induction false} DecodeEncoded(b: seq<Byte>)
    ensures Decode(Encode(b)) == Some(b)
  {
    if b != [] {
      DecodeEncoded(b[1..]);
      ValueOfDigit(b[0] / 16);
      ValueOfDigit(b[0] % 16);
      assert Encode(b)[2..] == Encode(b[1..]);
      assert [b[0]] + b[1..] == b;
    }
  }
}
