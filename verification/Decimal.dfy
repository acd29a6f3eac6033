/** Decimal parsing as Rust's `i64::from_str` does it, with the printer it inverts. */
module Decimal {
  import opened Outcomes

  const I64_MIN: int := -0x8000_0000_0000_0000
  const I64_MAX: int := 0x7FFF_FFFF_FFFF_FFFF

  type I64 = x: int | I64_MIN <= x <= I64_MAX

  predicate IsDigit(c: char) {
    '0' <= c <= '9'
  }

  predicate IsNumeral(s: string) {
    s != [] && forall k :: 0 <= k < |s| ==> IsDigit(s[k])
  }

  function Digit(c: char): nat
    requires IsDigit(c)
  {
    c as int - '0' as int
  }

  lemma DigitsAreTheTen(c: char)
    ensures IsDigit(c) <==> c in "0123456789"
    ensures IsDigit(c) ==> Digit(c) < 10 && "0123456789"[Digit(c)] == c
  {
    assert IsDigit(c) ==> "0123456789"[Digit(c)] == c;
  }

  function Numeral(s: string): (n: nat)
    requires forall k :: 0 <= k < |s| ==> IsDigit(s[k])
  {
    if s == [] then 0 else 10 * Numeral(s[..|s| - 1]) + Digit(s[|s| - 1])
  }

  /** An optional sign, then one or more digits, then the range check. */
  function ParseI64(s: string): (r: Option<I64>)
  {
    var signed := s != [] && (s[0] == '-' || s[0] == '+');
    var digits := if signed then s[1..] else s;
    if !IsNumeral(digits) then None
    else
      var n: int := if signed && s[0] == '-' then 0 - Numeral(digits) else Numeral(digits);
      if I64_MIN <= n <= I64_MAX then Some(n) else None
  }

  function PrintNat(n: nat): (s: string)
    ensures IsNumeral(s) && Numeral(s) == n
  {
    if n < 10 then
      var s := [(n + '0' as int) as char];
      assert s[..0] == [] && Numeral(s) == 10 * Numeral(s[..0]) + n;
      s
    else
      var s := PrintNat(n / 10) + [(n % 10 + '0' as int) as char];
      assert s[..|s| - 1] == PrintNat(n / 10);
      s
  }

  function PrintInt(n: int): string {
    if n < 0 then "-" + PrintNat(0 - n) else PrintNat(n)
  }

  lemma UnsignedParses(s: string)
    requires IsNumeral(s) && Numeral(s) <= I64_MAX
    ensures ParseI64(s) == Some(Numeral(s))
  {
  }

  lemma NegativeParses(s: string)
    requires IsNumeral(s) && 0 - Numeral(s) >= I64_MIN
    ensures ParseI64("-" + s) == Some(0 - Numeral(s))
  {
  }

  function Pow10(n: nat): nat {
    if n == 0 then 1 else 10 * Pow10(n - 1)
  }

  /** Each digit counts by its place. */
  lemma {:induction false} NumeralIsPositional(c: char, s: string)
    requires IsDigit(c) && forall k :: 0 <= k < |s| ==> IsDigit(s[k])
    ensures Numeral([c] + s) == Digit(c) * Pow10(|s|) + Numeral(s)
  {
    var all := [c] + s;
    if s == [] {
      assert all[..0] == [];
    } else {
      assert all[..|s|] == [c] + s[..|s| - 1];
      NumeralIsPositional(c, s[..|s| - 1]);
    }
  }

  /** An optional sign and a decimal numeral, of this value in the range of an `i64`. */
  ghost predicate Reads(s: string, n: int) {
    && I64_MIN <= n <= I64_MAX
    && exists sign, digits ::
         Signed(s, sign, digits) && n == if sign == "-" then 0 - Numeral(digits) else Numeral(digits)
  }

  predicate Signed(s: string, sign: string, digits: string) {
    s == sign + digits && IsNumeral(digits) && (sign == "" || sign == "+" || sign == "-")
  }

  lemma SignedParses(s: string, sign: string, digits: string)
    requires Signed(s, sign, digits)
    ensures var n: int := if sign == "-" then 0 - Numeral(digits) else Numeral(digits);
            ParseI64(s) == if I64_MIN <= n <= I64_MAX then Some(n) else None
  {
    hide Numeral;
    if sign == "" {
      assert s == digits && IsDigit(s[0]);
    } else {
      assert s[1..] == digits && s[0] == sign[0];
    }
  }

  lemma ParsesIff(s: string, n: I64)
    ensures ParseI64(s) == Some(n) <==> Reads(s, n)
  {
    if ParseI64(s) == Some(n) {
      var signed := s != [] && (s[0] == '-' || s[0] == '+');
      var (sign, digits) := if signed then (s[..1], s[1..]) else ("", s);
      assert s == sign + digits && (signed ==> sign == [s[0]]);
      assert Signed(s, sign, digits);
    }
    if Reads(s, n) {
      var sign, digits :| Signed(s, sign, digits) && n == if sign == "-" then 0 - Numeral(digits) else Numeral(digits);
      SignedParses(s, sign, digits);
    }
  }

  /** What a server prints, a receiver reads back. */
  lemma ParsePrinted(n: I64)
    ensures ParseI64(PrintInt(n)) == Some(n)
  {
    if n < 0 {
      var magnitude: int := 0 - n;
      NegativeParses(PrintNat(magnitude));
    } else {
      UnsignedParses(PrintNat(n));
    }
  }

  /** Everything that parses is ASCII, free of separators and of outer blanks. */
  lemma ParsedIsPlain(s: string)
    requires ParseI64(s).Some?
    ensures s != [] && forall k :: 0 <= k < |s| ==> IsDigit(s[k]) || s[k] == '-' || s[k] == '+'
  {
    if s[0] == '-' || s[0] == '+' {
      forall k | 0 < k < |s|
        ensures IsDigit(s[k])
      {
        assert s[k] == s[1..][k - 1];
      }
    }
  }
}
