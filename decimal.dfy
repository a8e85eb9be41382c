/**
  Decimal numerals: the digit test the script applies to each version part,
  the integer conversion it then performs, and the plain decimal rendering its
  f-string produces.
*/
module Decimal {

  /** An ASCII decimal digit. */
  predicate IsDigit(c: char)
  {
    '0' <= c <= '9'
  }

  /** Every character is a digit (the empty string included). */
  predicate AllDigits(s: string)
  {
    forall i :: 0 <= i < |s| ==> IsDigit(s[i])
  }

  /** A non-empty run of digits: `str.isdigit`, which is false on "". */
  predicate IsDigits(s: string)
  {
    |s| > 0 && AllDigits(s)
  }

  /** A digit run in the form RenderNat produces: no leading zero, except for
      the numeral "0" itself. */
  predicate Canonical(s: string)
  {
    IsDigits(s) && (s[0] == '0' ==> |s| == 1)
  }

  function DigitValue(c: char): (d: nat)
    requires IsDigit(c)
    ensures d < 10
  {
    c as int - '0' as int
  }

  function DigitChar(d: nat): (c: char)
    requires d < 10
    ensures IsDigit(c) && DigitValue(c) == d
  {
    ('0' as int + d) as char
  }

  /** The value of a digit run, most significant digit first (Python's `int`
      on a digit string); leading zeros contribute nothing. */
  function ParseNat(s: string): nat
    requires AllDigits(s)
  {
    if |s| == 0 then 0 else ParseNat(s[..|s| - 1]) * 10 + DigitValue(s[|s| - 1])
  }

  /** The plain decimal numeral of `n`, without padding. Its first character
      is '0' exactly when `n` is zero, so it is always canonical. */
  function RenderNat(n: nat): (s: string)
    ensures Canonical(s)
    ensures s[0] == '0' <==> n == 0
  {
    if n < 10 then [DigitChar(n)] else RenderNat(n / 10) + [DigitChar(n % 10)]
  }

  /** Round trip: the numeral RenderNat produces parses back to the same number. */
  lemma {:induction false} ParseRenderNat(n: nat)
    ensures ParseNat(RenderNat(n)) == n
  {
    var s := RenderNat(n);
    if n >= 10 {
      ParseRenderNat(n / 10);
      assert s[..|s| - 1] == RenderNat(n / 10);
    }
  }

  /** A digit run whose first digit is not '0' denotes a positive number. */
  lemma {:induction false} ParseNatPositive(s: string)
    requires IsDigits(s) && s[0] != '0'
    ensures ParseNat(s) > 0
    decreases |s|
  {
    if |s| > 1 {
      ParseNatPositive(s[..|s| - 1]);
    }
  }

  /** Round trip the other way, on canonical numerals: parsing then rendering
      returns the very same text. */
  lemma {:induction false} RenderParseCanonical(s: string)
    requires Canonical(s)
    ensures RenderNat(ParseNat(s)) == s
    decreases |s|
  {
    var t := s[..|s| - 1];
    if |s| == 1 {
      assert ParseNat(s) == DigitValue(s[0]);
      assert DigitChar(DigitValue(s[0])) == s[0];
    } else {
      ParseNatPositive(t);
      RenderParseCanonical(t);
      var n := ParseNat(s);
      assert n / 10 == ParseNat(t) && n % 10 == DigitValue(s[|s| - 1]);
      assert DigitChar(DigitValue(s[|s| - 1])) == s[|s| - 1];
      assert t + [s[|s| - 1]] == s;
    }
  }

  /** A digit run survives parse-then-render unchanged exactly when it is canonical. */
  lemma RenderParseIdentityIffCanonical(s: string)
    requires IsDigits(s)
    ensures RenderNat(ParseNat(s)) == s <==> Canonical(s)
  {
    if Canonical(s) {
      RenderParseCanonical(s);
    }
  }

  /** A leading zero does not change the value. */
  lemma {:induction false} ParseNatLeadingZero(s: string)
    requires AllDigits(s)
    ensures AllDigits(['0'] + s) && ParseNat(['0'] + s) == ParseNat(s)
    decreases |s|
  {
    var u := ['0'] + s;
    assert AllDigits(u) by {
      forall i | 0 <= i < |u| ensures IsDigit(u[i]) {
        if i > 0 { assert u[i] == s[i - 1]; }
      }
    }
    if |s| > 0 {
      assert u[..|u| - 1] == ['0'] + s[..|s| - 1];
      ParseNatLeadingZero(s[..|s| - 1]);
    }
  }

  /** The numeral with its leading zeros removed (keeping at least one digit). */
  function StripLeadingZeros(s: string): string
    decreases |s|
  {
    if |s| > 1 && s[0] == '0' then StripLeadingZeros(s[1..]) else s
  }

  /** Parse-then-render normalises a numeral: it drops the leading zeros and
      keeps every other digit, so "03" becomes "3" and "09" becomes "9". */
  lemma {:induction false} RenderParseStripsZeros(s: string)
    requires IsDigits(s)
    ensures RenderNat(ParseNat(s)) == StripLeadingZeros(s)
    decreases |s|
  {
    if |s| > 1 && s[0] == '0' {
      ParseNatLeadingZero(s[1..]);
      assert ['0'] + s[1..] == s;
      RenderParseStripsZeros(s[1..]);
    } else {
      RenderParseCanonical(s);
    }
  }
}
