/** Decimal rendering of counters, as Python's `str` renders a non-negative
    `int`, together with the parse that inverts it. Tags that the system
    generates are such renderings. */
module Decimal {

  predicate IsDigit(c: char) {
    '0' <= c <= '9'
  }

  function DigitChar(d: nat): (c: char)
    requires d < 10
    ensures IsDigit(c)
  {
    ('0' as int + d) as char
  }

  function DigitValue(c: char): (d: nat)
    requires IsDigit(c)
    ensures d < 10 && DigitChar(d) == c
  {
    c as int - '0' as int
  }

  predicate IsDigits(s: string) {
    forall i :: 0 <= i < |s| ==> IsDigit(s[i])
  }

  /** A string as `str(n)` prints it: digits only, no sign, no leading zero. */
  predicate IsCanonical(s: string) {
    |s| >= 1 && IsDigits(s) && (|s| > 1 ==> s[0] != '0')
  }

  /** The decimal rendering of `n`. */
  function NatToString(n: nat): (s: string)
    ensures IsCanonical(s)
    ensures s[0] == '0' <==> n == 0
    decreases n
  {
    if n < 10 then [DigitChar(n)] else NatToString(n / 10) + [DigitChar(n % 10)]
  }

  /** The value of a string of decimal digits (most significant first). */
  function DecimalValue(s: string): nat
    requires IsDigits(s)
  {
    if s == [] then 0 else DecimalValue(s[..|s| - 1]) * 10 + DigitValue(s[|s| - 1])
  }

  /** Parsing a rendering gives back the counter. */
  lemma {:induction false} ParseRender(n: nat)
    ensures DecimalValue(NatToString(n)) == n
    decreases n
  {
    var s := NatToString(n);
    if n >= 10 {
      var prefix := NatToString(n / 10);
      assert s[..|s| - 1] == prefix;
      ParseRender(n / 10);
    }
  }

  /** Distinct counters render as distinct strings. */
  lemma RenderInjective(a: nat, b: nat)
    ensures NatToString(a) == NatToString(b) ==> a == b
  {
    ParseRender(a);
    ParseRender(b);
  }

  /** A canonical string has a positive value unless it is "0". */
  lemma {:induction false} CanonicalValuePositive(s: string)
    requires IsCanonical(s) && s[0] != '0'
    ensures DecimalValue(s) >= 1
    decreases |s|
  {
    if |s| > 1 {
      var prefix := s[..|s| - 1];
      assert prefix[0] == s[0];
      CanonicalValuePositive(prefix);
    }
  }

  /** Rendering the value of a canonical string gives the string back: every
      canonical string is the rendering of exactly one counter. */
  lemma {:induction false} RenderParse(s: string)
    requires IsCanonical(s)
    ensures NatToString(DecimalValue(s)) == s
    decreases |s|
  {
    if |s| == 1 {
      assert s[..0] == [];
    } else {
      var prefix := s[..|s| - 1];
      assert prefix[0] == s[0];
      CanonicalValuePositive(prefix);
      RenderParse(prefix);
      var n := DecimalValue(s);
      assert n / 10 == DecimalValue(prefix) && n % 10 == DigitValue(s[|s| - 1]);
      assert s == prefix + [s[|s| - 1]];
    }
  }
}
