/**
  Decimal rendering of a non-negative integer, as a JavaScript template literal
  `${n}` produces it for the word count in the editor's "Saved." message.
 */
module Decimal {

  predicate IsDigit(c: char) {
    '0' <= c <= '9'
  }

  predicate IsDigits(s: string) {
    forall i :: 0 <= i < |s| ==> IsDigit(s[i])
  }

  function DigitChar(d: nat): (c: char)
    requires d < 10
    ensures IsDigit(c)
  {
    (48 + d) as char
  }

  function DigitValue(c: char): (d: nat)
    requires IsDigit(c)
    ensures d < 10 && DigitChar(d) == c
  {
    (c as int) - 48
  }

  /** `Number.MAX_SAFE_INTEGER`, 2^53 - 1: the largest count a JSON number
      carries exactly into a JavaScript number. */
  const MaxSafeInteger: nat := 0x1F_FFFF_FFFF_FFFF

  /** A count as the editor receives it from a JSON reply. */
  type SafeCount = n: nat | n <= MaxSafeInteger

  /** 10^k. */
  function Pow10(k: nat): (p: nat)
    ensures p >= 1
  {
    if k == 0 then 1 else 10 * Pow10(k - 1)
  }

  /** `${n}`: the shortest decimal numeral of `n`. JavaScript writes this form
      for every integer below 10^21 (see `SafeCountIsPlainNumeral`). */
  function DecimalString(n: nat): (s: string)
    ensures |s| >= 1 && IsDigits(s)
    ensures s[0] == '0' ==> s == "0"
  {
    if n < 10 then [DigitChar(n)] else DecimalString(n / 10) + [DigitChar(n % 10)]
  }

  /** The value a string of decimal digits denotes. */
  function DigitsValue(s: string): nat
    requires IsDigits(s)
  {
    if s == [] then 0 else 10 * DigitsValue(s[..|s| - 1]) + DigitValue(s[|s| - 1])
  }

  /** Reading the numeral back gives the number: the rendering loses nothing. */
  lemma {:induction false} DecimalRoundTrip(n: nat)
    ensures DigitsValue(DecimalString(n)) == n
  {
    var s := DecimalString(n);
    if n < 10 {
      assert s[..0] == [];
    } else {
      DecimalRoundTrip(n / 10);
      assert s[..|s| - 1] == DecimalString(n / 10);
    }
  }

  /** Different numbers render differently. */
  lemma DecimalInjective(m: nat, n: nat)
    requires DecimalString(m) == DecimalString(n)
    ensures m == n
  {
    DecimalRoundTrip(m);
    DecimalRoundTrip(n);
  }

  lemma {:induction false} Pow10Add(a: nat, b: nat)
    ensures Pow10(a + b) == Pow10(a) * Pow10(b)
  {
    if a > 0 {
      Pow10Add(a - 1, b);
    }
  }

  /** A number below 10^k has at most k digits. */
  lemma {:induction false} DecimalLength(n: nat, k: nat)
    requires 1 <= k && n < Pow10(k)
    ensures |DecimalString(n)| <= k
  {
    if n >= 10 {
      assert k >= 2;
      DecimalLength(n / 10, k - 1);
    }
  }

  /** Every count a reply can carry exactly lies below 10^16, far below the
      10^21 from which JavaScript switches to exponent notation, so `${n}`
      renders it as the plain numeral `DecimalString(n)`, of at most 16 digits. */
  lemma SafeCountIsPlainNumeral(n: SafeCount)
    ensures n < Pow10(16) < Pow10(21)
    ensures |DecimalString(n)| <= 16
  {
    Pow10Add(8, 8);
    Pow10Add(16, 5);
    DecimalLength(n, 16);
  }
}
