/**
  Unsigned decimal numerals: `snprintf ("%u")` and the digit loops of the parsers,
  which accumulate in 32 bits.
*/
module Decimal {
  import opened Octets
  import opened Lists

  predicate IsDigit(c: char) { '0' <= c <= '9' }

  /** The characters for which `isspace` holds. */
  predicate IsSpace(c: char) { c == ' ' || '\t' <= c <= '\r' }

  function DigitOf(d: nat): (c: char)
    requires d < 10
    ensures IsDigit(c) && ValueOf(c) == d && c == "0123456789"[d]
  {
    ('0' as int + d) as char
  }

  function ValueOf(c: char): nat
    requires IsDigit(c)
  {
    c as int - '0' as int
  }

  /** "%u". */
  function Digits(n: nat): (s: string)
    ensures |s| > 0 && forall i | 0 <= i < |s| :: IsDigit(s[i])
  {
    if n < 10 then [DigitOf(n)] else Digits(n / 10) + [DigitOf(n % 10)]
  }

  /** The digit loop: the accumulated value, and what follows the digits. */
  function Accumulate(s: string, value: U32): (U32, string)
  {
    if s == [] || !IsDigit(s[0]) then (value, s)
    else Accumulate(s[1..], ((value as int) * 10 + ValueOf(s[0])) % 0x1_0000_0000)
  }

  predicate NoDigitFirst(s: string) { s == [] || !IsDigit(s[0]) }

  lemma AccumulateOne(value: U32, d: nat, rest: string)
    requires d < 10
    ensures Accumulate([DigitOf(d)] + rest, value) == Accumulate(rest, ((value as int) * 10 + d) % 0x1_0000_0000)
  {
    assert ([DigitOf(d)] + rest)[1..] == rest;
  }

  lemma AccumulateLast(n: U32, q: U32, d: nat, rest: string)
    requires d < 10 && n == (q as int) * 10 + d
    ensures Accumulate([DigitOf(d)] + rest, q) == Accumulate(rest, n)
  {
    AccumulateOne(q, d, rest);
  }

  lemma {:induction false} AccumulateDigits(n: U32, rest: string)
    ensures Accumulate(Digits(n) + rest, 0) == Accumulate(rest, n)
  {
    if n < 10 {
      AccumulateLast(n, 0, n, rest);
    } else {
      var q, d := n / 10, n % 10;
      AccumulateDigits(q, [DigitOf(d)] + rest);
      Associate(Digits(q), [DigitOf(d)], rest);
      AccumulateLast(n, q, d, rest);
    }
  }

  /** A number of 32 bits is read as it was printed. */
  lemma NumberRoundTrip(n: U32, rest: string)
    requires NoDigitFirst(rest)
    ensures Accumulate(Digits(n) + rest, 0) == (n, rest)
  {
    AccumulateDigits(n, rest);
  }

  function Ten(k: nat): nat { if k == 0 then 1 else 10 * Ten(k - 1) }

  lemma {:induction false} DigitsLength(n: nat, k: nat)
    requires k > 0 && n < Ten(k)
    ensures |Digits(n)| <= k
  {
    if n >= 10 { DigitsLength(n / 10, k - 1); }
  }

  /** Ten characters hold any number of 32 bits. */
  lemma NumberLength(n: U32)
    ensures |Digits(n)| <= 10
  {
    assert Ten(10) == 10_000_000_000;
    DigitsLength(n, 10);
  }
}
