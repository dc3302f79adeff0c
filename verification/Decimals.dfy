/** Decimal digits: printing a natural number, and the number a string of digits denotes. */
module Decimals {
  function Digit(d: nat): char
    requires d < 10
  {
    ('0' as int + d) as char
  }

  predicate IsDigit(c: char) { '0' <= c <= '9' }

  function Value(c: char): (d: nat)
    requires IsDigit(c)
    ensures d < 10
  {
    c as int - '0' as int
  }

  function Digits(n: nat): (s: string)
    ensures |s| > 0
    ensures forall i :: 0 <= i < |s| ==> IsDigit(s[i])
  {
    if n < 10 then [Digit(n)] else Digits(n / 10) + [Digit(n % 10)]
  }

  predicate AllDigits(s: string) { forall i :: 0 <= i < |s| ==> IsDigit(s[i]) }

  function Pow10(k: nat): (r: nat)
    ensures r > 0
  {
    if k == 0 then 1 else 10 * Pow10(k - 1)
  }

  /** The number a string of digits denotes. */
  function Decimal(s: string): nat
    requires AllDigits(s)
  {
    if s == "" then 0 else Value(s[0]) * Pow10(|s| - 1) + Decimal(s[1..])
  }

  lemma {:induction false} DecimalAppend(s: string, c: char)
    requires AllDigits(s) && IsDigit(c)
    ensures Decimal(s + [c]) == 10 * Decimal(s) + Value(c)
  {
    if s == "" {
      assert s + [c] == [c];
    } else {
      DecimalAppend(s[1..], c);
      assert (s + [c])[1..] == s[1..] + [c];
      assert Value(s[0]) * Pow10(|s|) == 10 * (Value(s[0]) * Pow10(|s| - 1));
    }
  }

  lemma {:induction false} DecimalOfDigits(n: nat)
    ensures Decimal(Digits(n)) == n
  {
    if n >= 10 {
      DecimalOfDigits(n / 10);
      DecimalAppend(Digits(n / 10), Digit(n % 10));
    }
  }
}
