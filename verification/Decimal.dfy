/** Decimal text of integers, as `str(n)` prints it. */
module Decimal {
  import opened Options

  predicate IsDigit(c: char) { '0' <= c <= '9' }

  function Digit(d: nat): (c: char)
    requires d < 10
    ensures IsDigit(c) && DigitValue(c) == d
  {
    (48 + d) as char
  }

  function DigitValue(c: char): (d: nat)
    requires IsDigit(c)
    ensures d < 10
  {
    c as int - 48
  }

  predicate AllDigits(s: string) {
    forall i :: 0 <= i < |s| ==> IsDigit(s[i])
  }

  function NatText(n: nat): (s: string)
    ensures s != [] && AllDigits(s)
  {
    if n < 10 then [Digit(n)] else NatText(n / 10) + [Digit(n % 10)]
  }

  function NatValue(s: string): nat
    requires AllDigits(s)
  {
    if s == [] then 0 else 10 * NatValue(s[..|s| - 1]) + DigitValue(s[|s| - 1])
  }

  function IntText(n: int): string {
    if n < 0 then "-" + NatText(-n) else NatText(n)
  }

  /** A strict reader: an optional minus sign and at least one digit. */
  function ParseInt(s: string): Option<int> {
    if s != [] && s[0] == '-' then
      if s[1..] != [] && AllDigits(s[1..]) then
        var magnitude: int := NatValue(s[1..]);
        Some(-magnitude)
      else None
    else if s != [] && AllDigits(s) then Some(NatValue(s)) else None
  }

  lemma {:induction false} NatRoundTrip(n: nat)
    ensures NatValue(NatText(n)) == n
  {
    if n >= 10 {
      NatRoundTrip(n / 10);
      assert NatText(n)[..|NatText(n)| - 1] == NatText(n / 10);
    } else {
      assert NatText(n)[..0] == [];
    }
  }

  /** n divided by ten, k times over. */
  function DividedByTen(n: nat, k: nat): nat {
    if k == 0 then n else DividedByTen(n / 10, k - 1)
  }

  /** Every place of the text holds its decimal digit, the units last, and the
      first digit is not a zero unless the number is. */
  lemma {:induction false} DigitAt(n: nat, k: nat)
    requires k < |NatText(n)|
    ensures NatText(n)[|NatText(n)| - 1 - k] == "0123456789"[DividedByTen(n, k) % 10]
    ensures n > 0 ==> NatText(n)[0] != '0'
  {
    if n < 10 {
      DigitName(n);
    } else {
      DigitName(n % 10);
      DigitAt(n / 10, if k == 0 then 0 else k - 1);
    }
  }

  lemma DigitName(d: nat)
    requires d < 10
    ensures Digit(d) == "0123456789"[d] && (d > 0 ==> Digit(d) != '0')
  {
  }

  /** Printing an integer loses nothing. */
  lemma IntRoundTrip(n: int)
    ensures ParseInt(IntText(n)) == Some(n)
  {
    if n < 0 {
      NatRoundTrip(-n);
      assert IntText(n)[1..] == NatText(-n);
    } else {
      NatRoundTrip(n);
    }
  }

  lemma NatTextInjective(m: nat, n: nat)
    requires NatText(m) == NatText(n)
    ensures m == n
  {
    NatRoundTrip(m);
    NatRoundTrip(n);
  }

  lemma IntTextChars(n: int)
    ensures IntText(n) != []
    ensures forall i :: 0 <= i < |IntText(n)| ==> IsDigit(IntText(n)[i]) || IntText(n)[i] == '-'
  {
  }
}
