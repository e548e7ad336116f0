/** Numbers as a C++ output stream prints them, in base 8, 10 or 16. */
module Numerals {
  import MixedRadix

  function Digit(d: nat): char
    requires d < 16
  {
    if d < 10 then '0' + d as char else 'a' + (d - 10) as char
  }

  function Numeral(n: nat, base: nat): (s: string)
    requires 2 <= base <= 16
    ensures s != []
    decreases n
  {
    if n < base then [Digit(n)]
    else
      QuotientSmaller(n, base);
      Numeral(n / base, base) + [Digit(n % base)]
  }

  function Decimal(n: nat): string {
    Numeral(n, 10)
  }

  function Hex(n: nat): (s: string)
    ensures s != []
  {
    Numeral(n, 16)
  }

  lemma QuotientSmaller(n: nat, base: nat)
    requires 2 <= base <= n
    ensures n / base < n && n % base < base
  {}

  lemma SameDigit(d: nat, e: nat)
    requires d < 16 && e < 16 && Digit(d) == Digit(e)
    ensures d == e
  {}

  lemma ShortNumeral(n: nat, base: nat)
    requires 2 <= base <= 16 && n < base
    ensures Numeral(n, base) == [Digit(n)]
  {}

  lemma LastDigit(n: nat, base: nat)
    requires 2 <= base <= 16 && base <= n
    ensures n % base < base
    ensures var s := Numeral(n, base);
            |s| >= 2 && s[..|s| - 1] == Numeral(n / base, base) && s[|s| - 1] == Digit(n % base)
  {
    QuotientSmaller(n, base);
  }

  /** Different numbers print differently. */
  lemma {:induction false} NumeralInjective(m: nat, n: nat, base: nat)
    requires 2 <= base <= 16 && Numeral(m, base) == Numeral(n, base)
    ensures m == n
    decreases m
  {
    hide Numeral, Digit;
    if m < base {
      ShortNumeral(m, base);
    } else {
      LastDigit(m, base);
    }
    if n < base {
      ShortNumeral(n, base);
    } else {
      LastDigit(n, base);
    }
    if m < base {
      SameDigit(m, n);
    } else {
      SameDigit(m % base, n % base);
      QuotientSmaller(m, base);
      NumeralInjective(m / base, n / base, base);
      SamePieces(m, n, base);
    }
  }

  lemma SamePieces(m: nat, n: nat, base: nat)
    requires base > 0 && m / base == n / base && m % base == n % base
    ensures m == n
  {}

  /** Decimal, octal and hexadecimal digits, one after the other, most significant first. */
  lemma NumeralDigits(n: nat, base: nat)
    requires 2 <= base <= 16
    ensures n < base ==> Numeral(n, base) == ["0123456789abcdef"[n]]
    ensures n >= base ==> Numeral(n, base) == Numeral(n / base, base) + ["0123456789abcdef"[n % base]]
  {
    assert forall d: nat :: d < 16 ==> Digit(d) == "0123456789abcdef"[d];
    if n >= base {
      QuotientSmaller(n, base);
    }
  }

  lemma {:induction false} DecimalHasDigitsOnly(n: nat)
    ensures forall i :: 0 <= i < |Decimal(n)| ==> '0' <= Decimal(n)[i] <= '9'
    decreases n
  {
    if n >= 10 {
      DecimalHasDigitsOnly(n / 10);
      assert Decimal(n) == Decimal(n / 10) + [Digit(n % 10)];
    }
  }
}
