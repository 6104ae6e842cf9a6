/** Decimal text of natural numbers. */
module Decimal {
  import opened Common

  predicate IsDigit(c: char) {
    '0' <= c <= '9'
  }

  /** A hexadecimal digit. */
  predicate IsHex(c: char) {
    IsDigit(c) || 'a' <= c <= 'f' || 'A' <= c <= 'F'
  }

  predicate AllDigits(s: string) {
    forall i | 0 <= i < |s| :: IsDigit(s[i])
  }

  function DigitChar(d: nat): (c: char)
    requires d < 10
    ensures IsDigit(c)
  {
    (d + '0' as int) as char
  }

  function DigitValue(c: char): (d: nat)
    requires IsDigit(c)
    ensures d < 10 && DigitChar(d) == c
  {
    c as int - '0' as int
  }

  function Pow10(k: nat): (p: nat)
    ensures p > 0
  {
    if k == 0 then 1 else 10 * Pow10(k - 1)
  }

  function NumberText(n: nat): (s: string)
    ensures s != "" && AllDigits(s)
  {
    if n < 10 then [DigitChar(n)] else NumberText(n / 10) + [DigitChar(n % 10)]
  }

  /** The lowest `k` digits of `n`, zeros included. */
  function Padded(n: nat, k: nat): (s: string)
    ensures |s| == k && AllDigits(s)
  {
    if k == 0 then "" else Padded(n / 10, k - 1) + [DigitChar(n % 10)]
  }

  function ParseNat(s: string): nat
    requires AllDigits(s)
  {
    if s == "" then 0 else 10 * ParseNat(ButLast(s)) + DigitValue(Last(s))
  }

  lemma {:induction false} ParseNumberText(n: nat)
    ensures ParseNat(NumberText(n)) == n
  {
    if n >= 10 {
      ParseNumberText(n / 10);
      assert ButLast(NumberText(n)) == NumberText(n / 10);
    } else {
      assert ButLast(NumberText(n)) == "";
    }
  }

  /** What is left of `n` without its lowest `k` digits. */
  function Without(n: nat, k: nat): nat {
    if k == 0 then n else Without(n / 10, k - 1)
  }

  lemma {:induction false} SplitDigits(n: nat, k: nat)
    ensures n == Without(n, k) * Pow10(k) + ParseNat(Padded(n, k))
  {
    if k > 0 {
      SplitDigits(n / 10, k - 1);
      assert ButLast(Padded(n, k)) == Padded(n / 10, k - 1);
      OneMoreDigit(n, Without(n, k), Pow10(k - 1), ParseNat(Padded(n / 10, k - 1)));
    }
  }

  lemma OneMoreDigit(n: nat, w: nat, q: nat, r: nat)
    requires n / 10 == w * q + r
    ensures n == w * (10 * q) + (10 * r + n % 10)
  {
    assert w * (10 * q) == 10 * (w * q);
  }
}
