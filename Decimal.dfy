/**
 * Base-10 digit strings over ASCII '0'..'9': reading them as Python's `int(...)`
 * does, and writing a natural number as Python's `str(...)` does.
 */
module Decimal {

  predicate IsDigit(c: char) {
    '0' <= c <= '9'
  }

  predicate AllDigits(s: string) {
    forall k :: 0 <= k < |s| ==> IsDigit(s[k])
  }

  function DigitValue(c: char): (d: nat)
    requires IsDigit(c)
    ensures d < 10
  {
    (c as int) - ('0' as int)
  }

  function DigitChar(d: nat): (c: char)
    requires d < 10
    ensures IsDigit(c) && DigitValue(c) == d
  {
    (('0' as int) + d) as char
  }

  function Pow10(n: nat): nat {
    if n == 0 then 1 else 10 * Pow10(n - 1)
  }

  /**
   * Python's `int(s)` on a digit string: its value read in base 10, leading
   * zeros allowed ("007" is 7). `k` digits never spell `10^k` or more.
   */
  function Value(s: string): (v: nat)
    requires AllDigits(s)
    ensures v < Pow10(|s|)
  {
    if s == [] then 0 else 10 * Value(s[..|s| - 1]) + DigitValue(s[|s| - 1])
  }

  /**
   * Python's `str(n)` for a natural: the shortest decimal spelling of `n`, with
   * no leading zero unless `n` is 0, which reads back as `n`.
   */
  function FromNat(n: nat): (s: string)
    ensures |s| >= 1 && AllDigits(s)
    ensures |s| > 1 ==> s[0] != '0'
    ensures Value(s) == n
  {
    if n < 10 then [DigitChar(n)]
    else
      var s := FromNat(n / 10) + [DigitChar(n % 10)];
      assert s[..|s| - 1] == FromNat(n / 10);
      s
  }

  /** Python's `str(n)` for an integer: a '-' before the spelling of `-n` when `n` is negative. */
  function FromInt(n: int): (s: string)
    ensures n >= 0 ==> |s| >= 1 && AllDigits(s) && Value(s) == n && (|s| > 1 ==> s[0] != '0')
    ensures n < 0 ==> |s| >= 2 && s[0] == '-' && AllDigits(s[1..]) && Value(s[1..]) == -n
    ensures n < 0 ==> |s| > 2 ==> s[1] != '0'
  {
    if n < 0 then
      var s := "-" + FromNat(-n);
      assert s[1..] == FromNat(-n);
      s
    else FromNat(n)
  }

  /** `FromNat` is injective, so distinct scores are stored as distinct strings. */
  lemma FromNatInjective(m: nat, n: nat)
    requires FromNat(m) == FromNat(n)
    ensures m == n
  {
  }
}
