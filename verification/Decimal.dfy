/** Decimal numerals as Rust prints and parses unsigned integers. */
module Decimal {
  import opened Prelude

  predicate IsDigit(c: char) { '0' <= c <= '9' }

  function Digit(d: nat): (c: char)
    requires d < 10
    ensures IsDigit(c) && DigitValue(c) == d
  {
    '0' + d as char
  }

  function DigitValue(c: char): (d: nat)
    requires IsDigit(c)
    ensures d < 10
  {
    c as int - '0' as int
  }

  predicate AllDigits(s: string) {
    forall i :: 0 <= i < |s| ==> IsDigit(s[i])
  }

  /** The numeral of n, without leading zeros. */
  function Print(n: nat): (s: string)
    ensures AllDigits(s) && |s| > 0
  {
    if n < 10 then [Digit(n)] else Print(n / 10) + [Digit(n % 10)]
  }

  /** The number a digit string denotes; leading zeros are allowed. */
  function Value(s: string): nat
    requires AllDigits(s)
  {
    if s == [] then 0 else 10 * Value(s[..|s| - 1]) + DigitValue(s[|s| - 1])
  }

  lemma {:induction false} ValueOfPrint(n: nat)
    ensures Value(Print(n)) == n
  {
    if n < 10 {
      assert Value([Digit(n)]) == 10 * Value([]) + n by { assert [Digit(n)][..0] == []; }
    } else {
      ValueOfPrint(n / 10);
      assert Print(n)[..|Print(n)| - 1] == Print(n / 10);
    }
  }

  lemma PrintInjective(n: nat, m: nat)
    requires Print(n) == Print(m)
    ensures n == m
  {
    ValueOfPrint(n);
    ValueOfPrint(m);
  }

  function Pow10(k: nat): (p: nat)
    ensures p >= 1
  {
    if k == 0 then 1 else 10 * Pow10(k - 1)
  }

  /** A number below 10^k prints in at most k digits. */
  lemma {:induction false} PrintLength(n: nat, k: nat)
    requires k >= 1 && n < Pow10(k)
    ensures |Print(n)| <= k
    decreases k
  {
    if n >= 10 {
      assert k > 1;
      PrintLength(n / 10, k - 1);
    }
  }

  const USIZE_LIMIT: nat := 0x1_0000_0000_0000_0000

  /** str::parse::<usize>: an optional plus sign, at least one digit, and no overflow. */
  function ParseUsize(s: string): (r: Option<nat>)
    ensures r.Some? ==> r.value < USIZE_LIMIT
  {
    var digits := if s != [] && s[0] == '+' then s[1..] else s;
    if digits == [] || !AllDigits(digits) then None
    else if Value(digits) >= USIZE_LIMIT then None
    else Some(Value(digits))
  }

  lemma ParseUndoesPrint(n: nat)
    requires n < USIZE_LIMIT
    ensures ParseUsize(Print(n)) == Some(n)
  {
    ValueOfPrint(n);
    assert IsDigit(Print(n)[0]);
  }
}
