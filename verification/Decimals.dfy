/** Decimal text of a number, as in a template literal. */
module Decimals {
  const DIGITS: string := "0123456789"

  function Decimal(n: nat): (s: string)
    ensures s != ""
  {
    if n < 10 then [DIGITS[n]] else Decimal(n / 10) + [DIGITS[n % 10]]
  }

  /** Different numbers have different texts. */
  lemma {:induction false} DecimalInjective(m: nat, n: nat)
    requires Decimal(m) == Decimal(n)
    ensures m == n
  {
    var s := Decimal(m);
    assert forall i, j :: 0 <= i < j < 10 ==> DIGITS[i] != DIGITS[j];
    assert s[|s| - 1] == DIGITS[m % 10] == DIGITS[n % 10];
    if m >= 10 && n >= 10 {
      assert Decimal(m / 10) == s[..|s| - 1] == Decimal(n / 10);
      DecimalInjective(m / 10, n / 10);
    }
  }

  predicate IsDigit(c: char) {
    '0' <= c <= '9'
  }

  /** The number that a text of digits stands for. */
  function ValueOf(s: string): nat
    requires forall i :: 0 <= i < |s| ==> IsDigit(s[i])
  {
    if s == "" then 0 else assert IsDigit(s[|s| - 1]); 10 * ValueOf(s[..|s| - 1]) + (s[|s| - 1] as int - '0' as int)
  }

  /** The text consists of digits, does not start with "0" unless it is "0", and stands for the number. */
  lemma {:induction false} DecimalStandsFor(n: nat)
    ensures forall i :: 0 <= i < |Decimal(n)| ==> IsDigit(Decimal(n)[i])
    ensures ValueOf(Decimal(n)) == n
    ensures Decimal(n)[0] == '0' <==> n == 0
  {
    var s := Decimal(n);
    if n < 10 {
      assert s[..0] == "";
    } else {
      DecimalStandsFor(n / 10);
      assert s[..|s| - 1] == Decimal(n / 10);
    }
  }
}
