/** Decimal numerals: reading them, printing them, and how they sort as text. */
module Decimals {

  predicate IsDigit(c: char) {
    '0' <= c <= '9'
  }

  function ValueOf(c: char): nat
    requires IsDigit(c)
  {
    c as int - '0' as int
  }

  function Number(digits: string): nat
    requires forall c | c in digits :: IsDigit(c)
  {
    if digits == [] then 0
    else
      var last := digits[|digits| - 1];
      assert IsDigit(last);
      10 * Number(digits[..|digits| - 1]) + ValueOf(last)
  }

  /** The usual numeral of a number. */
  function Decimal(n: nat): (s: string)
    ensures s != [] && forall c | c in s :: IsDigit(c)
  {
    var last := [('0' as int + n % 10) as char];
    if n < 10 then last else Decimal(n / 10) + last
  }

  lemma {:induction false} NumberSnoc(s: string, c: char)
    requires IsDigit(c) && forall d | d in s :: IsDigit(d)
    ensures Number(s + [c]) == 10 * Number(s) + ValueOf(c)
  {
    assert (s + [c])[..|s|] == s;
  }

  /** Reading the numeral of a number gives the number. */
  lemma {:induction false} NumberOfDecimal(n: nat)
    ensures Number(Decimal(n)) == n
  {
    if n >= 10 {
      NumberOfDecimal(n / 10);
      NumberSnoc(Decimal(n / 10), ('0' as int + n % 10) as char);
    } else {
      NumberSnoc([], ('0' as int + n) as char);
      assert [] + Decimal(n) == Decimal(n);
    }
  }
}
