/** Decimal numerals, as `str(n)` and f-strings write a natural number. */
module Decimal {

  predicate IsDigit(c: char) {
    '0' <= c <= '9'
  }

  function Digit(d: nat): (c: char)
    requires d < 10
    ensures IsDigit(c)
  {
    '0' + d as char
  }

  function Numeral(n: nat): (s: string)
    ensures s != "" && forall c :: c in s ==> IsDigit(c)
  {
    if n < 10 then [Digit(n)] else Numeral(n / 10) + [Digit(n % 10)]
  }

  function Value(s: string): nat {
    if s == "" then 0 else
      var last := s[|s| - 1];
      Value(s[..|s| - 1]) * 10 + (if IsDigit(last) then (last - '0') as nat else 0)
  }

  /** Reading a numeral back gives the number. */
  lemma {:induction false} ReadBack(n: nat)
    ensures Value(Numeral(n)) == n
  {
    if n >= 10 {
      ReadBack(n / 10);
      assert Numeral(n)[..|Numeral(n)| - 1] == Numeral(n / 10);
    } else {
      assert Numeral(n)[..0] == "";
    }
  }

  lemma NumeralInjective(m: nat, n: nat)
    requires Numeral(m) == Numeral(n)
    ensures m == n
  {
    ReadBack(m);
    ReadBack(n);
  }
}
