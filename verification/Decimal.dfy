/**
 The decimal numerals that the source appends to names: lock tokens, numbered XML
 prefixes, and the " (n)" suffix of a renamed upload all rely on two numbers never
 having the same numeral.
 */
module Decimal {

  function Digit(d: nat): char
    requires d < 10
  {
    "0123456789"[d]
  }

  /** The numeral of `n`, without leading zeros. */
  function Itoa(n: nat): string {
    if n < 10 then [Digit(n)] else Itoa(n / 10) + [Digit(n % 10)]
  }

  lemma {:induction false} ItoaNonEmpty(n: nat)
    ensures |Itoa(n)| > 0
    ensures n >= 10 ==> |Itoa(n)| > 1
  {
    if n >= 10 {
      ItoaNonEmpty(n / 10);
    }
  }

  lemma {:induction false} ItoaInjective(m: nat, n: nat)
    ensures Itoa(m) == Itoa(n) ==> m == n
    decreases m
  {
    ItoaNonEmpty(m);
    ItoaNonEmpty(n);
    if Itoa(m) == Itoa(n) {
      var k := |Itoa(m)| - 1;
      assert Itoa(m)[k] == Digit(m % 10) && Itoa(n)[k] == Digit(n % 10);
      if m >= 10 && n >= 10 {
        assert Itoa(m / 10) == Itoa(m)[..k] && Itoa(n / 10) == Itoa(n)[..k];
        ItoaInjective(m / 10, n / 10);
      }
    }
  }
}
