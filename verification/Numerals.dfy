// Natural numbers in decimal notation, without leading zeros.
module Numerals {

  function Decimal(n: nat): string
  {
    if n < 10 then [Digit(n)] else Decimal(n / 10) + [Digit(n % 10)]
  }

  function Digit(d: nat): char
    requires d < 10
  {
    "0123456789"[d]
  }

  // The digits of a number never start with the digits of a larger one.
  lemma {:induction false} DecimalPrefix(a: nat, b: nat)
    requires Decimal(a) <= Decimal(b)
    ensures a <= b
    decreases b
  {
    if b >= 10 {
      if |Decimal(a)| == |Decimal(b)| {
        DecimalInjective(a, b);
      } else {
        assert Decimal(a) <= Decimal(b / 10);
        DecimalPrefix(a, b / 10);
      }
    } else if a >= 10 {
      DecimalLong(a);
    } else {
      assert Decimal(a)[0] == Decimal(b)[0];
      DigitInjective(a, b);
    }
  }

  lemma DigitInjective(c: nat, d: nat)
    requires c < 10 && d < 10 && Digit(c) == Digit(d)
    ensures c == d
  {
  }

  lemma DecimalLong(a: nat)
    requires a >= 10
    ensures |Decimal(a)| >= 2
  {
    assert |Decimal(a / 10)| >= 1;
  }

  lemma {:induction false} DecimalInjective(a: nat, b: nat)
    requires Decimal(a) == Decimal(b)
    ensures a == b
  {
    if a >= 10 {
      DecimalLong(a);
    }
    if b >= 10 {
      DecimalLong(b);
    }
    var last := |Decimal(a)| - 1;
    assert Decimal(a)[last] == Digit(a % 10) && Decimal(b)[last] == Digit(b % 10);
    DigitInjective(a % 10, b % 10);
    if a >= 10 {
      assert Decimal(a / 10) == Decimal(a)[..last] == Decimal(b)[..last] == Decimal(b / 10);
      DecimalInjective(a / 10, b / 10);
    }
  }
}
