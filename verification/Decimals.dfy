/** Decimal texts of integers. */
module Decimals {

  function Digits(n: nat): (text: string)
    ensures text != "" && forall i :: 0 <= i < |text| ==> text[i] in "0123456789"
  {
    if n < 10 then ["0123456789"[n]] else Digits(n / 10) + ["0123456789"[n % 10]]
  }

  function Decimal(n: int): (text: string)
    ensures ':' !in text && '*' !in text
  {
    if n < 0 then "-" + Digits(-n) else Digits(n)
  }

  lemma {:induction false} DigitsIdentify(n: nat, m: nat)
    requires Digits(n) == Digits(m)
    ensures n == m
  {
    if n >= 10 && m >= 10 {
      LastApart(Digits(n / 10), "0123456789"[n % 10], Digits(m / 10), "0123456789"[m % 10]);
      DigitsIdentify(n / 10, m / 10);
    }
  }

  lemma {:induction false} LastApart(a: string, x: char, b: string, y: char)
    requires a + [x] == b + [y]
    ensures a == b && x == y
  {
    assert |a| == |b| && (a + [x])[|a|] == x && (b + [y])[|b|] == y;
    assert a == (a + [x])[..|a|] && b == (b + [y])[..|b|];
  }

  /** Numbers up to 999,999 have at most six digits. */
  lemma {:induction false} DigitsAreShort(n: nat)
    requires n < 1_000_000
    ensures |Digits(n)| <= 6
  {
    assert |Digits(n)| <= |Digits(n / 10)| + 1 && |Digits(n / 10)| <= |Digits(n / 10 / 10)| + 1;
    assert |Digits(n / 10 / 10)| <= |Digits(n / 10 / 10 / 10)| + 1 && |Digits(n / 10 / 10 / 10)| <= |Digits(n / 10 / 10 / 10 / 10)| + 1;
    assert |Digits(n / 10 / 10 / 10 / 10)| <= |Digits(n / 10 / 10 / 10 / 10 / 10)| + 1 && n / 10 / 10 / 10 / 10 / 10 < 10;
  }

  lemma {:induction false} DecimalSign(n: int)
    ensures Decimal(n) != "" && (Decimal(n)[0] == '-' <==> n < 0)
  {
  }

  lemma {:induction false} DecimalIdentifies(n: int, m: int)
    requires Decimal(n) == Decimal(m)
    ensures n == m
  {
    DecimalSign(n);
    DecimalSign(m);
    if n < 0 {
      assert Decimal(n)[1..] == Digits(-n) && Decimal(m)[1..] == Digits(-m);
      DigitsIdentify(-n, -m);
    } else {
      DigitsIdentify(n, m);
    }
  }
}
