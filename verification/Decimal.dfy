/** Decimal digits of natural numbers: each number has exactly one writing without leading zeros. */
module Decimal {
  type Digit = d: int | 0 <= d < 10

  function Digits(n: nat): (r: seq<Digit>)
    ensures |r| > 0
    ensures r[0] == 0 ==> n == 0
  {
    if n < 10 then [n] else Digits(n / 10) + [n % 10]
  }

  function Value(digits: seq<Digit>): nat {
    if digits == [] then 0 else 10 * Value(digits[..|digits| - 1]) + digits[|digits| - 1]
  }

  /** No leading zero, except in the writing of zero. */
  predicate IsCanonical(digits: seq<Digit>) {
    digits != [] && (digits[0] == 0 ==> |digits| == 1)
  }

  function Power(k: nat): nat {
    if k == 0 then 1 else 10 * Power(k - 1)
  }

  lemma {:induction false} ValueOfDigits(n: nat)
    ensures Value(Digits(n)) == n && IsCanonical(Digits(n))
  {
    if n < 10 {
      assert [n][..0] == [];
    } else {
      ValueOfDigits(n / 10);
      assert Digits(n)[..|Digits(n)| - 1] == Digits(n / 10);
      assert Digits(n)[0] == Digits(n / 10)[0];
    }
  }

  lemma {:induction false} DigitsOfValue(digits: seq<Digit>)
    requires IsCanonical(digits)
    ensures Digits(Value(digits)) == digits
    ensures digits[0] > 0 ==> Value(digits) > 0
  {
    var front, last := digits[..|digits| - 1], digits[|digits| - 1];
    if front == [] {
      assert Value(front) == 0 && digits == [last];
    } else {
      DigitsOfValue(front);
      assert Value(digits) / 10 == Value(front) && Value(digits) % 10 == last;
      assert digits == front + [last];
    }
  }

  lemma {:induction false} ValueBound(digits: seq<Digit>)
    ensures Value(digits) < Power(|digits|)
  {
    if digits != [] {
      ValueBound(digits[..|digits| - 1]);
    }
  }

  lemma {:induction false} LengthBound(n: nat, k: nat)
    requires n < Power(k) && k > 0
    ensures |Digits(n)| <= k
  {
    assert Power(1) == 10 * Power(0);
    if n >= 10 {
      assert n / 10 < Power(k - 1);
      LengthBound(n / 10, k - 1);
    }
  }
}
