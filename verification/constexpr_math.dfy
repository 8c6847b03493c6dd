/** `constexpr_pow` (constexpr_math.hpp): exponentiation by squaring. */
module ConstexprMath {
  import opened SizeT

  /** b raised to n, by repeated multiplication. */
  function Power(b: int, n: nat): int {
    if n == 0 then 1 else b * Power(b, n - 1)
  }

  lemma {:induction false} PowerAdd(b: int, m: nat, n: nat)
    ensures Power(b, m + n) == Power(b, m) * Power(b, n)
    decreases m
  {
    if m > 0 {
      PowerAdd(b, m - 1, n);
      assert Power(b, m + n) == b * Power(b, m - 1 + n);
    }
  }

  /** Squaring the base doubles the exponent. */
  lemma {:induction false} PowerSquare(b: int, n: nat)
    ensures Power(b * b, n) == Power(b, 2 * n)
    decreases n
  {
    if n > 0 {
      var rest := Power(b, 2 * (n - 1));
      PowerSquare(b, n - 1);
      assert Power(b * b, n) == (b * b) * rest;
      PowerAdd(b, 2, 2 * (n - 1));
      assert Power(b, 1) == b;
      assert Power(b, 2) == b * b;
      assert 2 + 2 * (n - 1) == 2 * n;
      assert Power(b, 2 * n) == (b * b) * rest;
    }
  }

  /** One round of the loop: the low bit of the exponent goes into the result, the rest
      into the squared base. */
  lemma PowerHalve(b: int, e: nat)
    ensures Power(b, e) == (if e % 2 == 1 then b else 1) * Power(b * b, e / 2)
  {
    PowerSquare(b, e / 2);
    if e % 2 == 1 {
      PowerAdd(b, 1, 2 * (e / 2));
      assert 1 + 2 * (e / 2) == e;
    } else {
      assert 2 * (e / 2) == e;
    }
  }

  /** `constexpr_pow(value, exp)`: `value` to the power `exp`, computed by squaring. */
  method ConstexprPow(value: int, exp: Size) returns (result: int)
    ensures result == Power(value, exp)
    ensures exp == 0 ==> result == 1
  {
    result := 1;
    var v := value;
    var e: nat := exp;
    while e > 0
      invariant result * Power(v, e) == Power(value, exp)
      decreases e
    {
      PowerHalve(v, e);
      if e % 2 == 1 {
        result := result * v;
      }
      e := e / 2;
      v := v * v;
    }
  }
}
