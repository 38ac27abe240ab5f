/** Facts about multiplication and division by a block size that the solver does not find alone. */
module Arith {

  lemma MulLe(a: int, b: int, k: nat)
    requires a <= b
    ensures a * k <= b * k
  {
    assert b * k - a * k == (b - a) * k;
  }

  /** `n / d` is the `q` with `q * d <= n < (q + 1) * d`. */
  lemma DivUnique(n: int, d: nat, q: int)
    requires d > 0 && q * d <= n < q * d + d
    ensures n / d == q
  {
    var q', r := n / d, n % d;
    assert n == q' * d + r;
    if q' < q {
      MulLe(q' + 1, q, d);
    } else if q' > q {
      MulLe(q + 1, q', d);
    }
  }

  lemma MulDiv(c: int, d: nat)
    requires d > 0
    ensures (c * d) / d == c
  {
    DivUnique(c * d, d, c);
  }

  /** One more stride of `d` adds one to the quotient and keeps the remainder. */
  lemma DivStep(n: int, d: nat)
    requires d > 0
    ensures (n + d) / d == n / d + 1 && (n + d) % d == n % d
  {
    var q, r := n / d, n % d;
    assert n == q * d + r;
    assert (q + 1) * d == q * d + d;
    DivUnique(n + d, d, q + 1);
  }

  lemma MulStep(c: int, d: int)
    ensures (c + 1) * d == c * d + d
  {
  }

  /**
    Python's `a // b`, which rounds toward minus infinity. Dafny's `/`
    agrees with it for a positive divisor; for a negative one both operands
    change sign first.
   */
  function PyFloorDiv(a: int, b: int): (q: int)
    requires b != 0
    ensures b > 0 ==> q * b <= a < q * b + b
    ensures b < 0 ==> q * b + b < a <= q * b
  {
    if b > 0 then a / b
    else
      var q := (-a) / (-b);
      assert q * (-b) <= -a < q * (-b) + (-b);
      q
  }
}
