/** Facts about unsigned multiplication and floor division that the
    conversion and counter proofs rely on. */
module Arith {

  lemma MulLe(a: nat, b: nat, c: nat)
    requires a <= b
    ensures a * c <= b * c
  {
    assert b * c - a * c == (b - a) * c;
  }

  /** n / d and n % d are the only quotient and remainder of n by d. */
  lemma DivUnique(n: nat, d: nat, q: nat, r: nat)
    requires d > 0 && r < d && n == q * d + r
    ensures n / d == q && n % d == r
  {
    var q', r' := n / d, n % d;
    assert n == q' * d + r';
    if q < q' {
      MulLe(q + 1, q', d);
      assert false;
    } else if q' < q {
      MulLe(q' + 1, q, d);
      assert false;
    }
  }

  lemma DivLe(a: nat, b: nat, c: nat)
    requires a <= b && c > 0
    ensures a / c <= b / c
  {
    if a / c > b / c {
      MulLe(b / c + 1, a / c, c);
      assert false;
    }
  }

  /** Dividing by a larger divisor never gives a larger quotient. */
  lemma DivByLarger(a: nat, c: nat, d: nat)
    requires 0 < c <= d
    ensures a / d <= a / c
  {
    MulLe(c, d, a / d);
    assert (a / d) * c <= a;
    DivLe((a / d) * c, a, c);
    DivUnique((a / d) * c, c, a / d, 0);
  }

  /** A common factor of dividend and divisor cancels. */
  lemma DivCancel(x: nat, a: nat, c: nat)
    requires a > 0 && c > 0
    ensures (x * c) / (a * c) == x / a
  {
    var q, r := x / a, x % a;
    assert x * c == q * (a * c) + r * c;
    MulLe(r, a - 1, c);
    DivUnique(x * c, a * c, q, r * c);
  }

  /** Floor division twice is floor division by the product. */
  lemma DivDiv(x: nat, a: nat, b: nat)
    requires a > 0 && b > 0
    ensures x / a / b == x / (a * b)
  {
    var q1, r1 := x / a, x % a;
    var q2, r2 := q1 / b, q1 % b;
    assert x == q1 * a + r1;
    assert q1 == q2 * b + r2;
    assert q1 * a == (q2 * b) * a + r2 * a;
    assert (q2 * b) * a == q2 * (a * b);
    MulLe(r2, b - 1, a);
    assert r2 * a + r1 < a * b;
    DivUnique(x, a * b, q2, r2 * a + r1);
  }
}
