/** Facts about multiplication and integer division used by the position arithmetic. */
module Arith {

  lemma MulMono(a: int, b: int, k: int)
    requires a <= b && k >= 0
    ensures a * k <= b * k
  {
    assert b * k - a * k == (b - a) * k;
  }

  lemma DivMono(a: int, b: int, d: int)
    requires 0 <= a <= b && d > 0
    ensures a / d <= b / d
  {
    var qa, qb := a / d, b / d;
    assert a == d * qa + a % d && b == d * qb + b % d;
    if qa > qb {
      MulMono(qb + 1, qa, d);
    }
  }

  /** `a / d` is at least `k` when `a` is at least `d * k`. */
  lemma DivAtLeast(a: int, d: int, k: int)
    requires d > 0 && a >= d * k
    ensures a / d >= k
  {
    var q := a / d;
    assert a == d * q + a % d;
    if q < k {
      MulMono(q + 1, k, d);
    }
  }

  /** Division undoes multiplication. */
  lemma MulDivCancel(x: int, d: int)
    requires x >= 0 && d > 0
    ensures (x * d) / d == x
  {
    DivModUnique(x * d, d, x, 0);
  }

  /** Quotient and remainder are determined by any decomposition `x == q * d + r` with `0 <= r < d`. */
  lemma DivModUnique(x: int, d: int, q: int, r: int)
    requires d > 0 && 0 <= r < d && x == q * d + r
    ensures x / d == q && x % d == r
  {
    var q', r' := x / d, x % d;
    assert x == q' * d + r';
    if q' > q {
      MulMono(q + 1, q', d);
    } else if q' < q {
      MulMono(q' + 1, q, d);
    }
  }

  /** The frame a byte position maps to, `((a / b) / c * ir) / or`, never decreases as the position grows. */
  lemma ScaledFrameMono(a: int, a': int, b: int, c: int, ir: int, or: int)
    requires 0 <= a <= a' && b > 0 && c > 0 && ir > 0 && or > 0
    ensures 0 <= ((a / b) / c * ir) / or <= ((a' / b) / c * ir) / or
  {
    DivMono(a, a', b);
    DivMono(a / b, a' / b, c);
    var f, f' := (a / b) / c, (a' / b) / c;
    MulMono(f, f', ir);
    MulMono(0, f, ir);
    DivMono(f * ir, f' * ir, or);
  }
}
