/** Integer facts the byte codecs rest on: powers and Euclidean division by
    a symbolic divisor, which the solver does not derive on its own. */
module Arith {

  /** `b` to the power `n`. */
  function Pow(b: nat, n: nat): (p: nat)
    ensures b > 0 ==> p > 0
  {
    if n == 0 then 1 else b * Pow(b, n - 1)
  }

  lemma MulAtLeast(a: int, b: int)
    requires a >= 1 && b >= 1
    ensures a * b >= b
  {
  }

  /** Quotient and remainder are the only pair that reassembles `u`. */
  lemma DivModUnique(u: int, d: int, q: int, r: int)
    requires d > 0 && 0 <= r < d && u == q * d + r
    ensures u / d == q && u % d == r
  {
    var q', r' := u / d, u % d;
    assert u == q' * d + r';
    if q' > q {
      assert (q' - q) * d == r - r';
      MulAtLeast(q' - q, d);
    } else if q' < q {
      assert (q - q') * d == r' - r;
      MulAtLeast(q - q', d);
    }
  }

  /** Dividing by `a * b` is dividing by `a`, then by `b`. */
  lemma DivModProduct(u: nat, a: nat, b: nat)
    requires a > 0 && b > 0
    ensures u % (a * b) == u % a + a * ((u / a) % b)
    ensures u / (a * b) == (u / a) / b
  {
    var q, r := u / a, u % a;
    var q2, r2 := q / b, q % b;
    Recombine(u, a, b, q, r, q2, r2);
    RemainderBound(a, b, r, r2);
    DivModUnique(u, a * b, q2, a * r2 + r);
  }

  lemma Recombine(u: int, a: int, b: int, q: int, r: int, q2: int, r2: int)
    requires u == a * q + r && q == b * q2 + r2
    ensures u == q2 * (a * b) + (a * r2 + r)
  {
    calc {
      u;
      a * q + r;
      a * (b * q2 + r2) + r;
      q2 * (a * b) + (a * r2 + r);
    }
  }

  lemma RemainderBound(a: int, b: int, r: int, r2: int)
    requires 0 <= r < a && 0 <= r2 < b
    ensures 0 <= a * r2 + r < a * b
  {
    MulAtLeast(b - r2, a);
    assert (b - r2) * a == a * b - a * r2;
  }

  /** A remainder may be taken before adding. */
  lemma ModAdd(x: nat, y: nat, m: nat)
    requires m > 0
    ensures (x + y) % m == (x % m + y) % m
  {
    var q, r := x / m, x % m;
    var q2, r2 := (r + y) / m, (r + y) % m;
    assert x + y == (q + q2) * m + r2;
    DivModUnique(x + y, m, q + q2, r2);
  }

  lemma PowMonotone(b: nat, m: nat, n: nat)
    requires b >= 1 && m <= n
    ensures Pow(b, m) <= Pow(b, n)
    decreases n
  {
    if m < n {
      PowMonotone(b, m, n - 1);
      MulAtLeast(b, Pow(b, n - 1));
    }
  }
}
