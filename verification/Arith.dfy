/** Numbers: what several modules share. */
module Arith {

  /** An unsigned 8-bit number. */
  type Octet = n: nat | n < 256

  function Sum(s: seq<int>): int {
    if s == [] then 0 else Sum(s[..|s| - 1]) + s[|s| - 1]
  }

  lemma MulMono(x: int, y: int, z: int)
    requires x <= y && z >= 0
    ensures x * z <= y * z
  {
  }

  /** A quotient is pinned down by its product with the divisor. */
  lemma QuotientIs(a: int, d: int, q: int)
    requires d > 0 && q * d <= a < q * d + d
    ensures a / d == q
  {
    var r := a / d;
    assert r * d <= a < r * d + d;
    if r < q {
      MulMono(r + 1, q, d);
    } else if r > q {
      MulMono(q + 1, r, d);
    }
  }

  lemma RemainderIs(a: int, d: int, q: int)
    requires d > 0 && q * d <= a < q * d + d
    ensures a % d == a - q * d
  {
    QuotientIs(a, d, q);
    assert a == d * (a / d) + a % d;
  }

  /** k reaches ceil(n / b) exactly when k * b covers n, and not before. */
  lemma CeilDiv(n: nat, b: int, k: nat)
    requires b > 0 && (k == 0 || n > k * b - b)
    ensures k <= (n + b - 1) / b
    ensures k == (n + b - 1) / b <==> n <= k * b
  {
    var c := (n + b - 1) / b;
    assert c * b <= n + b - 1 < c * b + b;
    if n <= k * b {
      if k == 0 {
        QuotientIs(n + b - 1, b, 0);
      } else {
        QuotientIs(n + b - 1, b, k);
      }
    } else if c <= k {
      MulMono(c, k, b);
    }
  }
}
