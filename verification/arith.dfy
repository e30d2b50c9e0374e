/**
 Facts about integer division and remainder shared by the positional
 number codecs: the base-26 names and the little-endian size prefixes.
 */
module Arith {

  lemma MulMonotone(a: nat, b: nat, p: nat)
    requires a <= b
    ensures a * p <= b * p
  {
    assert b * p == a * p + (b - a) * p;
  }

  /** A value below `k` multiples of `p` has a quotient by `p` below `k`. */
  lemma DivBelow(m: nat, p: nat, k: nat)
    requires p > 0 && m < k * p
    ensures m / p < k
  {
    var q := m / p;
    assert m == q * p + m % p;
    if q >= k {
      MulMonotone(k, q, p);
    }
  }

  /** A leading digit below `b` in front of a tail below `p` stays below `b * p`. */
  lemma DigitBelow(d: nat, rest: nat, b: nat, p: nat)
    requires d < b && rest < p
    ensures d * p + rest < b * p
  {
    MulMonotone(d + 1, b, p);
    assert (d + 1) * p == d * p + p;
  }

  /** The quotient and remainder are the only pair with their defining properties. */
  lemma DivModUnique(x: int, d: int, q: int, r: int)
    requires d > 0 && 0 <= r < d && x == q * d + r
    ensures x / d == q && x % d == r
  {
    var q' := x / d;
    var r' := x % d;
    assert x == q' * d + r';
    if q > q' {
      assert q * d == q' * d + (q - q') * d;
      MulMonotone(1, q - q', d);
    } else if q < q' {
      assert q' * d == q * d + (q' - q) * d;
      MulMonotone(1, q' - q, d);
    }
  }

  /** Reducing modulo a multiple of `b` keeps the remainder modulo `b`. */
  lemma ModOfMultiple(x: nat, a: nat, b: nat)
    requires a > 0 && b > 0
    ensures (x % (a * b)) % b == x % b
  {
    var m := x % (a * b);
    var q := x / (a * b);
    assert x == q * (a * b) + m;
    assert m == (m / b) * b + m % b;
    assert x == (q * a + m / b) * b + m % b;
    DivModUnique(x, b, q * a + m / b, m % b);
  }
}
