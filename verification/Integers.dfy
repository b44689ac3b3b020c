/** Integer arithmetic. */
module Integers {
  predicate IsPow2(n: nat) {
    n == 1 || (n > 1 && n % 2 == 0 && IsPow2(n / 2))
  }

  lemma ModShift(d: int, k: int, r: int)
    requires 0 <= r < d
    ensures (d * k + r) % d == r && (d * k + r) / d == k
  {
    var q := d * k + r;
    var a := q / d;
    assert q == d * a + q % d;
    if a < k {
      Scale(d, a + 1, k);
    } else if a > k {
      Scale(d, k + 1, a);
    }
  }

  lemma Scale(d: int, a: int, b: int)
    requires d > 0 && a <= b
    ensures d * a <= d * b && d * a == d * (a - 1) + d
  {}

  lemma DivMod(k: int, f: int, d: int)
    requires 0 <= f < d
    ensures (k * d + f) / d == k && (k * d + f) % d == f
  {
    ModShift(d, k, f);
    assert k * d == d * k;
  }

  lemma DivBounds(q: int, d: int, lo: int, hi: int)
    requires d > 0 && lo * d <= q < hi * d
    ensures lo <= q / d < hi
  {
    var k, r := q / d, q % d;
    assert q == k * d + r;
    if k < lo {
      Monotonic(k + 1, lo, d);
    } else if k >= hi {
      Monotonic(hi, k, d);
    }
  }

  lemma Monotonic(a: int, b: int, d: int)
    requires a <= b && d >= 0
    ensures a * d <= b * d
  {}
}
