/** Facts about products and quotients that the other modules use one at a time. */
module Arithmetic {

  lemma MulMonotone(a: int, b: int, d: nat)
    requires a <= b
    ensures a * d <= b * d
  {
  }

  lemma SmallMultiple(k: int, d: int, e: int)
    requires k * d == e && 0 - d < e < d
    ensures k == 0
  {
    if k >= 1 {
      MulMonotone(1, k, d);
    } else if k <= -1 {
      MulMonotone(k, -1, d);
    }
  }

  lemma DivMod(q: nat, d: nat, r: nat)
    requires r < d
    ensures (q * d + r) / d == q
    ensures (q * d + r) % d == r
  {
    var x := q * d + r;
    assert x == d * (x / d) + x % d;
    SmallMultiple(q - x / d, d, x % d - r);
  }

  lemma Distribute(a: nat, b: nat, d: nat)
    ensures (a + b) * d == a * d + b * d
  {
  }

  lemma Regroup(group: nat, block: nat, m: nat, within: nat, g: nat)
    requires group == block * m + within
    ensures group * g == block * (m * g) + within * g
  {
  }

  /** Between two multiples of d there is room for d. */
  lemma NextMultiple(t: nat, n: nat, d: nat)
    requires d > 0 && t % d == 0 && n % d == 0 && t < n
    ensures t + d <= n && (t + d) % d == 0
  {
    var a, b := t / d, n / d;
    assert t == a * d && n == b * d;
    if b <= a {
      MulMonotone(b, a, d);
    }
    MulMonotone(a + 1, b, d);
    Distribute(a, 1, d);
    DivMod(a + 1, d, 0);
  }

  function CeilDiv(a: nat, b: nat): nat
    requires b > 0
  {
    (a + b - 1) / b
  }

  lemma Associate(x: nat, y: nat, z: nat)
    ensures x * (y * z) == (x * y) * z
  {
  }
}
