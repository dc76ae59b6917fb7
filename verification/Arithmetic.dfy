/** Products and quotients with a variable factor. */
module Arithmetic {

  lemma MulMonotone(a: nat, b: nat, s: nat)
    ensures a <= b ==> a * s <= b * s
  {
    if a <= b { assert b * s == a * s + (b - a) * s; }
  }

  lemma DivByBlock(size: nat, p: nat, off: nat)
    requires off < size
    ensures (p * size + off) / size == p
  {
    var q := (p * size + off) / size;
    assert q * size <= p * size + off < q * size + size;
    MulMonotone(q + 1, p, size);
    MulMonotone(p + 1, q, size);
  }

  lemma DivAtMost(x: nat, m: nat, k: nat)
    requires m > 0 && x <= k * m
    ensures x / m <= k
  {
    var q := x / m;
    assert q * m <= x;
    MulMonotone(k + 1, q, m);
  }

  lemma AddModulus(x: nat, m: nat)
    requires m > 0
    ensures (x + m) % m == x % m
  {
    var d, e := x / m, (x + m) / m;
    assert x == d * m + x % m && x + m == e * m + (x + m) % m;
    MulMonotone(d + 2, e, m);
    MulMonotone(e, d, m);
    assert e == d + 1;
  }
}
