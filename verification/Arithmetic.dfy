/** Facts about quotients, remainders and powers that the other modules share. */
module Arithmetic {

  lemma MulMonotone(a: int, b: int, m: nat)
    ensures a <= b ==> a * m <= b * m
  {
    if a <= b {
      assert (b - a) * m >= 0;
    }
  }

  lemma MulBound(q: nat, n: nat, m: nat, r: nat)
    requires q < n && r < m
    ensures 0 <= q * m + r < n * m
  {
    MulMonotone(q + 1, n, m);
  }

  // Dividing q * m + r by m recovers q and r.
  lemma DivModUnique(q: int, m: int, r: int)
    requires m > 0 && 0 <= r < m
    ensures (q * m + r) / m == q && (q * m + r) % m == r
  {
    var x := q * m + r;
    var k := q - x / m;
    assert x == x / m * m + x % m;
    assert k * m == x % m - r;
    MulMonotone(1, k, m);
    MulMonotone(k, -1, m);
  }

  lemma DivLess(x: nat, n: nat, m: nat)
    requires m > 0 && x < n * m
    ensures x / m < n
  {
    assert x == x / m * m + x % m;
    MulMonotone(n, x / m, m);
  }

  lemma DivModIdentity(x: nat, m: nat)
    requires m > 0
    ensures x / m * m + x % m == x
  {
  }

  lemma DivModBounds(x: nat, n: nat, m: nat)
    requires m > 0 && x < n * m
    ensures 0 <= x / m < n && 0 <= x % m < m && x / m * m + x % m == x
  {
    DivLess(x, n, m);
  }

  lemma DivMonotone(a: nat, b: nat, m: nat)
    requires m > 0 && a <= b
    ensures a / m <= b / m
  {
    assert a == a / m * m + a % m && b == b / m * m + b % m;
    MulMonotone(b / m + 1, a / m, m);
  }

  lemma OneMore(k: nat, n: nat)
    ensures (k + 1) * n == n + k * n
  {
  }

  function Pow(b: nat, e: nat): nat {
    if e == 0 then 1 else b * Pow(b, e - 1)
  }

  lemma PowPositive(b: nat, e: nat)
    requires b > 0
    ensures Pow(b, e) > 0
  {
  }
}
