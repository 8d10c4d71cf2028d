/** Division with a variable divisor. */
module Arith {

  lemma DivUnique(x: int, m: nat, q: int, r: nat)
    requires m > 0 && x == q * m + r && r < m
    ensures x / m == q && x % m == r
  {
    var q', r' := x / m, x % m;
    assert (q - q') * m == r' - r;
    SmallMultipleIsZero(q - q', m, r' - r);
  }

  lemma SmallMultipleIsZero(q: int, m: nat, d: int)
    requires m > 0 && q * m == d && d < m && 0 < d + m
    ensures q == 0 && d == 0
  {
    MulMono(1, if q >= 1 then q else 1, m);
    MulMono(1, if q <= -1 then -q else 1, m);
  }

  lemma AddMultiple(x: int, m: nat, k: int)
    requires m > 0
    ensures (x + k * m) % m == x % m && (x + k * m) / m == x / m + k
  {
    assert x + k * m == (x / m + k) * m + x % m;
    DivUnique(x + k * m, m, x / m + k, x % m);
  }

  lemma ModOfMultiple(q: int, m: nat)
    requires m > 0
    ensures (q * m) % m == 0
  {
    DivUnique(q * m, m, q, 0);
  }

  /** Advancing by one inside a cycle of length m. */
  lemma ModSucc(x: int, m: nat)
    requires m > 0
    ensures (x + 1) % m == if x % m + 1 < m then x % m + 1 else 0
  {
    if x % m + 1 < m {
      DivUnique(x + 1, m, x / m, x % m + 1);
    } else {
      DivUnique(x + 1, m, x / m + 1, 0);
    }
  }

  /** Two numbers closer than m have the same residue only if they are equal. */
  lemma ModInjective(x: int, y: int, m: nat)
    requires m > 0 && x < y + m && y < x + m && x % m == y % m
    ensures x == y
  {
    assert x - y == (x / m - y / m) * m;
    SmallMultipleIsZero(x / m - y / m, m, x - y);
  }

  lemma ModAdd(x: int, y: int, m: nat)
    requires m > 0
    ensures (x % m + y) % m == (x + y) % m
  {
    assert x + y == (x % m + y) + (x / m) * m;
    AddMultiple(x % m + y, m, x / m);
  }

  lemma ModPrefix(n: nat, m: nat)
    requires m > 0
    ensures (n + (m - n % m)) % m == 0
  {
    assert n + (m - n % m) == (n / m + 1) * m;
    ModOfMultiple(n / m + 1, m);
  }

  lemma DivNonNegative(x: nat, m: nat)
    requires m > 0
    ensures x / m >= 0
  {
    var q := x / m;
    MulMono(1, if q <= -1 then -q else 1, m);
  }

  lemma MulMono(a: nat, b: nat, m: nat)
    requires a <= b
    ensures a * m <= b * m
  {
    assert (b - a) * m >= 0;
  }

  lemma Distribute(x: int, y: int, m: int)
    ensures (x + y) * m == x * m + y * m
  {
  }
}
