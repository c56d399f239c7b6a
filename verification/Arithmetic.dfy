/** Integer arithmetic: maximum, and division with remainder. */
module Arithmetic {
  function Max(a: int, b: int): int {
    if a > b then a else b
  }

  lemma MultiplesAreFar(m: int, t: int)
    requires m > 0
    ensures t >= 1 ==> m * t >= m
    ensures t <= -1 ==> m * t <= -m
  {
    assert m * t == m * (t - 1) + m;
    assert m * t == m * (t + 1) - m;
  }

  lemma QuotientAndRemainder(m: nat, q: nat, r: nat)
    requires r < m
    ensures (m * q + r) / m == q && (m * q + r) % m == r
  {
    var x := m * q + r;
    assert m * (x / m - q) == m * (x / m) - m * q;
    MultiplesAreFar(m, x / m - q);
  }
}
