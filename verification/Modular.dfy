/** Congruence of integers modulo a positive number. */
module Modular {
  import opened Align

  ghost predicate Congruent(m: nat, x: int, y: int)
    requires m > 0
  {
    x % m == y % m
  }

  lemma CongruentBy(m: nat, x: int, y: int, k: int)
    requires m > 0 && x == y + m * k
    ensures Congruent(m, x, y)
  {
    assert y == m * (y / m) + y % m;
    Distribute(m, y / m, k);
    QuotientIs(x, m, y / m + k, y % m);
  }

  lemma CongruentGap(m: nat, x: int, y: int) returns (k: int)
    requires m > 0 && Congruent(m, x, y)
    ensures x == y + m * k
  {
    k := x / m - y / m;
    assert x == m * (x / m) + x % m && y == m * (y / m) + y % m;
    Distribute(m, y / m, k);
  }

  lemma ModCongruent(m: nat, x: int)
    requires m > 0
    ensures Congruent(m, x % m, x) && 0 <= x % m < m
  {
    assert x == m * (x / m) + x % m;
    CongruentBy(m, x, x % m, x / m);
  }

  lemma Transitive(m: nat, x: int, y: int, z: int)
    requires m > 0 && Congruent(m, x, y) && Congruent(m, z, y)
    ensures Congruent(m, x, z)
  {
  }

  lemma SumCongruent(m: nat, x: int, y: int, u: int, v: int)
    requires m > 0 && Congruent(m, x, y) && Congruent(m, u, v)
    ensures Congruent(m, x + u, y + v) && Congruent(m, x - u, y - v)
  {
    var k := CongruentGap(m, x, y);
    var l := CongruentGap(m, u, v);
    Distribute(m, k, l);
    Distribute(m, k, -l);
    assert m * -l == -(m * l);
    CongruentBy(m, x + u, y + v, k + l);
    CongruentBy(m, x - u, y - v, k - l);
  }

  lemma ProductCongruent(m: nat, x: int, y: int, u: int, v: int)
    requires m > 0 && Congruent(m, x, y) && Congruent(m, u, v)
    ensures Congruent(m, x * u, y * v)
  {
    var k := CongruentGap(m, x, y);
    var l := CongruentGap(m, u, v);
    Expand(m, y, v, k, l);
    CongruentBy(m, x * u, y * v, y * l + v * k + m * k * l);
  }

  lemma Expand(m: int, y: int, v: int, k: int, l: int)
    ensures (y + m * k) * (v + m * l) == y * v + m * (y * l + v * k + m * k * l)
  {
    assert (y + m * k) * (v + m * l) == y * v + y * (m * l) + (m * k) * v + (m * k) * (m * l);
    assert m * (y * l + v * k + m * k * l) == m * (y * l) + m * (v * k) + m * (m * k * l);
    assert y * (m * l) == m * (y * l) && (m * k) * v == m * (v * k) && (m * k) * (m * l) == m * (m * k * l);
  }

  /** What holds modulo a multiple of m holds modulo m. */
  lemma CongruentBelow(m: nat, c: nat, x: int, y: int)
    requires m > 0 && c > 0 && m * c > 0 && Congruent(m * c, x, y)
    ensures Congruent(m, x, y)
  {
    var k := CongruentGap(m * c, x, y);
    assert m * c * k == m * (c * k);
    CongruentBy(m, x, y, c * k);
  }

  /** In a window of m numbers, congruent means equal. */
  lemma EqualInWindow(m: nat, x: int, y: int)
    requires m > 0 && Congruent(m, x, y) && -(m as int) < x - y < m
    ensures x == y
  {
    var k := CongruentGap(m, x, y);
    MulSign(m, k);
  }
}
