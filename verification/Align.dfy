/** Rounding to multiples.  The sources round with masks, x & -a; for the powers of two they are used with, that is
    rounding down to a multiple of a. */
module Align {

  predicate IsPowerOf2(a: nat) { a == 1 || (a > 1 && a % 2 == 0 && IsPowerOf2(a / 2)) }

  /** x & -a for a power of two a: rounding down to a multiple. */
  function AlignDown(x: int, a: nat): (r: int)
    requires a > 0
    ensures x - a < r <= x && exists q :: r == a * q
  {
    assert x == a * (x / a) + x % a;
    a * (x / a)
  }

  /** (x + a - 1) & -a: rounding up. */
  function AlignUp(x: int, a: nat): (r: int)
    requires a > 0
    ensures x <= r < x + a && exists q :: r == a * q
  {
    AlignDown(x + a - 1, a)
  }

  predicate Multiple(x: int, a: nat)
    requires a > 0
  {
    x % a == 0
  }

  lemma MultipleIs(x: int, a: nat)
    requires a > 0
    ensures Multiple(x, a) <==> x == AlignDown(x, a)
  {
    assert x == a * (x / a) + x % a;
  }

  /** Rounding two congruent numbers keeps their difference. */
  lemma CongruentRounding(x: int, y: int, a: nat)
    requires a > 0 && Multiple(x - y, a)
    ensures AlignDown(x, a) - AlignDown(y, a) == x - y
  {
    var k := (x - y) / a;
    assert x - y == a * k;
    assert y == a * (y / a) + y % a;
    assert x == a * (y / a + k) + y % a by { Distribute(a, y / a, k); }
    QuotientIs(x, a, y / a + k, y % a);
    Distribute(a, y / a, k);
  }

  lemma Distribute(a: int, p: int, k: int)
    ensures a * (p + k) == a * p + a * k
  {
  }

  lemma QuotientIs(x: int, a: nat, q: int, r: nat)
    requires a > 0 && r < a && x == a * q + r
    ensures x / a == q && x % a == r
  {
    assert x == a * (x / a) + x % a;
    var d := x / a - q;
    assert a * d == r - x % a by { assert a * (q + d) == a * q + a * d; }
    MulSign(a, d);
  }

  lemma MulMono(a: int, b: int, k: nat)
    requires a <= b
    ensures a * k <= b * k
  {
    assert b * k == a * k + (b - a) * k;
    assert (b - a) * k >= 0;
  }

  lemma MulSign(a: nat, d: int)
    ensures (d >= 1 ==> a * d >= a) && (d <= -1 ==> a * d + a <= 0)
  {
    if d >= 1 {
      assert a * d == a * (d - 1) + a && a * (d - 1) >= 0;
    } else if d <= -1 {
      assert a * d + a == a * (d + 1) && a * (d + 1) <= 0;
    }
  }

  lemma AlignedUp(x: int, a: nat)
    requires a > 0
    ensures Multiple(AlignUp(x, a), a)
  {
    var y := x + a - 1;
    QuotientIs(a * (y / a), a, y / a, 0);
  }

  lemma AlignDownZero(a: nat)
    requires a > 0
    ensures AlignDown(0, a) == 0
  {
    QuotientIs(0, a, 0, 0);
  }

  lemma AlignDownMono(x: int, y: int, a: nat)
    requires a > 0 && x <= y
    ensures AlignDown(x, a) <= AlignDown(y, a)
  {
    assert x == a * (x / a) + x % a && y == a * (y / a) + y % a;
    var d := x / a - y / a;
    assert a * d == AlignDown(x, a) - AlignDown(y, a) by { Distribute(a, y / a, d); }
    MulSign(a, d);
  }

  lemma AlignedDown(x: int, a: nat)
    requires a > 0
    ensures Multiple(AlignDown(x, a), a)
  {
    QuotientIs(a * (x / a), a, x / a, 0);
  }

  lemma MultipleSum(x: int, y: int, a: nat)
    requires a > 0 && Multiple(x, a)
    ensures Multiple(x + y, a) <==> Multiple(y, a)
  {
    assert x == a * (x / a) && y == a * (y / a) + y % a;
    assert x + y == a * (x / a + y / a) + y % a by { Distribute(a, x / a, y / a); }
    QuotientIs(x + y, a, x / a + y / a, y % a);
  }

  lemma MultipleMinus(x: int, y: int, a: nat)
    requires a > 0 && Multiple(x, a) && Multiple(y, a)
    ensures Multiple(x - y, a)
  {
    assert x == a * (x / a) && y == a * (y / a);
    assert x - y == a * (x / a - y / a) by { Distribute(a, y / a, x / a - y / a); }
    QuotientIs(x - y, a, x / a - y / a, 0);
  }

  /** The least multiple of `a` from `p` on. */
  ghost predicate LeastMultiple(x: int, p: int, a: nat)
    requires a > 0
  {
    p <= x && Multiple(x, a) && forall o :: p <= o && Multiple(o, a) ==> x <= o
  }

  lemma AlignUpIsLeast(p: int, a: nat)
    requires a > 0
    ensures LeastMultiple(AlignUp(p, a), p, a)
  {
    AlignedUp(p, a);
    forall o | p <= o && Multiple(o, a) ensures AlignUp(p, a) <= o {
      MultipleIs(o, a);
      var q, r := o / a, (p + a - 1) / a;
      assert o == a * q && AlignUp(p, a) == a * r;
      Distribute(a, r, -q);
      assert a * -q == -(a * q);
      MulSign(a, r - q);
    }
  }
}
