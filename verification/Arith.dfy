/** Arithmetic from smaller words: the high half of a 64-bit product in the emulator, and the runtime library's 64-bit
    division and paired shifts. */
module Arith {
  import opened Words
  import opened Align
  import opened Modular
  import Fold
  import Bitfield

  // ---------------------------------------------------------------- mulhu, mulh and mulhsu

  function LowHalf(v: u64): u32 { v % TWO_32 }
  function HighHalf(v: u64): u32 { v / TWO_32 }

  lemma Halves(v: u64)
    ensures v == TWO_32 * HighHalf(v) + LowHalf(v)
  {
  }

  lemma HalfProduct(a: u32, b: u32)
    ensures 0 <= a * b <= 0xffff_fffe_0000_0001
  {
    MulMono(0, a, b);
    MulMono(a, 0xffff_ffff, b);
  }

  function Product(a: u32, b: u32): u64 {
    HalfProduct(a, b);
    a * b
  }

  /** The four partial products and the carry between them. */
  function Mulhu(a: u64, b: u64): u64 {
    var a0, a1, b0, b1 := LowHalf(a), HighHalf(a), LowHalf(b), HighHalf(b);
    var p0, p1, p2, p3 := Product(a0, b0), Product(a0, b1), Product(a1, b0), Product(a1, b1);
    var carry := HighHalf(p0) + LowHalf(p1) + LowHalf(p2);
    Fold.Host(p3 + HighHalf(p1) + HighHalf(p2) + HighHalf(carry))
  }

  lemma FourProducts(a: u64, b: u64)
    ensures var a0, a1, b0, b1 := LowHalf(a), HighHalf(a), LowHalf(b), HighHalf(b);
            a * b == TWO_64 * (a1 * b1) + TWO_32 * (a0 * b1 + a1 * b0) + a0 * b0
  {
    var a0, a1, b0, b1 := LowHalf(a), HighHalf(a), LowHalf(b), HighHalf(b);
    Halves(a);
    Halves(b);
    Foil(a0, a1, b0, b1);
  }

  lemma Foil(a0: int, a1: int, b0: int, b1: int)
    ensures (TWO_32 * a1 + a0) * (TWO_32 * b1 + b0) == TWO_64 * (a1 * b1) + TWO_32 * (a0 * b1 + a1 * b0) + a0 * b0
  {
    var m := TWO_32;
    assert (m * a1 + a0) * (m * b1 + b0) == (m * a1) * (m * b1) + (m * a1) * b0 + a0 * (m * b1) + a0 * b0;
    assert (m * a1) * (m * b1) == (m * m) * (a1 * b1);
    assert (m * a1) * b0 == m * (a1 * b0) && a0 * (m * b1) == m * (a0 * b1);
  }

  lemma ProductBound(a: u64, b: u64)
    ensures 0 <= a * b < TWO_64 * TWO_64
  {
    MulMono(0, a, b);
    MulMono(a, TWO_64 - 1, b);
  }

  /** mulhu is the high half of the product: no carry is lost. */
  lemma MulhuIsHigh(a: u64, b: u64)
    ensures Mulhu(a, b) == a * b / TWO_64
  {
    hide LowHalf, HighHalf, Product;
    var a0, a1, b0, b1 := LowHalf(a), HighHalf(a), LowHalf(b), HighHalf(b);
    var p0, p1, p2, p3 := Product(a0, b0), Product(a0, b1), Product(a1, b0), Product(a1, b1);
    ProductIs(a0, b0);
    ProductIs(a0, b1);
    ProductIs(a1, b0);
    ProductIs(a1, b1);
    FourProducts(a, b);
    ProductBound(a, b);
    HighOf(a * b, p0, p1, p2, p3);
  }

  lemma ProductIs(a: u32, b: u32)
    ensures Product(a, b) == a * b
  {
  }

  lemma HighOf(product: nat, p0: u64, p1: u64, p2: u64, p3: u64)
    requires product == TWO_64 * p3 + TWO_32 * (p1 + p2) + p0 && product < TWO_64 * TWO_64
    ensures var carry := HighHalf(p0) + LowHalf(p1) + LowHalf(p2);
            Fold.Host(p3 + HighHalf(p1) + HighHalf(p2) + HighHalf(carry)) == product / TWO_64
  {
    var carry := HighHalf(p0) + LowHalf(p1) + LowHalf(p2);
    var high := p3 + HighHalf(p1) + HighHalf(p2) + HighHalf(carry);
    Halves(p0);
    Halves(p1);
    Halves(p2);
    Halves(carry);
    QuotientIs(product, TWO_64, high, TWO_32 * LowHalf(carry) + LowHalf(p0));
    QuotientIs(high, TWO_64, 0, high);
  }

  function Signed(v: u64): int { if v < 0x8000_0000_0000_0000 then v else v - TWO_64 }

  function Minus(a: int, negative: bool, b: u64): int { if negative then a - b else a }

  /** The emulator's correction of mulhu for negative operands. */
  function Mulh(a: u64, b: u64): u64 {
    Fold.Host(Minus(Minus(Mulhu(a, b), Fold.Negative(a), b), Fold.Negative(b), a))
  }

  function Mulhsu(a: u64, b: u64): u64 { Fold.Host(Minus(Mulhu(a, b), Fold.Negative(a), b)) }

  lemma SignedProduct(a: u64, b: u64)
    ensures Signed(a) * b == a * b - TWO_64 * (if Fold.Negative(a) then b else 0)
  {
    if Fold.Negative(a) {
      assert (a - TWO_64) * b == a * b - TWO_64 * b;
    }
  }

  lemma FloorMinus(x: int, k: int)
    ensures (x - TWO_64 * k) / TWO_64 == x / TWO_64 - k
  {
    QuotientIs(x - TWO_64 * k, TWO_64, x / TWO_64 - k, x % TWO_64);
  }

  /** The high word of the signed by unsigned product. */
  lemma MulhsuIsHigh(a: u64, b: u64)
    ensures Mulhsu(a, b) == Fold.Host(Signed(a) * b / TWO_64)
  {
    MulhuIsHigh(a, b);
    SignedProduct(a, b);
    FloorMinus(a * b, if Fold.Negative(a) then b else 0);
  }

  lemma SignedByNegative(s: int, b: u64)
    ensures s * Signed(b) == s * b - TWO_64 * (if Fold.Negative(b) then s else 0)
  {
    if Fold.Negative(b) {
      assert s * (b - TWO_64) == s * b - TWO_64 * s;
    }
  }

  /** The high word of the signed product. */
  lemma MulhIsHigh(a: u64, b: u64)
    ensures Mulh(a, b) == Fold.Host(Signed(a) * Signed(b) / TWO_64)
  {
    var sa := Signed(a);
    MulhuIsHigh(a, b);
    SignedProduct(a, b);
    SignedByNegative(sa, b);
    FloorMinus(sa * b, if Fold.Negative(b) then sa else 0);
    FloorMinus(a * b, if Fold.Negative(a) then b else 0);
    var x := Minus(Minus(Mulhu(a, b), Fold.Negative(a), b), Fold.Negative(b), a);
    CongruentBy(TWO_64, x, sa * Signed(b) / TWO_64, if Fold.Negative(a) && Fold.Negative(b) then -1 else 0);
  }

  // ---------------------------------------------------------------- 64-bit division

  /** One step: the dividend's next bit moves into the remainder, which may overflow 64 bits for a moment. */
  function DivStep(d: u64, q: u64, r: u64, n: u64): (u64, u64, u64) {
    var carry := r >= 0x8000_0000_0000_0000;
    var r1 := Fold.Host(2 * r + TopBit(n));
    if carry || r1 >= d then (Fold.Host(Fold.Host(2 * q) + 1), Fold.Host(r1 - d), Fold.Host(2 * n))
    else (Fold.Host(2 * q), r1, Fold.Host(2 * n))
  }

  function TopBit(n: u64): nat { if n >= 0x8000_0000_0000_0000 then 1 else 0 }

  lemma HostIs(x: int, k: int)
    requires 0 <= x + TWO_64 * k < TWO_64
    ensures Fold.Host(x) == x + TWO_64 * k
  {
    QuotientIs(x, TWO_64, -k, x + TWO_64 * k);
  }

  /** The remainder of a step is exact although the shift drops its top bit. */
  lemma RemainderStep(d: u64, r: u64, bit: nat)
    requires r < d && bit <= 1
    ensures var wide, r1 := 2 * r + bit, Fold.Host(2 * r + bit);
            (r >= 0x8000_0000_0000_0000 || r1 >= d <==> wide >= d)
            && (if wide >= d then Fold.Host(r1 - d) == wide - d else r1 == wide)
  {
    var wide := 2 * r + bit;
    HostIs(wide, if wide >= TWO_64 then -1 else 0);
    var r1 := Fold.Host(wide);
    if wide >= d {
      HostIs(r1 - d, if wide >= TWO_64 then 1 else 0);
    }
  }

  lemma AtMostProduct(q: nat, d: nat)
    requires d > 0
    ensures q <= q * d
  {
    assert q * d == q + q * (d - 1);
  }

  lemma {:induction false} Pow2Bound(i: nat)
    requires i <= 64
    ensures Fold.Pow2(i) <= TWO_64
    decreases 64 - i
  {
    if i < 64 {
      Pow2Bound(i + 1);
    } else {
      Fold.Pow2Of32();
    }
  }

  /** The dividend bits read so far are q * d + r; together with the rest of n they are n0 shifted. */
  predicate Divided(n0: u64, d: u64, q: u64, r: u64, n: u64, p: nat) {
    r < d && (q * d + r) * TWO_64 + n == n0 * p
  }

  lemma StepDivides(n0: u64, d: u64, q: u64, r: u64, n: u64, p: nat)
    requires Divided(n0, d, q, r, n, p) && 0 < 2 * p <= TWO_64
    ensures var (q', r', n') := DivStep(d, q, r, n); Divided(n0, d, q', r', n', 2 * p)
  {
    hide Fold.Host, TopBit;
    var bit := TopBit(n);
    var wide := 2 * r + bit;
    TopBitIs(n);
    RemainderStep(d, r, bit);
    if wide >= d {
      TwiceProduct(q, d);
      Shifted(n0, d, q, r, n, p, 2 * q + 1, wide - d, 2 * n - TWO_64 * bit);
    } else {
      TwiceProduct(q, d);
      Shifted(n0, d, q, r, n, p, 2 * q, wide, 2 * n - TWO_64 * bit);
    }
  }

  lemma TopBitIs(n: u64)
    ensures TopBit(n) <= 1 && 0 <= 2 * n - TWO_64 * TopBit(n) < TWO_64 && Fold.Host(2 * n) == 2 * n - TWO_64 * TopBit(n)
  {
    HostIs(2 * n, -(TopBit(n) as int));
  }

  lemma Doubled(n: nat, p: nat)
    ensures n * (2 * p) == 2 * (n * p)
  {
  }

  lemma HighBound(high: nat, n: u64, m: nat, n0: u64)
    requires high * TWO_64 + n == m && m <= n0 * TWO_64
    ensures high <= n0
  {
  }

  /** The doubled state: the quotient still fits in 64 bits. */
  lemma Shifted(n0: u64, d: u64, q: u64, r: u64, n: u64, p: nat, q': nat, r': u64, n': u64)
    requires Divided(n0, d, q, r, n, p) && 0 < 2 * p <= TWO_64 && r' < d && (q' == 2 * q || q' == 2 * q + 1)
    requires (q' * d + r') * TWO_64 + n' == 2 * ((q * d + r) * TWO_64 + n)
    ensures Fold.Host(2 * q) == 2 * q && (q' == 2 * q + 1 ==> Fold.Host(2 * q + 1) == 2 * q + 1)
    ensures q' < TWO_64 && Divided(n0, d, q', r', n', 2 * p)
  {
    hide Fold.Host;
    var product, m := q' * d, n0 * (2 * p);
    assert m == 2 * (n0 * p) by { Doubled(n0, p); }
    assert m <= n0 * TWO_64 by { Scaled(n0, 2 * p); }
    assert q' <= product by { AtMostProduct(q', d); }
    HighBound(product + r', n', m, n0);
    HostIs(2 * q, 0);
    if q' == 2 * q + 1 { HostIs(2 * q + 1, 0); }
  }

  lemma TwiceProduct(q: nat, d: nat)
    ensures (2 * q) * d == 2 * (q * d) && (2 * q + 1) * d == 2 * (q * d) + d
  {
  }

  lemma Scaled(n: nat, p: nat)
    requires p <= TWO_64
    ensures n * p <= n * TWO_64
  {
    assert n * TWO_64 == n * p + n * (TWO_64 - p);
  }

  /** Restoring division in 64 steps. */
  method UDivMod(n0: u64, d: u64) returns (q: u64, r: u64)
    requires d != 0
    ensures n0 == q * d + r && r < d
  {
    hide Divided, DivStep;
    var n, i := n0, 0;
    q, r := 0, 0;
    StartDivided(n0, d);
    while i < 64
      invariant 0 <= i <= 64 && Divided(n0, d, q, r, n, Fold.Pow2(i))
    {
      Pow2Bound(i + 1);
      StepDivides(n0, d, q, r, n, Fold.Pow2(i));
      var (q', r', n') := DivStep(d, q, r, n);
      q, r, n, i := q', r', n', i + 1;
    }
    EndDivided(n0, d, q, r, n);
  }

  lemma StartDivided(n0: u64, d: u64)
    requires d != 0
    ensures Divided(n0, d, 0, 0, n0, Fold.Pow2(0))
  {
  }

  lemma EndDivided(n0: u64, d: u64, q: u64, r: u64, n: u64)
    requires Divided(n0, d, q, r, n, Fold.Pow2(64))
    ensures n0 == q * d + r && r < d
  {
    Fold.Pow2Of32();
  }

  lemma NegIs(q: u64)
    ensures Fold.Host(-(q as int)) == Fold.Neg(q) && Fold.Host(q) == q
  {
    HostIs(-(q as int), if q == 0 then 0 else 1);
    HostIs(q, 0);
  }

  lemma MagnitudeIs(u: u64)
    ensures (if Fold.Negative(u) then Fold.Neg(u) else u) == Fold.Abs(Signed(u))
  {
  }

  function TruncMod(a: int, b: int): int
    requires b != 0
  {
    a - b * Fold.TruncDiv(a, b)
  }

  /** Division and remainder of the magnitudes, given the signs of the operands. */
  lemma TruncatedBySigns(a: int, b: int, q: int, r: int)
    requires b != 0 && q >= 0 && r >= 0 && Fold.Abs(a) == q * Fold.Abs(b) + r && r < Fold.Abs(b)
    ensures Fold.TruncDiv(a, b) == if (a < 0) == (b < 0) then q else -q
    ensures TruncMod(a, b) == if a < 0 then -r else r
  {
    var m := Fold.Abs(b);
    assert q * m == m * q;
    QuotientIs(Fold.Abs(a), m, q, r);
    var y := m * q;
    NegProduct(b, q);
    assert b * Fold.TruncDiv(a, b) == if a < 0 then -y else y;
  }

  lemma NegProduct(x: int, y: int)
    ensures (-x) * y == -(x * y) && x * (-y) == -(x * y)
  {
  }

  /** Truncated division of signed 64-bit numbers. */
  method DivDi3(u: u64, v: u64) returns (w: u64)
    requires v != 0
    ensures w == Fold.Host(Fold.TruncDiv(Signed(u), Signed(v)))
  {
    var c, uu, vv := false, u, v;
    if Fold.Negative(uu) { c, uu := !c, Fold.Neg(uu); }
    if Fold.Negative(vv) { c, vv := !c, Fold.Neg(vv); }
    MagnitudeIs(u);
    MagnitudeIs(v);
    ghost var r;
    w, r := UDivMod(uu, vv);
    TruncatedBySigns(Signed(u), Signed(v), w, r);
    NegIs(w);
    if c { w := Fold.Neg(w); }
  }

  /** The remainder has the sign of the dividend. */
  method ModDi3(u: u64, v: u64) returns (w: u64)
    requires v != 0
    ensures w == Fold.Host(TruncMod(Signed(u), Signed(v)))
  {
    var c, uu, vv := false, u, v;
    if Fold.Negative(uu) { c, uu := !c, Fold.Neg(uu); }
    if Fold.Negative(vv) { vv := Fold.Neg(vv); }
    MagnitudeIs(u);
    MagnitudeIs(v);
    var q;
    q, w := UDivMod(uu, vv);
    TruncatedBySigns(Signed(u), Signed(v), q, w);
    NegIs(w);
    if c { w := Fold.Neg(w); }
  }

  // ---------------------------------------------------------------- paired shifts

  /** The low and the high word of a 64-bit integer, as bits. */
  datatype Pair = Pair(low: Bitfield.Bits, high: Bitfield.Bits)

  predicate IsPair(u: Pair) { |u.low| == 32 && |u.high| == 32 }

  function Whole(u: Pair): Bitfield.Bits { u.low + u.high }

  function AshrDi3(u: Pair, b: nat): Pair
    requires IsPair(u) && b < 64
  {
    if b >= 32 then Pair(Bitfield.Sar(u.high, b - 32), Bitfield.Sar(u.high, 31))
    else if b != 0 then Pair(Bitfield.Or(Bitfield.Shr(u.low, b), Bitfield.Shl(u.high, 32 - b)), Bitfield.Sar(u.high, b))
    else u
  }

  function LshrDi3(u: Pair, b: nat): Pair
    requires IsPair(u) && b < 64
  {
    if b >= 32 then Pair(Bitfield.Shr(u.high, b - 32), Bitfield.Zero(32))
    else if b != 0 then Pair(Bitfield.Or(Bitfield.Shr(u.low, b), Bitfield.Shl(u.high, 32 - b)), Bitfield.Shr(u.high, b))
    else u
  }

  function AshlDi3(u: Pair, b: nat): Pair
    requires IsPair(u) && b < 64
  {
    if b >= 32 then Pair(Bitfield.Zero(32), Bitfield.Shl(u.low, b - 32))
    else if b != 0 then Pair(Bitfield.Shl(u.low, b), Bitfield.Or(Bitfield.Shl(u.high, b), Bitfield.Shr(u.low, 32 - b)))
    else u
  }

  /** The shifts of the two words are the shifts of the 64-bit integer, for every count below 64. */
  lemma PairedShifts(u: Pair, b: nat)
    requires IsPair(u) && b < 64
    ensures Whole(AshrDi3(u, b)) == Bitfield.Sar(Whole(u), b)
    ensures Whole(LshrDi3(u, b)) == Bitfield.Shr(Whole(u), b)
    ensures Whole(AshlDi3(u, b)) == Bitfield.Shl(Whole(u), b)
  {
    hide Bitfield.Sar, Bitfield.Shr, Bitfield.Shl, Bitfield.Or, Bitfield.Zero;
  }
}
