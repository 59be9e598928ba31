/** Sums of a 64-bit address and 32-bit code positions: distances, sign extension and wrap-around, on bit-vectors. Each
    lemma is one step that the rewriter of bit-vector terms decides. */
module AddressSums {
  import opened Rv64

  /** Code positions are non-negative ints. */
  predicate IsPos(p: bv32) { p < 0x8000_0000 }

  function SignedLow(d: bv64): bv64 { Flip(Cut(d)) }
  function Flip(d: bv64): bv64 { (d ^ 0x8000_0000) - 0x8000_0000 }
  function Cut(v: bv64): bv64 { v & 0xffff_ffff }
  function Wide(v: bv32): bv64 { v as bv64 }
  function Minus(a: bv64, b: bv64): bv64 { a - b }
  function Gap(t: bv32, a: bv32): bv32 { a - t }

  lemma WideIs(v: bv32)
    ensures Wide(v) == v as bv64
  {
  }

  lemma FlipIs(v: bv32)
    ensures Sext(v) == Flip(v as bv64) && Cut(v as bv64) == v as bv64
  {
  }

  lemma SextIs(v: bv32)
    ensures Sext(v) == SignedLow(v as bv64)
  {
    hide Sext, Flip, Cut;
    FlipIs(v);
  }

  lemma CutTwice(v: bv64)
    ensures Cut(v) == Cut(Cut(v))
  {
  }

  lemma CutIs(v: bv64)
    ensures SignedLow(v) == SignedLow(Cut(v))
  {
    hide Flip;
    CutTwice(v);
  }

  lemma CutGap(t: bv32, a: bv32)
    ensures Wide(a - t) == Cut((a as bv64) - (t as bv64))
  {
  }

  lemma GapMinus(t: bv32, a: bv32)
    ensures Gap(t, a) == a - t
  {
  }

  lemma GapIs(t: bv32, a: bv32)
    ensures Sext(Gap(t, a)) == SignedLow(Wide(Gap(t, a)))
  {
    hide SignedLow, Wide, Sext, Gap;
    SextIs(Gap(t, a));
    WideIs(Gap(t, a));
  }

  lemma WideGap(t: bv32, a: bv32)
    ensures SignedLow(Wide(Gap(t, a))) == SignedLow(Minus(Wide(a), Wide(t)))
  {
    hide SignedLow, Wide, Minus, Gap, Cut;
    GapMinus(t, a);
    CutGap(t, a);
    WideIs(a);
    WideIs(t);
    MinusIs(a as bv64, t as bv64);
    CutIs(Minus(Wide(a), Wide(t)));
  }

  lemma ShortGap(t: bv64, a: bv64)
    requires t < 0x8000_0000 && a < 0x8000_0000
    ensures SignedLow(a - t) == a - t
  {
  }

  lemma ShortMinus(t: bv64, a: bv64)
    requires t < 0x8000_0000 && a < 0x8000_0000
    ensures SignedLow(Minus(a, t)) == Minus(a, t)
  {
    hide SignedLow;
    ShortGap(t, a);
  }

  lemma Short(t: bv32)
    requires IsPos(t)
    ensures Wide(t) < 0x8000_0000
  {
  }

  lemma GapSpans(t: bv32, a: bv32)
    requires IsPos(t) && IsPos(a)
    ensures Sext(Gap(t, a)) == Minus(Wide(a), Wide(t))
  {
    hide Sext, SignedLow, IsPos, Gap, Wide, Minus;
    GapIs(t, a);
    WideGap(t, a);
    Short(t);
    Short(a);
    ShortMinus(Wide(t), Wide(a));
  }

  lemma PlusIs(a: bv64, b: bv64)
    ensures Plus(a, b) == a + b
  {
  }

  lemma MinusIs(a: bv64, b: bv64)
    ensures Minus(a, b) == a - b
  {
  }

  lemma SumCancels(base: bv64, t: bv64, a: bv64)
    ensures Plus(base + t, a - t) == base + a
  {
  }

  lemma PlusCancels(base: bv64, t: bv64, a: bv64)
    ensures Plus(Plus(base, t), Minus(a, t)) == Plus(base, a)
  {
    hide Plus, Minus;
    PlusIs(base, t);
    MinusIs(a, t);
    PlusIs(base, a);
    SumCancels(base, t, a);
  }

  lemma MinusCancels(a: bv64, u: bv64)
    ensures Minus(a + u, a) == u
  {
  }

  lemma PlusInjective(a: bv64, u: bv64, v: bv64)
    requires Plus(a, u) == Plus(a, v)
    ensures u == v
  {
    hide Plus, Minus;
    PlusIs(a, u);
    PlusIs(a, v);
    MinusCancels(a, u);
    MinusCancels(a, v);
  }

  lemma SextInjective(u: bv32, v: bv32)
    requires Sext(u) == Sext(v)
    ensures u == v
  {
  }

  lemma SumLeft(a: bv64, b: bv64, c: bv64)
    ensures Plus(a + b, c) == a + b + c
  {
  }

  lemma SumRight(a: bv64, b: bv64, c: bv64)
    ensures Plus(a, b + c) == a + b + c
  {
  }

  lemma PlusAssociates(a: bv64, b: bv64, c: bv64)
    ensures Plus(Plus(a, b), c) == Plus(a, Plus(b, c))
  {
    hide Plus;
    PlusIs(a, b);
    PlusIs(b, c);
    SumLeft(a, b, c);
    SumRight(a, b, c);
  }
}
