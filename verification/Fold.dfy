/** Constant folding and strength reduction of integer operations: what gen_opic leaves means what the operation means
    in the two's complement arithmetic of its type. 64-bit host words are integers below 2^64. */
module Fold {
  import opened Words
  import opened Align
  import opened Modular

  datatype Kind = Int | LLong | Ptr

  datatype Type = Type(kind: Kind, unsigned: bool)

  datatype Op = Add | Sub | And | Xor | Or | Mul | PDiv | Div | Mod | UDiv | UMod | Shl | Shr | Sar
    | Ult | Uge | Eq | Ne | Ule | Ugt | Lt | Ge | Le | Gt | LAnd | LOr

  // ---------------------------------------------------------------- powers of two and bitwise operations

  function Pow2(n: nat): (p: nat)
    ensures p > 0
  {
    if n == 0 then 1 else 2 * Pow2(n - 1)
  }

  lemma {:induction false} Pow2Sum(a: nat, b: nat)
    ensures Pow2(a + b) == Pow2(a) * Pow2(b)
  {
    if a != 0 {
      Pow2Sum(a - 1, b);
      assert 2 * (Pow2(a - 1) * Pow2(b)) == (2 * Pow2(a - 1)) * Pow2(b);
    }
  }

  lemma Pow2Of32()
    ensures Pow2(5) == 32 && Pow2(6) == 64 && Pow2(8) == 0x100 && Pow2(16) == 0x1_0000 && Pow2(32) == TWO_32 && Pow2(64) == TWO_64
  {
    assert Pow2(4) == 16;
    assert Pow2(8) == 0x100 by { Pow2Sum(4, 4); }
    Pow2Sum(8, 8);
    Pow2Sum(16, 16);
    Pow2Sum(32, 32);
  }

  function BitOp(op: Op, a: int, b: int): (r: nat)
    ensures r <= 1
  {
    match op
    case And => if a == 1 && b == 1 then 1 else 0
    case Or => if a == 1 || b == 1 then 1 else 0
    case _ => if a == b then 0 else 1
  }

  predicate IsBitwise(op: Op) { op in {And, Or, Xor} }

  /** The low `n` bits of the bitwise operation. */
  function Bitwise(op: Op, n: nat, a: int, b: int): (r: nat)
    ensures r < Pow2(n)
  {
    if n == 0 then 0 else BitOp(op, a % 2, b % 2) + 2 * Bitwise(op, n - 1, a / 2, b / 2)
  }

  lemma {:induction false} BitwiseCommutes(op: Op, n: nat, a: int, b: int)
    requires IsBitwise(op)
    ensures Bitwise(op, n, a, b) == Bitwise(op, n, b, a)
  {
    if n > 0 {
      BitwiseCommutes(op, n - 1, a / 2, b / 2);
    }
  }

  lemma HalvesCongruent(n: nat, a: int, a': int)
    requires n > 0 && Congruent(Pow2(n), a, a')
    ensures a % 2 == a' % 2 && Congruent(Pow2(n - 1), a / 2, a' / 2)
  {
    var k := CongruentGap(Pow2(n), a, a');
    var p := Pow2(n - 1);
    assert a == a' + 2 * (p * k) by { assert (2 * p) * k == 2 * (p * k); }
    assert a / 2 == a' / 2 + p * k && a % 2 == a' % 2;
    CongruentBy(p, a / 2, a' / 2, k);
  }

  /** The operation looks at the low bits of its operands alone. */
  lemma {:induction false} BitwiseLow(op: Op, n: nat, a: int, a': int, b: int, b': int)
    requires Congruent(Pow2(n), a, a') && Congruent(Pow2(n), b, b')
    ensures Bitwise(op, n, a, b) == Bitwise(op, n, a', b')
  {
    if n > 0 {
      HalvesCongruent(n, a, a');
      HalvesCongruent(n, b, b');
      BitwiseLow(op, n - 1, a / 2, a' / 2, b / 2, b' / 2);
    }
  }

  lemma {:induction false} BitwiseNarrows(op: Op, n: nat, k: nat, a: int, b: int)
    ensures Congruent(Pow2(n), Bitwise(op, n + k, a, b), Bitwise(op, n, a, b))
  {
    if n == 0 {
      CongruentBy(1, Bitwise(op, k, a, b), 0, Bitwise(op, k, a, b));
    } else {
      BitwiseNarrows(op, n - 1, k, a / 2, b / 2);
      Doubles(Pow2(n - 1), Bitwise(op, n - 1 + k, a / 2, b / 2), Bitwise(op, n - 1, a / 2, b / 2), BitOp(op, a % 2, b % 2));
    }
  }

  /** x & 0, x | 0, x ^ 0, x & -1 and x | -1. */
  lemma {:induction false} BitwiseUnits(n: nat, a: int)
    ensures Bitwise(And, n, a, 0) == 0
    ensures Congruent(Pow2(n), Bitwise(Or, n, a, 0), a) && Congruent(Pow2(n), Bitwise(Xor, n, a, 0), a)
    ensures Congruent(Pow2(n), Bitwise(And, n, a, -1), a) && Congruent(Pow2(n), Bitwise(Or, n, a, -1), -1)
  {
    if n == 0 {
      CongruentBy(1, 0, a, -a);
      CongruentBy(1, 0, -1, 1);
    } else {
      BitwiseUnits(n - 1, a / 2);
      var p := Pow2(n - 1);
      Doubles(p, Bitwise(Or, n - 1, a / 2, 0), a / 2, a % 2);
      Doubles(p, Bitwise(Xor, n - 1, a / 2, 0), a / 2, a % 2);
      Doubles(p, Bitwise(And, n - 1, a / 2, -1), a / 2, a % 2);
      Doubles(p, Bitwise(Or, n - 1, a / 2, -1), -1, 1);
    }
  }

  lemma Doubles(p: nat, x: int, y: int, bit: int)
    requires p > 0 && Congruent(p, x, y)
    ensures Congruent(2 * p, bit + 2 * x, bit + 2 * y)
  {
    var d := CongruentGap(p, x, y);
    assert 2 * (p * d) == (2 * p) * d;
    CongruentBy(2 * p, bit + 2 * x, bit + 2 * y, d);
  }

  // ---------------------------------------------------------------- values of a type

  function Width(t: Type): nat { if t.kind == Int then 32 else 64 }

  function Modulus(t: Type): (m: nat)
    ensures m > 0
  {
    if t.kind == Int then TWO_32 else TWO_64
  }

  lemma ModulusIs(t: Type)
    ensures Modulus(t) == Pow2(Width(t))
  {
    Pow2Of32();
  }

  /** The value of the type that is congruent to `x`. */
  function Wrap(t: Type, x: int): (v: int) {
    var m := x % Modulus(t);
    if t.unsigned || 2 * m < Modulus(t) then m else m - Modulus(t)
  }

  predicate InRange(t: Type, v: int) {
    if t.unsigned then 0 <= v < Modulus(t) else -(Modulus(t) as int) <= 2 * v < Modulus(t)
  }

  lemma WrapIs(t: Type, x: int)
    ensures InRange(t, Wrap(t, x)) && Congruent(Modulus(t), Wrap(t, x), x)
  {
    var M := Modulus(t);
    ModCongruent(M, x);
    if Wrap(t, x) != x % M {
      CongruentBy(M, x % M - M, x % M, -1);
    }
  }

  lemma WrapUnique(t: Type, x: int, v: int)
    requires InRange(t, v) && Congruent(Modulus(t), v, x)
    ensures Wrap(t, x) == v
  {
    WrapIs(t, x);
    EqualInWindow(Modulus(t), Wrap(t, x), v);
  }

  lemma WrapCongruent(t: Type, x: int, y: int)
    requires Congruent(Modulus(t), x, y)
    ensures Wrap(t, x) == Wrap(t, y)
  {
  }

  /** What holds modulo 2^64 holds modulo the type's modulus. */
  lemma FromHost(t: Type, x: int, y: int)
    requires Congruent(TWO_64, x, y)
    ensures Congruent(Modulus(t), x, y)
  {
    if t.kind == Int {
      CongruentBelow(TWO_32, TWO_32, x, y);
    }
  }

  // ---------------------------------------------------------------- the meaning of an operation

  function TruncDiv(a: int, b: int): int
    requires b != 0
  {
    if (a < 0) == (b < 0) then Abs(a) / Abs(b) else -(Abs(a) / Abs(b))
  }

  function Abs(a: int): nat { if a < 0 then -a else a }

  function Bool(b: bool): int { if b then 1 else 0 }

  function Low(t: Type, v: int): nat { v % Modulus(t) }

  predicate Divides(op: Op) { op in {PDiv, Div, Mod, UDiv, UMod} }

  predicate Shifts(op: Op) { op in {Shl, Shr, Sar} }

  function Scale(t: Type, b: int): (p: nat)
    ensures p > 0
  {
    Pow2(b % Width(t))
  }

  /** The operation on values of type `t`; None for a division by zero. */
  function Eval(op: Op, t: Type, a: int, b: int): Option<int> {
    if Divides(op) && Low(t, b) == 0 then None else
    match op
    case Add => Some(Wrap(t, a + b))
    case Sub => Some(Wrap(t, a - b))
    case Mul => Some(Wrap(t, a * b))
    case And | Xor | Or => Some(Wrap(t, Bitwise(op, Width(t), a, b)))
    case PDiv | Div => Some(Wrap(t, TruncDiv(a, b)))
    case Mod => Some(Wrap(t, a - b * TruncDiv(a, b)))
    case UDiv => Some(Wrap(t, Low(t, a) / Low(t, b)))
    case UMod => Some(Wrap(t, Low(t, a) % Low(t, b)))
    case Shl => Some(Wrap(t, a * Scale(t, b)))
    case Shr => Some(Wrap(t, Low(t, a) / Scale(t, b)))
    case Sar => Some(Wrap(t, a / Scale(t, b)))
    case Ult => Some(Bool(Low(t, a) < Low(t, b)))
    case Uge => Some(Bool(Low(t, a) >= Low(t, b)))
    case Ule => Some(Bool(Low(t, a) <= Low(t, b)))
    case Ugt => Some(Bool(Low(t, a) > Low(t, b)))
    case Eq => Some(Bool(a == b))
    case Ne => Some(Bool(a != b))
    case Lt => Some(Bool(a < b))
    case Ge => Some(Bool(a >= b))
    case Le => Some(Bool(a <= b))
    case Gt => Some(Bool(a > b))
    case LAnd => Some(Bool(a != 0 && b != 0))
    case LOr => Some(Bool(a != 0 || b != 0))
  }

  // ---------------------------------------------------------------- ... in the words of the C standard

  /** The quotient that truncates: the remainder is smaller than the divisor and has the sign of the dividend. */
  lemma TruncDivIs(a: int, b: int)
    requires b != 0
    ensures var r := a - b * TruncDiv(a, b); Abs(r) < Abs(b) && (r != 0 ==> (r < 0 <==> a < 0))
  {
    var x: int, y: int := Abs(a), Abs(b);
    var q: int := x / y;
    assert x == y * q + x % y;
    Signs(y, q);
    assert b * TruncDiv(a, b) == if a < 0 then -(y * q) else y * q;
  }

  lemma Signs(a: int, b: int)
    ensures -a * b == -(a * b) && a * -b == -(a * b) && -a * -b == a * b
  {
  }

  /** Bit `k` of a bitwise operation is that operation on the two bits. */
  lemma {:induction false} BitAt(op: Op, n: nat, a: int, b: int, k: nat)
    requires IsBitwise(op) && k < n
    ensures var x, y, z := a / Pow2(k) % 2, b / Pow2(k) % 2, Bitwise(op, n, a, b) / Pow2(k) % 2;
            match op
            case And => z == 1 <==> x == 1 && y == 1
            case Or => z == 1 <==> x == 1 || y == 1
            case _ => z == 1 <==> x != y
    decreases k
  {
    var r, rest := Bitwise(op, n, a, b), Bitwise(op, n - 1, a / 2, b / 2);
    assert r == BitOp(op, a % 2, b % 2) + 2 * rest;
    if k > 0 {
      BitAt(op, n - 1, a / 2, b / 2, k - 1);
      HalfThen(a, k);
      HalfThen(b, k);
      HalfThen(r, k);
      assert r / 2 == rest;
    }
  }

  lemma HalfThen(a: int, k: nat)
    requires k > 0
    ensures a / Pow2(k) == a / 2 / Pow2(k - 1)
  {
    var p, h := Pow2(k - 1), a / 2;
    var q := h / p;
    assert h == p * q + h % p;
    assert a == 2 * h + a % 2;
    assert 2 * (p * q) == (2 * p) * q;
    QuotientIs(a, 2 * p, q, 2 * (h % p) + a % 2);
  }

  /** The value of the type with the same residue. */
  ghost predicate IsResult(t: Type, r: Option<int>, x: int) {
    r.Some? && InRange(t, r.value) && Congruent(Modulus(t), r.value, x)
  }

  /** Sums, differences and products are those of integers modulo 2^32 or 2^64; so is a quotient or remainder, which
      truncates, of the values for signed and of the bits for unsigned division; none by zero. */
  lemma ArithmeticMeans(op: Op, t: Type, a: int, b: int)
    requires op in {Add, Sub, Mul} || Divides(op)
    ensures op == Add ==> IsResult(t, Eval(op, t, a, b), a + b)
    ensures op == Sub ==> IsResult(t, Eval(op, t, a, b), a - b)
    ensures op == Mul ==> IsResult(t, Eval(op, t, a, b), a * b)
    ensures Divides(op) ==> (Eval(op, t, a, b) == None <==> Congruent(Modulus(t), b, 0))
    ensures (op == Div || op == PDiv) && InRange(t, b) && b != 0 ==> IsResult(t, Eval(op, t, a, b), TruncDiv(a, b))
    ensures op == Mod && InRange(t, b) && b != 0 ==> IsResult(t, Eval(op, t, a, b), a - b * TruncDiv(a, b))
    ensures op == UDiv && b % Modulus(t) != 0 ==> IsResult(t, Eval(op, t, a, b), a % Modulus(t) / (b % Modulus(t)))
    ensures op == UMod && b % Modulus(t) != 0 ==> IsResult(t, Eval(op, t, a, b), a % Modulus(t) % (b % Modulus(t)))
  {
    hide Wrap, TruncDiv;
    QuotientIs(0, Modulus(t), 0, 0);
    if InRange(t, b) { LowOfRange(t, b); }
    var r := Eval(op, t, a, b);
    match op {
      case Add => WrapIs(t, a + b);
      case Sub => WrapIs(t, a - b);
      case Mul => WrapIs(t, a * b);
      case PDiv | Div => if Low(t, b) != 0 { WrapIs(t, TruncDiv(a, b)); }
      case Mod => if Low(t, b) != 0 { WrapIs(t, a - b * TruncDiv(a, b)); }
      case UDiv => if Low(t, b) != 0 { WrapIs(t, Low(t, a) / Low(t, b)); }
      case UMod => if Low(t, b) != 0 { WrapIs(t, Low(t, a) % Low(t, b)); }
    }
  }

  /** Shifts by `k`, the count modulo the width: multiplication by 2^k, and its floor quotient of the value (arithmetic) or
      of the bits (logical). */
  lemma ShiftsMean(t: Type, a: int, b: int)
    requires t.kind != Ptr
    ensures var k := b % (if t.kind == Int then 32 else 64);
            && IsResult(t, Eval(Shl, t, a, b), a * Pow2(k))
            && IsResult(t, Eval(Sar, t, a, b), a / Pow2(k))
            && IsResult(t, Eval(Shr, t, a, b), a % Modulus(t) / Pow2(k))
  {
    hide Wrap;
    var p := Scale(t, b);
    WrapIs(t, a * p);
    WrapIs(t, a / p);
    WrapIs(t, Low(t, a) / p);
  }

  /** Comparisons are 1 or 0. */
  lemma ComparisonsMean(t: Type, a: int, b: int)
    ensures Eval(Eq, t, a, b) == Some(if a - b == 0 then 1 else 0) && Eval(Ne, t, a, b) == Some(if a - b == 0 then 0 else 1)
    ensures Eval(Lt, t, a, b) == Some(if a - b < 0 then 1 else 0) && Eval(Ge, t, a, b) == Some(if a - b < 0 then 0 else 1)
    ensures Eval(Gt, t, a, b) == Some(if b - a < 0 then 1 else 0) && Eval(Le, t, a, b) == Some(if b - a < 0 then 0 else 1)
    ensures Eval(LAnd, t, a, b) == Some(if a == 0 || b == 0 then 0 else 1) && Eval(LOr, t, a, b) == Some(if a == 0 && b == 0 then 0 else 1)
  {
    hide Low, Wrap;
  }

  /** On unsigned values the unsigned operators are the others. */
  lemma UnsignedComparisonsMean(t: Type, a: int, b: int)
    requires InRange(t, a) && InRange(t, b) && t.unsigned
    ensures Eval(Ult, t, a, b) == Eval(Lt, t, a, b) && Eval(Uge, t, a, b) == Eval(Ge, t, a, b)
    ensures Eval(Ugt, t, a, b) == Eval(Gt, t, a, b) && Eval(Ule, t, a, b) == Eval(Le, t, a, b)
  {
    hide Low, Wrap;
    LowOfRange(t, a);
    LowOfRange(t, b);
  }

  // ---------------------------------------------------------------- 64-bit host words

  /** The host word for a value: its two's complement. */
  function Enc(v: int): u64
    requires -0x8000_0000_0000_0000 <= v < TWO_64
  {
    if v >= 0 then v else v + TWO_64
  }

  lemma EncCongruent(t: Type, v: int)
    requires InRange(t, v)
    ensures -0x8000_0000_0000_0000 <= v < TWO_64 && Congruent(TWO_64, Enc(v), v)
  {
    CongruentBy(TWO_64, Enc(v), v, if v >= 0 then 0 else 1);
  }

  /** The canonical form of a constant of type `t`: an int is sign- or zero-extended. */
  function Canon(t: Type, l: u64): u64 {
    if t.kind != Int then l
    else
      var m := l % TWO_32;
      if t.unsigned || m < 0x8000_0000 then m else m + (TWO_64 - TWO_32)
  }

  function Val(t: Type, l: u64): int { Wrap(t, l) }

  lemma CanonIs(t: Type, l: u64)
    ensures InRange(t, Val(t, l)) && Canon(t, l) == Enc(Val(t, l)) && Val(t, Canon(t, l)) == Val(t, l)
  {
    WrapIs(t, l);
    EncCongruent(t, Val(t, l));
    FromHost(t, Enc(Val(t, l)), Val(t, l));
    if t.kind != Int {
      LargeMod(l);
    }
    WrapUnique(t, Canon(t, l), Val(t, l));
  }

  lemma LargeMod(l: u64)
    ensures l % TWO_64 == l
  {
  }

  function Neg(a: u64): u64 { if a == 0 then 0 else TWO_64 - a }
  function Complement(a: u64): u64 { TWO_64 - 1 - a }
  function Flip(a: u64): u64 { if a < 0x8000_0000_0000_0000 then a + 0x8000_0000_0000_0000 else a - 0x8000_0000_0000_0000 }
  predicate Negative(a: u64) { a >= 0x8000_0000_0000_0000 }

  lemma QuotientNat(a: nat, b: nat)
    requires b > 0
    ensures 0 <= a / b <= a
  {
    var q := a / b;
    assert a == b * q + a % b;
    MulSign(b, q);
    if q > a {
      assert b * q == q + (b - 1) * q;
      MulSign(b - 1, q);
    }
  }

  function Quotient(a: u64, b: nat): u64
    requires b > 0
  {
    QuotientNat(a, b);
    a / b
  }

  function SDiv(a: u64, b: u64): u64
    requires b != 0
  {
    var x := Quotient(if Negative(a) then Neg(a) else a, if Negative(b) then Neg(b) else b);
    if Negative(a) != Negative(b) then Neg(x) else x
  }

  /** Signed values of at most 64 bits. */
  predicate Signed64(v: int) { -0x8000_0000_0000_0000 <= v < 0x8000_0000_0000_0000 }

  lemma NegCongruent(x: u64)
    ensures Congruent(TWO_64, Neg(x), -(x as int))
  {
    CongruentBy(TWO_64, Neg(x), -(x as int), if x == 0 then 0 else 1);
  }

  /** The unsigned division of magnitudes is the truncated signed division. */
  lemma SDivIs(a: int, b: int)
    requires Signed64(a) && Signed64(b) && b != 0
    ensures Enc(b) != 0 && Congruent(TWO_64, SDiv(Enc(a), Enc(b)), TruncDiv(a, b))
  {
    QuotientNat(Abs(a), Abs(b));
    NegCongruent(Abs(a) / Abs(b));
    assert (if Negative(Enc(a)) then Neg(Enc(a)) else Enc(a)) == Abs(a);
    assert (if Negative(Enc(b)) then Neg(Enc(b)) else Enc(b)) == Abs(b);
  }

  function SignedLess(a: u64, b: u64): bool { Flip(a) < Flip(b) }

  lemma SignedLessIs(a: int, b: int)
    requires Signed64(a) && Signed64(b)
    ensures SignedLess(Enc(a), Enc(b)) <==> a < b
  {
  }

  /** The arithmetic shift of a negative number through its complement. */
  lemma FloorByComplement(a: int, p: nat)
    requires p > 0
    ensures a / p == -1 - (-1 - a) / p
  {
    var x := -1 - a;
    assert x == p * (x / p) + x % p;
    Distribute(p, x / p, 1);
    assert p * -(x / p + 1) == -(p * (x / p + 1));
    QuotientIs(a, p, -(x / p + 1), p - 1 - x % p);
  }

  // ---------------------------------------------------------------- folding two constants

  function Host(x: int): u64 { x % TWO_64 }

  function HostBits(op: Op, a: u64, b: u64): u64 {
    Pow2Of32();
    Bitwise(op, 64, a, b)
  }

  /** The switch over the operators, on canonical constants; None for a division by zero. */
  function FoldHost(op: Op, t: Type, a: u64, b: u64): Option<u64> {
    if Divides(op) && b == 0 then None else
    var scale := Pow2(b % Width(t));
    match op
    case Add => Some(Host(a + b))
    case Sub => Some(Host(a - b))
    case Mul => Some(Host(a * b))
    case And | Xor | Or => Some(HostBits(op, a, b))
    case PDiv | Div => Some(SDiv(a, b))
    case Mod => Some(Host(a - b * SDiv(a, b)))
    case UDiv => Some(Quotient(a, b))
    case UMod => Some(Host(a % b))
    case Shl => Some(Host(a * scale))
    case Shr => Some(Quotient(a, scale))
    case Sar => Some(if Negative(a) then Complement(Quotient(Complement(a), scale)) else Quotient(a, scale))
    case Ult => Some(Bool(a < b))
    case Uge => Some(Bool(a >= b))
    case Ule => Some(Bool(a <= b))
    case Ugt => Some(Bool(a > b))
    case Eq => Some(Bool(a == b))
    case Ne => Some(Bool(a != b))
    case Lt => Some(Bool(SignedLess(a, b)))
    case Ge => Some(Bool(!SignedLess(a, b)))
    case Le => Some(Bool(!SignedLess(b, a)))
    case Gt => Some(Bool(SignedLess(b, a)))
    case LAnd => Some(Bool(a != 0 && b != 0))
    case LOr => Some(Bool(a != 0 || b != 0))
  }

  predicate OnSigned(op: Op) { op in {Div, Mod, Lt, Ge, Le, Gt} }

  predicate OnUnsigned(op: Op) { op in {UDiv, UMod, Ult, Uge, Ule, Ugt} }

  /** The operand types that gen_op's casts leave.  A right shift of an unsigned type is logical; the code for bit-fields
      asks for logical right shifts of signed types too. */
  predicate WellTyped(op: Op, t1: Type, t2: Type) {
    if Shifts(op) then t1.kind != Ptr && t2 == Type(Int, false) && (op == Sar ==> !t1.unsigned)
    else if op in {Add, Sub} then t1 == t2 || (t1.kind != Int && t2.kind != Int)
    else
      t1 == t2 && t1.kind != Ptr
      && (op == PDiv ==> t1 == Type(LLong, false))
      && (OnSigned(op) ==> !t1.unsigned) && (OnUnsigned(op) ==> t1.unsigned)
  }

  /** A logical right shift of a negative int is folded on its sign-extended word. */
  predicate Misfolds(op: Op, t: Type, a: int, b: int) {
    op == Shr && t == Type(Int, false) && a < 0 && b % 32 != 0
  }

  ghost predicate Folds(op: Op, t: Type, a: int, b: int, r: Option<u64>) {
    match Eval(op, t, a, b)
    case None => r == None
    case Some(v) => r.Some? && Val(t, r.value) == v
  }

  lemma HostIs(t: Type, x: int, y: int)
    requires Congruent(TWO_64, x, y)
    ensures Val(t, Host(x)) == Wrap(t, y)
  {
    ModCongruent(TWO_64, x);
    FromHost(t, Host(x), y);
    WrapCongruent(t, Host(x), y);
  }

  lemma WordIs(t: Type, l: u64, y: int)
    requires Congruent(TWO_64, l, y)
    ensures Val(t, l) == Wrap(t, y)
  {
    FromHost(t, l, y);
    WrapCongruent(t, l, y);
  }

  lemma ArithmeticFolds(op: Op, t1: Type, t2: Type, a: int, b: int)
    requires op in {Add, Sub, Mul} && InRange(t1, a) && InRange(t2, b)
    ensures -0x8000_0000_0000_0000 <= a < TWO_64 && -0x8000_0000_0000_0000 <= b < TWO_64
    ensures Folds(op, t1, a, b, FoldHost(op, t1, Enc(a), Enc(b)))
  {
    hide Congruent, Wrap;
    EncCongruent(t1, a);
    EncCongruent(t2, b);
    SumCongruent(TWO_64, Enc(a), a, Enc(b), b);
    ProductCongruent(TWO_64, Enc(a), a, Enc(b), b);
    match op {
      case Add => HostIs(t1, Enc(a) + Enc(b), a + b);
      case Sub => HostIs(t1, Enc(a) - Enc(b), a - b);
      case Mul => HostIs(t1, Enc(a) * Enc(b), a * b);
    }
  }

  lemma BitsFold(op: Op, t: Type, a: int, b: int)
    requires IsBitwise(op) && InRange(t, a) && InRange(t, b)
    ensures -0x8000_0000_0000_0000 <= a < TWO_64 && -0x8000_0000_0000_0000 <= b < TWO_64
    ensures Folds(op, t, a, b, FoldHost(op, t, Enc(a), Enc(b)))
  {
    hide Congruent, Wrap, Bitwise;
    EncCongruent(t, a);
    EncCongruent(t, b);
    Pow2Of32();
    ModulusIs(t);
    BitwiseLow(op, 64, Enc(a), a, Enc(b), b);
    BitwiseNarrows(op, Width(t), 64 - Width(t), a, b);
    WrapCongruent(t, Bitwise(op, 64, a, b), Bitwise(op, Width(t), a, b));
  }

  lemma LowOfRange(t: Type, v: int)
    requires InRange(t, v)
    ensures Low(t, v) == 0 <==> v == 0
    ensures t.unsigned ==> Low(t, v) == v
  {
    LowBits(t, v);
  }

  lemma LowBits(t: Type, v: int)
    requires InRange(t, v)
    ensures Low(t, v) == if v >= 0 then v else v + Modulus(t)
  {
    QuotientIs(v, Modulus(t), if v >= 0 then 0 else -1, if v >= 0 then v else v + Modulus(t));
  }

  lemma DivisionFolds(op: Op, t: Type, a: int, b: int)
    requires Divides(op) && WellTyped(op, t, t) && InRange(t, a) && InRange(t, b)
    ensures -0x8000_0000_0000_0000 <= a < TWO_64 && -0x8000_0000_0000_0000 <= b < TWO_64
    ensures Folds(op, t, a, b, FoldHost(op, t, Enc(a), Enc(b)))
  {
    hide Congruent, Wrap, SDiv, TruncDiv;
    EncCongruent(t, a);
    EncCongruent(t, b);
    LowOfRange(t, b);
    if b != 0 {
      if op in {UDiv, UMod} {
        UnsignedDivisionFolds(op, t, a, b);
      } else {
        SDivIs(a, b);
        var q := SDiv(Enc(a), Enc(b));
        if op == Mod {
          ProductCongruent(TWO_64, Enc(b), b, q, TruncDiv(a, b));
          SumCongruent(TWO_64, Enc(a), a, Enc(b) * q, b * TruncDiv(a, b));
          HostIs(t, Enc(a) - Enc(b) * q, a - b * TruncDiv(a, b));
        } else {
          WordIs(t, q, TruncDiv(a, b));
        }
      }
    }
  }

  lemma UnsignedDivisionFolds(op: Op, t: Type, a: int, b: int)
    requires op in {UDiv, UMod} && t.unsigned && InRange(t, a) && InRange(t, b) && b != 0
    ensures a < TWO_64 && b < TWO_64 && Folds(op, t, a, b, FoldHost(op, t, Enc(a), Enc(b)))
  {
    hide Congruent, Wrap;
    EncCongruent(t, a);
    LowOfRange(t, a);
    LowOfRange(t, b);
    assert a == b * (a / b) + a % b;
    LargeMod(a % b);
  }

  lemma ShiftCounts(t: Type, b: int)
    requires InRange(Type(Int, false), b)
    ensures Enc(b) % Width(t) == b % Width(t)
  {
    var k := if b >= 0 then 0 else TWO_64 / Width(t);
    CongruentBy(Width(t), Enc(b), b, k);
  }

  lemma ShiftFolds(op: Op, t: Type, a: int, b: int)
    requires Shifts(op) && WellTyped(op, t, Type(Int, false)) && InRange(t, a) && InRange(Type(Int, false), b)
    ensures -0x8000_0000_0000_0000 <= a < TWO_64 && -0x8000_0000_0000_0000 <= b < TWO_64
    ensures Folds(op, t, a, b, FoldHost(op, t, Enc(a), Enc(b))) <==> !Misfolds(op, t, a, b)
    ensures Misfolds(op, t, a, b) ==> Folds(Sar, t, a, b, FoldHost(op, t, Enc(a), Enc(b)))
  {
    hide Congruent, Wrap, Low, Quotient, Scale;
    EncCongruent(t, a);
    ShiftCounts(t, b);
    var p := Scale(t, b);
    ScaleIs(t, b);
    if op == Shl {
      ProductCongruent(TWO_64, Enc(a), a, p, p);
      HostIs(t, Enc(a) * p, a * p);
    } else if op == Shr {
      QuotientIsDivision(Enc(a), p);
      LogicalShiftFolds(t, a, b);
    } else {
      SarIs(a, p);
      WordIs(t, FoldHost(op, t, Enc(a), Enc(b)).value, a / p);
    }
  }

  lemma ScaleIs(t: Type, b: int)
    ensures Scale(t, b) == Pow2(b % Width(t))
  {
  }

  /** The logical right shift of a canonical word: right for 64 bits, for values that are not negative and for no shift;
      of a negative 32-bit value it is the arithmetic shift. */
  lemma LogicalShiftFolds(t: Type, a: int, b: int)
    requires t.kind != Ptr && InRange(t, a)
    ensures -0x8000_0000_0000_0000 <= a < TWO_64
    ensures Wrap(t, Enc(a) / Scale(t, b)) == Wrap(t, Low(t, a) / Scale(t, b)) <==> !Misfolds(Shr, t, a, b)
    ensures Misfolds(Shr, t, a, b) ==> Wrap(t, Enc(a) / Scale(t, b)) == Wrap(t, a / Scale(t, b))
  {
    hide Congruent, Wrap, Low;
    EncCongruent(t, a);
    LowBits(t, a);
    if t == Type(Int, false) && a < 0 {
      if b % 32 == 0 {
        assert Scale(t, b) == 1;
        FromHost(t, Enc(a), a);
        LowCongruent(t, a);
        WrapCongruent(t, Enc(a), a);
        WrapCongruent(t, Low(t, a), a);
      } else {
        NegativeShift(a, b % 32);
      }
    }
  }

  lemma LowCongruent(t: Type, v: int)
    ensures Congruent(Modulus(t), Low(t, v), v)
  {
    ModCongruent(Modulus(t), v);
  }

  /** A negative 32-bit value shifted as a 64-bit word keeps its sign, and as a 32-bit word loses it. */
  lemma NegativeShift(a: int, k: nat)
    requires InRange(Type(Int, false), a) && a < 0 && 0 < k < 32
    ensures var t, p := Type(Int, false), Pow2(k);
            && Wrap(t, (a + TWO_64) / p) == Wrap(t, a / p)
            && Wrap(t, (a + TWO_32) / p) != Wrap(t, a / p)
  {
    hide Congruent, Wrap, Pow2;
    var t, p, c := Type(Int, false), Pow2(k), Pow2(32 - k);
    CutWord(k);
    QuotientPlus(a, p, c * TWO_32);
    CongruentBy(TWO_32, a / p + c * TWO_32, a / p, c);
    WrapCongruent(t, (a + TWO_64) / p, a / p);
    ShrinksBy(a, p);
    ShrinksBy(a + TWO_32, p);
    WrapId(t, a / p);
    WrapId(t, (a + TWO_32) / p);
  }

  lemma CutWord(k: nat)
    requires 0 < k < 32
    ensures Pow2(k) > 1 && Pow2(k) * (Pow2(32 - k) * TWO_32) == TWO_64
  {
    assert Pow2(k) == 2 * Pow2(k - 1);
    hide Pow2;
    Pow2Of32();
    Pow2Sum(k, 32 - k);
    Associate(Pow2(k), Pow2(32 - k), TWO_32);
  }

  lemma Associate(a: int, b: int, c: int)
    ensures a * (b * c) == (a * b) * c
  {
  }

  lemma QuotientPlus(a: int, p: nat, c: int)
    requires p > 0
    ensures (a + p * c) / p == a / p + c
  {
    assert a == p * (a / p) + a % p;
    Distribute(p, a / p, c);
    QuotientIs(a + p * c, p, a / p + c, a % p);
  }

  /** Half or less of the value, and on its side of zero. */
  lemma ShrinksBy(a: int, p: nat)
    requires p > 1
    ensures if a < 0 then a <= a / p < 0 else 0 <= 2 * (a / p) <= a
  {
    var q, r := a / p, a % p;
    assert a == p * q + r;
    assert p * q == 2 * q + (p - 2) * q;
    MulSign(p - 2, q);
    MulSign(p, q);
  }

  lemma QuotientIsDivision(a: u64, p: nat)
    requires p > 0
    ensures Quotient(a, p) == a / p
  {
  }

  lemma SarIs(a: int, p: nat)
    requires Signed64(a) && p > 0
    ensures var r := if Negative(Enc(a)) then Complement(Quotient(Complement(Enc(a)), p)) else Quotient(Enc(a), p);
            Congruent(TWO_64, r, a / p)
  {
    hide Congruent;
    FloorByComplement(a, p);
    if a < 0 {
      CongruentBy(TWO_64, Complement(Quotient(-1 - a, p)), a / p, 1);
    } else {
      CongruentBy(TWO_64, Quotient(a, p), a / p, 0);
    }
  }

  lemma BoolIs(t: Type, b: bool)
    ensures Val(t, Bool(b)) == Bool(b)
  {
    CongruentBy(Modulus(t), Bool(b), Bool(b), 0);
    WrapUnique(t, Bool(b), Bool(b));
  }

  lemma ComparisonFolds(op: Op, t: Type, a: int, b: int)
    requires op in {Ult, Uge, Eq, Ne, Ule, Ugt, Lt, Ge, Le, Gt, LAnd, LOr}
    requires WellTyped(op, t, t) && InRange(t, a) && InRange(t, b)
    ensures -0x8000_0000_0000_0000 <= a < TWO_64 && -0x8000_0000_0000_0000 <= b < TWO_64
    ensures Folds(op, t, a, b, FoldHost(op, t, Enc(a), Enc(b)))
  {
    hide Congruent, Wrap, Low, SignedLess;
    EncCongruent(t, a);
    EncCongruent(t, b);
    LowOfRange(t, a);
    LowOfRange(t, b);
    BoolIs(t, true);
    BoolIs(t, false);
    if OnSigned(op) {
      SignedLessIs(a, b);
      SignedLessIs(b, a);
    }
  }

  /** Folding two constants computes the operation of their type, but for a logical right shift of a negative int by a
      count that is not a multiple of 32, which is folded into the arithmetic shift. */
  lemma ConstantsFold(op: Op, t1: Type, t2: Type, l1: u64, l2: u64)
    requires WellTyped(op, t1, t2)
    ensures var a, b, r := Val(t1, l1), Val(t2, l2), FoldHost(op, t1, Canon(t1, l1), Canon(t2, l2));
            && (Folds(op, t1, a, b, r) <==> !Misfolds(op, t1, a, b))
            && (Misfolds(op, t1, a, b) ==> Folds(Sar, t1, a, b, r))
  {
    hide Folds, FoldHost, Eval, Val, Canon;
    CanonIs(t1, l1);
    CanonIs(t2, l2);
    var a, b := Val(t1, l1), Val(t2, l2);
    if op in {Add, Sub, Mul} {
      ArithmeticFolds(op, t1, t2, a, b);
    } else if IsBitwise(op) {
      BitsFold(op, t1, a, b);
    } else if Divides(op) {
      DivisionFolds(op, t1, a, b);
    } else if Shifts(op) {
      ShiftFolds(op, t1, a, b);
    } else {
      ComparisonFolds(op, t1, a, b);
    }
  }

  /** The int -5 shifted right by 8 is 2^24 - 1, and is folded into -1. */
  lemma ShiftExample()
    ensures var t := Type(Int, false);
            Eval(Shr, t, -5, 8) == Some(0xFF_FFFF)
            && FoldHost(Shr, t, Canon(t, Enc(-5)), 8).Some? && Val(t, FoldHost(Shr, t, Canon(t, Enc(-5)), 8).value) == -1
  {
    var t := Type(Int, false);
    hide Eval, FoldHost, Wrap, Low, Canon, Quotient, Pow2;
    CanonOf5(t);
    Pow2Of32();
    LogicalShift(t, -5, TWO_64 - 5, 8);
    ShiftedValue(t);
    ShiftedWord(t);
  }

  lemma LogicalShift(t: Type, a: int, l: u64, b: u64)
    requires b < Width(t)
    ensures Eval(Shr, t, a, b) == Some(Wrap(t, Low(t, a) / Pow2(b))) && FoldHost(Shr, t, l, b) == Some(Quotient(l, Pow2(b)))
  {
    hide Wrap, Low, Quotient, Pow2;
    QuotientIs(b, Width(t), 0, b);
  }

  lemma CanonOf5(t: Type)
    requires t == Type(Int, false)
    ensures Canon(t, TWO_64 - 5) == TWO_64 - 5
  {
  }

  lemma ShiftedValue(t: Type)
    requires t == Type(Int, false)
    ensures Wrap(t, Low(t, -5) / 0x100) == 0xFF_FFFF
  {
    hide Wrap, Low;
    LowBits(t, -5);
    QuotientIs(TWO_32 - 5, 0x100, 0xFF_FFFF, 0xFB);
    WrapId(t, 0xFF_FFFF);
  }

  lemma ShiftedWord(t: Type)
    requires t == Type(Int, false)
    ensures Wrap(t, Quotient(TWO_64 - 5, 0x100)) == -1
  {
    hide Wrap, Congruent;
    QuotientIs(TWO_64 - 5, 0x100, 0xFF_FFFF_FFFF_FFFF, 0xFB);
    CongruentBy(TWO_32, -1, 0xFF_FFFF_FFFF_FFFF, -0x100_0000);
    WrapUnique(t, 0xFF_FFFF_FFFF_FFFF, -1);
  }

  // ---------------------------------------------------------------- one constant, or none

  /** A constant, the address of a symbol or local plus an offset, or a value known at run time. */
  datatype Operand = Const(c: u64) | Address(base: nat, off: u64) | Value(id: nat)

  /** What is left of an operation: an operand, an operation to emit, or the error for a constant division by zero. */
  datatype Residue = Done(o: Operand) | Emit(op: Op, a: Operand, ta: Type, b: Operand, tb: Type) | Error

  type Env = nat -> u64

  function Run(env: Env, o: Operand): u64 {
    match o
    case Const(c) => c
    case Address(base, off) => Host(env(base) + off)
    case Value(id) => env(id)
  }

  function Means(env: Env, t: Type, r: Residue): Option<int> {
    match r
    case Done(o) => Some(Val(t, Run(env, o)))
    case Emit(op, a, ta, b, tb) => Eval(op, t, Val(ta, Run(env, a)), Val(tb, Run(env, b)))
    case Error => None
  }

  function Meaning(env: Env, op: Op, v1: Operand, v2: Operand, t1: Type, t2: Type): Option<int> {
    Eval(op, t1, Val(t1, Run(env, v1)), Val(t2, Run(env, v2)))
  }

  /** A pointer difference is a multiple of the element size, which is not negative. */
  predicate Exact(op: Op, a: int, b: int) {
    op == PDiv ==> b >= 0 && (b > 0 ==> a % b == 0)
  }

  /** Under every environment the residue means what the operation means. */
  ghost predicate Right(env: Env, op: Op, v1: Operand, v2: Operand, t1: Type, t2: Type, r: Residue) {
    Exact(op, Val(t1, Run(env, v1)), Val(t2, Run(env, v2))) ==> Means(env, t1, r) == Meaning(env, op, v1, v2, t1, t2)
  }

  /** The operations that are not folded right. */
  predicate FoldsWrong(op: Op, v1: Operand, v2: Operand, t1: Type, t2: Type) {
    v1.Const? && v2.Const? && Misfolds(op, t1, Val(t1, v1.c), Val(t2, v2.c))
  }

  predicate Commutes(op: Op) { op in {Add, And, Xor, Or, Mul, Eq, Ne} }

  const MINUS_1: u64 := TWO_64 - 1

  /** -1 of the type, as the source tests for it. */
  predicate AllOnes(t: Type, l: u64) { l == MINUS_1 || (l == 0xFFFF_FFFF && t.kind != LLong) }

  /** Exchanging the operands of a commutative operation. */
  lemma Exchanged(op: Op, t1: Type, t2: Type, a: int, b: int)
    requires Commutes(op) && WellTyped(op, t1, t2)
    ensures Eval(op, t1, a, b) == Eval(op, t1, b, a)
  {
    if IsBitwise(op) {
      BitwiseCommutes(op, Width(t1), a, b);
    } else if op == Mul {
      assert a * b == b * a;
    }
  }

  /** Operations that a constant operand makes the other operand: x * 1, x - 0, x & -1 and their like. */
  lemma NoOperation(op: Op, t1: Type, t2: Type, a: int, b: int)
    requires WellTyped(op, t1, t2) && InRange(t1, a) && InRange(t2, b)
    requires (op in {Mul, Div, UDiv, PDiv} && b == 1)
          || (op in {Add, Sub, Or, Xor, Shl, Shr, Sar} && b == 0)
          || (op == And && Congruent(Modulus(t1), b, -1))
    ensures Eval(op, t1, a, b) == Some(a)
  {
    hide Congruent, Wrap, Bitwise, Eval;
    if op == And || op == Or || op == Xor {
      NoBitOperation(op, t1, a, b);
    } else if b == 1 {
      ByOne(op, t1, a);
    } else {
      ByZero(op, t1, a);
    }
  }

  lemma ByOne(op: Op, t: Type, a: int)
    requires op in {Mul, Div, UDiv, PDiv} && InRange(t, a) && InRange(t, 1) && (op == UDiv ==> t.unsigned)
    ensures Eval(op, t, a, 1) == Some(a)
  {
    hide Wrap;
    WrapId(t, a);
    LowOfRange(t, a);
    LowOfRange(t, 1);
    QuotientIs(1, Modulus(t), 0, 1);
    QuotientIs(a, 1, a, 0);
    QuotientIs(Abs(a), 1, Abs(a), 0);
  }

  lemma ByZero(op: Op, t: Type, a: int)
    requires op in {Add, Sub, Shl, Shr, Sar} && InRange(t, a)
    ensures Eval(op, t, a, 0) == Some(a)
  {
    hide Wrap, Congruent, Low;
    WrapId(t, a);
    LowCongruent(t, a);
    WrapCongruent(t, Low(t, a), a);
    QuotientIs(0, Width(t), 0, 0);
    assert Scale(t, 0) == 1;
  }

  lemma NoBitOperation(op: Op, t: Type, a: int, b: int)
    requires InRange(t, a) && ((op in {Or, Xor} && b == 0) || (op == And && Congruent(Modulus(t), b, -1)))
    ensures Eval(op, t, a, b) == Some(a)
  {
    hide Congruent, Wrap, Bitwise;
    WrapId(t, a);
    ModulusIs(t);
    BitwiseUnits(Width(t), a);
    if op == And {
      CongruentBy(Modulus(t), a, a, 0);
      BitwiseLow(And, Width(t), a, a, b, -1);
    }
    WrapCongruent(t, Bitwise(op, Width(t), a, b), a);
  }

  /** Operations that are constant whatever the other operand is. */
  lemma ConstantResult(op: Op, t: Type, a: int, b: int)
    requires WellTyped(op, t, t) && InRange(t, a) && InRange(t, b)
    requires (op in {And, Mul} && b == 0) || (op == Or && Congruent(Modulus(t), b, -1)) || (op in {Mod, UMod} && b == 1)
    ensures Eval(op, t, a, b) == Some(if op in {Mod, UMod} then 0 else b)
  {
    hide Congruent, Wrap, Bitwise;
    CongruentBy(Modulus(t), 0, 0, 0);
    WrapUnique(t, 0, 0);
    LowOfRange(t, b);
    ModulusIs(t);
    BitwiseUnits(Width(t), a);
    if op == Or {
      CongruentBy(Modulus(t), a, a, 0);
      BitwiseLow(Or, Width(t), a, a, b, -1);
      WrapId(t, b);
      Transitive(Modulus(t), Bitwise(Or, Width(t), a, b), -1, b);
      WrapCongruent(t, Bitwise(Or, Width(t), a, b), b);
    }
  }

  /** 0 shifted is 0 and -1 shifted right arithmetically is -1. */
  lemma ShiftedConstant(op: Op, t: Type, a: int, b: int)
    requires Shifts(op) && InRange(t, a) && (a == 0 || (a == -1 && op == Sar))
    ensures Eval(op, t, a, b) == Some(a)
  {
    hide Wrap, Congruent;
    CongruentBy(Modulus(t), a, a, 0);
    WrapUnique(t, a, a);
    LowOfRange(t, a);
    var p := Scale(t, b);
    if a == 0 {
      QuotientIs(0, p, 0, 0);
    } else {
      QuotientIs(-1, p, -1, p - 1);
    }
  }

  /** Multiplication and unsigned division by a power of two as shifts. */
  lemma ShiftInstead(op: Op, t: Type, a: int, n: nat)
    requires op in {Mul, UDiv} && WellTyped(op, t, t) && InRange(t, a) && n < Width(t) && InRange(t, Pow2(n))
    ensures Eval(op, t, a, Pow2(n)) == Eval(if op == Mul then Shl else Shr, t, a, n)
  {
    hide Wrap, InRange;
    LowOfRange(t, Pow2(n));
    QuotientIs(n, Width(t), 0, n);
  }

  /** The signed division of a pointer difference by a power of two is the arithmetic shift exactly when the
      difference is a multiple or not negative. */
  lemma ShiftDifference(a: int, n: nat)
    requires Signed64(a) && n < 64 && Signed64(Pow2(n))
    ensures var t := Type(LLong, false); Eval(PDiv, t, a, Pow2(n)) == Eval(Sar, t, a, n) <==> a >= 0 || a % Pow2(n) == 0
  {
    hide Wrap;
    var t, p := Type(LLong, false), Pow2(n);
    LowOfRange(t, p);
    QuotientIs(n, 64, 0, n);
    TruncOrFloor(a, p);
    DivisionStays(a, p);
    WrapId(t, TruncDiv(a, p));
    WrapId(t, a / p);
  }

  lemma WrapId(t: Type, v: int)
    requires InRange(t, v)
    ensures Wrap(t, v) == v
  {
    CongruentBy(Modulus(t), v, v, 0);
    WrapUnique(t, v, v);
  }

  lemma TruncOrFloor(a: int, p: nat)
    requires p > 0
    ensures TruncDiv(a, p) == a / p <==> a >= 0 || a % p == 0
  {
    if a < 0 {
      var q, r := a / p, a % p;
      assert a == p * q + r;
      assert p * -q == -(p * q);
      if r == 0 {
        QuotientIs(-a, p, -q, 0);
      } else {
        Distribute(p, -q, -1);
        QuotientIs(-a, p, -q - 1, p - r);
      }
    }
  }

  lemma DivisionStays(a: int, p: nat)
    requires Signed64(a) && p > 0
    ensures InRange(Type(LLong, false), TruncDiv(a, p)) && InRange(Type(LLong, false), a / p)
  {
    QuotientNat(Abs(a), p);
    if a < 0 {
      FloorByComplement(a, p);
      QuotientNat(-1 - a, p);
    }
  }

  // ---------------------------------------------------------------- the power-of-two test

  lemma {:induction false} AndSelf(n: nat, h: nat)
    requires h < Pow2(n)
    ensures Bitwise(And, n, h, h) == h
  {
    if n > 0 {
      AndSelf(n - 1, h / 2);
    }
  }

  /** l & (l - 1) is 0 for powers of two alone. */
  lemma {:induction false} PowerTest(n: nat, l: nat) returns (k: nat)
    requires 0 < l < Pow2(n) && Bitwise(And, n, l, l - 1) == 0
    ensures k < n && l == Pow2(k)
  {
    if l % 2 == 1 {
      assert (l - 1) / 2 == l / 2;
      AndSelf(n - 1, l / 2);
      k := 0;
    } else {
      assert (l - 1) / 2 == l / 2 - 1;
      k := PowerTest(n - 1, l / 2);
      k := k + 1;
    }
  }

  /** Powers of two pass the test. */
  lemma {:induction false} PowerPasses(n: nat, k: nat)
    ensures Bitwise(And, n, Pow2(k), Pow2(k) - 1) == 0
    decreases n
  {
    if n > 0 {
      if k > 0 {
        assert Pow2(k) / 2 == Pow2(k - 1) && (Pow2(k) - 1) / 2 == Pow2(k - 1) - 1;
        PowerPasses(n - 1, k - 1);
      } else {
        BitwiseUnits(n - 1, 0);
      }
    }
  }

  lemma {:induction false} Pow2Grows(a: nat, b: nat)
    requires a < b
    ensures Pow2(a) < Pow2(b)
  {
    if a + 1 < b {
      Pow2Grows(a, b - 1);
    }
  }

  /** A constant operand whose canonical word is a power of two. */
  lemma PowerOperand(t: Type, b: int, n: nat)
    requires t.kind != Ptr && InRange(t, b) && n < 64 && -0x8000_0000_0000_0000 <= b < TWO_64 && Enc(b) == Pow2(n)
    ensures n < Width(t) && Congruent(Modulus(t), b, Pow2(n)) && (b >= 0 ==> b == Pow2(n))
  {
    Pow2Of32();
    EncCongruent(t, b);
    FromHost(t, Enc(b), b);
    assert Pow2(64) == 2 * Pow2(63);
    if Width(t) <= n {
      if n > 32 { Pow2Grows(32, n); }
      if n < 63 { Pow2Grows(n, 63); }
    }
  }

  lemma MultipliesCongruent(t: Type, a: int, b: int, n: nat)
    requires t.kind != Ptr && n < Width(t) && Congruent(Modulus(t), b, Pow2(n))
    ensures Eval(Mul, t, a, b) == Eval(Shl, t, a, n)
  {
    hide Congruent, Wrap;
    CongruentBy(Modulus(t), a, a, 0);
    ProductCongruent(Modulus(t), a, a, b, Pow2(n));
    WrapCongruent(t, a * b, a * Pow2(n));
    QuotientIs(n, Width(t), 0, n);
  }

  /** The operation by a power of two and the shift that replaces it. */
  lemma Reduced(op: Op, t: Type, a: int, b: int, n: nat)
    requires op in {Mul, UDiv, PDiv} && WellTyped(op, t, t) && InRange(t, a) && InRange(t, b) && n < 64
    requires -0x8000_0000_0000_0000 <= b < TWO_64 && Enc(b) == Pow2(n)
    ensures Exact(op, a, b) ==> Eval(op, t, a, b) == Eval(ShiftFor(op), t, a, n)
  {
    hide Eval;
    PowerOperand(t, b, n);
    if op == Mul {
      MultipliesCongruent(t, a, b, n);
    } else if op == UDiv {
      ShiftInstead(op, t, a, n);
    } else if b >= 0 {
      ShiftDifference(a, n);
    }
  }

  function ShiftFor(op: Op): Op { if op == Mul then Shl else if op == PDiv then Sar else Shr }

  method Log2(l: u64, ghost k: nat) returns (n: nat)
    requires k < 64 && l == Pow2(k)
    ensures n == k
  {
    var rest: u64, i: int := l, -1;
    while rest != 0
      invariant -1 <= i <= k
      invariant if i < k then rest == Pow2(k - (i + 1)) else rest == 0
      decreases k - i
    {
      rest, i := rest / 2, i + 1;
    }
    n := i;
  }

  // ---------------------------------------------------------------- each way out of gen_opic

  predicate Swapped(op: Op, t1: Type, t2: Type, ta: Type, tb: Type) {
    (ta == t1 && tb == t2) || (Commutes(op) && ta == t2 && tb == t1)
  }

  lemma AddsNothing(op: Op, t: Type, ta: Type, x: u64)
    requires op in {Add, Sub} && Modulus(t) == Modulus(ta)
    ensures Eval(op, t, Val(ta, x), 0) == Some(Val(t, x))
  {
    WrapIs(ta, x);
    WrapCongruent(t, Val(ta, x), x);
  }

  lemma SameModulus(op: Op, t1: Type, t2: Type, ta: Type, tb: Type)
    requires WellTyped(op, t1, t2) && Swapped(op, t1, t2, ta, tb) && !Shifts(op)
    ensures Modulus(ta) == Modulus(t1) == Modulus(tb)
    ensures op != Add && op != Sub ==> ta == t1 == tb
  {
  }

  /** An operand dropped because it changes nothing. */
  lemma Dropped(op: Op, t1: Type, t2: Type, ta: Type, tb: Type, x: u64, c: u64)
    requires WellTyped(op, t1, t2) && Swapped(op, t1, t2, ta, tb)
    requires var l := Canon(tb, c);
             (op in {Mul, Div, UDiv, PDiv} && l == 1)
             || (op in {Add, Sub, Or, Xor, Shl, Shr, Sar} && l == 0)
             || (op == And && AllOnes(t2, l))
    ensures Eval(op, t1, Val(ta, x), Val(tb, c)) == Some(Val(t1, x))
  {
    hide Eval, Wrap, Canon;
    CanonIs(tb, c);
    CanonIs(ta, x);
    if op in {Add, Sub} {
      AddsNothing(op, t1, ta, x);
    } else {
      if op == And { OnesCongruent(tb, c); }
      NoOperation(op, t1, tb, Val(ta, x), Val(tb, c));
    }
  }

  lemma OnesCongruent(t: Type, c: u64)
    requires t.kind != Ptr && AllOnes(t, Canon(t, c))
    ensures Congruent(Modulus(t), Val(t, c), -1)
  {
    CanonIs(t, c);
    var v := Val(t, c);
    CongruentBy(Modulus(t), v, -1, if v == -1 then 0 else 1);
  }

  /** An address plus a constant. */
  lemma Moved(env: Env, op: Op, t1: Type, ta: Type, tb: Type, base: nat, off: u64, c: u64)
    requires op in {Add, Sub} && Modulus(ta) == Modulus(t1) == Modulus(tb)
    ensures Eval(op, t1, Val(ta, Run(env, Address(base, off))), Val(tb, c))
         == Some(Val(t1, Run(env, Address(base, Host(Step(op, Canon(tb, c)) + off)))))
  {
    hide Congruent, Wrap, Canon, Host, Enc, Step;
    var l, b := Canon(tb, c), Val(tb, c);
    CanonIs(tb, c);
    EncCongruent(tb, b);
    StepCongruent(op, l, b);
    MovedHost(t1, ta, env(base), off, Step(op, l), if op == Sub then -b else b);
  }

  /** The offset's change: a subtraction adds the complement. */
  function Step(op: Op, l: u64): u64 { if op == Sub then Neg(l) else l }

  lemma MovedHost(t: Type, ta: Type, at: u64, off: u64, step: u64, signed: int)
    requires Modulus(t) == Modulus(ta) && Congruent(TWO_64, step, signed)
    ensures Wrap(t, Val(ta, Host(at + off)) + signed) == Val(t, Host(at + Host(step + off)))
  {
    hide Congruent, Wrap, Host;
    var m, a := Modulus(t), Val(ta, Host(at + off));
    AddressMoves(at, off, step, signed);
    WrapIs(ta, Host(at + off));
    FromHost(t, Host(at + Host(step + off)), Host(at + off) + signed);
    CongruentBy(m, signed, signed, 0);
    SumCongruent(m, a, Host(at + off), signed, signed);
    Transitive(m, Host(at + Host(step + off)), Host(at + off) + signed, a + signed);
    WrapCongruent(t, Host(at + Host(step + off)), a + signed);
  }

  lemma StepCongruent(op: Op, l: u64, b: int)
    requires Congruent(TWO_64, l, b)
    ensures Congruent(TWO_64, Step(op, l), if op == Sub then -b else b)
  {
    NegCongruent(l);
    CongruentBy(TWO_64, 0, 0, 0);
    SumCongruent(TWO_64, 0, 0, l, b);
  }

  lemma AddressMoves(at: u64, off: u64, step: u64, signed: int)
    requires Congruent(TWO_64, step, signed)
    ensures Congruent(TWO_64, Host(at + Host(step + off)), Host(at + off) + signed)
  {
    var m := TWO_64;
    var inner, start := Host(step + off), Host(at + off);
    ModCongruent(m, step + off);
    ModCongruent(m, at + off);
    ModCongruent(m, at + inner);
    var i := CongruentGap(m, inner, step + off);
    var j := CongruentGap(m, start, at + off);
    var k := CongruentGap(m, Host(at + inner), at + inner);
    var d := CongruentGap(m, step, signed);
    CongruentBy(m, Host(at + inner), start + signed, k + i - j + d);
  }

  // ---------------------------------------------------------------- gen_opic

  lemma DroppedIsRight(env: Env, op: Op, v1: Operand, v2: Operand, t1: Type, t2: Type, a: Operand, ta: Type, b: Operand, tb: Type)
    requires WellTyped(op, t1, t2) && Arranged(op, v1, v2, t1, t2, a, ta, b, tb) && b.Const?
    requires var l := Canon(tb, b.c);
             (op in {Mul, Div, UDiv, PDiv} && l == 1)
             || (op in {Add, Sub, Or, Xor, Shl, Shr, Sar} && l == 0)
             || (op == And && AllOnes(t2, l))
    ensures Right(env, op, v1, v2, t1, t2, Done(a))
  {
    hide Eval, Wrap, Canon;
    ArrangedMeans(env, op, v1, v2, t1, t2, a, ta, b, tb);
    Dropped(op, t1, t2, ta, tb, Run(env, a), b.c);
  }

  /** The operands as they were, or exchanged if the operation commutes. */
  predicate Arranged(op: Op, v1: Operand, v2: Operand, t1: Type, t2: Type, a: Operand, ta: Type, b: Operand, tb: Type) {
    (a == v1 && ta == t1 && b == v2 && tb == t2) || (Commutes(op) && a == v2 && ta == t2 && b == v1 && tb == t1)
  }

  lemma ArrangedMeans(env: Env, op: Op, v1: Operand, v2: Operand, t1: Type, t2: Type, a: Operand, ta: Type, b: Operand, tb: Type)
    requires WellTyped(op, t1, t2) && Arranged(op, v1, v2, t1, t2, a, ta, b, tb)
    ensures Meaning(env, op, v1, v2, t1, t2) == Eval(op, t1, Val(ta, Run(env, a)), Val(tb, Run(env, b)))
  {
    hide Eval, Wrap;
    if a != v1 || ta != t1 || b != v2 || tb != t2 {
      Exchanged(op, t1, t2, Val(t1, Run(env, v1)), Val(t2, Run(env, v2)));
    }
  }

  lemma ConstantIsRight(env: Env, op: Op, v1: Operand, v2: Operand, t1: Type, t2: Type, a: Operand, ta: Type, b: Operand, tb: Type)
    requires WellTyped(op, t1, t2) && Arranged(op, v1, v2, t1, t2, a, ta, b, tb) && b.Const?
    requires var l := Canon(tb, b.c);
             (op in {And, Mul} && l == 0) || (op == Or && AllOnes(t2, l)) || (op in {Mod, UMod} && l == 1)
    ensures Right(env, op, v1, v2, t1, t2, Done(if Canon(tb, b.c) == 1 && op != Or then Const(0) else b))
  {
    hide Eval, Wrap, Canon;
    ArrangedMeans(env, op, v1, v2, t1, t2, a, ta, b, tb);
    CanonIs(tb, b.c);
    CanonIs(ta, Run(env, a));
    if op == Or { OnesCongruent(tb, b.c); }
    ConstantResult(op, t1, Val(ta, Run(env, a)), Val(tb, b.c));
    BoolIs(t1, false);
  }

  lemma ShiftedIsRight(env: Env, op: Op, v1: Operand, v2: Operand, t1: Type, t2: Type)
    requires WellTyped(op, t1, t2) && v1.Const? && Shifts(op)
    requires Canon(t1, v1.c) == 0 || (Canon(t1, v1.c) == MINUS_1 && op == Sar)
    ensures Right(env, op, v1, v2, t1, t2, Done(v1))
  {
    hide Eval, Wrap, Canon;
    CanonIs(t1, v1.c);
    ShiftedConstant(op, t1, Val(t1, v1.c), Val(t2, Run(env, v2)));
  }

  lemma ReducedIsRight(env: Env, op: Op, v1: Operand, v2: Operand, t1: Type, t2: Type, a: Operand, ta: Type, b: Operand, tb: Type, n: nat)
    requires WellTyped(op, t1, t2) && Arranged(op, v1, v2, t1, t2, a, ta, b, tb) && b.Const?
    requires op in {Mul, UDiv, PDiv} && n < 64 && Canon(tb, b.c) == Pow2(n)
    ensures Right(env, op, v1, v2, t1, t2, Emit(ShiftFor(op), a, ta, Const(n), tb))
  {
    hide Eval, Wrap, Canon;
    ArrangedMeans(env, op, v1, v2, t1, t2, a, ta, b, tb);
    CanonIs(tb, b.c);
    CanonIs(ta, Run(env, a));
    WrapId(tb, n);
    Reduced(op, t1, Val(ta, Run(env, a)), Val(tb, b.c), n);
  }

  lemma MovedIsRight(env: Env, op: Op, v1: Operand, v2: Operand, t1: Type, t2: Type, a: Operand, ta: Type, b: Operand, tb: Type)
    requires WellTyped(op, t1, t2) && Arranged(op, v1, v2, t1, t2, a, ta, b, tb) && b.Const? && a.Address? && op in {Add, Sub}
    ensures Right(env, op, v1, v2, t1, t2, Done(Address(a.base, Host(Step(op, Canon(tb, b.c)) + a.off))))
  {
    hide Eval, Wrap, Canon, Host;
    ArrangedMeans(env, op, v1, v2, t1, t2, a, ta, b, tb);
    SameModulus(op, t1, t2, ta, tb);
    Moved(env, op, t1, ta, tb, a.base, a.off, b.c);
  }

  lemma FoldedIsRight(env: Env, op: Op, v1: Operand, v2: Operand, t1: Type, t2: Type)
    requires WellTyped(op, t1, t2) && v1.Const? && v2.Const?
    ensures match FoldHost(op, t1, Canon(t1, v1.c), Canon(t2, v2.c))
            case Some(l) => Right(env, op, v1, v2, t1, t2, Done(Const(Canon(t1, l)))) <==> !FoldsWrong(op, v1, v2, t1, t2)
            case None => Meaning(env, op, v1, v2, t1, t2) == None && !FoldsWrong(op, v1, v2, t1, t2)
  {
    hide Eval, Wrap, Canon, FoldHost;
    ConstantsFold(op, t1, t2, v1.c, v2.c);
    var l := FoldHost(op, t1, Canon(t1, v1.c), Canon(t2, v2.c));
    ZeroDivisor(op, t1, t2, v2.c, Canon(t1, v1.c));
    if l.Some? { CanonIs(t1, l.value); }
  }

  lemma EmittedIsRight(env: Env, op: Op, v1: Operand, v2: Operand, t1: Type, t2: Type, a: Operand, ta: Type, b: Operand, tb: Type)
    requires WellTyped(op, t1, t2) && Arranged(op, v1, v2, t1, t2, a, ta, b, tb)
    ensures Right(env, op, v1, v2, t1, t2, Emit(op, a, ta, b, tb))
  {
    hide Eval, Wrap;
    ArrangedMeans(env, op, v1, v2, t1, t2, a, ta, b, tb);
  }

  /** (int)l == l */
  predicate FitsInt(l: u64) { l < 0x8000_0000 || l >= TWO_64 - 0x8000_0000 }

  /** Constants that make the operation its other operand: 1, 0 and all ones. */
  predicate Neutral(op: Op, t: Type, l: u64) {
    || (op in {Mul, Div, UDiv, PDiv} && l == 1)
    || (op in {Add, Sub, Or, Xor, Shl, Shr, Sar} && l == 0)
    || (op == And && AllOnes(t, l))
  }

  /** Constants that make it a constant: 0, all ones and 1. */
  predicate Absorbing(op: Op, t: Type, l: u64) {
    (op in {And, Mul} && l == 0) || (op == Or && AllOnes(t, l)) || (op in {Mod, UMod} && l == 1)
  }

  /** The operands in the order in which they are looked at: a constant comes second where the operation commutes. */
  function Looked(op: Op, v1: Operand, v2: Operand, t1: Type, t2: Type): (Operand, Type, Operand, Type) {
    if v1.Const? && Commutes(op) then (v2, t2, v1, t1) else (v1, t1, v2, t2)
  }

  /** How an operation with a constant second operand gets simpler. */
  ghost predicate Simpler(op: Op, a: Operand, ta: Type, b: Operand, tb: Type, t2: Type, constWanted: bool, r: Residue) {
    b.Const? && !a.Const? ==>
      var l := Canon(tb, b.c);
      && (Neutral(op, t2, l) ==> r == Done(a))
      && (!constWanted && Absorbing(op, t2, l) ==> r == Done(if op in {Mod, UMod} then Const(0) else b))
      && (forall n: nat {:trigger Pow2(n)} :: 0 < n < 64 && l == Pow2(n) && op in {Mul, PDiv, UDiv} ==> r == Emit(ShiftFor(op), a, ta, Const(n), tb))
      && (a.Address? && op in {Add, Sub} && l != 0 && FitsInt(Host(Step(op, l) + a.off)) ==>
            r == Done(Address(a.base, Host(Step(op, l) + a.off))))
  }

  lemma NoneSimpler(op: Op, v1: Operand, v2: Operand, t1: Type, t2: Type, constWanted: bool, r: Residue)
    requires v1.Const? && (v2.Const? || !Commutes(op))
    ensures var (a, ta, b, tb) := Looked(op, v1, v2, t1, t2); Simpler(op, a, ta, b, tb, t2, constWanted, r)
  {
  }

  lemma SimplerDropped(op: Op, a: Operand, ta: Type, b: Operand, tb: Type, t2: Type, constWanted: bool)
    requires b.Const? && Neutral(op, t2, Canon(tb, b.c))
    ensures Simpler(op, a, ta, b, tb, t2, constWanted, Done(a))
  {
    hide Canon, Host, Step;
    forall n: nat {:trigger Pow2(n)} | 0 < n ensures Pow2(n) > 1 {
    }
  }

  lemma SimplerAbsorbed(op: Op, a: Operand, ta: Type, b: Operand, tb: Type, t2: Type, constWanted: bool)
    requires b.Const? && !constWanted && Absorbing(op, t2, Canon(tb, b.c))
    ensures Simpler(op, a, ta, b, tb, t2, constWanted, Done(if op in {Mod, UMod} then Const(0) else b))
  {
    hide Canon, Host, Step;
  }

  lemma SimplerShifted(op: Op, a: Operand, ta: Type, b: Operand, tb: Type, t2: Type, constWanted: bool, n: nat)
    requires b.Const? && op in {Mul, PDiv, UDiv} && n < 64 && Canon(tb, b.c) == Pow2(n)
    requires !Neutral(op, t2, Canon(tb, b.c)) && !(!constWanted && Absorbing(op, t2, Canon(tb, b.c)))
    ensures Simpler(op, a, ta, b, tb, t2, constWanted, Emit(ShiftFor(op), a, ta, Const(n), tb))
  {
    hide Canon, Host, Step, Pow2;
    forall m: nat {:trigger Pow2(m)} | 0 < m < 64 && Pow2(m) == Pow2(n) ensures m == n {
      if m < n { Pow2Grows(m, n); } else if n < m { Pow2Grows(n, m); }
    }
  }

  lemma SimplerMoved(op: Op, a: Operand, ta: Type, b: Operand, tb: Type, t2: Type, constWanted: bool)
    requires b.Const? && op in {Add, Sub} && a.Address? && !Neutral(op, t2, Canon(tb, b.c))
    ensures Simpler(op, a, ta, b, tb, t2, constWanted, Done(Address(a.base, Host(Step(op, Canon(tb, b.c)) + a.off))))
  {
    hide Canon, Host, Step, FitsInt;
  }

  lemma SimplerEmitted(op: Op, a: Operand, ta: Type, b: Operand, tb: Type, t2: Type, constWanted: bool)
    requires b.Const? ==>
               var l := Canon(tb, b.c);
               && !Neutral(op, t2, l) && !(!constWanted && Absorbing(op, t2, l))
               && (op in {Mul, PDiv, UDiv} ==> !(l > 0 && HostBits(And, l, l - 1) == 0))
               && !(a.Address? && op in {Add, Sub} && FitsInt(Host(Step(op, l) + a.off)))
    ensures Simpler(op, a, ta, b, tb, t2, constWanted, Emit(op, a, ta, b, tb))
  {
    hide Canon, Host, Step, FitsInt, Pow2, Bitwise;
    forall n: nat {:trigger Pow2(n)} | 0 < n < 64 && b.Const? && Canon(tb, b.c) == Pow2(n) ensures HostBits(And, Pow2(n), Pow2(n) - 1) == 0 {
      PowerPasses(64, n);
    }
  }

  /** Folds, drops, reduces or emits the operation.  Whatever is left means the operation, provided that a pointer
      difference is exact, unless a negative int constant is shifted right logically; only a division by zero of constants is refused, where a constant is wanted. */
  method GenOpic(op: Op, v1: Operand, v2: Operand, t1: Type, t2: Type, constWanted: bool, evaluated: bool) returns (r: Residue)
    requires WellTyped(op, t1, t2)
    ensures r.Error? ==> constWanted && evaluated && v1.Const? && v2.Const? && Divides(op) && Val(t2, v2.c) == 0
    ensures !r.Error? ==> forall env :: Right(env, op, v1, v2, t1, t2, r) <==> !FoldsWrong(op, v1, v2, t1, t2)
    ensures v1.Const? && v2.Const? && !(Divides(op) && Val(t2, v2.c) == 0) ==> r.Done? && r.o.Const?
    ensures var (a, ta, b, tb) := Looked(op, v1, v2, t1, t2); Simpler(op, a, ta, b, tb, t2, constWanted, r)
  {
    hide Right, Canon, Val, FoldHost, Means, Meaning, FoldsWrong, Simpler, HostBits, FitsInt, Host, Step;
    OneValue(op, v1, v2, t1, t2);
    var c1, c2 := v1.Const?, v2.Const?;
    var l1: u64, l2: u64 := if c1 then Canon(t1, v1.c) else 0, if c2 then Canon(t2, v2.c) else 0;
    if c1 && c2 {
      r := FoldConstants(op, v1, v2, t1, t2, l1, l2, constWanted, evaluated);
      NoneSimpler(op, v1, v2, t1, t2, constWanted, r);
      return;
    }
    var a, ta, b, tb := v1, t1, v2, t2;
    if c1 && Commutes(op) {
      a, ta, b, tb := v2, t2, v1, t1;
      c2, l2 := c1, l1;
    }
    if !constWanted && c1 && Shifts(op) && (l1 == 0 || (l1 == MINUS_1 && op == Sar)) {
      forall env ensures Right(env, op, v1, v2, t1, t2, Done(a)) { ShiftedIsRight(env, op, v1, v2, t1, t2); }
      NoneSimpler(op, v1, v2, t1, t2, constWanted, Done(a));
      return Done(a);
    }
    if !constWanted && c2 && ((l2 == 0 && op in {And, Mul}) || (op == Or && AllOnes(t2, l2)) || (l2 == 1 && op in {Mod, UMod})) {
      SimplerAbsorbed(op, a, ta, b, tb, t2, constWanted);
      r := Done(if l2 == 1 then Const(0) else b);
      forall env ensures Right(env, op, v1, v2, t1, t2, r) { ConstantIsRight(env, op, v1, v2, t1, t2, a, ta, b, tb); }
      return;
    }
    if c2 && ((op in {Mul, Div, UDiv, PDiv} && l2 == 1) || (op in {Add, Sub, Or, Xor, Shl, Shr, Sar} && l2 == 0)
              || (op == And && AllOnes(t2, l2))) {
      forall env ensures Right(env, op, v1, v2, t1, t2, Done(a)) { DroppedIsRight(env, op, v1, v2, t1, t2, a, ta, b, tb); }
      SimplerDropped(op, a, ta, b, tb, t2, constWanted);
      return Done(a);
    }
    if c2 && op in {Mul, PDiv, UDiv} {
      if l2 > 0 && HostBits(And, l2, l2 - 1) == 0 {
        r := EmitShift(op, v1, v2, t1, t2, a, ta, b, tb);
        ghost var n: nat :| n < 64 && l2 == Pow2(n) && r == Emit(ShiftFor(op), a, ta, Const(n), tb);
        SimplerShifted(op, a, ta, b, tb, t2, constWanted, n);
        return;
      }
    } else if c2 && op in {Add, Sub} && a.Address? {
      var off := Host(Step(op, l2) + a.off);
      if FitsInt(off) {
        forall env ensures Right(env, op, v1, v2, t1, t2, Done(Address(a.base, off))) {
          MovedIsRight(env, op, v1, v2, t1, t2, a, ta, b, tb);
        }
        SimplerMoved(op, a, ta, b, tb, t2, constWanted);
        return Done(Address(a.base, off));
      }
    }
    SimplerEmitted(op, a, ta, b, tb, t2, constWanted);
    r := EmitOp(op, v1, v2, t1, t2, a, ta, b, tb);
  }

  /** Both operands are constants. */
  method FoldConstants(op: Op, v1: Operand, v2: Operand, t1: Type, t2: Type, l1: u64, l2: u64, constWanted: bool, evaluated: bool)
    returns (r: Residue)
    requires WellTyped(op, t1, t2) && v1.Const? && v2.Const? && l1 == Canon(t1, v1.c) && l2 == Canon(t2, v2.c)
    ensures r.Error? ==> constWanted && evaluated && Divides(op) && Val(t2, v2.c) == 0
    ensures !r.Error? ==> forall env :: Right(env, op, v1, v2, t1, t2, r) <==> !FoldsWrong(op, v1, v2, t1, t2)
    ensures !(Divides(op) && Val(t2, v2.c) == 0) ==> r.Done? && r.o.Const?
  {
    hide Right, Canon, Val, FoldHost, Means, Meaning, FoldsWrong;
    OneValue(op, v1, v2, t1, t2);
    var l := FoldHost(op, t1, l1, l2);
    ZeroDivisor(op, t1, t2, v2.c, l1);
    if l == None {
      if constWanted && evaluated {
        return Error;
      }
      r := EmitOp(op, v1, v2, t1, t2, v1, t1, v2, t2);
      return;
    }
    r := Done(Const(Canon(t1, l.value)));
    forall env ensures Right(env, op, v1, v2, t1, t2, r) <==> !FoldsWrong(op, v1, v2, t1, t2) { FoldedIsRight(env, op, v1, v2, t1, t2); }
  }

  lemma OneValue(op: Op, v1: Operand, v2: Operand, t1: Type, t2: Type)
    ensures !(v1.Const? && v2.Const?) || Divides(op) ==> !FoldsWrong(op, v1, v2, t1, t2)
  {
  }

  lemma ZeroDivisor(op: Op, t1: Type, t2: Type, l: u64, l1: u64)
    requires WellTyped(op, t1, t2)
    ensures FoldHost(op, t1, l1, Canon(t2, l)) == None <==> Divides(op) && Val(t2, l) == 0
  {
    hide Canon, Wrap;
    CanonIs(t2, l);
  }

  /** The general case. */
  method EmitOp(op: Op, ghost v1: Operand, ghost v2: Operand, ghost t1: Type, ghost t2: Type, a: Operand, ta: Type, b: Operand, tb: Type) returns (r: Residue)
    requires WellTyped(op, t1, t2) && Arranged(op, v1, v2, t1, t2, a, ta, b, tb)
    ensures r == Emit(op, a, ta, b, tb) && forall env :: Right(env, op, v1, v2, t1, t2, r)
  {
    hide Right;
    r := Emit(op, a, ta, b, tb);
    forall env ensures Right(env, op, v1, v2, t1, t2, r) { EmittedIsRight(env, op, v1, v2, t1, t2, a, ta, b, tb); }
  }

  /** A multiplication or division by a power of two becomes a shift. */
  method EmitShift(op: Op, ghost v1: Operand, ghost v2: Operand, ghost t1: Type, ghost t2: Type, a: Operand, ta: Type, b: Operand, tb: Type) returns (r: Residue)
    requires WellTyped(op, t1, t2) && Arranged(op, v1, v2, t1, t2, a, ta, b, tb)
    requires op in {Mul, PDiv, UDiv} && b.Const? && Canon(tb, b.c) > 0 && HostBits(And, Canon(tb, b.c), Canon(tb, b.c) - 1) == 0
    ensures forall env :: Right(env, op, v1, v2, t1, t2, r)
    ensures exists n: nat {:trigger Pow2(n)} :: n < 64 && Canon(tb, b.c) == Pow2(n) && r == Emit(ShiftFor(op), a, ta, Const(n), tb)
  {
    hide Right, Canon;
    var l2 := Canon(tb, b.c);
    Pow2Of32();
    ghost var k := PowerTest(64, l2);
    var n := Log2(l2, k);
    r := Emit(ShiftFor(op), a, ta, Const(n), tb);
    forall env ensures Right(env, op, v1, v2, t1, t2, r) { ReducedIsRight(env, op, v1, v2, t1, t2, a, ta, b, tb, n); }
  }

  // ---------------------------------------------------------------- gen_op

  /** The operator for an unsigned type. */
  function Select(op: Op, t: Type): Op {
    if !t.unsigned then op else
    match op
    case Sar => Shr
    case Div => UDiv
    case Mod => UMod
    case Lt => Ult
    case Gt => Ugt
    case Le => Ule
    case Ge => Uge
    case _ => op
  }

  /** The selected operator computes on the type's bits what the operator of the source program means on its values. */
  lemma SelectionKeepsMeaning(op: Op, t: Type, a: int, b: int)
    requires op in {Add, Sub, Mul, And, Or, Xor, Div, Mod, Shl, Sar, Eq, Ne, Lt, Gt, Le, Ge, LAnd, LOr}
    requires InRange(t, a) && (if Shifts(op) then InRange(Type(Int, false), b) else InRange(t, b))
    ensures Eval(Select(op, t), t, a, b) == Eval(op, t, a, b)
    ensures t.kind != Ptr ==> WellTyped(Select(op, t), t, if Shifts(op) then Type(Int, false) else t)
  {
    hide Wrap, Low, Eval;
    if t.unsigned {
      if op in {Div, Mod} {
        UnsignedDivision(op, t, a, b);
      } else if op in {Lt, Gt, Le, Ge, Sar} {
        UnsignedOrder(op, t, a, b);
      }
    }
  }

  lemma UnsignedDivision(op: Op, t: Type, a: int, b: int)
    requires op in {Div, Mod} && t.unsigned && InRange(t, a) && InRange(t, b)
    ensures Eval(Select(op, t), t, a, b) == Eval(op, t, a, b)
  {
    hide Wrap, Low;
    LowOfRange(t, a);
    LowOfRange(t, b);
    if b > 0 {
      assert TruncDiv(a, b) == a / b;
      assert a == b * (a / b) + a % b;
    }
  }

  lemma UnsignedOrder(op: Op, t: Type, a: int, b: int)
    requires op in {Lt, Gt, Le, Ge, Sar} && t.unsigned && InRange(t, a) && (op != Sar ==> InRange(t, b))
    ensures Eval(Select(op, t), t, a, b) == Eval(op, t, a, b)
  {
    hide Wrap, Low;
    LowOfRange(t, a);
    if op != Sar { LowOfRange(t, b); }
  }
}
