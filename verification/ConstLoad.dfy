/** load() of an integer constant on RISC-V: 64 bits built from 20- and 12-bit pieces. */
module ConstLoad {
  import opened Rv64

  /** (int)v << n >> n of a 32-bit int: sign extension from 32 - n bits. */
  function SignLow12(v: bv32): bv32 { ((v & 0xfff) ^ 0x800) - 0x800 }
  function SignLow20(v: bv32): bv32 { ((v & 0xf_ffff) ^ 0x8_0000) - 0x8_0000 }

  /** v >> n of a signed int. */
  function Sar20(v: bv32): bv32 { ((v >> 20) ^ 0x800) - 0x800 }
  function Sar8(v: bv32): bv32 { ((v >> 8) ^ 0x80_0000) - 0x80_0000 }

  function Round12(v: bv32): bv32 { v + 0x800 }
  function Round20(v: bv32): bv32 { v + 0x8_0000 }
  function LowByte(v: bv32): bv32 { v & 0xff }
  function HighBits(c: bv64): bv64 { c >> 32 }

  /** The constants whose middle piece overflows an int: a nonzero high word over a low word within 2^19 of 2^31. */
  predicate Overflows(c: bv64) { Sext(Low(c)) != c && HighBits(c) != 0 && 0x7ff8_0000 <= Low(c) <= 0x7fff_ffff }

  /** lui and addi of the high word, whose top half the shifts drop. */
  function HighPiece(pi: bv32): bv64 { Plus(Sext(Round12(pi) & 0xfffff000), Sext(SignLow12(pi))) }

  function HighWord(c: bv64): bv32 { Low(c >> 32) + if Neg32(Low(c)) then 1 else 0 }

  predicate MiddleOverflows(fc: bv32) { 0x7ff8_0000 <= fc <= 0x7fff_ffff }

  /** slli by 12, then addi of the signed 12-bit piece `p`. */
  function AddPiece(a: bv64, p: bv64): bv64 { Plus(Shl(a, 12), Signed12(p)) }

  function Signed12(p: bv64): bv64 { (p ^ 0x800) - 0x800 }

  function Borrow(a: bv64, p: bv64): bv64 { if p < 0x800 then a else a - 1 }

  /** The bits of the piece go in below, its sign is a borrow above. */
  lemma PieceGoesIn(a: bv64, p: bv64)
    requires p < 0x1000
    ensures AddPiece(a, p) == (Borrow(a, p) << 12) | p
  {
    if p < 0x800 {
    } else {
    }
  }

  function MiddleBits(fc: bv32): bv64 { (Round20(fc) >> 20) as bv64 }
  function LowBits(fc: bv32): bv64 { ((fc >> 8) & 0xfff) as bv64 }

  /** The immediates of the two addi instructions are these bits, signed. */
  lemma SextLow(v: bv32)
    requires v < 0x8000_0000
    ensures Sext(v) == v as bv64
  {
  }

  lemma SextHigh(v: bv32)
    requires v >= 0x8000_0000
    ensures Sext(v) == (v as bv64) | 0xffff_ffff_0000_0000
  {
  }

  lemma PieceIsSigned(p: bv32)
    requires p < 0x1000
    ensures Sext(Signed12Of(p)) == Signed12(p as bv64) && Imm12(Signed12Of(p))
  {
    hide Sext;
    if p < 0x800 {
      SextLow(p);
    } else {
      SextHigh(p | 0xffff_f000);
    }
  }

  lemma MiddleIs(fc: bv32)
    ensures MiddleBits(fc) < 0x1000 && Imm12(Sar20(Round20(fc))) && Sext(Sar20(Round20(fc))) == Signed12(MiddleBits(fc))
  {
    hide Sext, Round20, Signed12Of, Signed12, Imm12;
    TopPieceFits(Round20(fc));
    PieceIsSigned(Round20(fc) >> 20);
  }

  lemma TopPieceFits(v: bv32)
    ensures v >> 20 < 0x1000 && (v >> 20) as bv64 < 0x1000 && Sar20(v) == Signed12Of(v >> 20)
  {
  }

  lemma LowPieceFits(fc: bv32)
    ensures (fc >> 8) & 0xfff < 0x1000 && ((fc >> 8) & 0xfff) as bv64 < 0x1000
    ensures Sar8(SignLow20(fc)) == Signed12Of((fc >> 8) & 0xfff)
  {
    if fc & 0x8_0000 == 0 {
    } else {
    }
  }

  lemma LowIs(fc: bv32)
    ensures LowBits(fc) < 0x1000 && Imm12(Sar8(SignLow20(fc))) && Sext(Sar8(SignLow20(fc))) == Signed12(LowBits(fc))
  {
    hide Sext, Signed12Of, Signed12, Imm12, Sar8, SignLow20;
    LowPieceFits(fc);
    PieceIsSigned((fc >> 8) & 0xfff);
  }

  /** slli by 8, then addi of the last byte. */
  function AddByte(a: bv64, b: bv64): bv64 { Plus(Shl(a, 8), b) }

  function LastByte(fc: bv32): bv64 { (LowByte(fc)) as bv64 }

  /** The register after the whole long sequence. */
  function Built(c: bv64): bv64 {
    var fc := Low(c);
    AddByte(AddPiece(AddPiece(HighPiece(HighWord(c)), MiddleBits(fc)), LowBits(fc)), LastByte(fc))
  }

  /** Whether the borrows take one off the high word: the one that was added for a negative low word - or, when the
      middle piece overflowed, one too many. */
  predicate TakesOff(fc: bv32) { MiddleOverflows(fc) || Neg32(fc) }

  function TopBits(fc: bv32): bv64 { (fc >> 20) as bv64 }

  lemma ClearBits(fc: bv32)
    requires fc & 0x8_0000 == 0
    ensures MiddleBits(fc) == TopBits(fc) && LowBits(fc) < 0x800 && TopBits(fc) < 0x1000
    ensures TopBits(fc) >= 0x800 <==> TakesOff(fc)
  {
  }

  lemma SetBits(fc: bv32)
    requires fc & 0x8_0000 != 0 && TopBits(fc) != 0xfff
    ensures MiddleBits(fc) == TopBits(fc) + 1 && TopBits(fc) < 0xfff && LowBits(fc) >= 0x800
    ensures TopBits(fc) + 1 >= 0x800 <==> TakesOff(fc)
  {
  }

  lemma AllSetBits(fc: bv32)
    requires fc & 0x8_0000 != 0 && TopBits(fc) == 0xfff
    ensures MiddleBits(fc) == 0 && LowBits(fc) >= 0x800 && TakesOff(fc)
  {
  }

  /** The register after both pieces went in, without its low 12 bits. */
  function TwoPieces(v: bv64, m: bv64, p: bv64): bv64 { Borrow((Borrow(v, m) << 12) | m, p) }

  function Joined(v: bv64, off: bool, q: bv64): bv64 { ((if off then v - 1 else v) << 12) | q }

  lemma NoBorrow(v: bv64, q: bv64, p: bv64)
    requires q < 0x1000 && p < 0x800
    ensures TwoPieces(v, q, p) == Joined(v, q >= 0x800, q)
  {
    if q < 0x800 {
    } else {
    }
  }

  lemma OneBorrow(v: bv64, q: bv64, p: bv64)
    requires q < 0xfff && p >= 0x800
    ensures TwoPieces(v, q + 1, p) == Joined(v, q + 1 >= 0x800, q)
  {
    if q + 1 < 0x800 {
      OneLess(v, q);
    } else {
      OneLess(v - 1, q);
    }
  }

  lemma OneLess(b: bv64, q: bv64)
    requires q < 0xfff
    ensures ((b << 12) | (q + 1)) - 1 == (b << 12) | q
  {
  }

  lemma WrapBorrow(v: bv64, p: bv64)
    requires p >= 0x800
    ensures TwoPieces(v, 0, p) == Joined(v, true, 0xfff)
  {
  }

  lemma BorrowsCancel(v: bv64, fc: bv32)
    ensures TwoPieces(v, MiddleBits(fc), LowBits(fc)) == Joined(v, TakesOff(fc), TopBits(fc))
  {
    hide TwoPieces, Joined, MiddleBits, LowBits, TopBits, TakesOff;
    if fc & 0x8_0000 == 0 {
      ClearBits(fc);
      NoBorrow(v, TopBits(fc), LowBits(fc));
    } else if TopBits(fc) == 0xfff {
      AllSetBits(fc);
      WrapBorrow(v, LowBits(fc));
    } else {
      SetBits(fc);
      OneBorrow(v, TopBits(fc), LowBits(fc));
    }
  }

  function Below(a: bv64, p: bv64): bv64 { (a << 12) | p }

  lemma TwoPiecesGoIn(v: bv64, m: bv64, p: bv64)
    requires m < 0x1000 && p < 0x1000
    ensures AddPiece(AddPiece(v, m), p) == Below(TwoPieces(v, m, p), p)
  {
    hide AddPiece, Borrow;
    PieceGoesIn(v, m);
    PieceGoesIn((Borrow(v, m) << 12) | m, p);
  }

  function LowWord(q: bv64, p: bv64, b: bv64): bv64 { (q << 20) | (p << 8) | b }

  function Assembled(high: bv64, low: bv64): bv64 { (high << 32) | low }

  function LessOne(v: bv64, off: bool): bv64 { if off then v - 1 else v }

  /** The three pieces of a low word. */
  lemma LowWordIs(fc: bv32)
    ensures LowWord(TopBits(fc), LowBits(fc), LastByte(fc)) == fc as bv64
    ensures TopBits(fc) < 0x1000 && LowBits(fc) < 0x1000 && LastByte(fc) < 0x100
  {
  }

  lemma LastByteGoesIn(v: bv64, off: bool, q: bv64, p: bv64, b: bv64)
    requires q < 0x1000 && p < 0x1000 && b < 0x100
    ensures AddByte(Below(Joined(v, off, q), p), b) == Assembled(LessOne(v, off), LowWord(q, p, b))
  {
    if off {
    } else {
    }
  }

  lemma BuiltIs(c: bv64)
    ensures Built(c) == Assembled(LessOne(HighPiece(HighWord(c)), TakesOff(Low(c))), Low(c) as bv64)
  {
    hide HighPiece, HighWord, AddPiece, AddByte, TwoPieces, Joined, Below, MiddleBits, LowBits, TopBits, LastByte;
    hide Low, TakesOff, LowWord, Assembled, LessOne;
    var fc, v := Low(c), HighPiece(HighWord(c));
    MiddleIs(fc);
    LowIs(fc);
    LowWordIs(fc);
    TwoPiecesGoIn(v, MiddleBits(fc), LowBits(fc));
    BorrowsCancel(v, fc);
    LastByteGoesIn(v, TakesOff(fc), TopBits(fc), LowBits(fc), LastByte(fc));
  }

  lemma HighAddsUp(pi: bv32)
    ensures HighPiece(pi) << 32 == (pi as bv64) << 32
  {
  }

  lemma HighOneTooMany(c: bv64, v: bv64)
    requires v << 32 == (Low(c >> 32) as bv64) << 32
    ensures Assembled(LessOne(v, true), Low(c) as bv64) == c - 0x1_0000_0000
  {
  }

  lemma HighCorrected(c: bv64, v: bv64)
    requires v << 32 == ((Low(c >> 32) + 1) as bv64) << 32
    ensures Assembled(LessOne(v, true), Low(c) as bv64) == c
  {
  }

  lemma HighPlain(c: bv64, v: bv64)
    requires v << 32 == (Low(c >> 32) as bv64) << 32
    ensures Assembled(LessOne(v, false), Low(c) as bv64) == c
  {
  }

  /** What the long sequence builds: the constant, or 2^32 less when the middle piece overflowed. */
  lemma LongSequence(c: bv64)
    ensures Built(c) == if MiddleOverflows(Low(c)) then c - 0x1_0000_0000 else c
  {
    hide HighPiece, Built, Assembled, LessOne;
    var v, fc := HighPiece(HighWord(c)), Low(c);
    BuiltIs(c);
    HighAddsUp(HighWord(c));
    if MiddleOverflows(fc) {
      OverflowIsPositive(fc);
      HighOneTooMany(c, v);
    } else if Neg32(fc) {
      HighCorrected(c, v);
    } else {
      HighPlain(c, v);
    }
  }

  lemma OverflowIsPositive(fc: bv32)
    requires MiddleOverflows(fc)
    ensures !Neg32(fc)
  {
  }

  // ---------------------------------------------------------------- the instructions

  /** From `s0` to `s` only register `rr` changed, and it holds `v`. */
  ghost predicate Holds(s0: Cpu, s: Cpu, rr: bv32, v: bv64) {
    s.x(rr) == v && forall r :: r != rr ==> s.x(r) == s0.x(r)
  }

  lemma Writes(s0: Cpu, s: Cpu, rr: bv32, v: bv64, w: bv64, pc: bv64)
    requires rr != 0 && Holds(s0, s, rr, v)
    ensures Holds(s0, Cpu(Write(s.x, rr, w), pc), rr, w)
  {
  }

  lemma Lui(s0: Cpu, s: Cpu, rr: bv32, v: bv64, imm: bv32)
    requires 0 < rr < 32 && Holds(s0, s, rr, v)
    ensures Holds(s0, Execute(RvU(0x37, rr, imm), s), rr, Sext(imm & 0xfffff000))
  {
    hide RvU, Sext, Op, Rd, F3, Rs1, Rs2, F7, ImmI, ImmJ, ImmB, Taken, Plus, PlusW, Shl, Shr, Even, Bit30, Write, Holds;
    DecodesU(0x37, rr, imm);
    Writes(s0, s, rr, v, Sext(imm & 0xfffff000), Plus(s.pc, 4));
  }

  lemma Addi(s0: Cpu, s: Cpu, rr: bv32, v: bv64, imm: bv32)
    requires 0 < rr < 32 && Holds(s0, s, rr, v) && Imm12(imm)
    ensures Holds(s0, Execute(RvI(0x13, 0, rr, rr, imm), s), rr, Plus(v, Sext(imm)))
  {
    hide RvI, Sext, Op, Rd, F3, Rs1, Rs2, F7, ImmI, ImmJ, ImmB, Taken, Plus, PlusW, Shl, Shr, Even, Bit30, Upper, Write, Imm12;
    DecodesI(0x13, 0, rr, rr, imm);
    Writes(s0, s, rr, v, Plus(v, Sext(imm)), Plus(s.pc, 4));
  }

  lemma ShiftAmount(op: bv32, f3: bv32, rr: bv32, n: bv32)
    requires op < 128 && f3 < 8 && rr < 32 && n < 64
    ensures (RvI(op, f3, rr, rr, n) >> 20) == n && !Bit30(RvI(op, f3, rr, rr, n))
  {
  }

  lemma Slli(s0: Cpu, s: Cpu, rr: bv32, v: bv64, n: bv32)
    requires 0 < rr < 32 && Holds(s0, s, rr, v) && n < 64
    ensures Holds(s0, Execute(RvI(0x13, 1, rr, rr, n), s), rr, Shl(v, n))
  {
    hide RvI, Sext, Op, Rd, F3, Rs1, Rs2, F7, ImmI, ImmJ, ImmB, Taken, Plus, PlusW, Shl, Shr, Even, Bit30, Upper, Write;
    DecodesI(0x13, 1, rr, rr, n);
    ShiftAmount(0x13, 1, rr, n);
    Writes(s0, s, rr, v, Shl(v, n), Plus(s.pc, 4));
  }

  lemma Srli(s0: Cpu, s: Cpu, rr: bv32, v: bv64, n: bv32)
    requires 0 < rr < 32 && Holds(s0, s, rr, v) && n < 64
    ensures Holds(s0, Execute(RvI(0x13, 5, rr, rr, n), s), rr, Shr(v, n))
  {
    hide RvI, Sext, Op, Rd, F3, Rs1, Rs2, F7, ImmI, ImmJ, ImmB, Taken, Plus, PlusW, Shl, Shr, Even, Bit30, Upper, Write;
    DecodesI(0x13, 5, rr, rr, n);
    ShiftAmount(0x13, 5, rr, n);
    Writes(s0, s, rr, v, Shr(v, n), Plus(s.pc, 4));
  }

  lemma Addiw(s0: Cpu, s: Cpu, rr: bv32, rb: bv32, v: bv64, imm: bv32)
    requires 0 < rr < 32 && Holds(s0, s, rr, v) && Imm12(imm) && (rb == rr || rb == 0)
    ensures Holds(s0, Execute(RvI(0x1b, 0, rr, rb, imm), s), rr, PlusW(if rb == 0 then 0 else v, imm))
  {
    hide RvI, Sext, Op, Rd, F3, Rs1, Rs2, F7, ImmI, ImmJ, ImmB, Taken, Plus, PlusW, Shl, Shr, Even, Bit30, Upper, Write, Imm12;
    DecodesI(0x1b, 0, rr, rb, imm);
    Writes(s0, s, rr, v, PlusW(if rb == 0 then 0 else v, imm), Plus(s.pc, 4));
  }

  // ---------------------------------------------------------------- the emitted words

  lemma RunSnoc(code: seq<bv32>, insn: bv32, s: Cpu)
    ensures Run(code + [insn], s) == Execute(insn, Run(code, s))
  {
    hide Execute;
    assert (code + [insn])[..|code|] == code;
  }

  /** lui, addi, then shift and addi for each of the three pieces of the low word. */
  function LongWords(c: bv64, rr: bv32): (code: seq<bv32>) {
    var b := LowByte(Low(c));
    ToLastByte(c, rr) + if b == 0 then [] else [RvI(0x13, 0, rr, rr, b)]
  }

  function ToLastByte(c: bv64, rr: bv32): (code: seq<bv32>) {
    var pi, fc := HighWord(c), Low(c);
    [RvU(0x37, rr, Round12(pi)), RvI(0x13, 0, rr, rr, SignLow12(pi)),
     RvI(0x13, 1, rr, rr, 12), RvI(0x13, 0, rr, rr, Sar20(Round20(fc))),
     RvI(0x13, 1, rr, rr, 12), RvI(0x13, 0, rr, rr, Sar8(SignLow20(fc))),
     RvI(0x13, 1, rr, rr, 8)]
  }

  /** addiw, after a lui when the word needs more than 12 bits. */
  function WordWords(fc: bv32, rr: bv32): (code: seq<bv32>) {
    if Imm12(fc) then [RvI(0x1b, 0, rr, 0, SignLow12(fc))]
    else [RvU(0x37, rr, Round12(fc)), RvI(0x1b, 0, rr, rr, SignLow12(fc))]
  }

  predicate IsLong(c: bv64) { Sext(Low(c)) != c && HighBits(c) != 0 }

  /** The words for constant `c` of a type that is `wide` (long long, pointer or function) or not. */
  function Emitted(c: bv64, wide: bool, rr: bv32): (code: seq<bv32>) {
    if IsLong(c) then LongWords(c, rr)
    else WordWords(Low(c), rr) + if wide && Sext(Low(c)) != c then ZeroExtension(rr) else []
  }

  /** A shift left and a logical shift right by 32. */
  function ZeroExtension(rr: bv32): (code: seq<bv32>) { [RvI(0x13, 1, rr, rr, 32), RvI(0x13, 5, rr, rr, 32)] }

  lemma RunLui(code: seq<bv32>, s: Cpu, rr: bv32, v: bv64, imm: bv32)
    requires 0 < rr < 32 && Holds(s, Run(code, s), rr, v)
    ensures Holds(s, Run(code + [RvU(0x37, rr, imm)], s), rr, Sext(imm & 0xfffff000))
  {
    hide Holds, RvU, Sext, Execute;
    RunSnoc(code, RvU(0x37, rr, imm), s);
    Lui(s, Run(code, s), rr, v, imm);
  }

  lemma RunAddi(code: seq<bv32>, s: Cpu, rr: bv32, v: bv64, imm: bv32)
    requires 0 < rr < 32 && Holds(s, Run(code, s), rr, v) && Imm12(imm)
    ensures Holds(s, Run(code + [RvI(0x13, 0, rr, rr, imm)], s), rr, Plus(v, Sext(imm)))
  {
    hide Holds, RvI, Plus, Sext, Execute, Imm12;
    RunSnoc(code, RvI(0x13, 0, rr, rr, imm), s);
    Addi(s, Run(code, s), rr, v, imm);
  }

  lemma RunSlli(code: seq<bv32>, s: Cpu, rr: bv32, v: bv64, n: bv32)
    requires 0 < rr < 32 && Holds(s, Run(code, s), rr, v) && n < 64
    ensures Holds(s, Run(code + [RvI(0x13, 1, rr, rr, n)], s), rr, Shl(v, n))
  {
    hide Holds, RvI, Shl, Execute;
    RunSnoc(code, RvI(0x13, 1, rr, rr, n), s);
    Slli(s, Run(code, s), rr, v, n);
  }

  lemma RunSrli(code: seq<bv32>, s: Cpu, rr: bv32, v: bv64, n: bv32)
    requires 0 < rr < 32 && Holds(s, Run(code, s), rr, v) && n < 64
    ensures Holds(s, Run(code + [RvI(0x13, 5, rr, rr, n)], s), rr, Shr(v, n))
  {
    hide Holds, RvI, Shr, Execute;
    RunSnoc(code, RvI(0x13, 5, rr, rr, n), s);
    Srli(s, Run(code, s), rr, v, n);
  }

  lemma RunAddiw(code: seq<bv32>, s: Cpu, rr: bv32, rb: bv32, v: bv64, imm: bv32)
    requires 0 < rr < 32 && Holds(s, Run(code, s), rr, v) && Imm12(imm) && (rb == rr || rb == 0)
    ensures Holds(s, Run(code + [RvI(0x1b, 0, rr, rb, imm)], s), rr, PlusW(if rb == 0 then 0 else v, imm))
  {
    hide Holds, RvI, PlusW, Execute, Imm12;
    RunSnoc(code, RvI(0x1b, 0, rr, rb, imm), s);
    Addiw(s, Run(code, s), rr, rb, v, imm);
  }

  /** One round of the long sequence: slli by 12 and an addi. */
  lemma RunPiece(code: seq<bv32>, s: Cpu, rr: bv32, v: bv64, imm: bv32, p: bv64)
    requires 0 < rr < 32 && Holds(s, Run(code, s), rr, v)
    requires Imm12(imm) && Sext(imm) == Signed12(p)
    ensures Holds(s, Run(code + [RvI(0x13, 1, rr, rr, 12), RvI(0x13, 0, rr, rr, imm)], s), rr, AddPiece(v, p))
  {
    hide Holds, RvI, Run, Sext, Imm12, Plus, Shl, Signed12;
    RunSlli(code, s, rr, v, 12);
    RunAddi(code + [RvI(0x13, 1, rr, rr, 12)], s, rr, Shl(v, 12), imm);
    assert code + [RvI(0x13, 1, rr, rr, 12)] + [RvI(0x13, 0, rr, rr, imm)]
        == code + [RvI(0x13, 1, rr, rr, 12), RvI(0x13, 0, rr, rr, imm)];
  }

  lemma SignLow12Fits(v: bv32)
    ensures Imm12(SignLow12(v))
  {
  }

  lemma NothingYet(s: Cpu, rr: bv32)
    ensures Holds(s, Run([], s), rr, s.x(rr))
  {
  }

  lemma RunHigh(s: Cpu, rr: bv32, pi: bv32)
    requires 0 < rr < 32
    ensures Holds(s, Run([RvU(0x37, rr, Round12(pi)), RvI(0x13, 0, rr, rr, SignLow12(pi))], s), rr, HighPiece(pi))
  {
    hide Holds, RvI, RvU, Sext, SignLow12, Imm12, Plus, Round12, Execute;
    assert Holds(s, Run([], s), rr, s.x(rr)) by { NothingYet(s, rr); }
    SignLow12Fits(pi);
    assert [] + [RvU(0x37, rr, Round12(pi))] == [RvU(0x37, rr, Round12(pi))];
    RunLui([], s, rr, s.x(rr), Round12(pi));
    RunAddi([RvU(0x37, rr, Round12(pi))], s, rr, Sext((Round12(pi)) & 0xfffff000), SignLow12(pi));
    assert [RvU(0x37, rr, Round12(pi))] + [RvI(0x13, 0, rr, rr, SignLow12(pi))]
        == [RvU(0x37, rr, Round12(pi)), RvI(0x13, 0, rr, rr, SignLow12(pi))];
  }

  lemma ByteIs(fc: bv32)
    ensures Imm12(LowByte(fc)) && Sext(LowByte(fc)) == LastByte(fc) && (LowByte(fc) == 0 ==> LastByte(fc) == 0)
  {
    hide Sext;
    assert LowByte(fc) < 0x100;
    SextLow(LowByte(fc));
  }

  lemma PlusNothing(v: bv64)
    ensures Plus(v, 0) == v
  {
  }

  lemma RunByte(code: seq<bv32>, s: Cpu, rr: bv32, v: bv64, fc: bv32)
    requires 0 < rr < 32 && Holds(s, Run(code, s), rr, v)
    ensures Holds(s, Run(code + [RvI(0x13, 1, rr, rr, 8)] + if LowByte(fc) == 0 then [] else [RvI(0x13, 0, rr, rr, LowByte(fc))], s),
                  rr, AddByte(v, LastByte(fc)))
  {
    hide Holds, RvI, Run, Sext, Imm12, Plus, Shl, LowByte, LastByte;
    ByteIs(fc);
    PlusNothing(Shl(v, 8));
    var shifted := code + [RvI(0x13, 1, rr, rr, 8)];
    RunSlli(code, s, rr, v, 8);
    if LowByte(fc) == 0 {
      assert shifted + [] == shifted;
    } else {
      RunAddi(shifted, s, rr, Shl(v, 8), LowByte(fc));
    }
  }

  function FirstTwo(pi: bv32, rr: bv32): seq<bv32> { [RvU(0x37, rr, Round12(pi)), RvI(0x13, 0, rr, rr, SignLow12(pi))] }

  function PieceWords(imm: bv32, rr: bv32): seq<bv32> { [RvI(0x13, 1, rr, rr, 12), RvI(0x13, 0, rr, rr, imm)] }

  function WithPieces(pi: bv32, fc: bv32): bv64 { AddPiece(AddPiece(HighPiece(pi), MiddleBits(fc)), LowBits(fc)) }

  lemma RunPieces(pi: bv32, fc: bv32, rr: bv32, s: Cpu)
    requires 0 < rr < 32
    ensures Holds(s, Run(FirstTwo(pi, rr) + PieceWords(Sar20(Round20(fc)), rr) + PieceWords(Sar8(SignLow20(fc)), rr), s), rr,
                  WithPieces(pi, fc))
  {
    hide Holds, Run, Sext, Imm12, SignLow20, Sar20, Sar8, AddPiece, HighPiece, FirstTwo, MiddleBits, LowBits, Round20, Signed12;
    var one := FirstTwo(pi, rr);
    var two := one + PieceWords(Sar20(Round20(fc)), rr);
    RunFirstTwo(s, rr, pi);
    MiddleIs(fc);
    RunPiece(one, s, rr, HighPiece(pi), Sar20(Round20(fc)), MiddleBits(fc));
    LowIs(fc);
    RunPiece(two, s, rr, AddPiece(HighPiece(pi), MiddleBits(fc)), Sar8(SignLow20(fc)), LowBits(fc));
  }

  lemma RunFirstTwo(s: Cpu, rr: bv32, pi: bv32)
    requires 0 < rr < 32
    ensures Holds(s, Run(FirstTwo(pi, rr), s), rr, HighPiece(pi))
  {
    hide Holds, Run, RvI, RvU, Round12, SignLow12, HighPiece;
    RunHigh(s, rr, pi);
  }

  lemma ToLastByteIs(c: bv64, rr: bv32)
    ensures ToLastByte(c, rr)
         == FirstTwo(HighWord(c), rr) + PieceWords(Sar20(Round20(Low(c))), rr) + PieceWords(Sar8(SignLow20(Low(c))), rr)
            + [RvI(0x13, 1, rr, rr, 8)]
  {
    hide RvI, RvU, Round12, Round20, SignLow12, SignLow20, Sar8, Sar20, HighWord, Low;
  }

  lemma RunLong(c: bv64, rr: bv32, s: Cpu)
    requires 0 < rr < 32
    ensures Holds(s, Run(LongWords(c, rr), s), rr, Built(c))
  {
    hide Holds, Run, RvI, FirstTwo, PieceWords, ToLastByte, AddPiece, AddByte, HighPiece, HighWord;
    hide SignLow20, Sar20, Sar8, MiddleBits, LowBits, LastByte, Low, LowByte, Round20;
    var pi, fc := HighWord(c), Low(c);
    RunPieces(pi, fc, rr, s);
    ToLastByteIs(c, rr);
    RunByte(FirstTwo(pi, rr) + PieceWords(Sar20(Round20(fc)), rr) + PieceWords(Sar8(SignLow20(fc)), rr), s, rr, WithPieces(pi, fc), fc);
  }

  lemma LowOfSext(v: bv32)
    ensures Low(Sext(v)) == v && Low(0) == 0
  {
    hide Sext;
    if v < 0x8000_0000 { SextLow(v); } else { SextHigh(v); }
  }

  lemma TwoPartsOfWord(fc: bv32)
    ensures (Round12(fc) & 0xfffff000) + SignLow12(fc) == fc
  {
  }

  lemma ShortWord(fc: bv32)
    requires Imm12(fc)
    ensures 0 + SignLow12(fc) == fc
  {
  }

  lemma RunWord(fc: bv32, rr: bv32, s: Cpu)
    requires 0 < rr < 32
    ensures Holds(s, Run(WordWords(fc, rr), s), rr, Sext(fc))
  {
    hide Holds, Execute, RvI, RvU, Sext, SignLow12, Imm12, Low, Round12;
    SignLow12Fits(fc);
    NothingYet(s, rr);
    if Imm12(fc) {
      LowOfSext(0);
      ShortWord(fc);
      RunAddiw([], s, rr, 0, s.x(rr), SignLow12(fc));
      assert [] + WordWords(fc, rr) == WordWords(fc, rr);
    } else {
      var up := Round12(fc) & 0xfffff000;
      RunLui([], s, rr, s.x(rr), Round12(fc));
      assert [] + [RvU(0x37, rr, Round12(fc))] == [RvU(0x37, rr, Round12(fc))];
      RunAddiw([RvU(0x37, rr, Round12(fc))], s, rr, rr, Sext(up), SignLow12(fc));
      LowOfSext(up);
      TwoPartsOfWord(fc);
      assert [RvU(0x37, rr, Round12(fc))] + [RvI(0x1b, 0, rr, rr, SignLow12(fc))] == WordWords(fc, rr);
    }
  }

  lemma ZeroExtends(c: bv64)
    requires c >> 32 == 0
    ensures Shr(Shl(Sext(Low(c)), 32), 32) == c
  {
  }

  /** What the register holds afterwards. */
  function Loaded(c: bv64, wide: bool): bv64 {
    if Overflows(c) then c - 0x1_0000_0000 else if wide || IsLong(c) then c else Sext(Low(c))
  }

  lemma RunEmitted(c: bv64, wide: bool, rr: bv32, s: Cpu)
    requires 0 < rr < 32
    ensures Holds(s, Run(Emitted(c, wide, rr), s), rr, Loaded(c, wide))
  {
    hide Holds, Run, RvI, RvU, Sext, LongWords, WordWords, Built, Shl, Shr, Low;
    if IsLong(c) {
      RunLong(c, rr, s);
      LongSequence(c);
    } else {
      var fc := Low(c);
      var word := WordWords(fc, rr);
      RunWord(fc, rr, s);
      if wide && Sext(fc) != c {
        ZeroExtends(c);
        RunSlli(word, s, rr, Sext(fc), 32);
        RunSrli(word + [RvI(0x13, 1, rr, rr, 32)], s, rr, Shl(Sext(fc), 32), 32);
        assert word + [RvI(0x13, 1, rr, rr, 32)] + [RvI(0x13, 5, rr, rr, 32)]
            == word + [RvI(0x13, 1, rr, rr, 32), RvI(0x13, 5, rr, rr, 32)];
      } else {
        assert word + [] == word;
      }
    }
  }

  lemma LowOfDifference(c: bv64)
    ensures Low(c - 0x1_0000_0000) == Low(c)
  {
  }

  lemma LowSame(c: bv64)
    ensures Low(c - 0x1_0000_0000) == Low(c) && Low(Sext(Low(c))) == Low(c) && c - 0x1_0000_0000 != c
  {
    hide Sext, Low;
    LowOfSext(Low(c));
    LowOfDifference(c);
  }

  /** Running the emitted words leaves the low word right for every constant and every register but `rr` alone; all 64
      bits of a wide constant are right exactly when the middle piece does not overflow. */
  lemma ConstantIsMaterialised(c: bv64, wide: bool, rr: bv32, s: Cpu)
    requires 0 < rr < 32
    ensures forall r :: r != rr ==> Run(Emitted(c, wide, rr), s).x(r) == s.x(r)
    ensures Low(Run(Emitted(c, wide, rr), s).x(rr)) == Low(c)
    ensures wide ==> (Run(Emitted(c, wide, rr), s).x(rr) == c <==> !Overflows(c))
  {
    hide Run, Emitted, Sext, Low, Overflows;
    RunEmitted(c, wide, rr, s);
    LowSame(c);
  }

  /** A constant that is loaded wrong. */
  lemma OverflowExample(rr: bv32, s: Cpu)
    requires 0 < rr < 32
    ensures Run(Emitted(0x1_7fff_ffff, true, rr), s).x(rr) == 0x7fff_ffff
  {
    hide Run, Emitted;
    RunEmitted(0x1_7fff_ffff, true, rr, s);
    assert Loaded(0x1_7fff_ffff, true) == 0x7fff_ffff;
  }

  // ---------------------------------------------------------------- emitting them

  /** The words of the text section from `ind` on. */
  class CodeWords {
    var code: seq<bv32>

    constructor ()
      ensures code == []
    {
      code := [];
    }

    method O(insn: bv32)
      modifies this
      ensures code == old(code) + [insn]
    {
      code := code + [insn];
    }

    method EI(op: bv32, f3: bv32, rd: bv32, rs1: bv32, imm: bv32)
      requires Imm12(imm)
      modifies this
      ensures code == old(code) + [RvI(op, f3, rd, rs1, imm)]
    {
      O(RvI(op, f3, rd, rs1, imm));
    }

    method LoadLong(c: bv64, rr: bv32) returns (fc: bv32)
      requires 0 < rr < 32
      modifies this
      ensures code == old(code) + ToLastByte(c, rr) && fc == LowByte(Low(c))
    {
      hide RvI, RvU, Low, SignLow12, SignLow20, Sar20, Sar8, HighWord, Imm12, Round12, Round20, LowByte;
      LongImmediatesFit(c);
      var pi := HighWord(c);
      fc := Low(c);
      O(RvU(0x37, rr, Round12(pi)));
      EI(0x13, 0, rr, rr, SignLow12(pi));
      EI(0x13, 1, rr, rr, 12);
      EI(0x13, 0, rr, rr, Sar20(Round20(fc)));
      EI(0x13, 1, rr, rr, 12);
      fc := SignLow20(fc);
      EI(0x13, 0, rr, rr, Sar8(fc));
      EI(0x13, 1, rr, rr, 8);
      fc := LowByte(fc);
    }

    method LoadWord(fc: bv32, rb: bv32, do32bit: bool, zext: bool, rr: bv32)
      requires 0 < rr < 32 && rb in {0, rr}
      modifies this
      ensures code == old(code) + Rest(fc, rb, do32bit, rr) + if zext then ZeroExtension(rr) else []
    {
      LoadUpper(fc, rr);
      LoadLower(fc, if Imm12(fc) then rb else rr, do32bit, rr);
      if zext {
        Extend(rr);
      }
    }

    method LoadUpper(fc: bv32, rr: bv32)
      modifies this
      ensures code == old(code) + LuiPart(fc, rr)
    {
      hide Imm12, Round12, RvU;
      if !Imm12(fc) {
        O(RvU(0x37, rr, Round12(fc)));
      }
    }

    method LoadLower(fc: bv32, base: bv32, do32bit: bool, rr: bv32)
      modifies this
      ensures code == old(code) + AddPart(fc, base, do32bit, rr)
    {
      hide Imm12, SignLow12, RvI;
      SignLow12Fits(fc);
      if fc != 0 || rr != base || do32bit {
        EI(if do32bit then 0x1b else 0x13, 0, rr, base, SignLow12(fc));
      }
    }

    method Extend(rr: bv32)
      modifies this
      ensures code == old(code) + ZeroExtension(rr)
    {
      hide Imm12, RvI;
      ShiftsFit();
      EI(0x13, 1, rr, rr, 32);
      EI(0x13, 5, rr, rr, 32);
    }

    method LoadConst(c: bv64, wide: bool, rr: bv32)
      requires 0 < rr < 32
      modifies this
      ensures code == old(code) + Emitted(c, wide, rr)
    {
      hide RvI, RvU, Sext, Low, ToLastByte, HighBits, Rest, ZeroExtension;
      var fc, rb, do32bit, zext := Low(c), 0, true, false;
      if Sext(fc) != c {
        if HighBits(c) != 0 {
          fc := LoadLong(c, rr);
          rb, do32bit := rr, false;
          RestOfLong(c, rr);
        } else if wide {
          zext := true;
        }
      }
      RestOfWord(Low(c), rr);
      LoadWord(fc, rb, do32bit, zext, rr);
    }
  }

  /** lui unless 12 bits are enough, then addi or addiw unless it would change nothing. */
  function Rest(fc: bv32, rb: bv32, do32bit: bool, rr: bv32): (code: seq<bv32>) {
    var base := if Imm12(fc) then rb else rr;
    LuiPart(fc, rr) + AddPart(fc, base, do32bit, rr)
  }

  function LuiPart(fc: bv32, rr: bv32): (code: seq<bv32>) { if Imm12(fc) then [] else [RvU(0x37, rr, Round12(fc))] }

  function AddPart(fc: bv32, base: bv32, do32bit: bool, rr: bv32): (code: seq<bv32>) {
    if fc != 0 || rr != base || do32bit then [RvI(if do32bit then 0x1b else 0x13, 0, rr, base, SignLow12(fc))] else []
  }

  lemma RestOfWord(fc: bv32, rr: bv32)
    ensures Rest(fc, 0, true, rr) == WordWords(fc, rr)
  {
    hide RvI, RvU, SignLow12, Imm12, Round12;
  }

  lemma RestOfLong(c: bv64, rr: bv32)
    ensures ToLastByte(c, rr) + Rest(LowByte(Low(c)), rr, false, rr) == LongWords(c, rr)
  {
    hide RvI, RvU, SignLow12, Imm12, Round12, Low, LowByte, ToLastByte;
    LongImmediatesFit(c);
    assert LuiPart(LowByte(Low(c)), rr) == [];
    assert [] + AddPart(LowByte(Low(c)), rr, false, rr) == AddPart(LowByte(Low(c)), rr, false, rr);
  }

  lemma ShiftsFit()
    ensures Imm12(12) && Imm12(8) && Imm12(32)
  {
  }

  lemma LongImmediatesFit(c: bv64)
    ensures Imm12(SignLow12(HighWord(c))) && Imm12(Sar20(Round20(Low(c)))) && Imm12(Sar8(SignLow20(Low(c))))
    ensures Imm12(12) && Imm12(8) && Imm12(32)
    ensures LowByte(SignLow20(Low(c))) == LowByte(Low(c)) && Imm12(LowByte(Low(c))) && SignLow12(LowByte(Low(c))) == LowByte(Low(c))
  {
    hide Low, HighWord;
    SignLow12Fits(HighWord(c));
    MiddleIs(Low(c));
    LowIs(Low(c));
  }
}
