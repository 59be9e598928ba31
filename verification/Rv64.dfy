/** The RV64 instruction words the code generator emits and what the emulator's execute does with them: register
    arithmetic, jumps and branches. */
module Rv64 {

  // ---------------------------------------------------------------- encoders (riscv64-encode.h)

  function RvR(op: bv32, f3: bv32, f7: bv32, rd: bv32, rs1: bv32, rs2: bv32): bv32 {
    op | (rd << 7) | (f3 << 12) | (rs1 << 15) | (rs2 << 20) | (f7 << 25)
  }

  function RvI(op: bv32, f3: bv32, rd: bv32, rs1: bv32, imm: bv32): bv32 {
    op | (rd << 7) | (f3 << 12) | (rs1 << 15) | (imm << 20)
  }

  function RvS(op: bv32, f3: bv32, rs1: bv32, rs2: bv32, imm: bv32): bv32 {
    op | ((imm & 31) << 7) | (f3 << 12) | (rs1 << 15) | (rs2 << 20) | ((imm >> 5) << 25)
  }

  function RvU(op: bv32, rd: bv32, imm: bv32): bv32 { op | (rd << 7) | (imm & 0xfffff000) }

  // ---------------------------------------------------------------- fields, as execute takes them apart

  function Op(insn: bv32): bv32 { insn & 127 }
  function Rd(insn: bv32): bv32 { (insn >> 7) & 31 }
  function F3(insn: bv32): bv32 { (insn >> 12) & 7 }
  function Rs1(insn: bv32): bv32 { (insn >> 15) & 31 }
  function Rs2(insn: bv32): bv32 { (insn >> 20) & 31 }
  function F7(insn: bv32): bv32 { insn >> 25 }

  predicate Neg32(v: bv32) { v & 0x8000_0000 != 0 }

  // Sign extension is written (v ^ s) - s, where s is the sign bit.

  /** (i64)(i32)v */
  function Sext(v: bv32): bv64 { ((v as bv64) ^ 0x8000_0000) - 0x8000_0000 }

  function Low(v: bv64): bv32 { (v & 0xffff_ffff) as bv32 }

  /** (i32)insn >> 20 */
  function ImmI(insn: bv32): bv32 { ((insn >> 20) ^ 0x800) - 0x800 }

  /** sext32((insn >> 7 & 31) | (insn >> 25 << 5), 12) */
  function ImmS(insn: bv32): bv32 { Signed12Of(BitsS(insn)) }

  function BitsS(insn: bv32): bv32 { ((insn >> 7) & 31) | ((insn >> 25) << 5) }

  function ImmJ(insn: bv32): bv32 { (BitsJ(insn) ^ 0x10_0000) - 0x10_0000 }

  function BitsJ(insn: bv32): bv32 {
    (((insn >> 21) & 1023) << 1) | (((insn >> 20) & 1) << 11) | (((insn >> 12) & 255) << 12) | ((insn >> 31) << 20)
  }

  function ImmB(insn: bv32): bv32 {
    (((((insn >> 8) & 15) << 1) | (((insn >> 25) & 63) << 5) | (((insn >> 7) & 1) << 11) | ((insn >> 31) << 12))
     ^ 0x1000) - 0x1000
  }

  // ---------------------------------------------------------------- encode then decode

  lemma DecodesR(op: bv32, f3: bv32, f7: bv32, rd: bv32, rs1: bv32, rs2: bv32)
    requires op < 128 && f3 < 8 && f7 < 128 && rd < 32 && rs1 < 32 && rs2 < 32
    ensures var i := RvR(op, f3, f7, rd, rs1, rs2);
            Op(i) == op && F3(i) == f3 && F7(i) == f7 && Rd(i) == rd && Rs1(i) == rs1 && Rs2(i) == rs2
  {
  }

  /** A 12-bit signed immediate, as the assertion of EI and ES admits it. */
  predicate Imm12(imm: bv32) { (imm + 0x800) >> 12 == 0 }

  /** 12 bits, sign-extended. */
  function Signed12Of(imm: bv32): bv32 { (imm ^ 0x800) - 0x800 }

  lemma FitsIn12(imm: bv32)
    ensures Signed12Of(imm & 0xfff) == imm <==> Imm12(imm)
  {
  }

  lemma FieldsI(op: bv32, f3: bv32, rd: bv32, rs1: bv32, imm: bv32)
    requires op < 128 && f3 < 8 && rd < 32 && rs1 < 32
    ensures var i := RvI(op, f3, rd, rs1, imm);
            Op(i) == op && F3(i) == f3 && Rd(i) == rd && Rs1(i) == rs1 && i >> 20 == imm & 0xfff
  {
  }

  lemma DecodesI(op: bv32, f3: bv32, rd: bv32, rs1: bv32, imm: bv32)
    requires op < 128 && f3 < 8 && rd < 32 && rs1 < 32
    ensures var i := RvI(op, f3, rd, rs1, imm);
            Op(i) == op && F3(i) == f3 && Rd(i) == rd && Rs1(i) == rs1 && (ImmI(i) == imm <==> Imm12(imm))
  {
    hide RvI, Op, F3, Rd, Rs1, ImmI, Imm12, Signed12Of;
    FieldsI(op, f3, rd, rs1, imm);
    FitsIn12(imm);
    ImmIs(RvI(op, f3, rd, rs1, imm));
  }

  lemma ImmIs(insn: bv32)
    ensures ImmI(insn) == Signed12Of(insn >> 20)
  {
  }

  lemma FieldsS(op: bv32, f3: bv32, rs1: bv32, rs2: bv32, imm: bv32)
    requires op < 128 && f3 < 8 && rs1 < 32 && rs2 < 32
    ensures var i := RvS(op, f3, rs1, rs2, imm);
            Op(i) == op && F3(i) == f3 && Rs1(i) == rs1 && Rs2(i) == rs2 && BitsS(i) == imm & 0xfff
  {
  }

  lemma DecodesS(op: bv32, f3: bv32, rs1: bv32, rs2: bv32, imm: bv32)
    requires op < 128 && f3 < 8 && rs1 < 32 && rs2 < 32
    ensures var i := RvS(op, f3, rs1, rs2, imm);
            Op(i) == op && F3(i) == f3 && Rs1(i) == rs1 && Rs2(i) == rs2 && (ImmS(i) == imm <==> Imm12(imm))
  {
    hide RvS, Op, F3, Rs1, Rs2, Imm12, Signed12Of, BitsS;
    FieldsS(op, f3, rs1, rs2, imm);
    FitsIn12(imm);
  }

  lemma DecodesU(op: bv32, rd: bv32, imm: bv32)
    requires op < 128 && rd < 32
    ensures var i := RvU(op, rd, imm); Op(i) == op && Rd(i) == rd && i & 0xfffff000 == imm & 0xfffff000
  {
  }

  /** One word of each format as the architecture writes it: addi x5,x6,-1; sw x5,8(x6); add and sub x1,x2,x3; lui x5,0x12345;
      and the distances of jal x0,-4, jal x1,2048 and beq x1,x2,-8. */
  lemma StandardWords()
    ensures RvI(0x13, 0, 5, 6, 0xffff_ffff) == 0xfff3_0293 && RvS(0x23, 2, 6, 5, 8) == 0x0053_2423
    ensures RvR(0x33, 0, 0, 1, 2, 3) == 0x0031_00b3 && RvR(0x33, 0, 32, 1, 2, 3) == 0x4031_00b3
    ensures RvU(0x37, 5, 0x1234_5000) == 0x1234_52b7
    ensures ImmJ(0xffdf_f06f) == 0xffff_fffc && ImmJ(0x0010_00ef) == 0x800 && ImmB(0xfe20_8ce3) == 0xffff_fff8
  {
  }

  // ---------------------------------------------------------------- execute, the integer part used here

  /** The register file; register 0 reads as zero. */
  type Regs = bv32 -> bv64

  function Read(x: Regs, r: bv32): bv64 { if r == 0 then 0 else x(r) }

  function Write(x: Regs, rd: bv32, v: bv64): Regs { (r: bv32) => if r == rd && rd != 0 then v else x(r) }

  datatype Cpu = Cpu(x: Regs, pc: bv64)

  function Less(a: bv64, b: bv64): bool { (a ^ 0x8000_0000_0000_0000) < (b ^ 0x8000_0000_0000_0000) }

  /** The comparison a branch makes; 2 and 3 are no branches. */
  function Taken(f3: bv32, a: bv64, b: bv64): bool {
    if f3 == 0 then a == b else if f3 == 1 then a != b
    else if f3 == 4 then Less(a, b) else if f3 == 5 then !Less(a, b)
    else if f3 == 6 then a < b else f3 == 7 && a >= b
  }

  function Plus(a: bv64, b: bv64): bv64 { a + b }
  function PlusW(a: bv64, imm: bv32): bv64 { Sext(Low(a) + imm) }
  function Shl(a: bv64, n: bv32): bv64 { a << (n & 63) }
  function Shr(a: bv64, n: bv32): bv64 { a >> (n & 63) }
  function Even(a: bv64): bv64 { a & 0xffff_ffff_ffff_fffe }
  function Upper(insn: bv32): bv64 { Sext(insn & 0xfffff000) }
  predicate Bit30(insn: bv32) { F7(insn) & 32 != 0 }

  /** lui, auipc, addi, slli, srli, addiw, add, jal, jalr and the branches; any other word is left out and changes nothing here. */
  function Execute(insn: bv32, s: Cpu): (t: Cpu)
  {
    var rd, a, b, next := Rd(insn), Read(s.x, Rs1(insn)), Read(s.x, Rs2(insn)), Plus(s.pc, 4);
    var op, f3 := Op(insn), F3(insn);
    if op == 0x37 then Cpu(Write(s.x, rd, Upper(insn)), next)
    else if op == 0x17 then Cpu(Write(s.x, rd, Plus(s.pc, Upper(insn))), next)
    else if op == 0x13 && f3 == 0 then Cpu(Write(s.x, rd, Plus(a, Sext(ImmI(insn)))), next)
    else if op == 0x13 && f3 == 1 then Cpu(Write(s.x, rd, Shl(a, insn >> 20)), next)
    else if op == 0x13 && f3 == 5 && !Bit30(insn) then Cpu(Write(s.x, rd, Shr(a, insn >> 20)), next)
    else if op == 0x1b && f3 == 0 then Cpu(Write(s.x, rd, PlusW(a, ImmI(insn))), next)
    else if op == 0x33 && f3 == 0 && F7(insn) == 0 then Cpu(Write(s.x, rd, Plus(a, b)), next)
    else if op == 0x6f then Cpu(Write(s.x, rd, next), Plus(s.pc, Sext(ImmJ(insn))))
    else if op == 0x67 then Cpu(Write(s.x, rd, next), Even(Plus(a, Sext(ImmI(insn)))))
    else if op == 0x63 && f3 != 2 && f3 != 3 then
      Cpu(s.x, if Taken(f3, a, b) then Plus(s.pc, Sext(ImmB(insn))) else next)
    else s
  }

  /** A straight run of words. */
  function Run(code: seq<bv32>, s: Cpu): Cpu {
    if code == [] then s else Execute(code[|code| - 1], Run(code[..|code| - 1], s))
  }

  // What a step does, for one word of each instruction.

  /** addi x5,x6,-1; addiw x5,x6,-1; slli and srli x5,x6,40; add x5,x6,x7 */
  lemma ArithmeticSteps(s: Cpu)
    ensures Execute(0xfff3_0293, s) == Cpu(Write(s.x, 5, Plus(s.x(6), 0xffff_ffff_ffff_ffff)), Plus(s.pc, 4))
    ensures Execute(0xfff3_029b, s) == Cpu(Write(s.x, 5, PlusW(s.x(6), 0xffff_ffff)), Plus(s.pc, 4))
    ensures Execute(0x0283_1293, s) == Cpu(Write(s.x, 5, Shl(s.x(6), 40)), Plus(s.pc, 4))
    ensures Execute(0x0283_5293, s) == Cpu(Write(s.x, 5, Shr(s.x(6), 40)), Plus(s.pc, 4))
    ensures Execute(0x0073_02b3, s) == Cpu(Write(s.x, 5, Plus(s.x(6), s.x(7))), Plus(s.pc, 4))
  {
    hide Write, Plus, PlusW;
    ShiftCount(s.x(6));
  }

  lemma ShiftCount(a: bv64)
    ensures Shl(a, 40) == a << 40 && Shr(a, 40) == a >> 40
  {
  }

  /** lui x5,0x80000; auipc x5,1 */
  lemma UpperSteps(s: Cpu)
    ensures Execute(0x8000_02b7, s) == Cpu(Write(s.x, 5, 0xffff_ffff_8000_0000), Plus(s.pc, 4))
    ensures Execute(0x0000_1297, s) == Cpu(Write(s.x, 5, Plus(s.pc, 0x1000)), Plus(s.pc, 4))
  {
    hide Write, Plus;
  }

  /** jal x5,-4; jalr x5,1(x6) */
  lemma JumpSteps(s: Cpu)
    ensures Execute(0xffdf_f2ef, s) == Cpu(Write(s.x, 5, Plus(s.pc, 4)), Plus(s.pc, 0xffff_ffff_ffff_fffc))
    ensures Execute(0x0013_02e7, s) == Cpu(Write(s.x, 5, Plus(s.pc, 4)), Even(Plus(s.x(6), 1)))
  {
    assert Sext(ImmJ(0xffdf_f2ef)) == 0xffff_ffff_ffff_fffc && Sext(ImmI(0x0013_02e7)) == 1;
    hide Write, Plus, Even, Sext, ImmJ, ImmI;
  }
}
