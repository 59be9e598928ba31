/** Forward jumps of the RISC-V code generator. A jump whose target is not known yet is a word that holds the position
    of the next such jump; position 0 ends the list. Resolving the list turns each word into a jal. */
module JumpList {
  import opened Rv64
  import opened AddressSums

  // ---------------------------------------------------------------- words in the code bytes

  function At(p: bv32): nat { p as int }

  predicate InCode(data: seq<bv8>, p: bv32) { At(p) + 4 <= |data| }

  function Word(data: seq<bv8>, p: bv32): bv32
    requires InCode(data, p)
  {
    var i := At(p);
    Join(data[i], data[i + 1], data[i + 2], data[i + 3])
  }

  function Join(a: bv8, b: bv8, c: bv8, d: bv8): bv32 {
    (a as bv32) | ((b as bv32) << 8) | ((c as bv32) << 16) | ((d as bv32) << 24)
  }

  function Bytes(w: bv32): (s: seq<bv8>)
    ensures |s| == 4
  {
    [(w & 255) as bv8, ((w >> 8) & 255) as bv8, ((w >> 16) & 255) as bv8, (w >> 24) as bv8]
  }

  lemma JoinBytes(w: bv32)
    ensures Join(Bytes(w)[0], Bytes(w)[1], Bytes(w)[2], Bytes(w)[3]) == w
  {
  }

  function Put(data: seq<bv8>, p: bv32, w: bv32): (r: seq<bv8>)
    requires InCode(data, p)
    ensures |r| == |data|
  {
    data[..At(p)] + Bytes(w) + data[At(p) + 4..]
  }

  /** Two words that share no byte. */
  predicate Apart(p: bv32, q: bv32) { At(p) + 4 <= At(q) || At(q) + 4 <= At(p) }

  predicate Covers(p: bv32, k: int) { At(p) <= k < At(p) + 4 }

  lemma PutWord(data: seq<bv8>, p: bv32, w: bv32)
    requires InCode(data, p)
    ensures Word(Put(data, p, w), p) == w
    ensures forall q :: InCode(data, q) && Apart(p, q) ==> Word(Put(data, p, w), q) == Word(data, q)
    ensures forall k :: 0 <= k < |data| && !Covers(p, k) ==> Put(data, p, w)[k] == data[k]
  {
    hide At, Join, Bytes;
    JoinBytes(w);
  }

  lemma WordAtEnd(data: seq<bv8>, p: bv32, w: bv32)
    requires At(p) == |data|
    ensures Word(data + Bytes(w), p) == w
    ensures forall q :: InCode(data, q) ==> Word(data + Bytes(w), q) == Word(data, q)
  {
    hide At, Join, Bytes;
    JoinBytes(w);
  }

  // ---------------------------------------------------------------- lists

  /** From `t` the words lead through exactly the positions of `list`. */
  predicate Chain(data: seq<bv8>, t: bv32, list: seq<bv32>)
    decreases |list|
  {
    if list == [] then t == 0
    else t == list[0] && t != 0 && InCode(data, t) && Chain(data, Word(data, t), list[1..])
  }

  predicate AllApart(list: seq<bv32>) { forall i, j :: 0 <= i < j < |list| ==> Apart(list[i], list[j]) }

  predicate ApartFrom(p: bv32, list: seq<bv32>) { forall i :: 0 <= i < |list| ==> Apart(p, list[i]) }

  predicate Untouched(data: seq<bv8>, data': seq<bv8>, list: seq<bv32>) {
    |data| <= |data'| && forall i :: 0 <= i < |list| && InCode(data, list[i]) ==> Word(data', list[i]) == Word(data, list[i])
  }

  lemma {:induction false} ChainKept(data: seq<bv8>, data': seq<bv8>, t: bv32, list: seq<bv32>)
    requires Chain(data, t, list) && Untouched(data, data', list)
    ensures Chain(data', t, list)
    decreases |list|
  {
    hide At, Word;
    if list != [] {
      assert Word(data', list[0]) == Word(data, list[0]);
      assert forall i :: 0 <= i < |list| - 1 ==> list[1..][i] == list[i + 1];
      ChainKept(data, data', Word(data, t), list[1..]);
    }
  }

  lemma {:induction false} ChainInCode(data: seq<bv8>, t: bv32, list: seq<bv32>)
    requires Chain(data, t, list)
    ensures forall i :: 0 <= i < |list| ==> list[i] != 0 && InCode(data, list[i])
    decreases |list|
  {
    hide At, Word;
    if list != [] {
      ChainInCode(data, Word(data, t), list[1..]);
      assert forall i :: 1 <= i < |list| ==> list[i] == list[1..][i - 1];
    }
  }

  /** The last word of a list holds 0; with `t` there instead, the list goes on as the list at `t`. */
  lemma {:induction false} Appended(data: seq<bv8>, n: bv32, ns: seq<bv32>, t: bv32, ts: seq<bv32>)
    requires ns != [] && Chain(data, n, ns) && AllApart(ns) && InCode(data, ns[|ns| - 1])
    requires Chain(Put(data, ns[|ns| - 1], t), t, ts)
    ensures Chain(Put(data, ns[|ns| - 1], t), n, ns + ts)
    decreases |ns|
  {
    hide At, Word, Put, Apart;
    var last := ns[|ns| - 1];
    PutWord(data, last, t);
    if |ns| == 1 {
      assert (ns + ts)[1..] == ts;
    } else {
      assert ns[1..][|ns| - 2] == last;
      assert Apart(ns[0], last);
      ApartSym(ns[0], last);
      Appended(data, Word(data, n), ns[1..], t, ts);
      assert (ns + ts)[1..] == ns[1..] + ts;
    }
  }

  lemma ApartSym(p: bv32, q: bv32)
    ensures Apart(p, q) == Apart(q, p)
  {
  }

  // ---------------------------------------------------------------- the jump word

  /** Even and within 22 bits, what gsym_addr lets pass. */
  predicate Reaches(r: bv32) { (r + 0x20_0000) & !((0x40_0000 as bv32) - 2) == 0 }

  /** Within the 21 bits of jal. */
  predicate JalReaches(r: bv32) { r & 1 == 0 && (r + 0x10_0000) >> 21 == 0 }

  function JalImm(r: bv32): bv32 {
    (((r >> 12) & 0xff) << 12) | (((r >> 11) & 1) << 20) | (((r >> 1) & 0x3ff) << 21) | (((r >> 20) & 1) << 31)
  }

  function JumpWord(r: bv32): bv32 { if r == 4 then 0x33 else 0x6f | JalImm(r) }

  /** r cut to 21 bits and sign-extended, without its bit 0. */
  function JalPart(r: bv32): bv32 { ((r & 0x1f_fffe) ^ 0x10_0000) - 0x10_0000 }

  lemma JalFields(r: bv32)
    ensures Op(0x6f | JalImm(r)) == 0x6f && Rd(0x6f | JalImm(r)) == 0 && ImmJ(0x6f | JalImm(r)) == JalPart(r)
  {
    hide BitsJ, JalImm, Op, Rd;
    JalBits(r);
  }

  lemma JalBits(r: bv32)
    ensures Op(0x6f | JalImm(r)) == 0x6f && Rd(0x6f | JalImm(r)) == 0 && BitsJ(0x6f | JalImm(r)) == r & 0x1f_fffe
  {
  }

  lemma JalPositive(r: bv32)
    requires r & 0x10_0000 == 0
    ensures JalPart(r) == r & 0x1f_fffe && (JalReaches(r) <==> r & 0xffe0_0001 == 0)
  {
  }

  lemma JalNegative(r: bv32)
    requires r & 0x10_0000 != 0
    ensures JalPart(r) == (r & 0x1f_fffe) | 0xffe0_0000 && (JalReaches(r) <==> r & 0xffe0_0001 == 0xffe0_0000)
  {
  }

  lemma JalDecodes(r: bv32)
    ensures JalPart(r) == r <==> JalReaches(r)
  {
    hide JalPart, JalReaches;
    if r & 0x10_0000 == 0 {
      JalPositive(r);
    } else {
      JalNegative(r);
    }
  }

  lemma NopDecodes()
    ensures Op(0x33) == 0x33 && Rd(0x33) == 0 && F3(0x33) == 0 && F7(0x33) == 0 && JalReaches(4) && Sext(4) == 4
  {
  }

  /** Writing register 0 changes nothing. */
  lemma WriteZero(x: Regs, v: bv64)
    ensures forall r :: Write(x, 0, v)(r) == x(r)
  {
  }

  ghost predicate SameRegs(x: Regs, y: Regs) { forall r :: x(r) == y(r) }

  function Target(base: bv64, p: bv32): bv64 { Plus(base, Wide(p)) }

  lemma Distance(base: bv64, t: bv32, a: bv32)
    requires IsPos(t) && IsPos(a)
    ensures Plus(Target(base, t), Sext(Gap(t, a))) == Target(base, a)
  {
    hide Plus, Sext, IsPos, Wide, Minus, Gap;
    GapSpans(t, a);
    PlusCancels(base, Wide(t), Wide(a));
  }

  lemma JumpIsJal(insn: bv32, s: Cpu)
    requires Op(insn) == 0x6f && Rd(insn) == 0
    ensures SameRegs(Execute(insn, s).x, s.x) && Execute(insn, s).pc == Plus(s.pc, Sext(ImmJ(insn)))
  {
    hide Op, Rd, F3, F7, Rs1, Rs2, Bit30, ImmI, ImmJ, ImmB, Sext, Plus, PlusW, Shl, Shr, Even, Upper, Taken;
    WriteZero(s.x, Plus(s.pc, 4));
  }

  lemma AddIntoZero(insn: bv32, s: Cpu)
    requires Op(insn) == 0x33 && Rd(insn) == 0 && F3(insn) == 0 && F7(insn) == 0
    ensures SameRegs(Execute(insn, s).x, s.x) && Execute(insn, s).pc == Plus(s.pc, 4)
  {
    hide Op, Rd, F3, F7, Rs1, Rs2, Bit30, ImmI, ImmJ, ImmB, Sext, Plus, PlusW, Shl, Shr, Even, Upper, Taken, Read;
    WriteZero(s.x, Plus(Read(s.x, Rs1(insn)), Read(s.x, Rs2(insn))));
  }

  lemma NopGoes(s: Cpu)
    ensures SameRegs(Execute(0x33, s).x, s.x) && Execute(0x33, s).pc == Plus(s.pc, Sext(4)) && JalReaches(4)
  {
    hide Execute, Op, Rd, F3, F7, Sext, Plus, JalReaches, SameRegs;
    NopDecodes();
    AddIntoZero(0x33, s);
  }

  lemma JalGoes(r: bv32, s: Cpu)
    ensures var w := 0x6f | JalImm(r);
            SameRegs(Execute(w, s).x, s.x) && (Execute(w, s).pc == Plus(s.pc, Sext(r)) <==> JalReaches(r))
  {
    hide Execute, Op, Rd, ImmJ, JalImm, JalPart, Sext, Plus, JalReaches, SameRegs;
    var w := 0x6f | JalImm(r);
    JalFields(r);
    JalDecodes(r);
    JumpIsJal(w, s);
    if Plus(s.pc, Sext(ImmJ(w))) == Plus(s.pc, Sext(r)) {
      PlusInjective(s.pc, Sext(ImmJ(w)), Sext(r));
      SextInjective(ImmJ(w), r);
    }
  }

  /** A resolved word sends the emulator to its target with every register kept, exactly when jal's 21 bits hold the
      distance; the guard lets through 22. */
  lemma JumpGoes(t: bv32, a: bv32, base: bv64, x: Regs)
    requires IsPos(t) && IsPos(a)
    ensures SameRegs(Execute(JumpWord(Gap(t, a)), Cpu(x, Target(base, t))).x, x)
    ensures Execute(JumpWord(Gap(t, a)), Cpu(x, Target(base, t))).pc == Target(base, a) <==> JalReaches(Gap(t, a))
  {
    hide Gap, Execute, JalImm, Sext, Plus, Target, JalReaches, SameRegs;
    var r, s := Gap(t, a), Cpu(x, Target(base, t));
    Distance(base, t, a);
    if r == 4 {
      NopGoes(s);
    } else {
      JalGoes(r, s);
    }
  }

  // ---------------------------------------------------------------- conditional jumps

  /** The comparison of a value-stack entry. */
  datatype Comparison = Eq | Ne | Lt | Ge | Le | Gt | Ult | Uge | Ule | Ugt

  function Compare(op: Comparison, a: bv64, b: bv64): bool {
    match op
    case Eq => a == b
    case Ne => a != b
    case Lt => Less(a, b)
    case Ge => !Less(a, b)
    case Le => !Less(b, a)
    case Gt => Less(b, a)
    case Ult => a < b
    case Uge => !(a < b)
    case Ule => !(b < a)
    case Ugt => b < a
  }

  /** The branch's function code, and whether its registers are exchanged. */
  function BranchCode(op: Comparison): (bv32, bool) {
    match op
    case Ult => (6, false)
    case Uge => (7, false)
    case Ule => (7, true)
    case Ugt => (6, true)
    case Lt => (4, false)
    case Ge => (5, false)
    case Le => (5, true)
    case Gt => (4, true)
    case Ne => (1, false)
    case Eq => (0, false)
  }

  /** The inverted branch over the jump that follows it. */
  function BranchWord(op: Comparison, a: bv32, b: bv32): bv32 {
    var (f, exchanged) := BranchCode(op);
    var (r1, r2) := if exchanged then (b, a) else (a, b);
    OverNext(f ^ 1, r1, r2)
  }

  function OverNext(f3: bv32, r1: bv32, r2: bv32): bv32 { 0x63 | (f3 << 12) | (r1 << 15) | (r2 << 20) | (8 << 7) }

  lemma OverNextDecodes(f3: bv32, r1: bv32, r2: bv32)
    requires f3 < 8 && r1 < 32 && r2 < 32
    ensures var w := OverNext(f3, r1, r2);
            Op(w) == 0x63 && F3(w) == f3 && Rs1(w) == r1 && Rs2(w) == r2 && ImmB(w) == 8
  {
  }

  lemma InvertedCodes()
    ensures 6 ^ 1 as bv32 == 7 && 7 ^ 1 as bv32 == 6 && 4 ^ 1 as bv32 == 5 && 5 ^ 1 as bv32 == 4 && 0 ^ 1 as bv32 == 1 && 1 ^ 1 as bv32 == 0 && Sext(8) == 8
  {
  }

  /** The branch with the last bit of its function code flipped is taken exactly when the comparison fails. */
  lemma Inverted(op: Comparison, a: bv64, b: bv64)
    ensures var (f, exchanged) := BranchCode(op);
            f < 8 && f ^ 1 < 8 && f ^ 1 != 2 && f ^ 1 != 3
            && (if exchanged then Taken(f ^ 1, b, a) else Taken(f ^ 1, a, b)) == !Compare(op, a, b)
  {
    hide Less;
    InvertedCodes();
    match op {
      case Eq => case Ne => case Lt => case Ge => case Le => case Gt => case Ult => case Uge => case Ule => case Ugt =>
    }
  }

  lemma BranchExecutes(insn: bv32, s: Cpu)
    requires Op(insn) == 0x63 && F3(insn) != 2 && F3(insn) != 3
    ensures Execute(insn, s).x == s.x
    ensures Execute(insn, s).pc == Plus(s.pc, if Taken(F3(insn), Read(s.x, Rs1(insn)), Read(s.x, Rs2(insn))) then Sext(ImmB(insn)) else 4)
  {
    hide Op, Rd, F3, F7, Rs1, Rs2, Bit30, ImmI, ImmJ, ImmB, Sext, Plus, PlusW, Shl, Shr, Even, Upper, Taken, Read;
  }

  /** The branch falls through into the jump exactly when the comparison holds. */
  lemma BranchFallsThrough(op: Comparison, a: bv32, b: bv32, s: Cpu)
    requires a < 32 && b < 32
    ensures Execute(BranchWord(op, a, b), s).x == s.x
    ensures Execute(BranchWord(op, a, b), s).pc == Plus(s.pc, if Compare(op, Read(s.x, a), Read(s.x, b)) then 4 else 8)
  {
    hide Execute, Op, F3, Rs1, Rs2, ImmB, OverNext, Plus, Read, Sext, Taken, Compare;
    InvertedCodes();
    Inverted(op, Read(s.x, a), Read(s.x, b));
    var (f, exchanged) := BranchCode(op);
    var (r1, r2) := if exchanged then (b, a) else (a, b);
    OverNextDecodes(f ^ 1, r1, r2);
    BranchExecutes(OverNext(f ^ 1, r1, r2), s);
  }

  // ---------------------------------------------------------------- the text section

  function Pos(p: nat): bv32
    requires p < 0x8000_0000
  {
    p as bv32
  }

  lemma PosIs(p: nat)
    requires p < 0x8000_0000
    ensures At(Pos(p)) == p && IsPos(Pos(p)) && (p != 0 ==> Pos(p) != 0)
  {
  }

  /** Every position of the list holds its jump to `a`. */
  ghost predicate Resolved(data: seq<bv8>, list: seq<bv32>, a: bv32) {
    forall i :: 0 <= i < |list| && InCode(data, list[i]) ==> Word(data, list[i]) == JumpWord(Gap(list[i], a))
  }

  /** No byte outside the words of `list` differs. */
  ghost predicate OnlyIn(data: seq<bv8>, data': seq<bv8>, list: seq<bv32>) {
    |data| == |data'|
    && forall k :: 0 <= k < |data| && (forall i :: 0 <= i < |list| ==> !Covers(list[i], k)) ==> data'[k] == data[k]
  }

  /** The code bytes up to `ind`. */
  class TextSection {
    var data: seq<bv8>
    var nocodeWanted: bool

    method O(w: bv32)
      requires |data| + 4 < 0x8000_0000
      modifies this`data
      ensures data == if nocodeWanted then old(data) else old(data) + Bytes(w)
    {
      if !nocodeWanted {
        data := data + Bytes(w);
      }
    }

    /** A forward jump goes in front of the list. */
    method Gjmp(t: bv32, ghost list: seq<bv32>) returns (t': bv32)
      requires Chain(data, t, list) && AllApart(list)
      requires 0 < |data| < 0x7fff_fff0
      modifies this`data
      ensures nocodeWanted ==> data == old(data) && t' == t
      ensures !nocodeWanted ==>
                At(t') == |old(data)| && data == old(data) + Bytes(t)
                && Chain(data, t', [t'] + list) && AllApart([t'] + list)
    {
      hide At, Bytes, Word, Chain;
      if nocodeWanted {
        return t;
      }
      PosIs(|data|);
      O(t);
      t' := Pos(|data| - 4);
      WordAtEnd(old(data), t', t);
      ChainInCode(old(data), t, list);
      ChainKept(old(data), data, t, list);
      ChainStarts(data, t', t, list);
      InFrontApart(old(data), t', list);
    }

    /** The inverted branch, then the jump it steps over. */
    method GjmpCond(op: Comparison, a: bv32, b: bv32, t: bv32, ghost list: seq<bv32>) returns (t': bv32)
      requires Chain(data, t, list) && AllApart(list)
      requires 0 < |data| < 0x7fff_ff00
      modifies this`data
      ensures nocodeWanted ==> data == old(data) && t' == t
      ensures !nocodeWanted ==>
                At(t') == |old(data)| + 4 && data == old(data) + Bytes(BranchWord(op, a, b)) + Bytes(t)
                && Chain(data, t', [t'] + list) && AllApart([t'] + list)
    {
      hide At, Bytes, Word, Chain, BranchWord;
      O(BranchWord(op, a, b));
      if !nocodeWanted {
        PosIs(|old(data)|);
        WordAtEnd(old(data), Pos(|old(data)|), BranchWord(op, a, b));
        ChainInCode(old(data), t, list);
        ChainKept(old(data), data, t, list);
      }
      t' := Gjmp(t, list);
    }

    /** The lists joined: n's, then t's. */
    method GjmpAppend(n: bv32, t: bv32, ghost ns: seq<bv32>, ghost ts: seq<bv32>) returns (r: bv32)
      requires Chain(data, n, ns) && Chain(data, t, ts) && AllApart(ns + ts)
      modifies this`data
      ensures Chain(data, r, ns + ts)
      ensures OnlyIn(old(data), data, if ns == [] then [] else [ns[|ns| - 1]])
    {
      hide At, Word, Put, Apart;
      r := t;
      ChainInCode(data, n, ns);
      if n != 0 {
        SplitApart(ns, ts);
        var n1 := n;
        ghost var i := 0;
        while Word(data, n1) != 0
          invariant 0 <= i < |ns| && Chain(data, n1, ns[i..])
          invariant InCode(data, n1)
          decreases |ns| - i
        {
          assert ns[i..][1..] == ns[i + 1..];
          n1 := Word(data, n1);
          i := i + 1;
        }
        assert ns[i..][1..] == ns[i + 1..];
        assert i == |ns| - 1;
        PutWord(data, n1, t);
        ChainInCode(data, t, ts);
        ChainKept(data, Put(data, n1, t), t, ts);
        Appended(data, n, ns, t, ts);
        data := Put(data, n1, t);
        r := n;
      } else {
        assert ns + ts == ts;
      }
    }

    /** Patches every word of the list, unless one is too far: then the compilation ends with an error. */
    method GsymAddr(t0: bv32, a: bv32, ghost list: seq<bv32>) returns (ok: bool)
      requires Chain(data, t0, list) && AllApart(list)
      modifies this`data
      ensures ok <==> forall i :: 0 <= i < |list| ==> Reaches(Gap(list[i], a))
      ensures ok ==> Resolved(data, list, a)
      ensures OnlyIn(old(data), data, list)
    {
      hide At, Word, Put, Apart, Covers, Reaches, JumpWord, Gap;
      ChainInCode(data, t0, list);
      var t := t0;
      ghost var i := 0;
      while t != 0
        invariant 0 <= i <= |list| && Chain(data, t, list[i..])
        invariant |data| == |old(data)|
        invariant forall j :: 0 <= j < |list| ==> InCode(data, list[j])
        invariant forall j :: 0 <= j < i ==> Reaches(Gap(list[j], a)) && Word(data, list[j]) == JumpWord(Gap(list[j], a))
        invariant OnlyIn(old(data), data, list)
        decreases |list| - i
      {
        var next, r := Word(data, t), Gap(t, a);
        assert t == list[i];
        if !Reaches(r) {
          return false;
        }
        StepResolves(data, list, i, JumpWord(r));
        data := Put(data, t, JumpWord(r));
        t := next;
        i := i + 1;
      }
      ok := true;
    }
  }

  lemma ChainStarts(data: seq<bv8>, p: bv32, t: bv32, list: seq<bv32>)
    requires p != 0 && InCode(data, p) && Word(data, p) == t && Chain(data, t, list)
    ensures Chain(data, p, [p] + list)
  {
    assert ([p] + list)[1..] == list;
  }

  lemma InFrontApart(data: seq<bv8>, p: bv32, list: seq<bv32>)
    requires At(p) == |data| && AllApart(list) && forall i :: 0 <= i < |list| ==> InCode(data, list[i])
    ensures AllApart([p] + list)
  {
    hide At;
  }

  lemma SplitApart(ns: seq<bv32>, ts: seq<bv32>)
    requires AllApart(ns + ts) && ns != []
    ensures AllApart(ns) && ApartFrom(ns[|ns| - 1], ts)
  {
    hide Apart;
    var all := ns + ts;
    assert forall i :: 0 <= i < |ns| ==> all[i] == ns[i];
    assert forall i :: 0 <= i < |ts| ==> all[|ns| + i] == ts[i];
  }

  /** One patched word: it is right, the words before it stay right and the rest of the list is still there. */
  lemma StepResolves(data: seq<bv8>, list: seq<bv32>, i: nat, w: bv32)
    requires i < |list| && AllApart(list) && (forall j :: 0 <= j < |list| ==> InCode(data, list[j]))
    requires Chain(data, list[i], list[i..])
    ensures Word(Put(data, list[i], w), list[i]) == w
    ensures forall j :: 0 <= j < |list| && j != i && InCode(data, list[j]) ==> Word(Put(data, list[i], w), list[j]) == Word(data, list[j])
    ensures Chain(Put(data, list[i], w), Word(data, list[i]), list[i + 1..])
    ensures OnlyIn(data, Put(data, list[i], w), list)
  {
    hide At, Word, Put, Apart, Covers;
    var data' := Put(data, list[i], w);
    PutWord(data, list[i], w);
    forall j | 0 <= j < |list| && j != i
      ensures Word(data', list[j]) == Word(data, list[j])
    {
      if j < i { ApartSym(list[j], list[i]); }
    }
    assert list[i..][1..] == list[i + 1..];
    ChainKept(data, data', Word(data, list[i]), list[i + 1..]);
  }

  // ---------------------------------------------------------------- running resolved code

  /** One step of the emulator from position `p` of code loaded at `base`. */
  function StepAt(data: seq<bv8>, base: bv64, p: bv32, x: Regs): Cpu
    requires InCode(data, p)
  {
    Execute(Word(data, p), Cpu(x, Target(base, p)))
  }

  /** From every word of a resolved list the emulator continues at the target, registers kept, if and only if jal
      reaches that far. */
  lemma ContinuesAtTarget(data: seq<bv8>, list: seq<bv32>, a: bv32, base: bv64, x: Regs)
    requires Resolved(data, list, a) && IsPos(a)
    ensures forall i :: 0 <= i < |list| && InCode(data, list[i]) && IsPos(list[i]) ==>
              SameRegs(StepAt(data, base, list[i], x).x, x)
              && (StepAt(data, base, list[i], x).pc == Target(base, a) <==> JalReaches(Gap(list[i], a)))
  {
    hide InCode, IsPos, SameRegs, Target, JalReaches, Gap, JumpWord, Execute, Word;
    forall i | 0 <= i < |list| && InCode(data, list[i]) && IsPos(list[i])
      ensures SameRegs(StepAt(data, base, list[i], x).x, x)
              && (StepAt(data, base, list[i], x).pc == Target(base, a) <==> JalReaches(Gap(list[i], a)))
    {
      JumpGoes(list[i], a, base, x);
    }
  }

  /** Words away from the list are as before. */
  lemma OthersKept(data: seq<bv8>, data': seq<bv8>, list: seq<bv32>, p: bv32)
    requires OnlyIn(data, data', list) && ApartFrom(p, list) && InCode(data, p)
    ensures Word(data', p) == Word(data, p)
  {
    hide At, Join;
    forall k | Covers(p, k)
      ensures data'[k] == data[k]
    {
      assert forall i :: 0 <= i < |list| ==> !Covers(list[i], k);
    }
    assert forall k :: Covers(p, k) ==> data'[k] == data[k];
    assert Covers(p, At(p)) && Covers(p, At(p) + 1) && Covers(p, At(p) + 2) && Covers(p, At(p) + 3);
  }

  function Next(p: bv32, n: bv32): bv32 { p + n }

  lemma NextSum(p: bv32, n: bv32)
    requires p < 0x7fff_ff00 && n < 16
    ensures Wide(p + n) == Plus(p as bv64, n as bv64) && IsPos(p + n)
  {
  }

  lemma NextWide(p: bv32, n: bv32)
    requires p < 0x7fff_ff00 && n < 16
    ensures Wide(Next(p, n)) == Plus(Wide(p), Wide(n)) && IsPos(Next(p, n))
  {
    hide Wide, IsPos, Plus;
    NextSum(p, n);
    WideIs(p);
    WideIs(n);
  }

  lemma NextTarget(base: bv64, p: bv32, n: bv32)
    requires p < 0x7fff_ff00 && n < 16
    ensures Plus(Target(base, p), Wide(n)) == Target(base, Next(p, n)) && IsPos(Next(p, n))
  {
    hide Plus, IsPos, Wide, Next;
    NextWide(p, n);
    PlusAssociates(base, Wide(p), Wide(n));
  }

  lemma SmallWide()
    ensures Wide(4) == 4 && Wide(8) == 8 && 4 as bv32 < 16 && 8 as bv32 < 16
  {
  }

  /** A conditional jump whose list was resolved to `t`: when the comparison holds, two steps lead to the target, and
      otherwise one step leads past the jump. */
  lemma ConditionalJump(data: seq<bv8>, base: bv64, p: bv32, op: Comparison, a: bv32, b: bv32, t: bv32, x: Regs)
    requires p < 0x7fff_ff00 && IsPos(t) && a < 32 && b < 32
    requires InCode(data, p) && Word(data, p) == BranchWord(op, a, b)
    requires InCode(data, Next(p, 4)) && Word(data, Next(p, 4)) == JumpWord(Gap(Next(p, 4), t))
    ensures StepAt(data, base, p, x).x == x
    ensures !Compare(op, Read(x, a), Read(x, b)) ==> StepAt(data, base, p, x).pc == Target(base, Next(p, 8))
    ensures Compare(op, Read(x, a), Read(x, b)) ==>
              StepAt(data, base, p, x).pc == Target(base, Next(p, 4))
              && SameRegs(StepAt(data, base, Next(p, 4), x).x, x)
              && (StepAt(data, base, Next(p, 4), x).pc == Target(base, t) <==> JalReaches(Gap(Next(p, 4), t)))
  {
    hide InCode, IsPos, SameRegs, Target, JalReaches, Gap, JumpWord, BranchWord, Execute, Word, Compare, Read, Next, Plus, Wide;
    SmallWide();
    NextTarget(base, p, 4);
    NextTarget(base, p, 8);
    BranchFallsThrough(op, a, b, Cpu(x, Target(base, p)));
    JumpGoes(Next(p, 4), t, base, x);
  }

  /** The guard lets a distance through that jal then misses: one byte past 2^20. */
  lemma OutOfJalRange(base: bv64, x: Regs)
    ensures Reaches(Gap(4, 0x10_0004)) && !JalReaches(Gap(4, 0x10_0004))
    ensures Execute(JumpWord(Gap(4, 0x10_0004)), Cpu(x, Target(base, 4))).pc != Target(base, 0x10_0004)
  {
    hide Execute, JumpWord, Target, SameRegs;
    JumpGoes(4, 0x10_0004, base, x);
  }
}
