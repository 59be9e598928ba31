/** A run of two fetches in which the second passes a page boundary that the walk does not. */
module FetchExample {
  import opened Words
  import opened Sv39
  import opened Coherence
  import opened Mmu

  /** An entry that points back to the one table, and one that lets supervisor code run in the frame after it. */
  const TABLE: u64 := 0x2000_0001
  const CODE: u64 := 0x2000_0449

  /** The table at the start of RAM: a way down to the page of `PC`, and no entry for the page after it. */
  ghost predicate OnePage(mem: seq<u8>) {
    && |mem| == RAM_SIZE
    && ReadWord(mem, RAM_BASE + 8) == TABLE && ReadWord(mem, RAM_BASE + 16) == TABLE
    && ReadWord(mem, RAM_BASE + 24) == CODE && ReadWord(mem, RAM_BASE + 32) == 0
  }

  const PC: u64 := 0x4040_3ffa
  const NEXT: u64 := 0x4040_4000

  lemma {:induction false} ZeroWord(mem: seq<u8>, a: u64)
    requires mem == seq(RAM_SIZE, _ => 0) && InRam(a, 8)
    ensures ReadWord(mem, a) == 0
  {
    Zeros(mem[a - RAM_BASE..a - RAM_BASE + 8]);
  }

  lemma {:induction false} Zeros(s: seq<u8>)
    requires forall k :: 0 <= k < |s| ==> s[k] == 0
    ensures FromLE(s) == 0
  {
    if s != [] {
      Zeros(s[1..]);
    }
  }

  lemma TableWritten(mem: seq<u8>, m1: seq<u8>, m2: seq<u8>, m3: seq<u8>)
    requires mem == seq(RAM_SIZE, _ => 0) && m1 == Written(mem, 8, ToLE(TABLE, 8))
    requires m2 == Written(m1, 16, ToLE(TABLE, 8)) && m3 == Written(m2, 24, ToLE(CODE, 8))
    ensures OnePage(m3)
  {
    hide Written, ToLE, ReadWord;
    forall a: u64 | a in {RAM_BASE + 8, RAM_BASE + 16, RAM_BASE + 24, RAM_BASE + 32}
      ensures ReadWord(m3, a) == if a == RAM_BASE + 24 then CODE else if a == RAM_BASE + 32 then 0 else TABLE
    {
      ZeroWord(mem, a);
      WordAfterWrite(mem, RAM_BASE + 8, TABLE, a);
      WordAfterWrite(m1, RAM_BASE + 16, TABLE, a);
      WordAfterWrite(m2, RAM_BASE + 24, CODE, a);
    }
  }

  lemma Walks(mem: seq<u8>, va: u64)
    requires OnePage(mem) && (va / 4096 == PC / 4096 || va == NEXT)
    ensures var l := Descend(mem, RAM_BASE, va, 2);
            if va == NEXT then l == None else l.Some? && l.value.pte == CODE && l.value.level == 0
  {
    hide ReadWord;
    assert Vpn(va, 2) == 1 && Vpn(va, 1) == 2 && Vpn(va, 0) == (if va == NEXT then 4 else 3);
    assert PageOf(TABLE) == RAM_BASE && IsLeaf(CODE) && V(CODE) && V(TABLE) && !IsLeaf(TABLE);
    assert Descend(mem, RAM_BASE, va, 2) == Below([RAM_BASE + 8], Descend(mem, RAM_BASE, va, 1));
    assert Descend(mem, RAM_BASE, va, 1) == Below([RAM_BASE + 16], Descend(mem, RAM_BASE, va, 0));
  }

  const SATP_ON: u64 := 0x8000_0000_0008_0000

  lemma Fetches(mem: seq<u8>, g: Regime)
    requires OnePage(mem) && g == Regime(SATP_ON, 0, false)
    ensures LoadOk(mem, g, PC, 4, FETCH) && Translate(mem, g, PC, FETCH) == Translation(mem, Some(RAM_BASE + 0x1ffa))
    ensures NextPage(PC + 4) == NEXT && !Answers(mem, g, NEXT, FETCH)
  {
    hide Descend, ReadWord;
    Walks(mem, PC);
    Walks(mem, NEXT);
    assert A(CODE) && X(CODE) && !U(CODE) && PageOf(CODE) == RAM_BASE + 0x1000;
    WithADKeeps(CODE, FETCH);
  }

  /** What the first fetch answers: it succeeds and writes nothing. */
  lemma FirstFetch(mem: seq<u8>, g: Regime, mem2: seq<u8>, ok: bool, raw: nat)
    requires OnePage(mem) && g == Regime(SATP_ON, 0, false) && LoadSpec(mem, g, PC, 4, FETCH, mem2, ok, raw)
    ensures ok && mem2 == mem
  {
    hide Translate, FromLE;
    Fetches(mem, g);
    LoadSpecOk(mem, g, PC, 4, FETCH, mem2, ok, raw);
  }

  lemma AllEmpty(m: Machine)
    requires m.Shape() && forall i :: 0 <= i < 768 ==> m.tlbTag[i] == 0
    ensures m.AllTrusted(PC, 4, FETCH)
  {
    hide At, SlotOf, TagOf;
    forall i | 0 <= i < 4 ensures m.Trusted(At(PC, i), FETCH) {
      TagDecodes(At(PC, i), FETCH, m.G());
    }
  }

  /** A fresh machine with the table written and Sv39 switched on. */
  method SwitchedOn() returns (m: Machine)
    ensures fresh(m) && fresh(m.ram) && fresh(m.tlbTag) && fresh(m.tlbPage) && fresh(m.csr)
    ensures m.Valid() && OnePage(m.ram[..]) && m.G() == Regime(SATP_ON, 0, false)
    ensures m.fetchVpage == EMPTY && forall i :: 0 <= i < 768 ==> m.tlbTag[i] == 0
  {
    hide OnePage, ToLE, Written, Machine.LineOk, Machine.FetchOk;
    m := new Machine();
    ghost var m0 := m.ram[..];
    m.GuestWrite(8, 8, TABLE);
    ghost var m1 := m.ram[..];
    m.GuestWrite(16, 8, TABLE);
    ghost var m2 := m.ram[..];
    m.GuestWrite(24, 8, CODE);
    TableWritten(m0, m1, m2, m.ram[..]);
    m.SetCsr(SATP, SATP_ON);
  }

  /** From there, fetch at `PC`, which caches the page, and fetch the next word, two bytes of which lie beyond it.  The
      fetch succeeds where the walk faults. */
  method FetchPastThePage() returns (m: Machine, ok: bool)
    ensures fresh(m) && m.Valid() && ok && !LoadOk(m.ram[..], m.G(), PC + 4, 4, FETCH)
  {
    hide LoadOk, LoadSpec, SpansAlike, Translate, Answers, OnePage, FromLE, NextPage, SlotOf, TagOf;
    hide Machine.LineOk, Machine.FetchOk, Machine.Trusted, Machine.AllTrusted;
    m := SwitchedOn();
    ghost var mem := m.ram[..];
    Fetches(mem, m.G());
    AllEmpty(m);
    var raw;
    ok, raw := m.FetchWord(PC);
    FirstFetch(mem, m.G(), m.ram[..], ok, raw);
    m.TrustedSlot(PC, FETCH);
    m.HitAnswers(PC, FETCH);
    ok, raw := m.FetchWord(PC + 4);
  }
}
