/** The Sv39 page walk (RISC-V Privileged Architecture, sections 4.3.2 and 4.4) over the bytes of RAM. */
module Sv39 {
  import opened Words

  const RAM_BASE := 0x8000_0000
  const RAM_SIZE := 0x0800_0000
  const FETCH: nat := 0
  const LOAD: nat := 1
  const STORE: nat := 2

  /** What a translation depends on besides memory. */
  datatype Regime = Regime(satp: u64, privilege: nat, sum: bool) {
    function Mode(): nat { satp / 0x1000_0000_0000_0000 }
    function Root(): u64 { satp % 0x1000_0000_0000 * 4096 }
  }

  predicate InRam(addr: u64, size: nat) {
    RAM_BASE <= addr && addr + size <= RAM_BASE + RAM_SIZE
  }

  // Bits of a page-table entry.
  function Flags(pte: u64): nat { pte % 64 }
  predicate V(pte: u64) { Flags(pte) % 2 == 1 }
  predicate R(pte: u64) { Flags(pte) / 2 % 2 == 1 }
  predicate W(pte: u64) { Flags(pte) / 4 % 2 == 1 }
  predicate X(pte: u64) { Flags(pte) / 8 % 2 == 1 }
  predicate U(pte: u64) { Flags(pte) / 16 % 2 == 1 }
  predicate IsLeaf(pte: u64) { Flags(pte) / 2 % 8 != 0 }
  predicate A(pte: u64) { pte / 64 % 2 == 1 }
  predicate D(pte: u64) { pte / 128 % 2 == 1 }

  /** The page a page-table entry points to. */
  function PageOf(pte: u64): (p: u64)
    ensures p % 4096 == 0
  {
    pte / 1024 * 4096 % TWO_64
  }

  function Vpn(va: u64, level: nat): (i: nat)
    requires level < 3
    ensures i < 512
  {
    va / (if level == 0 then 0x1000 else if level == 1 then 0x20_0000 else 0x4000_0000) % 512
  }

  lemma Aligned(table: u64, i: nat)
    requires table % 4096 == 0 && i < 512
    ensures table + i * 8 < TWO_64 && (table + i * 8) % 8 == 0
  {
    var t := table / 4096;
    assert table == 4096 * t && t < 0x10_0000_0000_0000;
    assert table + i * 8 == 8 * (512 * t + i);
  }

  function PteAddr(table: u64, va: u64, level: nat): (a: u64)
    requires level < 3 && table % 4096 == 0
    ensures a % 8 == 0
  {
    Aligned(table, Vpn(va, level));
    table + Vpn(va, level) * 8
  }

  function ReadWord(mem: seq<u8>, addr: u64): u64
    requires |mem| == RAM_SIZE && InRam(addr, 8)
  {
    FromLEBound(mem[addr - RAM_BASE..addr - RAM_BASE + 8]);
    Pow256Of8();
    FromLE(mem[addr - RAM_BASE..addr - RAM_BASE + 8])
  }

  /** Where a walk ended: the entry it stopped at, its level, and the addresses of all entries it read. */
  datatype Leaf = Leaf(addr: u64, pte: u64, level: nat, trail: seq<u64>)

  /** The descent from `table` at `level`: stops at the first entry that grants anything. */
  function Descend(mem: seq<u8>, table: u64, va: u64, level: nat): (l: Option<Leaf>)
    requires |mem| == RAM_SIZE && level < 3 && table % 4096 == 0
    ensures l.Some? ==> && InRam(l.value.addr, 8) && l.value.addr % 8 == 0 && l.value.level <= level
                        && l.value.pte == ReadWord(mem, l.value.addr) && IsLeaf(l.value.pte) && V(l.value.pte)
                        && l.value.trail != [] && l.value.trail[|l.value.trail| - 1] == l.value.addr
    ensures l.Some? ==> forall k :: 0 <= k < |l.value.trail| ==> InRam(l.value.trail[k], 8) && l.value.trail[k] % 8 == 0
    decreases level
  {
    var a := PteAddr(table, va, level);
    if !InRam(a, 8) then None
    else
      var pte := ReadWord(mem, a);
      if !V(pte) then None
      else if IsLeaf(pte) then Some(Leaf(a, pte, level, [a]))
      else if level == 0 then None
      else
        var below := Descend(mem, PageOf(pte), va, level - 1);
        if below.None? then None else Some(below.value.(trail := [a] + below.value.trail))
  }

  /** The permission checks, as the emulator makes them; supervisor fetches from user pages fail even with SUM,
      and only 4 KiB pages are accepted. */
  predicate Allowed(l: Leaf, access: nat, g: Regime) {
    && !(access == FETCH && !X(l.pte)) && !(access == LOAD && !R(l.pte)) && !(access == STORE && !W(l.pte))
    && l.level == 0
    && !(U(l.pte) && g.privilege == 0 && (access == FETCH || !g.sum))
    && !(!U(l.pte) && g.privilege == 1)
  }

  function SetA(pte: u64): (p: u64)
    ensures A(p) && p / 128 == pte / 128 && p % 64 == pte % 64
    ensures p == pte <==> A(pte)
  {
    if A(pte) then pte
    else
      assert (pte + 64) / 64 == pte / 64 + 1;
      pte + 64
  }

  function SetD(pte: u64): (p: u64)
    ensures D(p) && p / 256 == pte / 256 && p % 128 == pte % 128
    ensures p == pte <==> D(pte)
  {
    if D(pte) then pte
    else
      assert (pte + 128) / 128 == pte / 128 + 1;
      pte + 128
  }

  /** The entry with its accessed and, for a store, its dirty bit set. */
  function WithAD(pte: u64, access: nat): (p: u64) {
    if access == STORE then SetD(SetA(pte)) else SetA(pte)
  }

  lemma WithADKeeps(pte: u64, access: nat)
    ensures var p := WithAD(pte, access);
            && A(p) && (access == STORE ==> D(p)) && (A(pte) ==> A(p)) && (D(pte) ==> D(p))
            && p / 1024 == pte / 1024 && p % 64 == pte % 64
            && (p == pte <==> A(pte) && (access == STORE ==> D(pte)))
  {
    hide SetA, SetD;
    var q := SetA(pte);
    var p := SetD(q);
    ByTen(pte);
    ByTen(q);
    ByTen(p);
    LowSeven(pte);
    LowSeven(q);
    LowSeven(p);
  }

  /** The same bits reached by one shift or two. */
  lemma ByTen(x: nat)
    ensures x / 128 / 8 == x / 1024 && x / 256 / 4 == x / 1024
  {
    var q, r := x / 1024, x % 1024;
    assert x == 1024 * q + r;
    assert x / 128 == 8 * q + r / 128;
    assert x / 256 == 4 * q + r / 256;
  }

  lemma LowSeven(x: nat)
    ensures x % 128 % 64 == x % 64 && x / 64 % 2 == x % 128 / 64 && x / 128 % 2 == x / 128 - 2 * (x / 256)
  {
    var q, r := x / 128, x % 128;
    assert x == 128 * q + r;
    assert x / 64 == 2 * q + r / 64;
    var h := x / 256;
    assert x / 128 == 2 * h + x % 256 / 128;
  }

  /** The physical address: the page of the entry, the offset of the virtual address. */
  function PhysOf(pte: u64, va: u64): (pa: u64)
    ensures pa / 4096 * 4096 == PageOf(pte) && pa % 4096 == va % 4096
  {
    assert PageOf(pte) <= TWO_64 - 4096;
    PageOf(pte) + va % 4096
  }

  datatype Translation = Translation(mem: seq<u8>, pa: Option<u64>)

  /** A translation with no cache: the walk, the checks, the update of the accessed and dirty bits. */
  function Translate(mem: seq<u8>, g: Regime, va: u64, access: nat): (t: Translation)
    requires |mem| == RAM_SIZE
    ensures |t.mem| == RAM_SIZE
  {
    if g.Mode() == 0 then Translation(mem, Some(va))
    else if g.Mode() != 8 then Translation(mem, None)
    else
      var l := Descend(mem, g.Root(), va, 2);
      if l.None? || !Allowed(l.value, access, g) then Translation(mem, None)
      else Translation(Updated(mem, l.value, access), Some(PhysOf(l.value.pte, va)))
  }

  function Updated(mem: seq<u8>, l: Leaf, access: nat): (m: seq<u8>)
    requires |mem| == RAM_SIZE && InRam(l.addr, 8)
    ensures |m| == RAM_SIZE
  {
    var pte := WithAD(l.pte, access);
    if pte == l.pte then mem else Written(mem, l.addr - RAM_BASE, ToLE(pte, 8))
  }
}
