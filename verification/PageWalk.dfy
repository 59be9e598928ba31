/** The translation of one address spelled out on the numbers in memory, without the predicates and the recursion of the
    walk: three entries, the bits of the last, and what is written back. */
module PageWalk {
  import opened Words
  import opened Sv39

  /** Eight bytes of RAM at physical address `a`, the lowest first. */
  function WordAt(mem: seq<u8>, a: nat): nat
    requires |mem| == 0x800_0000 && 0x8000_0000 <= a <= 0x87ff_fff8
  {
    EightBytes(mem[a - 0x8000_0000..a - 0x8000_0000 + 8])
  }

  function EightBytes(s: seq<u8>): nat
    requires |s| == 8
  {
    (s[0] as nat) + 0x100 * (s[1] as nat) + 0x1_0000 * (s[2] as nat) + 0x100_0000 * (s[3] as nat)
    + 0x1_0000_0000 * (s[4] as nat) + 0x100_0000_0000 * (s[5] as nat)
    + 0x1_0000_0000_0000 * (s[6] as nat) + 0x100_0000_0000_0000 * (s[7] as nat)
  }

  /** Entry `i` of the table at `table`: its address and what it holds, if it is in RAM and valid. */
  datatype Slot = Slot(addr: nat, pte: nat)

  function EntryAt(mem: seq<u8>, table: nat, i: nat): Option<Slot>
    requires |mem| == 0x800_0000
  {
    var a := table + 8 * i;
    if 0x8000_0000 <= a <= 0x87ff_fff8 && WordAt(mem, a) % 2 == 1 then Some(Slot(a, WordAt(mem, a))) else None
  }

  /** Neither readable, writable nor executable: the entry points to a table. */
  predicate Points(pte: nat) { pte / 2 % 2 == 0 && pte / 4 % 2 == 0 && pte / 8 % 2 == 0 }

  function FrameOf(pte: nat): nat { pte / 1024 * 4096 % 0x1_0000_0000_0000_0000 }

  /** The entry of a 4 KiB page: two entries that point on, and one that does not. */
  function PageEntry(mem: seq<u8>, satp: nat, va: nat): Option<Slot>
    requires |mem| == 0x800_0000
  {
    match EntryAt(mem, satp % 0x1000_0000_0000 * 4096, va / 0x4000_0000 % 512)
    case None => None
    case Some(top) =>
      if !Points(top.pte) then None
      else match EntryAt(mem, FrameOf(top.pte), va / 0x20_0000 % 512)
        case None => None
        case Some(mid) =>
          if !Points(mid.pte) then None
          else match EntryAt(mem, FrameOf(mid.pte), va / 0x1000 % 512)
            case None => None
            case Some(low) => if Points(low.pte) then None else Some(low)
  }

  /** Bit 3 lets fetch, bit 1 load, bit 2 store. A page with bit 4 is for user mode (1), and for supervisor mode (0) with
      SUM but not to fetch from; a page without is for supervisor mode. */
  predicate Grants(pte: nat, access: nat, privilege: nat, sum: bool) {
    && (access == 0 ==> pte / 8 % 2 == 1) && (access == 1 ==> pte / 2 % 2 == 1) && (access == 2 ==> pte / 4 % 2 == 1)
    && if pte / 16 % 2 == 1 then privilege == 1 || (privilege == 0 && sum && access != 0) else privilege == 0
  }

  /** The entry with bit 6 set and, for a store, bit 7. */
  function Marked(pte: nat, access: nat): nat {
    pte + (if pte / 64 % 2 == 0 then 64 else 0) + (if access == 2 && pte / 128 % 2 == 0 then 128 else 0)
  }

  /** The address a virtual address stands for. */
  function PhysicalAddress(mem: seq<u8>, g: Regime, va: u64, access: nat): Option<nat>
    requires |mem| == 0x800_0000
  {
    if g.satp / 0x1000_0000_0000_0000 == 0 then Some(va)
    else if g.satp / 0x1000_0000_0000_0000 != 8 then None
    else match PageEntry(mem, g.satp, va)
      case None => None
      case Some(e) => if Grants(e.pte, access, g.privilege, g.sum) then Some(FrameOf(e.pte) + va % 4096) else None
  }

  lemma WordAtIs(mem: seq<u8>, a: u64)
    requires |mem| == RAM_SIZE && InRam(a, 8)
    ensures ReadWord(mem, a) == WordAt(mem, a)
  {
    var o := a - RAM_BASE;
    var s := mem[o..o + 8];
    FromLEIs(s);
  }

  lemma FromLEIs(s: seq<u8>)
    requires |s| == 8
    ensures FromLE(s) == EightBytes(s)
  {
    assert FromLE(s) == s[0] + 256 * FromLE(s[1..]);
    assert FromLE(s[1..]) == s[1] + 256 * FromLE(s[2..]) by { assert s[1..][1..] == s[2..]; }
    assert FromLE(s[2..]) == s[2] + 256 * FromLE(s[3..]) by { assert s[2..][1..] == s[3..]; }
    assert FromLE(s[3..]) == s[3] + 256 * FromLE(s[4..]) by { assert s[3..][1..] == s[4..]; }
    assert FromLE(s[4..]) == s[4] + 256 * FromLE(s[5..]) by { assert s[4..][1..] == s[5..]; }
    assert FromLE(s[5..]) == s[5] + 256 * FromLE(s[6..]) by { assert s[5..][1..] == s[6..]; }
    assert FromLE(s[6..]) == s[6] + 256 * FromLE(s[7..]) by { assert s[6..][1..] == s[7..]; }
    assert FromLE(s[7..]) == s[7] by { assert s[7..][1..] == []; }
  }

  /** The bits of an entry. */
  lemma BitsOf(pte: u64)
    ensures V(pte) <==> pte % 2 == 1
    ensures R(pte) <==> pte / 2 % 2 == 1
    ensures W(pte) <==> pte / 4 % 2 == 1
    ensures X(pte) <==> pte / 8 % 2 == 1
    ensures U(pte) <==> pte / 16 % 2 == 1
    ensures IsLeaf(pte) <==> !Points(pte)
  {
    var q, f := pte / 64, pte % 64;
    assert pte == 64 * q + f;
    assert pte / 2 == 32 * q + f / 2 && pte / 4 == 16 * q + f / 4 && pte / 8 == 8 * q + f / 8 && pte / 16 == 4 * q + f / 16;
    EvenPart(32 * q, f);
    EvenPart(16 * q, f / 2);
    EvenPart(8 * q, f / 4);
    EvenPart(4 * q, f / 8);
    EvenPart(2 * q, f / 16);
    ThreeBits(f / 2 % 8, f);
  }

  lemma EvenPart(k: nat, h: nat)
    ensures (2 * k + h) % 2 == h % 2
  {
  }

  lemma ThreeBits(h: nat, f: nat)
    requires f < 64 && h == f / 2 % 8
    ensures h == 0 <==> f / 2 % 2 == 0 && f / 4 % 2 == 0 && f / 8 % 2 == 0
  {
    assert f / 4 == f / 2 / 2 && f / 8 == f / 2 / 4;
  }

  /** One level of the walk. */
  lemma OneLevel(mem: seq<u8>, table: u64, va: u64, level: nat)
    requires |mem| == RAM_SIZE && level < 3 && table % 4096 == 0
    ensures var i := va / (if level == 0 then 0x1000 else if level == 1 then 0x20_0000 else 0x4000_0000) % 512;
            var l := Descend(mem, table, va, level);
            match EntryAt(mem, table, i)
            case None => l == None
            case Some(e) =>
              if !Points(e.pte) then l.Some? && l.value.addr == e.addr && l.value.pte == e.pte && l.value.level == level
              else if level == 0 then l == None
              else
                && FrameOf(e.pte) % 4096 == 0 && FrameOf(e.pte) < TWO_64
                && var d := Descend(mem, FrameOf(e.pte), va, level - 1);
                && l.Some? == d.Some?
                && (l.Some? ==> l.value.addr == d.value.addr && l.value.pte == d.value.pte && l.value.level == d.value.level)
  {
    hide ReadWord, V, IsLeaf, Points, WordAt;
    var a := PteAddr(table, va, level);
    if InRam(a, 8) {
      WordAtIs(mem, a);
      BitsOf(ReadWord(mem, a));
      PageIs(ReadWord(mem, a));
    }
  }

  lemma PageIs(pte: u64)
    ensures PageOf(pte) == FrameOf(pte)
  {
  }

  /** The descent ends at a page entry exactly if the three entries are there, and ends at the third. */
  lemma DescendExactly(mem: seq<u8>, g: Regime, va: u64)
    requires |mem| == RAM_SIZE
    ensures var l, e := Descend(mem, g.Root(), va, 2), PageEntry(mem, g.satp, va);
            && (e.Some? <==> l.Some? && l.value.level == 0)
            && (e.Some? ==> l.value.addr == e.value.addr && l.value.pte == e.value.pte)
  {
    hide Descend, Points, EntryAt, FrameOf;
    OneLevel(mem, g.Root(), va, 2);
    var top := EntryAt(mem, g.Root(), va / 0x4000_0000 % 512);
    if top.Some? && Points(top.value.pte) {
      OneLevel(mem, FrameOf(top.value.pte), va, 1);
      var mid := EntryAt(mem, FrameOf(top.value.pte), va / 0x20_0000 % 512);
      if mid.Some? && Points(mid.value.pte) {
        OneLevel(mem, FrameOf(mid.value.pte), va, 0);
      }
    }
  }

  /** What the checks let through, by the bits of the entry. */
  lemma AllowedExactly(l: Leaf, access: nat, g: Regime)
    requires access < 3 && g.privilege < 2
    ensures Allowed(l, access, g) <==> l.level == 0 && Grants(l.pte, access, g.privilege, g.sum)
  {
    hide R, W, X, U;
    BitsOf(l.pte);
  }

  lemma MarkedIs(pte: u64, access: nat)
    requires access < 3
    ensures WithAD(pte, access) == Marked(pte, access)
  {
    hide SetD;
    var a := SetA(pte);
    assert a == pte + if pte / 64 % 2 == 0 then 64 else 0;
    hide SetA;
    assert SetD(a) == a + if pte / 128 % 2 == 0 then 128 else 0 by { SetDIs(a); }
  }

  lemma SetDIs(pte: u64)
    ensures SetD(pte) == pte + if pte / 128 % 2 == 0 then 128 else 0
  {
  }

  /** Exactly when a translation succeeds, where it leads, and what it writes: the marked entry, if that is another. */
  lemma TranslatesExactly(mem: seq<u8>, g: Regime, va: u64, access: nat)
    requires |mem| == RAM_SIZE && access < 3 && g.privilege < 2
    ensures var t, p := Translate(mem, g, va, access), PhysicalAddress(mem, g, va, access);
            && t.pa.Some? == p.Some? && (p.Some? ==> t.pa.value == p.value)
            && t.mem == (if g.satp / 0x1000_0000_0000_0000 != 8 || p == None then mem
                         else var e := PageEntry(mem, g.satp, va).value;
                              if Marked(e.pte, access) == e.pte then mem
                              else Written(mem, e.addr - 0x8000_0000, ToLE(Marked(e.pte, access), 8)))
  {
    hide Descend, PageEntry, Allowed, Grants, Marked, WithAD, FrameOf, PageOf;
    if g.Mode() == 8 {
      DescendExactly(mem, g, va);
      var l := Descend(mem, g.Root(), va, 2);
      if l.Some? {
        AllowedExactly(l.value, access, g);
        MarkedIs(l.value.pte, access);
        PageIs(l.value.pte);
      }
    }
  }
}
