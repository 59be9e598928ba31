/** The emulator's memory path: a 768-entry TLB and a one-page fetch cache in front of the Sv39 walk. */
module Mmu {
  import opened Words
  import opened Sv39
  import opened Coherence
  import opened PageWalk

  const SATP: nat := 0x180
  const SSTATUS: nat := 0x100
  const STVEC: nat := 0x105
  const SEPC: nat := 0x141
  const SCAUSE: nat := 0x142
  const STVAL: nat := 0x143
  const STATUS_SIE: bv64 := 0x2
  const STATUS_SPIE: bv64 := 0x20
  const STATUS_SPP: bv64 := 0x100
  const STATUS_SUM: bv64 := 0x4_0000
  const UART_BASE := 0x1000_0000
  const FETCH_BASE := 0x1000_0100

  /** fetch_vpage when nothing is cached: all ones. */
  const EMPTY: u64 := 0xffff_ffff_ffff_ffff

  predicate Bit(x: bv64, mask: bv64) { x & mask != 0 }

  function ModeBits(g: Regime): nat
    ensures g.privilege < 2 ==> ModeBits(g) < 4
  {
    g.privilege + if g.sum then 2 else 0
  }

  function SlotOf(va: u64, access: nat): nat { va / 4096 % 256 + access * 256 }

  function TagOf(va: u64, g: Regime): nat { va / 4096 * 4 + ModeBits(g) + 1 }

  /** The devices answer bytes at the UART and words at the fetch device. */
  predicate Device(pa: u64, size: nat) {
    (UART_BASE <= pa < UART_BASE + 8 && size == 1) || (FETCH_BASE <= pa < FETCH_BASE + 32 && size == 4)
  }

  /** What one access may observe: a fault, a value from RAM, or whatever a device answers. */
  datatype Outcome = Fault | Ram(at: nat) | FromDevice

  function Reach(t: Translation, size: nat): Outcome {
    if t.pa.None? then Fault
    else if InRam(t.pa.value, size) then Ram(t.pa.value - RAM_BASE)
    else if Device(t.pa.value, size) then FromDevice
    else Fault
  }

  /** Addresses wrap at 64 bits. */
  function At(va: u64, i: nat): u64 { (va + i) % TWO_64 }

  /** A load that crosses a page, byte by byte with no cache; `known` if no device answered. */
  datatype Gathered = Gathered(mem: seq<u8>, ok: bool, known: bool, bytes: seq<u8>)

  function Gather(mem: seq<u8>, g: Regime, va: u64, access: nat, n: nat): (r: Gathered)
    requires |mem| == RAM_SIZE
    ensures |r.mem| == RAM_SIZE && (r.ok ==> |r.bytes| == n)
  {
    if n == 0 then Gathered(mem, true, true, [])
    else
      var p := Gather(mem, g, va, access, n - 1);
      if !p.ok then p
      else
        var t := Translate(p.mem, g, At(va, n - 1), access);
        match Reach(t, 1)
        case Fault => Gathered(t.mem, false, p.known, p.bytes)
        case Ram(at) => Gathered(t.mem, true, p.known, p.bytes + [t.mem[at]])
        case FromDevice => Gathered(t.mem, true, false, p.bytes + [0])
  }

  /** A store that crosses a page, byte by byte with no cache. */
  datatype Scattered = Scattered(mem: seq<u8>, ok: bool)

  function StoreOne(mem: seq<u8>, g: Regime, va: u64, size: nat, v: nat): (r: Scattered)
    requires |mem| == RAM_SIZE
    ensures |r.mem| == RAM_SIZE
  {
    var t := Translate(mem, g, va, STORE);
    match Reach(t, size)
    case Fault => Scattered(t.mem, false)
    case Ram(at) => Scattered(Written(t.mem, at, ToLE(v, size)), true)
    case FromDevice => Scattered(t.mem, true)
  }

  /** `v` shifted down by `i` bytes. */
  function Shifted(v: nat, i: nat): nat
    decreases i
  {
    if i == 0 then v else Shifted(v / 256, i - 1)
  }

  function Scatter(mem: seq<u8>, g: Regime, va: u64, v: nat, n: nat): (r: Scattered)
    requires |mem| == RAM_SIZE
    ensures |r.mem| == RAM_SIZE
  {
    if n == 0 then Scattered(mem, true)
    else
      var p := Scatter(mem, g, va, v, n - 1);
      if !p.ok then p else StoreOne(p.mem, g, At(va, n - 1), 1, Shifted(v, n - 1))
  }

  lemma {:induction false} ScatterFails(mem: seq<u8>, g: Regime, va: u64, v: nat, i: nat, n: nat)
    requires |mem| == RAM_SIZE && i <= n
    ensures !Scatter(mem, g, va, v, i).ok ==> Scatter(mem, g, va, v, n) == Scatter(mem, g, va, v, i)
    decreases n
  {
    if i < n {
      ScatterFails(mem, g, va, v, i, n - 1);
    }
  }

  /** What a store does with no cache. */
  function StoreSpec(mem: seq<u8>, g: Regime, va: u64, size: nat, v: nat): Scattered
    requires |mem| == RAM_SIZE
  {
    if va % 4096 + size > 4096 then Scatter(mem, g, va, v, size) else StoreOne(mem, g, va, size, v)
  }

  lemma AtStart(va: u64)
    ensures At(va, 0) == va
  {
  }

  lemma AtWraps(va: u64, i: nat)
    requires i < TWO_64
    ensures At(va, i) == if va + i < TWO_64 then va + i else va + i - TWO_64
  {
  }

  /** The page of a byte less than a page on: the same, or the next, around the end of the address space. */
  lemma PageAt(va: u64, i: nat)
    requires i < 8
    ensures At(va, i) / 4096 == (if va % 4096 + i < 4096 then va / 4096 else if va / 4096 == 0xf_ffff_ffff_ffff then 0 else va / 4096 + 1)
  {
    hide At;
    var p, r := va / 4096, va % 4096;
    assert va == 4096 * p + r;
    AtWraps(va, i);
    if r + i < 4096 {
      assert va + i == 4096 * p + (r + i);
    } else if p == 0xf_ffff_ffff_ffff {
      assert va + i - TWO_64 == r + i - 4096;
    } else {
      assert va + i == 4096 * (p + 1) + (r + i - 4096);
    }
  }

  lemma NextSlot(p: nat)
    ensures (p + 1) % 256 != p % 256
  {
    assert p == 256 * (p / 256) + p % 256;
  }

  /** Bytes less than a page apart share a slot only if they share the page. */
  lemma NearSlots(va: u64, i: nat, k: nat, access: nat)
    requires i < 8 && k < 8 && access < 3 && SlotOf(At(va, i), access) == SlotOf(At(va, k), access)
    ensures At(va, i) / 4096 == At(va, k) / 4096
  {
    hide At;
    PageAt(va, i);
    PageAt(va, k);
    NextSlot(va / 4096);
  }

  /** A failed byte fails the load. */
  lemma {:induction false} GatherFails(mem: seq<u8>, g: Regime, va: u64, access: nat, i: nat, n: nat)
    requires |mem| == RAM_SIZE && i <= n
    ensures !Gather(mem, g, va, access, i).ok ==> Gather(mem, g, va, access, n) == Gather(mem, g, va, access, i)
    decreases n
  {
    if i < n {
      GatherFails(mem, g, va, access, i, n - 1);
    }
  }

  /** A second translation in the same page finds the same frame and writes nothing more. */
  lemma SamePageAgain(mem: seq<u8>, g: Regime, va: u64, va2: u64, access: nat)
    requires |mem| == RAM_SIZE && va / 4096 == va2 / 4096
    ensures var t := Translate(mem, g, va, access);
            var t2 := Translate(t.mem, g, va2, access);
            && t2.mem == t.mem && t2.pa.Some? == t.pa.Some?
            && (t.pa.Some? ==> t.pa.value % 4096 == va % 4096 && t2.pa.value == t.pa.value - va % 4096 + va2 % 4096)
  {
    hide Descend, Allowed, Updated, Backed, PageOf, SameButAD;
    if g.Mode() == 8 {
      DescendSamePage(mem, g.Root(), va, 2);
      DescendSamePage(mem, g.Root(), va2, 2);
      var l := Descend(mem, g.Root(), va, 2);
      if l.Some? && Allowed(l.value, access, g) {
        LeafIsBacked(mem, g, va, access, l.value);
        HitIsFresh(Updated(mem, l.value, access), g, va2, access, PageOf(l.value.pte), l.value.trail);
      }
    }
  }

  /** The frames of RAM and the first bytes of the UART are not cut: nearby bytes of a page have the same kind of answer. */
  lemma NearReach(t: Translation, t2: Translation, d: nat)
    requires t.mem == t2.mem && t.pa.Some? && t2.pa == Some(t.pa.value + d)
    requires t.pa.value % 4096 + d < 4096 && (t.pa.value % 4096 + d < 8 || 8 <= t.pa.value % 4096)
    ensures match Reach(t, 1) case Fault => Reach(t2, 1) == Fault case Ram(at) => Reach(t2, 1) == Ram(at + d) case FromDevice => Reach(t2, 1) == FromDevice
  {
    var p, o := t.pa.value / 4096, t.pa.value % 4096;
    assert t.pa.value == 4096 * p + o;
  }

  /** Byte loads that stay in one page are one translation: its memory, and that many bytes from where it leads. */
  lemma {:induction false} GatherPage(mem: seq<u8>, g: Regime, va: u64, access: nat, i: nat, m: nat)
    requires |mem| == RAM_SIZE && Gather(mem, g, va, access, i).ok && 0 < m && i + m <= 8
    requires At(va, i) % 4096 + m <= 4096 && (At(va, i) % 4096 + m <= 8 || 8 <= At(va, i) % 4096)
    ensures var r, s := Gather(mem, g, va, access, i), Gather(mem, g, va, access, i + m);
            var t := Translate(r.mem, g, At(va, i), access);
            match Reach(t, 1)
            case Fault => !s.ok
            case Ram(at) => at + m <= RAM_SIZE && s == Gathered(t.mem, true, r.known, r.bytes + t.mem[at..at + m])
            case FromDevice => s.ok && !s.known && s.mem == t.mem
    decreases m
  {
    hide Translate, Reach, At, Gather;
    var r, p := Gather(mem, g, va, access, i), Gather(mem, g, va, access, i + m - 1);
    var t := Translate(r.mem, g, At(va, i), access);
    GatherFails(mem, g, va, access, i + m - 1, i + m);
    if m > 1 {
      GatherPage(mem, g, va, access, i, m - 1);
      NextInPage(va, i, m - 1);
      if Reach(t, 1) != Fault {
        ReachAgain(r.mem, g, At(va, i), m - 1, access);
      }
    }
    if p.ok {
      GatherNext(mem, g, va, access, i + m - 1);
      ReachInRam(t);
      if Reach(t, 1).Ram? {
        OneMore(r.bytes, t.mem, Reach(t, 1).at, m);
      }
    }
  }

  lemma OneMore(b: seq<u8>, mem: seq<u8>, at: nat, m: nat)
    requires 0 < m && at + m <= |mem|
    ensures b + mem[at..at + m] == (b + mem[at..at + m - 1]) + [mem[at + m - 1]]
    ensures b + mem[at..at] == b
  {
  }

  lemma GatherNext(mem: seq<u8>, g: Regime, va: u64, access: nat, n: nat)
    requires |mem| == RAM_SIZE && Gather(mem, g, va, access, n).ok
    ensures var p, s := Gather(mem, g, va, access, n), Gather(mem, g, va, access, n + 1);
            var t := Translate(p.mem, g, At(va, n), access);
            match Reach(t, 1)
            case Fault => !s.ok && s.mem == t.mem
            case Ram(at) => at < RAM_SIZE && s == Gathered(t.mem, true, p.known, p.bytes + [t.mem[at]])
            case FromDevice => s.ok && !s.known && s.mem == t.mem
  {
    hide Translate, At;
  }

  /** A byte further on in the page, translated again. */
  lemma ReachAgain(mem: seq<u8>, g: Regime, va: u64, d: nat, access: nat)
    requires |mem| == RAM_SIZE && va % 4096 + d < 4096 && (va % 4096 + d < 8 || 8 <= va % 4096)
    requires va + d < TWO_64 && (va + d) / 4096 == va / 4096
    requires Reach(Translate(mem, g, va, access), 1) != Fault
    ensures var t := Translate(mem, g, va, access);
            var t2 := Translate(t.mem, g, va + d, access);
            && t2.mem == t.mem
            && Reach(t2, 1) == (if Reach(t, 1).Ram? then Ram(Reach(t, 1).at + d) else FromDevice)
            && (Reach(t2, 1).Ram? ==> Reach(t2, 1).at < RAM_SIZE)
  {
    hide Translate, Reach;
    SamePageAgain(mem, g, va, va + d, access);
    var t := Translate(mem, g, va, access);
    var t2 := Translate(t.mem, g, va + d, access);
    ReachInRam(t);
    NearReach(t, t2, d);
    ReachInRam(t2);
  }

  lemma ReachInRam(t: Translation)
    ensures Reach(t, 1).Ram? ==> Reach(t, 1).at < RAM_SIZE
    ensures Reach(t, 1) != Fault ==> t.pa.Some?
  {
  }

  lemma NextInPage(va: u64, i: nat, d: nat)
    requires At(va, i) % 4096 + d < 4096
    ensures At(va, i + d) == At(va, i) + d && At(va, i + d) / 4096 == At(va, i) / 4096
  {
    var b := At(va, i);
    assert b == 4096 * (b / 4096) + b % 4096;
    assert b + d < TWO_64;
    assert (va + i) == TWO_64 * ((va + i) / TWO_64) + b;
  }

  /** The first address of the next virtual page, around the end of the address space. */
  function NextPage(va: u64): u64 { At(va, 4096 - va % 4096) }

  /** Whether a bare access to one byte is answered. */
  predicate Answers(mem: seq<u8>, g: Regime, va: u64, access: nat)
    requires |mem| == RAM_SIZE
  {
    Reach(Translate(mem, g, va, access), 1) != Fault
  }

  /** A load across a page boundary succeeds exactly if both pages answer, and then has the end of the one frame and
      the start of the other. */
  lemma AcrossPages(mem: seq<u8>, g: Regime, va: u64, size: nat, access: nat)
    requires |mem| == RAM_SIZE && size <= 8 && va % 4096 + size > 4096
    ensures var t := Translate(mem, g, va, access);
            LoadOk(mem, g, va, size, access) <==> Answers(mem, g, va, access) && Answers(t.mem, g, NextPage(va), access)
    ensures var t, n := Translate(mem, g, va, access), 4096 - va % 4096;
            var t2, r := Translate(t.mem, g, NextPage(va), access), Gather(mem, g, va, access, size);
            Reach(t, 1).Ram? && Reach(t2, 1).Ram? ==>
              var at, at2 := Reach(t, 1).at, Reach(t2, 1).at;
              && at + n <= RAM_SIZE && at2 + size - n <= RAM_SIZE
              && r == Gathered(t2.mem, true, true, t.mem[at..at + n] + t2.mem[at2..at2 + size - n])
  {
    hide Translate, Reach, At, Gather, NextPage;
    var n := 4096 - va % 4096;
    NextPageStarts(va);
    GatherNone(mem, g, va, access);
    GatherPage(mem, g, va, access, 0, n);
    GatherFails(mem, g, va, access, n, size);
    if Answers(mem, g, va, access) {
      GatherPage(mem, g, va, access, n, size - n);
    }
  }

  lemma GatherNone(mem: seq<u8>, g: Regime, va: u64, access: nat)
    requires |mem| == RAM_SIZE
    ensures Gather(mem, g, va, access, 0) == Gathered(mem, true, true, [])
  {
  }

  lemma NextPageStarts(va: u64)
    ensures At(va, 0) == va && NextPage(va) == At(va, 4096 - va % 4096) && NextPage(va) % 4096 == 0
  {
    assert va + (4096 - va % 4096) == 4096 * (va / 4096 + 1);
  }

  /** What answers at a physical address, in numbers: 128 MiB of RAM from 2 GiB up, the UART's bytes, the words of the
      network device. */
  lemma MemoryMap(t: Translation, size: nat)
    ensures Reach(t, size) != Fault <==>
              t.pa.Some? && var a := t.pa.value;
              || (0x8000_0000 <= a && a + size <= 0x8800_0000)
              || (0x1000_0000 <= a <= 0x1000_0007 && size == 1)
              || (0x1000_0100 <= a <= 0x1000_011f && size == 4)
    ensures Reach(t, size).Ram? <==> t.pa.Some? && 0x8000_0000 <= t.pa.value && t.pa.value + size <= 0x8800_0000
    ensures Reach(t, size).Ram? ==> Reach(t, size).at == t.pa.value - 0x8000_0000
  {
  }

  // ---------------------------------------------------------------- stores over the end of a page

  /** Byte `i` of the little-endian form. */
  lemma {:induction false} ByteOf(v: nat, n: nat, i: nat)
    requires i < n
    ensures ToLE(Shifted(v, i), 1) == [ToLE(v, n)[i]]
  {
    if i > 0 {
      ByteOf(v / 256, n - 1, i - 1);
    } else {
      assert ToLE(v, 1) == [v % 256] + [];
    }
  }

  /** A page that a store goes to: backed, and led to by no word in the two ranges that are written. */
  ghost predicate Target(mem: seq<u8>, g: Regime, va: u64, page: u64, trail: seq<u64>, lo: nat, n: nat, lo2: nat, n2: nat)
    requires |mem| == RAM_SIZE
  {
    Backed(mem, g, va / 4096, STORE, page, trail) && !Touches(trail, lo, n) && !Touches(trail, lo2, n2)
  }

  /** The first `i` bytes of a store over the end of a page are in the two frames. */
  function Spread(mem: seq<u8>, a: nat, n: nat, b: nat, bytes: seq<u8>, i: nat): (m: seq<u8>)
    requires |mem| == RAM_SIZE && n <= |bytes| && i <= |bytes| && a + n <= RAM_SIZE && b + |bytes| - n <= RAM_SIZE
    ensures |m| == RAM_SIZE
  {
    if i <= n then Written(mem, a, bytes[..i]) else Written(Written(mem, a, bytes[..n]), b, bytes[n..i])
  }

  lemma SpreadNone(mem: seq<u8>, a: nat, n: nat, b: nat, bytes: seq<u8>)
    requires |mem| == RAM_SIZE && n <= |bytes| && a + n <= RAM_SIZE && b + |bytes| - n <= RAM_SIZE
    ensures Spread(mem, a, n, b, bytes, 0) == mem
  {
    assert Written(mem, a, bytes[..0]) == mem;
  }

  lemma SpreadStep(mem: seq<u8>, a: nat, n: nat, b: nat, bytes: seq<u8>, i: nat)
    requires |mem| == RAM_SIZE && n <= |bytes| && i < |bytes| && a + n <= RAM_SIZE && b + |bytes| - n <= RAM_SIZE
    ensures Spread(mem, a, n, b, bytes, i + 1)
         == Written(Spread(mem, a, n, b, bytes, i), if i < n then a + i else b + i - n, [bytes[i]])
    ensures forall p :: 0 <= p < RAM_SIZE && !(a <= p < a + n) && !(b <= p < b + |bytes| - n) ==>
              Spread(mem, a, n, b, bytes, i)[p] == mem[p]
  {
    var m := Spread(mem, a, n, b, bytes, i);
    var at := if i < n then a + i else b + i - n;
    var w, u := Written(m, at, [bytes[i]]), Spread(mem, a, n, b, bytes, i + 1);
    forall p | 0 <= p < RAM_SIZE ensures w[p] == u[p] {
    }
  }

  /** What was backed before stays backed while only these two ranges are written. */
  lemma TargetStays(mem: seq<u8>, mem2: seq<u8>, mem3: seq<u8>, g: Regime, va: u64, page: u64, trail: seq<u64>, lo: nat, n: nat, lo2: nat, n2: nat)
    requires |mem| == RAM_SIZE == |mem2| && |mem3| == RAM_SIZE && Target(mem, g, va, page, trail, lo, n, lo2, n2)
    requires page <= TWO_64 - 4096
    requires forall p :: 0 <= p < RAM_SIZE && !(lo <= RAM_BASE + p < lo + n) ==> mem2[p] == mem[p]
    requires forall p :: 0 <= p < RAM_SIZE && !(lo2 <= RAM_BASE + p < lo2 + n2) ==> mem3[p] == mem2[p]
    ensures Translate(mem3, g, va, STORE) == Translation(mem3, Some(page + va % 4096))
  {
    hide Backed, Touches, Translate;
    StoreKeepsBacked(mem, mem2, lo, n, g, va / 4096, STORE, page, trail);
    StoreKeepsBacked(mem2, mem3, lo2, n2, g, va / 4096, STORE, page, trail);
    HitIsFresh(mem3, g, va, STORE, page, trail);
  }

  /** The frames of a store over the end of a page, and their backing. */
  ghost predicate Frames(mem: seq<u8>, g: Regime, va: u64, size: nat, page: u64, trail: seq<u64>, page2: u64, trail2: seq<u64>)
    requires |mem| == RAM_SIZE
  {
    && size <= 8 && va % 4096 + size > 4096
    && page % 4096 == 0 == page2 % 4096 && InRam(page, 4096) && InRam(page2, 4096)
    && var n, lo := 4096 - va % 4096, page + va % 4096;
    && Target(mem, g, va, page, trail, lo, n, page2, size - n)
    && Target(mem, g, NextPage(va), page2, trail2, lo, n, page2, size - n)
  }

  /** Memory after its first `i` bytes: those that fit at the end of the one frame, the others at the start of the other. */
  function OverEnd(mem: seq<u8>, va: u64, size: nat, v: nat, page: u64, page2: u64, i: nat): (m: seq<u8>)
    requires |mem| == RAM_SIZE && i <= size <= 8 && va % 4096 + size > 4096
    requires page % 4096 == 0 == page2 % 4096 && InRam(page, 4096) && InRam(page2, 4096)
    ensures |m| == RAM_SIZE
  {
    Spread(mem, page + va % 4096 - RAM_BASE, 4096 - va % 4096, page2 - RAM_BASE, ToLE(v, size), i)
  }

  /** A store over the end of a page puts its low bytes at the end of the one frame and the others at the start of the
      other. */
  lemma {:induction false} StoreOverEnd(mem: seq<u8>, g: Regime, va: u64, size: nat, v: nat, page: u64, trail: seq<u64>,
                                        page2: u64, trail2: seq<u64>, i: nat)
    requires |mem| == RAM_SIZE && i <= size && Frames(mem, g, va, size, page, trail, page2, trail2)
    ensures Scatter(mem, g, va, v, i) == Scattered(OverEnd(mem, va, size, v, page, page2, i), true)
  {
    hide Scatter, OverEnd, StoreOne, Target, At, NextPage, Shifted;
    if i == 0 {
      OverEndNone(mem, va, size, v, page, page2);
      ScatterNone(mem, g, va, v);
    } else {
      StoreOverEnd(mem, g, va, size, v, page, trail, page2, trail2, i - 1);
      ScatterNext(mem, g, va, v, i - 1);
      OneByteMore(mem, g, va, size, v, page, trail, page2, trail2, i - 1);
    }
  }

  lemma OverEndNone(mem: seq<u8>, va: u64, size: nat, v: nat, page: u64, page2: u64)
    requires |mem| == RAM_SIZE && size <= 8 && va % 4096 + size > 4096
    requires page % 4096 == 0 == page2 % 4096 && InRam(page, 4096) && InRam(page2, 4096)
    ensures OverEnd(mem, va, size, v, page, page2, 0) == mem
  {
    hide Spread, ToLE;
    SpreadNone(mem, page + va % 4096 - RAM_BASE, 4096 - va % 4096, page2 - RAM_BASE, ToLE(v, size));
  }

  lemma ScatterNone(mem: seq<u8>, g: Regime, va: u64, v: nat)
    requires |mem| == RAM_SIZE
    ensures Scatter(mem, g, va, v, 0) == Scattered(mem, true)
  {
  }

  lemma OneByteMore(mem: seq<u8>, g: Regime, va: u64, size: nat, v: nat, page: u64, trail: seq<u64>, page2: u64, trail2: seq<u64>, i: nat)
    requires |mem| == RAM_SIZE && i < size && Frames(mem, g, va, size, page, trail, page2, trail2)
    ensures StoreOne(OverEnd(mem, va, size, v, page, page2, i), g, At(va, i), 1, Shifted(v, i))
         == Scattered(OverEnd(mem, va, size, v, page, page2, i + 1), true)
  {
    hide Translate, ToLE, Target, Spread, StoreOne, NextPage, At, Shifted, Written;
    var n, a, b, bytes := 4096 - va % 4096, page + va % 4096 - RAM_BASE, page2 - RAM_BASE, ToLE(v, size);
    var m := Spread(mem, a, n, b, bytes, i);
    ByteOf(v, size, i);
    SpreadStep(mem, a, n, b, bytes, i);
    ByteGoesTo(mem, m, g, va, size, page, trail, page2, trail2, i);
    StoreOneTo(m, g, At(va, i), if i < n then page + va % 4096 + i else page2 + i - n, Shifted(v, i));
  }

  lemma StoreOneTo(mem: seq<u8>, g: Regime, va: u64, at: u64, v: nat)
    requires |mem| == RAM_SIZE && Translate(mem, g, va, STORE) == Translation(mem, Some(at)) && InRam(at, 1)
    ensures StoreOne(mem, g, va, 1, v) == Scattered(Written(mem, at - RAM_BASE, ToLE(v, 1)), true)
  {
    hide Translate, ToLE, Written;
  }

  lemma ScatterNext(mem: seq<u8>, g: Regime, va: u64, v: nat, i: nat)
    requires |mem| == RAM_SIZE && Scatter(mem, g, va, v, i).ok
    ensures Scatter(mem, g, va, v, i + 1) == StoreOne(Scatter(mem, g, va, v, i).mem, g, At(va, i), 1, Shifted(v, i))
  {
    hide StoreOne;
  }

  /** Where byte `i` of it goes. */
  lemma ByteGoesTo(mem: seq<u8>, m: seq<u8>, g: Regime, va: u64, size: nat, page: u64, trail: seq<u64>, page2: u64, trail2: seq<u64>, i: nat)
    requires |mem| == RAM_SIZE == |m| && i < size && Frames(mem, g, va, size, page, trail, page2, trail2)
    requires var n, lo := 4096 - va % 4096, page + va % 4096;
             forall p :: 0 <= p < RAM_SIZE && !(lo <= RAM_BASE + p < lo + n) && !(page2 <= RAM_BASE + p < page2 + size - n) ==> m[p] == mem[p]
    ensures var n := 4096 - va % 4096;
            var at := if i < n then page + va % 4096 + i else page2 + i - n;
            Translate(m, g, At(va, i), STORE) == Translation(m, Some(at))
  {
    hide Translate, Backed, Touches;
    var n, lo := 4096 - va % 4096, page + va % 4096;
    var b := At(va, i);
    BytesApart(va, i);
    var mid := Mixed(mem, m, lo - RAM_BASE, n);
    if i < n {
      TargetStays(mem, mid, m, g, b, page, trail, lo, n, page2, size - n);
    } else {
      TargetStays(mem, mid, m, g, b, page2, trail2, lo, n, page2, size - n);
    }
  }

  /** `m` in [a, a + n) and `mem` elsewhere. */
  function Mixed(mem: seq<u8>, m: seq<u8>, a: nat, n: nat): (r: seq<u8>)
    requires |mem| == |m| && a + n <= |mem|
    ensures |r| == |mem| && forall p :: 0 <= p < |mem| ==> r[p] == if a <= p < a + n then m[p] else mem[p]
  {
    mem[..a] + m[a..a + n] + mem[a + n..]
  }

  lemma BytesApart(va: u64, i: nat)
    requires i < 8
    ensures var n, b := 4096 - va % 4096, At(va, i);
            if i < n then b / 4096 == va / 4096 && b % 4096 == va % 4096 + i
            else b / 4096 == NextPage(va) / 4096 && b % 4096 == i - n
  {
    hide At;
    var n := 4096 - va % 4096;
    AtWraps(va, i);
    AtWraps(va, n);
    NextPageStarts(va);
    assert va == 4096 * (va / 4096) + va % 4096;
    if i < n {
      assert va + i == 4096 * (va / 4096) + (va % 4096 + i);
    } else {
      var next := NextPage(va);
      assert next == 4096 * (next / 4096);
      assert At(va, i) == next + (i - n) by { assert va + n == 4096 * (va / 4096 + 1); }
    }
  }

  /** With the page of `here` backed at a frame in RAM, a bare fetch over its end succeeds exactly if the next virtual
      page answers; its word is the one read on in the frame exactly if the next page begins like the next frame. */
  lemma FetchOverEnd(mem: seq<u8>, g: Regime, here: u64, page: u64, trail: seq<u64>)
    requires |mem| == RAM_SIZE && here % 4096 > 4092
    requires Backed(mem, g, here / 4096, FETCH, page, trail) && page % 4096 == 0 && InRam(page, 4096)
    ensures LoadOk(mem, g, here, 4, FETCH) <==> Answers(mem, g, NextPage(here), FETCH)
    ensures SpansAlike(mem, g, here, page + here % 4096 - RAM_BASE)
  {
    hide Translate, Backed, Gather;
    HitIsFresh(mem, g, here, FETCH, page, trail);
    AcrossPages(mem, g, here, 4, FETCH);
    var n, off, t := 4096 - here % 4096, page + here % 4096 - RAM_BASE, Translate(mem, g, NextPage(here), FETCH);
    if off + 4 <= RAM_SIZE && Reach(t, 1).Ram? {
      var at := Reach(t, 1).at;
      var walked, read := mem[off..off + n] + t.mem[at..at + 4 - n], mem[off..off + 4];
      assert read == mem[off..off + n] + mem[off + n..off + 4];
      if FromLE(walked) == FromLE(read) {
        FromLEInjective(walked, read);
        assert walked[n..] == read[n..];
      }
    }
  }

  /** The word of a bare fetch over the end of a page is the one at `off` in RAM if and only if the next page begins with
      the bytes that follow the frame. */
  ghost predicate SpansAlike(mem: seq<u8>, g: Regime, here: u64, off: nat)
    requires |mem| == RAM_SIZE && here % 4096 > 4092
  {
    var n, r, t := 4096 - here % 4096, Gather(mem, g, here, FETCH, 4), Translate(mem, g, NextPage(here), FETCH);
    off + 4 <= RAM_SIZE && Reach(t, 1).Ram? ==>
      var at := Reach(t, 1).at;
      && at + 4 - n <= RAM_SIZE && r.ok && r.known
      && (FromLE(r.bytes) == FromLE(mem[off..off + 4]) <==> t.mem[at..at + 4 - n] == mem[off + n..off + 4])
  }

  lemma EmptyLE()
    ensures FromLE([]) == 0
  {
  }

  lemma ByteAdded(bytes: seq<u8>, mem: seq<u8>, o: Outcome)
    ensures o.Ram? && o.at < |mem| ==> FromLE(bytes + [mem[o.at]]) == FromLE(bytes) + FromLE([mem[o.at]]) * Pow256(|bytes|)
  {
    if o.Ram? && o.at < |mem| {
      FromLESnoc(bytes, mem[o.at]);
      assert [mem[o.at]][1..] == [];
    }
  }

  /** What a load answers with no cache: memory afterwards, success, and the value if RAM gave it. */
  ghost predicate LoadSpec(mem: seq<u8>, g: Regime, va: u64, size: nat, access: nat, mem2: seq<u8>, ok: bool, v: nat)
    requires |mem| == RAM_SIZE
  {
    if va % 4096 + size > 4096 then
      var r := Gather(mem, g, va, access, size);
      mem2 == r.mem && ok == r.ok && (ok && r.known ==> v == FromLE(r.bytes))
    else
      var t := Translate(mem, g, va, access);
      mem2 == t.mem
      && match Reach(t, size)
         case Fault => !ok
         case Ram(at) => ok && v == FromLE(t.mem[at..at + size])
         case FromDevice => ok
  }

  /** Whether a load succeeds with no cache. */
  function LoadOk(mem: seq<u8>, g: Regime, va: u64, size: nat, access: nat): bool
    requires |mem| == RAM_SIZE
  {
    if va % 4096 + size > 4096 then Gather(mem, g, va, access, size).ok else Reach(Translate(mem, g, va, access), size) != Fault
  }

  lemma LoadSpecOk(mem: seq<u8>, g: Regime, va: u64, size: nat, access: nat, mem2: seq<u8>, ok: bool, v: nat)
    requires |mem| == RAM_SIZE && LoadSpec(mem, g, va, size, access, mem2, ok, v)
    ensures ok == LoadOk(mem, g, va, size, access)
  {
  }

  /** A descent continued below entries already read. */
  ghost function Below(words: seq<u64>, l: Option<Leaf>): Option<Leaf> {
    if l.None? then None else Some(l.value.(trail := words + l.value.trail))
  }

  lemma ReadWordIs(mem: seq<u8>, a: u64)
    requires |mem| == RAM_SIZE && InRam(a, 8)
    ensures ReadWord(mem, a) == FromLE(mem[a - RAM_BASE..a - RAM_BASE + 8])
  {
  }

  lemma AllowedAnyTrail(l: Leaf, words: seq<u64>, access: nat, g: Regime)
    ensures Allowed(l, access, g) == Allowed(l.(trail := words), access, g)
  {
  }

  /** One turn of the walk. */
  lemma DescendStep(mem: seq<u8>, table: u64, va: u64, level: nat, words: seq<u64>)
    requires |mem| == RAM_SIZE && level < 3 && table % 4096 == 0
    ensures var d := Below(words, Descend(mem, table, va, level));
            var a := PteAddr(table, va, level);
            if !InRam(a, 8) || !V(ReadWord(mem, a)) then d == None
            else if IsLeaf(ReadWord(mem, a)) then d == Some(Leaf(a, ReadWord(mem, a), level, words + [a]))
            else if level == 0 then d == None
            else d == Below(words + [a], Descend(mem, PageOf(ReadWord(mem, a)), va, level - 1))
  {
    hide PteAddr, ReadWord, V, IsLeaf, PageOf;
    var a := PteAddr(table, va, level);
    if InRam(a, 8) && level > 0 {
      var d := Descend(mem, PageOf(ReadWord(mem, a)), va, level - 1);
      if d.Some? {
        assert words + ([a] + d.value.trail) == (words + [a]) + d.value.trail;
      }
    }
  }

  /** A tag and a slot together give back the page, the mode and the kind of access. */
  lemma TagDecodes(va: u64, access: nat, g: Regime)
    requires g.privilege < 2 && access < 3
    ensures var tag, slot := TagOf(va, g), SlotOf(va, access);
            && 0 < tag < TWO_64 && (tag - 1) / 4 == va / 4096 && (tag - 1) % 4 == ModeBits(g)
            && slot < 768 && slot / 256 == access && slot % 256 == va / 4096 % 256
  {
  }

  function Add64(a: u64, b: u64): u64 { (a + b) % TWO_64 }

  function Sub64(a: u64, b: u64): u64 { (a - b) % TWO_64 }

  lemma OffsetInRam(at: u64)
    requires InRam(at, 4)
    ensures Sub64(at, RAM_BASE) % TWO_32 == at - RAM_BASE
  {
  }

  lemma DeltaAdds(a: u64, b: u64)
    ensures Add64(a, Sub64(b, a)) == b
  {
    if b < a {
      assert Sub64(b, a) == b - a + TWO_64;
    }
  }

  lemma OffsetCarries(page: u64, delta: u64, off: nat)
    requires Add64(page, delta) < TWO_64 - off && page + off < TWO_64
    ensures Add64(page + off, delta) == Add64(page, delta) + off
  {
    if page + delta >= TWO_64 {
      assert Add64(page, delta) == page + delta - TWO_64;
    }
  }

  /** The status a trap leaves: where it came from and whether interrupts were on are put away, interrupts are off. */
  function TrapStatus(status: bv64, supervisor: bool): bv64 {
    var s := if supervisor then status | STATUS_SPP else status & !STATUS_SPP;
    var t := if Bit(s, STATUS_SIE) then s | STATUS_SPIE else s & !STATUS_SPIE;
    t & !STATUS_SIE
  }

  function SretStatus(status: bv64): bv64 {
    var s := if Bit(status, STATUS_SPIE) then status | STATUS_SIE else status & !STATUS_SIE;
    (s | STATUS_SPIE) & !STATUS_SPP
  }

  /** A trap records the mode it interrupted, turns interrupts off and leaves SUM alone. */
  lemma TrapRecords(status: bv64, supervisor: bool)
    ensures var t := TrapStatus(status, supervisor);
            Bit(t, STATUS_SPP) == supervisor && !Bit(t, STATUS_SIE)
  {
  }

  /** Bit by bit: a trap moves bit 1 to bit 5, clears it and records the mode in bit 8; every other bit stays. */
  lemma TrapBits(status: bv64, supervisor: bool)
    ensures TrapStatus(status, supervisor) & 0x20 != 0 <==> status & 0x2 != 0
    ensures TrapStatus(status, supervisor) & 0x2 == 0
    ensures TrapStatus(status, supervisor) & 0x100 != 0 <==> supervisor
    ensures TrapStatus(status, supervisor) & !0x122 == status & !0x122
  {
  }

  /** sret moves bit 5 to bit 1, sets it and clears bit 8; every other bit stays. */
  lemma SretBits(status: bv64)
    ensures SretStatus(status) & 0x2 != 0 <==> status & 0x20 != 0
    ensures SretStatus(status) & 0x20 != 0 && SretStatus(status) & 0x100 == 0
    ensures SretStatus(status) & !0x122 == status & !0x122
  {
  }

  lemma TrapKeepsSum(status: bv64, supervisor: bool)
    ensures Bit(TrapStatus(status, supervisor), STATUS_SUM) == Bit(status, STATUS_SUM)
  {
  }

  /** Returning from a trap brings back the interrupt enable and every bit the two do not use between them. */
  lemma TrapThenSret(status: bv64, supervisor: bool)
    ensures SretStatus(TrapStatus(status, supervisor)) & !(STATUS_SPP | STATUS_SPIE) == status & !(STATUS_SPP | STATUS_SPIE)
  {
  }

  /** Such a word is read right if the next virtual page is the next frame and its entry has its accessed bit set. */
  lemma NextFrameFollows(mem: seq<u8>, g: Regime, here: u64, page: u64, trail: seq<u64>)
    requires |mem| == RAM_SIZE && here % 4096 > 4092
    requires Backed(mem, g, here / 4096, FETCH, page, trail) && page % 4096 == 0 && InRam(page, 8192)
    requires Translate(mem, g, NextPage(here), FETCH) == Translation(mem, Some(page + 4096))
    ensures var r := Gather(mem, g, here, FETCH, 4);
            r.ok && r.known && FromLE(r.bytes) == FromLE(mem[page + here % 4096 - RAM_BASE..][..4])
  {
    hide Translate, Backed, Gather, FromLE;
    var off := page + here % 4096 - RAM_BASE;
    FetchOverEnd(mem, g, here, page, trail);
    assert mem[off..][..4] == mem[off..off + 4];
  }

  /** With nothing cached the page test of the fetch cache passes exactly for the top page of the address space. */
  lemma EmptyCacheMatchesTopPage(here: u64)
    ensures here / 4096 == EMPTY / 4096 <==> here >= 0xffff_ffff_ffff_f000
  {
  }

  /** Sv39 maps the top page to something that answers and, for a word over its end, page 0 too. */
  predicate TopPageAnswers(mem: seq<u8>, g: Regime, here: u64)
    requires |mem| == RAM_SIZE
  {
    && g.Mode() == 8
    && var l := Descend(mem, g.Root(), here, 2);
    && l.Some? && Allowed(l.value, FETCH, g)
    && var pa := PhysOf(l.value.pte, here);
    if here % 4096 <= 4092 then InRam(pa, 4) || Device(pa, 4)
    else InRam(pa, 1) && Answers(Updated(mem, l.value, FETCH), g, 0, FETCH)
  }

  lemma TopPageEnds(here: u64)
    requires here >= 0xffff_ffff_ffff_f000
    ensures NextPage(here) == 0
  {
  }

  /** At the end of a page no device answers bytes. */
  lemma TopPageReach(t: Translation, here: u64)
    requires here % 4096 > 4092 && (t.pa.Some? ==> t.pa.value % 4096 == here % 4096)
    ensures Reach(t, 1) != Fault <==> t.pa.Some? && InRam(t.pa.value, 1)
  {
  }

  /** In the top page a bare fetch succeeds exactly if that is so: then a hit on the empty cache reads some other word,
      and otherwise it reads on where the walk faults. */
  lemma TopPageFaults(mem: seq<u8>, g: Regime, here: u64)
    requires |mem| == RAM_SIZE && here >= 0xffff_ffff_ffff_f000
    ensures LoadOk(mem, g, here, 4, FETCH) <==> TopPageAnswers(mem, g, here)
  {
    hide Descend, Allowed, Gather, At, PageOf, WithAD;
    if here % 4096 > 4092 {
      AcrossPages(mem, g, here, 4, FETCH);
      assert NextPage(here) == 0 by { TopPageEnds(here); }
      TopPageReach(Translate(mem, g, here, FETCH), here);
    }
  }

  lemma PageStart(va: u64, page: u64)
    ensures va / 4096 * 4096 < TWO_64 && va / 4096 * 4096 % 4096 == 0 && va / 4096 * 4096 / 4096 == va / 4096
    ensures page % 4096 == 0 && RAM_BASE <= page < RAM_BASE + RAM_SIZE ==> InRam(page, 4096)
  {
    assert page == 4096 * (page / 4096) + page % 4096;
  }

  class Machine {
    const ram: array<u8>
    const tlbTag: array<u64>
    const tlbPage: array<u64>
    const csr: array<u64>
    var sstatus: bv64              // csr[SSTATUS], kept as bits
    var privilege: nat
    var pc: u64
    var fetchVpage: u64
    var fetchDelta: u64
    var fault: nat
    var faultAddr: u64
    ghost var trail: seq<seq<u64>>     // per TLB slot: the page-table words its walk read
    ghost var stale: set<nat>          // slots for which a guest store has hit one of those words since
    ghost var fetchTrail: seq<u64>
    ghost var fetchStale: bool

    ghost predicate Shape()
      reads this`sstatus, this`privilege, this`trail, tlbPage
    {
      && ram.Length == RAM_SIZE && tlbTag.Length == 768 && tlbPage.Length == 768 && csr.Length == 4096
      && tlbTag != tlbPage && tlbTag != csr && tlbPage != csr
      && |trail| == 768 && privilege < 2 && forall i :: 0 <= i < 768 ==> tlbPage[i] % 4096 == 0
    }

    function G(): Regime
      requires csr.Length == 4096
      reads this`sstatus, this`privilege, csr
    {
      Regime(csr[SATP], privilege, Bit(sstatus, STATUS_SUM))
    }

    /** A live entry was filled in the current regime and, unless gone stale, is backed by a fresh walk. */
    ghost predicate LineOk(i: nat)
      requires Shape() && i < 768
      reads this`sstatus, this`privilege, this`trail, this`stale, ram, tlbTag, tlbPage, csr
    {
      tlbTag[i] != 0 ==>
        && G().Mode() == 8
        && (tlbTag[i] - 1) % 4 == ModeBits(G())
        && (tlbTag[i] - 1) / 4 % 256 == i % 256
        && (i !in stale ==> Backed(ram[..], G(), (tlbTag[i] - 1) / 4, i / 256, tlbPage[i], trail[i]))
    }

    /** The cached fetch page lies in RAM and, unless gone stale, is backed by a fresh walk for fetches. */
    ghost predicate FetchOk()
      requires Shape()
      reads this`sstatus, this`privilege, this`trail, this`fetchVpage, this`fetchDelta, this`fetchTrail, this`fetchStale, ram, tlbPage, csr
    {
      fetchVpage != EMPTY ==>
        && G().Mode() == 8 && fetchVpage % 4096 == 0
        && var page := Add64(fetchVpage, fetchDelta);
        && page % 4096 == 0 && InRam(page, 4096)
        && (!fetchStale ==> Backed(ram[..], G(), fetchVpage / 4096, FETCH, page, fetchTrail))
    }

    ghost predicate Valid()
      reads this`sstatus, this`privilege, this`trail, this`stale, this`fetchVpage, this`fetchDelta, this`fetchTrail, this`fetchStale, ram, tlbTag, tlbPage, csr
    {
      Shape() && (forall i :: 0 <= i < 768 ==> LineOk(i)) && FetchOk()
    }

    /** No stale TLB entry answers for this address. */
    ghost predicate Trusted(va: u64, access: nat)
      requires Shape() && access < 3
      reads this`sstatus, this`privilege, this`trail, this`stale, tlbTag, tlbPage, csr
    {
      tlbTag[SlotOf(va, access)] == TagOf(va, G()) ==> SlotOf(va, access) !in stale
    }

    /** The TLB answers for this address. */
    predicate Cached(va: u64, access: nat)
      requires tlbTag.Length == 768 && csr.Length == 4096 && access < 3
      reads this`sstatus, this`privilege, tlbTag, csr
    {
      tlbTag[SlotOf(va, access)] == TagOf(va, G())
    }

    constructor ()
      ensures Valid() && fresh(ram) && fresh(tlbTag) && fresh(tlbPage) && fresh(csr)
      ensures ram[..] == seq(RAM_SIZE, _ => 0) && csr[..] == seq(4096, _ => 0) && tlbTag[..] == seq(768, _ => 0)
      ensures sstatus == 0 && privilege == 0 && pc == 0 && fetchVpage == EMPTY
    {
      ram := new u8[RAM_SIZE](_ => 0);
      tlbTag := new u64[768](_ => 0);
      tlbPage := new u64[768](_ => 0);
      csr := new u64[4096](_ => 0);
      sstatus, privilege, pc, fetchVpage, fetchDelta, fault, faultAddr := 0, 0, 0, EMPTY, 0, 0, 0;
      trail, stale, fetchTrail, fetchStale := seq(768, _ => []), {}, [], false;
    }

    /** Empties both caches; whatever changed the regime before, the machine is consistent again. */
    method FlushTlb()
      requires Shape()
      modifies tlbTag, this`fetchVpage
      ensures Valid() && fetchVpage == EMPTY && forall i :: 0 <= i < 768 ==> tlbTag[i] == 0
    {
      var i := 0;
      while i < 768
        invariant 0 <= i <= 768 && forall k :: 0 <= k < i ==> tlbTag[k] == 0
      {
        tlbTag[i] := 0;
        i := i + 1;
      }
      fetchVpage := EMPTY;
    }

    method ReadRam(off: nat, n: nat) returns (v: nat)
      requires off + n <= ram.Length
      ensures v == FromLE(ram[off..off + n])
    {
      v := 0;
      var i := n;
      while i > 0
        invariant 0 <= i <= n && v == FromLE(ram[off + i..off + n])
      {
        i := i - 1;
        assert ram[off + i..off + n] == [ram[off + i]] + ram[off + i + 1..off + n];
        v := ram[off + i] + 256 * v;
      }
    }

    method WriteRam(off: nat, n: nat, v: nat)
      requires off + n <= ram.Length
      modifies ram
      ensures ram[..] == Written(old(ram[..]), off, ToLE(v, n))
    {
      var rest := v;
      var i := 0;
      ghost var was := ram[..];
      while i < n
        invariant 0 <= i <= n
        invariant ToLE(v, n)[i..] == ToLE(rest, n - i)
        invariant forall p :: 0 <= p < ram.Length ==> ram[p] == if off <= p < off + i then ToLE(v, n)[p - off] else was[p]
      {
        assert ToLE(v, n)[i] == ToLE(v, n)[i..][0] == rest % 256;
        assert ToLE(v, n)[i + 1..] == ToLE(v, n)[i..][1..] == ToLE(rest / 256, n - i - 1);
        ram[off + i] := rest % 256;
        rest := rest / 256;
        i := i + 1;
      }
    }

    /** The three-level walk as a loop from the root down. */
    method WalkTable(va: u64) returns (found: bool, pteAddr: u64, pte: u64, level: nat, ghost words: seq<u64>)
      requires Shape() && G().Mode() == 8
      ensures var l := Descend(ram[..], G().Root(), va, 2);
              found == l.Some?
              && (found ==> pteAddr == l.value.addr && pte == l.value.pte && level == l.value.level && words == l.value.trail)
    {
      hide ReadWord, PageOf, V, IsLeaf, Descend, PteAddr, FromLE;
      ghost var mem := ram[..];
      ghost var whole := Descend(mem, G().Root(), va, 2);
      var table := G().Root();
      found, pteAddr, pte, words, level := false, 0, 0, [], 3;
      assert whole == Below([], whole) by {
        assert whole.Some? ==> [] + whole.value.trail == whole.value.trail;
      }
      while level != 0
        invariant 0 <= level <= 3 && table % 4096 == 0
        invariant whole == if level > 0 then Below(words, Descend(mem, table, va, level - 1)) else None
      {
        level := level - 1;
        DescendStep(mem, table, va, level, words);
        pteAddr := PteAddr(table, va, level);
        if !InRam(pteAddr, 8) {
          return;
        }
        words := words + [pteAddr];
        var v := ReadRam(pteAddr - RAM_BASE, 8);
        assert v == ReadWord(mem, pteAddr) by {
          assert ram[pteAddr - RAM_BASE..pteAddr - RAM_BASE + 8] == mem[pteAddr - RAM_BASE..pteAddr - RAM_BASE + 8];
          ReadWordIs(mem, pteAddr);
        }
        pte := v;
        if !V(pte) {
          return;
        }
        if IsLeaf(pte) {
          found := true;
          return;
        }
        table := PageOf(pte);
      }
    }

    /** Outside mode 8 nothing is cached and no lookup hits: the fast paths need no test of the mode. */
    lemma NoHitWithoutSv39(va: u64, access: nat)
      requires Valid() && G().Mode() != 8 && access < 3
      ensures fetchVpage == EMPTY && forall i :: 0 <= i < 768 ==> tlbTag[i] == 0
      ensures tlbTag[SlotOf(va, access)] != TagOf(va, G())
    {
      TagDecodes(va, access, G());
      assert LineOk(SlotOf(va, access));
      forall i | 0 <= i < 768
        ensures tlbTag[i] == 0
      {
        assert LineOk(i);
      }
    }

    lemma HitAnswers(va: u64, access: nat)
      requires Valid() && access < 3 && tlbTag[SlotOf(va, access)] == TagOf(va, G())
      ensures G().Mode() == 8 && tlbPage[SlotOf(va, access)] + va % 4096 < TWO_64
      ensures SlotOf(va, access) !in stale ==>
                Translate(ram[..], G(), va, access) == Translation(ram[..], Some(tlbPage[SlotOf(va, access)] + va % 4096))
    {
      hide Backed, Translate;
      var slot := SlotOf(va, access);
      assert LineOk(slot);
      if slot !in stale {
        HitIsFresh(ram[..], G(), va, access, tlbPage[slot], trail[slot]);
      }
    }

    /** The walk's update of the entry it ended at keeps every cached page backed. */
    method SetAD(pteAddr: u64, pte: u64, access: nat, ghost l: Leaf)
      requires Valid() && InRam(pteAddr, 8)
      requires l.addr == pteAddr && l.pte == pte && SameButAD(ram[..], Updated(ram[..], l, access))
      modifies ram
      ensures Valid() && ram[..] == Updated(old(ram[..]), l, access)
    {
      hide Backed, SameButAD, WithAD, ToLE;
      ghost var mem, g := ram[..], G();
      var updated := WithAD(pte, access);
      if updated != pte {
        WriteRam(pteAddr - RAM_BASE, 8, updated);
      }
      forall i | 0 <= i < 768 ensures LineOk(i) {
        assert old(LineOk(i));
        if tlbTag[i] != 0 && i !in stale {
          UpdateKeepsBacked(mem, ram[..], g, (tlbTag[i] - 1) / 4, i / 256, tlbPage[i], trail[i]);
        }
      }
      if fetchVpage != EMPTY && !fetchStale {
        UpdateKeepsBacked(mem, ram[..], g, fetchVpage / 4096, FETCH, Add64(fetchVpage, fetchDelta), fetchTrail);
      }
    }

    /** A new TLB entry, made right after the walk that backs it. */
    method Fill(va: u64, access: nat, page: u64, ghost words: seq<u64>)
      requires Valid() && access < 3 && page % 4096 == 0 && G().Mode() == 8
      requires Backed(ram[..], G(), va / 4096, access, page, words)
      modifies this`trail, this`stale, tlbTag, tlbPage
      ensures Valid() && Trusted(va, access)
      ensures tlbTag[SlotOf(va, access)] == TagOf(va, G()) && tlbPage[SlotOf(va, access)] == page
      ensures forall s :: 0 <= s < 768 && s != SlotOf(va, access) ==> tlbTag[s] == old(tlbTag[s]) && (s in stale <==> s in old(stale))
      ensures forall v: u64, a: nat {:trigger Trusted(v, a)} :: a < 3 && old(Trusted(v, a)) ==> Trusted(v, a)
    {
      hide Backed;
      TagDecodes(va, access, G());
      var slot := SlotOf(va, access);
      tlbTag[slot] := TagOf(va, G());
      tlbPage[slot] := page;
      trail := trail[slot := words];
      stale := stale - {slot};
      forall i | 0 <= i < 768 ensures LineOk(i) {
        if i != slot {
          assert old(LineOk(i));
        }
      }
    }

    /** The walk and the cache in front of it.  Whenever no stale entry answers, the outcome - address, fault and
        memory - is that of a translation with no cache at all. */
    method TranslateVa(va: u64, access: nat) returns (ok: bool, pa: u64)
      requires Valid() && access < 3
      modifies this`fault, this`faultAddr, this`trail, this`stale, tlbTag, tlbPage, ram
      ensures Valid()
      ensures old(Trusted(va, access)) ==>
                var t := Translate(old(ram[..]), G(), va, access);
                && ram[..] == t.mem && ok == t.pa.Some? && (ok ==> pa == t.pa.value)
                && Trusted(va, access)
      ensures old(Trusted(va, access)) ==>
                var p := PhysicalAddress(old(ram[..]), G(), va, access); ok == p.Some? && (ok ==> pa == p.value)
      ensures !ok ==> fault == 1 && faultAddr == va
      ensures ok && G().Mode() == 8 ==> Cached(va, access)
      ensures forall v: u64, a: nat {:trigger Trusted(v, a)} :: a < 3 && old(Trusted(v, a)) ==> Trusted(v, a)
      ensures forall s :: 0 <= s < 768 && (s != SlotOf(va, access) || old(tlbTag[s]) == TagOf(va, G())) ==>
                tlbTag[s] == old(tlbTag[s]) && (s in stale <==> s in old(stale))
    {
      hide Descend, Backed, PageOf, ReadWord, Allowed, PhysOf, WithAD, PhysicalAddress;
      pa := 0;
      var g := G();
      ghost var mem := ram[..];
      TranslatesExactly(mem, g, va, access);
      var mode := g.Mode();
      if mode == 0 {
        return true, va;
      }
      if mode != 8 {
        fault, faultAddr := 1, va;
        return false, 0;
      }
      var slot, tag := SlotOf(va, access), TagOf(va, g);
      if tlbTag[slot] == tag {
        HitAnswers(va, access);
        pa := tlbPage[slot] + va % 4096;
        return true, pa;
      }
      var found, pteAddr, pte, level, words := WalkTable(va);
      ghost var l := Leaf(pteAddr, pte, level, words);
      AllowedAnyTrail(l, [], access, g);
      if !found || !Allowed(Leaf(pteAddr, pte, level, []), access, g) {
        fault, faultAddr := 1, va;
        return false, 0;
      }
      LeafIsBacked(mem, g, va, access, l);
      SetAD(pteAddr, pte, access, l);
      pa := PhysOf(pte, va);
      Fill(va, access, pa / 4096 * 4096, words);
      ok := true;
    }

    /** RAM, or a device that may answer anything, or a bus fault. */
    method PhysicalRead(addr: u64, size: nat) returns (ok: bool, v: nat)
      requires Shape() && size > 0
      modifies this`fault, this`faultAddr
      ensures ok == (InRam(addr, size) || Device(addr, size))
      ensures InRam(addr, size) ==> v == FromLE(ram[addr - RAM_BASE..addr - RAM_BASE + size])
      ensures !ok ==> fault == 2 && faultAddr == addr
    {
      v := 0;
      if InRam(addr, size) {
        v := ReadRam(addr - RAM_BASE, size);
        return true, v;
      }
      if Device(addr, size) {
        v := *;
        return true, v;
      }
      fault, faultAddr := 2, addr;
      ok := false;
    }

    /** Every byte an access of `size` at `va` needs is trusted. */
    ghost predicate AllTrusted(va: u64, size: nat, access: nat)
      requires Shape() && access < 3
      reads this`sstatus, this`privilege, this`trail, this`stale, tlbTag, tlbPage, csr
    {
      forall i :: 0 <= i < size ==> Trusted(At(va, i), access)
    }

    /** One byte of a load that crosses a page. */
    method LoadByte(va: u64, access: nat) returns (ok: bool, byte: nat)
      requires Valid() && access < 3
      modifies this`fault, this`faultAddr, this`trail, this`stale, tlbTag, tlbPage, ram
      ensures Valid()
      ensures old(Trusted(va, access)) ==>
                var t := Translate(old(ram[..]), G(), va, access);
                && ram[..] == t.mem && ok == (Reach(t, 1) != Fault)
                && (Reach(t, 1).Ram? ==> byte == FromLE([t.mem[Reach(t, 1).at]]))
      ensures forall v: u64, a: nat {:trigger Trusted(v, a)} :: a < 3 && old(Trusted(v, a)) ==> Trusted(v, a)
    {
      hide Translate, PhysicalAddress, Backed, FromLE, SlotOf, TagOf, LineOk, FetchOk;
      var pa;
      byte := 0;
      ok, pa := TranslateVa(va, access);
      if ok {
        ok, byte := PhysicalRead(pa, 1);
        if InRam(pa, 1) {
          assert ram[pa - RAM_BASE..pa - RAM_BASE + 1] == [ram[..][pa - RAM_BASE]];
        }
      }
    }

    /** The byte loop of a load that crosses a page. */
    method LoadAcross(va: u64, size: nat, access: nat) returns (ok: bool, v: nat)
      requires Valid() && access < 3 && size <= 8
      modifies this`fault, this`faultAddr, this`trail, this`stale, tlbTag, tlbPage, ram
      ensures Valid()
      ensures old(AllTrusted(va, size, access)) ==>
                var r := Gather(old(ram[..]), G(), va, access, size);
                ram[..] == r.mem && ok == r.ok && (ok && r.known ==> v == FromLE(r.bytes)) && AllTrusted(va, size, access)
    {
      hide Translate, Reach, Gather, Backed, FromLE, At, Trusted, LineOk, FetchOk;
      ghost var mem, g, trusted := ram[..], G(), AllTrusted(va, size, access);
      v := 0;
      GatherNone(mem, g, va, access);
      EmptyLE();
      var i := 0;
      while i < size
        invariant 0 <= i <= size && Valid() && G() == g
        invariant trusted ==> AllTrusted(va, size, access)
        invariant trusted ==> var r := Gather(mem, g, va, access, i); ram[..] == r.mem && r.ok && (r.known ==> v == FromLE(r.bytes))
      {
        ghost var r := Gather(mem, g, va, access, i);
        GatherFails(mem, g, va, access, i + 1, size);
        if trusted {
          assert Trusted(At(va, i), access);
          GatherNext(mem, g, va, access, i);
        }
        var byte;
        ok, byte := LoadByte(At(va, i), access);
        if !ok {
          return;
        }
        if trusted { ByteAdded(r.bytes, ram[..], Reach(Translate(r.mem, g, At(va, i), access), 1)); }
        v := v + byte * Pow256(i);
        i := i + 1;
      }
      ok := true;
    }

    /** The inlined fast path, or the slow one, for a load within a page. */
    method LoadInPage(va: u64, size: nat, access: nat) returns (ok: bool, v: nat)
      requires Valid() && access < 3 && 0 < size <= 8 && va % 4096 + size <= 4096
      modifies this`fault, this`faultAddr, this`trail, this`stale, tlbTag, tlbPage, ram
      ensures Valid()
      ensures old(AllTrusted(va, size, access)) ==>
                LoadSpec(old(ram[..]), G(), va, size, access, ram[..], ok, v) && AllTrusted(va, size, access)
      ensures ok && G().Mode() == 8 ==> Cached(va, access)
    {
      hide Translate, PhysicalAddress, Backed, LineOk, FetchOk, FromLE, SlotOf, TagOf, Gather;
      v := 0;
      assert AllTrusted(va, size, access) ==> Trusted(va, access) by { assert At(va, 0) == va; }
      var slot, pa := SlotOf(va, access), 0;
      TagDecodes(va, access, G());
      if tlbTag[slot] == TagOf(va, G()) {
        HitAnswers(va, access);
        pa := tlbPage[slot] + va % 4096;
      } else {
        ok, pa := TranslateVa(va, access);
        if !ok {
          return;
        }
      }
      ok, v := PhysicalRead(pa, size);
    }

    /** A load: whenever no stale entry answers, what it yields - value, fault and memory - is what the bare walk
        yields, on the inlined fast path, on the slow path and across a page boundary. */
    method Load(va: u64, size: nat, access: nat) returns (ok: bool, v: nat)
      requires Valid() && access < 3 && 0 < size <= 8
      modifies this`fault, this`faultAddr, this`trail, this`stale, tlbTag, tlbPage, ram
      ensures Valid()
      ensures old(AllTrusted(va, size, access)) ==>
                LoadSpec(old(ram[..]), G(), va, size, access, ram[..], ok, v) && AllTrusted(va, size, access)
      ensures ok && G().Mode() == 8 && va % 4096 + size <= 4096 ==> Cached(va, access)
    {
      hide Translate, Backed, LineOk, FetchOk, FromLE;
      if va % 4096 + size > 4096 {
        ok, v := LoadAcross(va, size, access);
        return;
      }
      ok, v := LoadInPage(va, size, access);
    }

    /** A guest store to RAM: entries walked through a word it hits go stale, all others stay backed. */
    method GuestWrite(off: nat, n: nat, v: nat)
      requires Valid() && off + n <= RAM_SIZE
      modifies this`stale, this`fetchStale, ram
      ensures Valid() && ram[..] == Written(old(ram[..]), off, ToLE(v, n))
      ensures stale == old(stale) + set i | 0 <= i < 768 && Touches(trail[i], RAM_BASE + off, n)
      ensures fetchStale == (old(fetchStale) || Touches(fetchTrail, RAM_BASE + off, n))
    {
      hide Backed, Touches, ToLE;
      ghost var mem, g := ram[..], G();
      WriteRam(off, n, v);
      stale := stale + set i | 0 <= i < 768 && Touches(trail[i], RAM_BASE + off, n);
      fetchStale := fetchStale || Touches(fetchTrail, RAM_BASE + off, n);
      forall i | 0 <= i < 768 ensures LineOk(i) {
        assert old(LineOk(i));
        if tlbTag[i] != 0 && i !in stale {
          StoreKeepsBacked(mem, ram[..], RAM_BASE + off, n, g, (tlbTag[i] - 1) / 4, i / 256, tlbPage[i], trail[i]);
        }
      }
      if fetchVpage != EMPTY && !fetchStale {
        StoreKeepsBacked(mem, ram[..], RAM_BASE + off, n, g, fetchVpage / 4096, FETCH, Add64(fetchVpage, fetchDelta), fetchTrail);
      }
    }

    method PhysicalWrite(addr: u64, size: nat, v: nat) returns (ok: bool)
      requires Valid() && size > 0
      modifies this`fault, this`faultAddr, this`stale, this`fetchStale, ram
      ensures Valid() && ok == (InRam(addr, size) || Device(addr, size))
      ensures ram[..] == if InRam(addr, size) then Written(old(ram[..]), addr - RAM_BASE, ToLE(v, size)) else old(ram[..])
      ensures old(stale) <= stale
      ensures !ok ==> fault == 2 && faultAddr == addr
    {
      if InRam(addr, size) {
        GuestWrite(addr - RAM_BASE, size, v);
        return true;
      }
      if Device(addr, size) {
        return true;
      }
      fault, faultAddr := 2, addr;
      ok := false;
    }

    /** One byte of a store that crosses a page.  A stale entry that answers for one of its bytes goes on answering. */
    method StoreByte(va: u64, i: nat, size: nat, v: nat) returns (ok: bool)
      requires Valid() && i < size <= 8
      modifies this`fault, this`faultAddr, this`trail, this`stale, this`fetchStale, tlbTag, tlbPage, ram
      ensures Valid()
      ensures old(Trusted(At(va, i), STORE)) ==>
                var r := StoreOne(old(ram[..]), G(), At(va, i), 1, Shifted(v, i)); ram[..] == r.mem && ok == r.ok
      ensures forall k :: 0 <= k < size && !old(Trusted(At(va, k), STORE)) ==> !Trusted(At(va, k), STORE)
    {
      hide Translate, PhysicalAddress, Backed, LineOk, FetchOk, ToLE, Written, At;
      var pa;
      ok, pa := TranslateVa(At(va, i), STORE);
      if ok {
        ok := PhysicalWrite(pa, 1, Shifted(v, i));
      }
      forall k | 0 <= k < size && !old(Trusted(At(va, k), STORE)) ensures !Trusted(At(va, k), STORE) {
        var s := SlotOf(At(va, k), STORE);
        if s == SlotOf(At(va, i), STORE) {
          NearSlots(va, i, k, STORE);
        }
      }
    }

    /** The byte loop of a store that crosses a page. */
    method StoreAcross(va: u64, size: nat, v: nat) returns (ok: bool)
      requires Valid() && size <= 8
      modifies this`fault, this`faultAddr, this`trail, this`stale, this`fetchStale, tlbTag, tlbPage, ram
      ensures Valid()
      ensures AllTrusted(va, size, STORE) ==>
                var r := Scatter(old(ram[..]), G(), va, v, size); ram[..] == r.mem && ok == r.ok
    {
      hide Translate, StoreOne, Backed, SlotOf, TagOf, LineOk, FetchOk, ToLE, Written, Trusted;
      ghost var mem, g := ram[..], G();
      ok := true;
      var i := 0;
      while i < size
        invariant 0 <= i <= size && Valid() && G() == g && ok
        invariant AllTrusted(va, size, STORE) ==> var r := Scatter(mem, g, va, v, i); ram[..] == r.mem && r.ok
      {
        ScatterFails(mem, g, va, v, i + 1, size);
        ok := StoreByte(va, i, size, v);
        if !ok {
          return;
        }
        i := i + 1;
      }
    }

    /** A store: when no stale entry answers, before or after, it does to memory what the bare walk would have it do. */
    method Store(va: u64, size: nat, v: nat) returns (ok: bool)
      requires Valid() && 0 < size <= 8
      modifies this`fault, this`faultAddr, this`trail, this`stale, this`fetchStale, tlbTag, tlbPage, ram
      ensures Valid()
      ensures old(AllTrusted(va, size, STORE)) && (va % 4096 + size > 4096 ==> AllTrusted(va, size, STORE)) ==>
                var r := StoreSpec(old(ram[..]), G(), va, size, v); ram[..] == r.mem && ok == r.ok
    {
      hide Translate, Backed, LineOk, FetchOk, ToLE, Written, StoreOne, Scatter, Trusted;
      if va % 4096 + size > 4096 {
        ok := StoreAcross(va, size, v);
        return;
      }
      assert AllTrusted(va, size, STORE) ==> Trusted(va, STORE) by { assert At(va, 0) == va; }
      ok := StoreInPage(va, size, v);
    }

    method StoreInPage(va: u64, size: nat, v: nat) returns (ok: bool)
      requires Valid() && 0 < size <= 8 && va % 4096 + size <= 4096
      modifies this`fault, this`faultAddr, this`trail, this`stale, this`fetchStale, tlbTag, tlbPage, ram
      ensures Valid()
      ensures old(Trusted(va, STORE)) ==> var r := StoreOne(old(ram[..]), G(), va, size, v); ram[..] == r.mem && ok == r.ok
    {
      hide Translate, PhysicalAddress, Backed, LineOk, FetchOk, ToLE, Written;
      var slot, pa := SlotOf(va, STORE), 0;
      if tlbTag[slot] == TagOf(va, G()) {
        HitAnswers(va, STORE);
        pa := tlbPage[slot] + va % 4096;
      } else {
        ok, pa := TranslateVa(va, STORE);
        if !ok {
          return;
        }
      }
      ok := PhysicalWrite(pa, size, v);
    }

    // ------------------------------------------------------------ instruction fetch

    /** The page test of the fetch cache. */
    predicate FetchHit(here: u64)
      reads this`fetchVpage
    {
      here / 4096 == fetchVpage / 4096
    }

    lemma FetchHitAnswers(here: u64)
      requires Valid() && FetchHit(here) && fetchVpage != EMPTY && here % 4096 <= 4092
      ensures var at := Add64(here, fetchDelta);
              && InRam(at, 4)
              && (!fetchStale ==> Translate(ram[..], G(), here, FETCH) == Translation(ram[..], Some(at)))
    {
      hide Backed, Translate;
      var page := Add64(fetchVpage, fetchDelta);
      OffsetCarries(fetchVpage, fetchDelta, here % 4096);
      if !fetchStale {
        HitIsFresh(ram[..], G(), here, FETCH, page, fetchTrail);
      }
    }

    lemma FetchHitInPage(here: u64)
      requires Valid() && FetchHit(here) && fetchVpage != EMPTY && !fetchStale && here % 4096 <= 4092
      ensures FetchOffset(here) + 4 <= RAM_SIZE && LoadOk(ram[..], G(), here, 4, FETCH)
      ensures LoadSpec(ram[..], G(), here, 4, FETCH, ram[..], true, FromLE(ram[..][FetchOffset(here)..FetchOffset(here) + 4]))
    {
      hide Backed, Translate, FromLE, Gather;
      FetchHitAnswers(here);
      OffsetInRam(Add64(here, fetchDelta));
    }

    lemma FetchHitOverEnd(here: u64)
      requires Valid() && FetchHit(here) && fetchVpage != EMPTY && !fetchStale && here % 4096 > 4092
      ensures LoadOk(ram[..], G(), here, 4, FETCH) <==> Answers(ram[..], G(), NextPage(here), FETCH)
      ensures SpansAlike(ram[..], G(), here, FetchOffset(here))
    {
      hide Backed, LoadOk, Answers, SpansAlike, NextPage;
      var page := Add64(fetchVpage, fetchDelta);
      OffsetCarries(fetchVpage, fetchDelta, here % 4096);
      FetchOverEnd(ram[..], G(), here, page, fetchTrail);
    }

    /** Where in RAM a fetch hit reads: the offset is cut to 32 bits. */
    function FetchOffset(here: u64): nat
      reads this`fetchDelta
    {
      Sub64(Add64(here, fetchDelta), RAM_BASE) % TWO_32
    }

    /** The fetch of one instruction word in rv_run.  The page test alone decides. A miss is a load. A hit always
        succeeds, with the word at that offset of RAM, or any word if the offset is outside; while a page is cached and
        not gone stale it is the word of the bare walk, but for a program counter in the page's last three bytes. */
    method FetchWord(here: u64) returns (ok: bool, raw: nat)
      requires Valid()
      modifies this`fault, this`faultAddr, this`trail, this`stale, tlbTag, tlbPage, ram
      modifies this`fetchVpage, this`fetchDelta, this`fetchTrail, this`fetchStale
      ensures Valid()
      ensures old(FetchHit(here)) ==>
                && ok && ram[..] == old(ram[..]) && tlbTag[..] == old(tlbTag[..]) && fetchVpage == old(fetchVpage)
                && (old(FetchOffset(here)) + 4 <= RAM_SIZE ==>
                      raw == FromLE(ram[..][old(FetchOffset(here))..old(FetchOffset(here)) + 4]))
      ensures (if old(FetchHit(here)) then old(fetchVpage != EMPTY && !fetchStale) && here % 4096 <= 4092
               else old(AllTrusted(here, 4, FETCH))) ==>
                LoadSpec(old(ram[..]), G(), here, 4, FETCH, ram[..], ok, raw)
      ensures (if old(FetchHit(here)) then old(fetchVpage == EMPTY || !fetchStale) else old(AllTrusted(here, 4, FETCH))) ==>
                (ok != LoadOk(old(ram[..]), G(), here, 4, FETCH) <==>
                  && old(FetchHit(here))
                  && if old(fetchVpage == EMPTY) then !TopPageAnswers(old(ram[..]), G(), here)
                     else here % 4096 > 4092 && !Answers(old(ram[..]), G(), NextPage(here), FETCH))
      ensures old(FetchHit(here) && fetchVpage != EMPTY && !fetchStale) && here % 4096 > 4092 ==>
                SpansAlike(ram[..], G(), here, old(FetchOffset(here)))
      ensures !old(FetchHit(here)) && ok && G().Mode() == 8 && here % 4096 <= 4092 ==> CachedForFetch(here)
      ensures !old(FetchHit(here)) && ok && old(AllTrusted(here, 4, FETCH)) ==> Trusted(here, FETCH) && (FetchHit(here) ==> !fetchStale)
    {
      hide Backed, Translate, FromLE, LoadOk, LoadSpec, Answers, TopPageAnswers, SpansAlike, LineOk, FetchOk;
      hide Trusted, SlotOf, TagOf;
      if !FetchHit(here) {
        ok, raw := FetchMiss(here);
        return;
      }
      ok := true;
      var off := FetchOffset(here);
      if off + 4 <= RAM_SIZE {
        raw := ReadRam(off, 4);
        assert ram[off..off + 4] == ram[..][off..off + 4];
      } else {
        raw := *;
      }
      if fetchVpage == EMPTY {
        EmptyCacheMatchesTopPage(here);
        TopPageFaults(ram[..], G(), here);
      } else if !fetchStale {
        if here % 4096 <= 4092 {
          FetchHitInPage(here);
        } else {
          FetchHitOverEnd(here);
        }
      }
    }

    /** The TLB entry of this address answers and, if it leads to RAM, its page is the cached fetch page. */
    ghost predicate CachedForFetch(here: u64)
      requires Shape()
      reads this`sstatus, this`privilege, this`fetchVpage, this`fetchDelta, this`trail, tlbTag, tlbPage, csr
    {
      && Cached(here, FETCH)
      && (InRam(tlbPage[SlotOf(here, FETCH)], 1) ==>
            FetchHit(here) && fetchVpage != EMPTY && Add64(fetchVpage, fetchDelta) == tlbPage[SlotOf(here, FETCH)])
    }

    method FetchMiss(here: u64) returns (ok: bool, raw: nat)
      requires Valid() && !FetchHit(here)
      modifies this`fault, this`faultAddr, this`trail, this`stale, tlbTag, tlbPage, ram
      modifies this`fetchVpage, this`fetchDelta, this`fetchTrail, this`fetchStale
      ensures Valid()
      ensures old(AllTrusted(here, 4, FETCH)) ==>
                && LoadSpec(old(ram[..]), G(), here, 4, FETCH, ram[..], ok, raw)
                && ok == LoadOk(old(ram[..]), G(), here, 4, FETCH)
                && Trusted(here, FETCH) && (FetchHit(here) ==> !fetchStale)
      ensures ok && G().Mode() == 8 && here % 4096 <= 4092 ==> CachedForFetch(here)
    {
      hide Backed, Translate, FromLE, LoadOk, LoadSpec, LineOk, FetchOk, TagOf, SlotOf, At, Add64, Trusted;
      TagDecodes(here, FETCH, G());
      ghost var mem, trusted := ram[..], AllTrusted(here, 4, FETCH);
      ok, raw := Load(here, 4, FETCH);
      if trusted {
        LoadSpecOk(mem, G(), here, 4, FETCH, ram[..], ok, raw);
        AtStart(here);
        if Cached(here, FETCH) { TrustedSlot(here, FETCH); }
      }
      if !ok {
        return;
      }
      var slot := SlotOf(here, FETCH);
      if tlbTag[slot] == TagOf(here, G()) && RAM_BASE <= tlbPage[slot] < RAM_BASE + RAM_SIZE {
        CacheFetchPage(here, slot);
        NotEmpty(fetchVpage);
      }
    }

    lemma TrustedSlot(va: u64, access: nat)
      requires Shape() && access < 3 && Trusted(va, access) && Cached(va, access)
      ensures SlotOf(va, access) !in stale
    {
    }

    lemma NotEmpty(vpage: u64)
      requires vpage % 4096 == 0
      ensures vpage != EMPTY
    {
    }

    method CacheFetchPage(here: u64, slot: nat)
      requires Valid() && slot == SlotOf(here, FETCH) && tlbTag[slot] == TagOf(here, G())
      requires RAM_BASE <= tlbPage[slot] < RAM_BASE + RAM_SIZE
      modifies this`fetchVpage, this`fetchDelta, this`fetchTrail, this`fetchStale
      ensures Valid() && FetchHit(here) && fetchVpage % 4096 == 0
      ensures Add64(fetchVpage, fetchDelta) == tlbPage[slot] && (fetchStale <==> slot in stale)
    {
      hide Backed, Add64, Sub64, SlotOf, TagOf;
      TagDecodes(here, FETCH, G());
      PageStart(here, tlbPage[slot]);
      assert LineOk(slot);
      fetchVpage := here / 4096 * 4096;
      fetchDelta := Sub64(tlbPage[slot], fetchVpage);
      DeltaAdds(fetchVpage, tlbPage[slot]);
      fetchTrail, fetchStale := trail[slot], slot in stale;
    }

    // ------------------------------------------------------------ what changes the regime

    /** set_csr: only satp and sstatus bear on translation, and writing them empties the caches. */
    method SetCsr(n: nat, v: u64)
      requires Valid() && n < 4096
      modifies csr, tlbTag, this`sstatus, this`fetchVpage
      ensures Valid()
      ensures if n == SSTATUS then sstatus == v as bv64 && csr[..] == old(csr[..])
              else sstatus == old(sstatus) && csr[..] == old(csr[..])[n := v]
      ensures if n == SATP || n == SSTATUS then fetchVpage == EMPTY && forall i :: 0 <= i < 768 ==> tlbTag[i] == 0
              else fetchVpage == old(fetchVpage) && tlbTag[..] == old(tlbTag[..])
    {
      hide Backed;
      ghost var g := G();
      if n == SSTATUS {
        sstatus := v as bv64;
      } else {
        csr[n] := v;
      }
      if n == SATP || n == SSTATUS {
        FlushTlb();
      } else {
        assert G() == g;
        forall i | 0 <= i < 768 ensures LineOk(i) {
          assert old(LineOk(i));
        }
      }
    }

    /** trap: enters supervisor mode with the status shuffled, and empties the caches. */
    method Trap(cause: u64, value: u64, interrupt: bool)
      requires Shape() && cause < 0x8000_0000_0000_0000
      modifies csr, tlbTag, this`sstatus, this`fetchVpage, this`privilege, this`pc
      ensures Valid() && privilege == 0 && fetchVpage == EMPTY && forall i :: 0 <= i < 768 ==> tlbTag[i] == 0
      ensures csr[SEPC] == old(pc) && csr[STVAL] == value && pc == old(csr[STVEC]) - old(csr[STVEC]) % 4
      ensures csr[SCAUSE] == cause + if interrupt then 0x8000_0000_0000_0000 else 0
      ensures sstatus == TrapStatus(old(sstatus), old(privilege) == 0)
    {
      hide TrapStatus;
      var status := sstatus;
      csr[SEPC] := pc;
      csr[SCAUSE] := cause + if interrupt then 0x8000_0000_0000_0000 else 0;
      csr[STVAL] := value;
      sstatus := TrapStatus(status, privilege == 0);
      privilege := 0;
      pc := csr[STVEC] - csr[STVEC] % 4;
      FlushTlb();
    }

    /** sret: returns to the mode and the status that the trap put away. */
    method Sret()
      requires Shape()
      modifies tlbTag, this`sstatus, this`fetchVpage, this`privilege, this`pc
      ensures Valid() && pc == old(csr[SEPC]) && fetchVpage == EMPTY && forall i :: 0 <= i < 768 ==> tlbTag[i] == 0
      ensures privilege == (if Bit(old(sstatus), STATUS_SPP) then 0 else 1) && sstatus == SretStatus(old(sstatus))
    {
      hide SretStatus;
      privilege := if Bit(sstatus, STATUS_SPP) then 0 else 1;
      sstatus := SretStatus(sstatus);
      pc := csr[SEPC];
      FlushTlb();
    }

    /** A trap and its return bring back the program counter, the mode and the status. */
    method TrapThenReturn(cause: u64, value: u64, interrupt: bool)
      requires Shape() && cause < 0x8000_0000_0000_0000
      modifies csr, tlbTag, this`sstatus, this`fetchVpage, this`privilege, this`pc
      ensures Valid() && pc == old(pc) && privilege == old(privilege)
      ensures sstatus & !(STATUS_SPP | STATUS_SPIE) == old(sstatus) & !(STATUS_SPP | STATUS_SPIE)
    {
      hide TrapStatus, SretStatus, Bit, LineOk, FetchOk;
      TrapRecords(sstatus, privilege == 0);
      TrapThenSret(sstatus, privilege == 0);
      Trap(cause, value, interrupt);
      Sret();
    }
  }
}
