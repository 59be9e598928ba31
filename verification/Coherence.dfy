/** When a cached translation is still the one a fresh walk would make. */
module Coherence {
  import opened Words
  import opened Sv39

  /** A cached page for virtual page `vpn` and `access` is backed: a fresh walk under `g` reads the words `trail`,
      is allowed, ends at that page, and has no accessed or dirty bit left to set. */
  ghost predicate Backed(mem: seq<u8>, g: Regime, vpn: nat, access: nat, page: u64, trail: seq<u64>)
    requires |mem| == RAM_SIZE
  {
    && g.Mode() == 8 && vpn * 4096 < TWO_64
    && var l := Descend(mem, g.Root(), vpn * 4096, 2);
    && l.Some? && l.value.trail == trail && Allowed(l.value, access, g)
    && page == PageOf(l.value.pte) && A(l.value.pte) && (access == STORE ==> D(l.value.pte))
  }

  lemma SamePage(va: u64, level: nat)
    requires level < 3
    ensures Vpn(va / 4096 * 4096, level) == Vpn(va, level)
  {
    var p := va / 4096 * 4096;
    if level == 1 {
      assert va / 0x20_0000 == va / 4096 / 512 && p / 0x20_0000 == p / 4096 / 512;
    } else if level == 2 {
      assert va / 0x4000_0000 == va / 4096 / 0x4_0000 && p / 0x4000_0000 == p / 4096 / 0x4_0000;
    }
  }

  lemma {:induction false} DescendSamePage(mem: seq<u8>, table: u64, va: u64, level: nat)
    requires |mem| == RAM_SIZE && level < 3 && table % 4096 == 0
    ensures Descend(mem, table, va / 4096 * 4096, level) == Descend(mem, table, va, level)
    decreases level
  {
    hide Vpn, ReadWord;
    SamePage(va, level);
    var a := PteAddr(table, va, level);
    if InRam(a, 8) && level > 0 {
      DescendSamePage(mem, PageOf(ReadWord(mem, a)), va, level - 1);
    }
  }

  /** A backed hit is the fresh translation, and the fresh translation writes nothing. */
  lemma HitIsFresh(mem: seq<u8>, g: Regime, va: u64, access: nat, page: u64, trail: seq<u64>)
    requires |mem| == RAM_SIZE && Backed(mem, g, va / 4096, access, page, trail)
    ensures page + va % 4096 < TWO_64
    ensures Translate(mem, g, va, access) == Translation(mem, Some(page + va % 4096))
  {
    hide Descend, ReadWord, PageOf;
    DescendSamePage(mem, g.Root(), va, 2);
    var l := Descend(mem, g.Root(), va, 2).value;
    WithADKeeps(l.pte, access);
    assert PhysOf(l.pte, va) == page + va % 4096;
  }

  /** Two memories in which every aligned word reads the same, but for the accessed and dirty bits of one leaf. */
  ghost predicate SameButAD(mem: seq<u8>, mem2: seq<u8>)
    requires |mem| == RAM_SIZE == |mem2|
  {
    forall a: u64 {:trigger ReadWord(mem2, a)} :: a % 8 == 0 && InRam(a, 8) ==>
      Gained(ReadWord(mem, a), ReadWord(mem2, a))
  }

  /** `v` is `w`, or the leaf entry `w` with accessed or dirty bits gained. */
  ghost predicate Gained(w: u64, v: u64) {
    v == w || (IsLeaf(w) && v / 1024 == w / 1024 && v % 64 == w % 64 && (A(w) ==> A(v)) && (D(w) ==> D(v)))
  }

  lemma GainedBits(w: u64, v: u64)
    requires Gained(w, v)
    ensures V(v) == V(w) && IsLeaf(v) == IsLeaf(w) && R(v) == R(w) && W(v) == W(w) && X(v) == X(w) && U(v) == U(w)
    ensures PageOf(v) == PageOf(w) && (A(w) ==> A(v)) && (D(w) ==> D(v))
  {
  }

  /** Accessed and dirty bits never steer a walk. */
  lemma {:induction false} DescendIgnoresAD(mem: seq<u8>, mem2: seq<u8>, table: u64, va: u64, level: nat)
    requires |mem| == RAM_SIZE == |mem2| && level < 3 && table % 4096 == 0 && SameButAD(mem, mem2)
    ensures var l, l2 := Descend(mem, table, va, level), Descend(mem2, table, va, level);
            && l2.Some? == l.Some?
            && (l.Some? ==> && l2.value == l.value.(pte := l2.value.pte) && Gained(l.value.pte, l2.value.pte))
    decreases level
  {
    hide Vpn, ReadWord, PteAddr, Gained, PageOf, V, IsLeaf;
    var a := PteAddr(table, va, level);
    if InRam(a, 8) {
      var w, w2 := ReadWord(mem, a), ReadWord(mem2, a);
      assert Gained(w, w2);
      GainedBits(w, w2);
      if level > 0 {
        DescendIgnoresAD(mem, mem2, PageOf(w), va, level - 1);
      }
    }
  }

  lemma WordAfterWrite(mem: seq<u8>, p: u64, pte: u64, a: u64)
    requires |mem| == RAM_SIZE && InRam(p, 8) && InRam(a, 8) && p % 8 == 0 && a % 8 == 0
    ensures ReadWord(Written(mem, p - RAM_BASE, ToLE(pte, 8)), a) == if a == p then pte else ReadWord(mem, a)
  {
    hide FromLE, ToLE;
    var m := Written(mem, p - RAM_BASE, ToLE(pte, 8));
    var o := a - RAM_BASE;
    if a == p {
      assert m[o..o + 8] == ToLE(pte, 8);
      Pow256Of8();
      ReadBack(pte, 8);
    } else {
      assert m[o..o + 8] == mem[o..o + 8];
    }
  }

  /** The walk's own update of a leaf is invisible to every walk, itself included. */
  lemma UpdateIsSameButAD(mem: seq<u8>, l: Leaf, access: nat)
    requires |mem| == RAM_SIZE && InRam(l.addr, 8) && l.addr % 8 == 0 && l.pte == ReadWord(mem, l.addr) && IsLeaf(l.pte)
    ensures SameButAD(mem, Updated(mem, l, access))
    ensures ReadWord(Updated(mem, l, access), l.addr) == WithAD(l.pte, access)
  {
    hide ReadWord, ToLE, WithAD;
    WithADKeeps(l.pte, access);
    var m := Updated(mem, l, access);
    if WithAD(l.pte, access) != l.pte {
      WordAfterWrite(mem, l.addr, WithAD(l.pte, access), l.addr);
    }
    forall a: u64 | a % 8 == 0 && InRam(a, 8) ensures Gained(ReadWord(mem, a), ReadWord(m, a)) {
      if WithAD(l.pte, access) != l.pte {
        WordAfterWrite(mem, l.addr, WithAD(l.pte, access), a);
      }
    }
  }

  lemma UpdateKeepsBacked(mem: seq<u8>, mem2: seq<u8>, g: Regime, vpn: nat, access: nat, page: u64, trail: seq<u64>)
    requires |mem| == RAM_SIZE == |mem2| && SameButAD(mem, mem2) && Backed(mem, g, vpn, access, page, trail)
    ensures Backed(mem2, g, vpn, access, page, trail)
  {
    hide Descend, SameButAD, Gained, V, PageOf, ReadWord;
    DescendIgnoresAD(mem, mem2, g.Root(), vpn * 4096, 2);
    GainedBits(Descend(mem, g.Root(), vpn * 4096, 2).value.pte, Descend(mem2, g.Root(), vpn * 4096, 2).value.pte);
  }

  /** What a successful walk leaves behind backs the entry made from it, and every other entry keeps its backing. */
  lemma LeafIsBacked(mem: seq<u8>, g: Regime, va: u64, access: nat, l: Leaf)
    requires |mem| == RAM_SIZE && g.Mode() == 8 && Descend(mem, g.Root(), va, 2) == Some(l) && Allowed(l, access, g)
    ensures var m := Updated(mem, l, access);
            SameButAD(mem, m) && Backed(m, g, va / 4096, access, PageOf(l.pte), l.trail)
  {
    hide ReadWord, PageOf, WithAD, V, R, W, X, U, A, D, Updated, Gained, IsLeaf, ToLE, Vpn;
    var m := Updated(mem, l, access);
    UpdateIsSameButAD(mem, l, access);
    hide Descend, SameButAD;
    DescendIgnoresAD(mem, m, g.Root(), va, 2);
    DescendSamePage(m, g.Root(), va, 2);
    var l2 := Descend(m, g.Root(), va, 2).value;
    GainedBits(l.pte, l2.pte);
    WithADKeeps(l.pte, access);
    assert l2.pte == WithAD(l.pte, access);
  }

  /** The bytes [lo, lo + n) of physical memory meet a word of the trail. */
  ghost predicate Touches(trail: seq<u64>, lo: int, n: nat) {
    exists k :: 0 <= k < |trail| && trail[k] < lo + n && lo - 8 < trail[k]
  }

  lemma {:induction false} DescendFrame(mem: seq<u8>, mem2: seq<u8>, lo: int, n: nat, table: u64, va: u64, level: nat)
    requires |mem| == RAM_SIZE == |mem2| && level < 3 && table % 4096 == 0
    requires forall p :: 0 <= p < RAM_SIZE && !(lo <= RAM_BASE + p < lo + n) ==> mem2[p] == mem[p]
    requires Descend(mem, table, va, level).Some? && !Touches(Descend(mem, table, va, level).value.trail, lo, n)
    ensures Descend(mem2, table, va, level) == Descend(mem, table, va, level)
    decreases level
  {
    hide Vpn, PteAddr, FromLE, PageOf, V, IsLeaf;
    var a := PteAddr(table, va, level);
    var t := Descend(mem, table, va, level).value.trail;
    assert t[0] == a;
    assert ReadWord(mem2, a) == ReadWord(mem, a) by {
      assert mem2[a - RAM_BASE..a - RAM_BASE + 8] == mem[a - RAM_BASE..a - RAM_BASE + 8];
    }
    var pte := ReadWord(mem, a);
    if !IsLeaf(pte) {
      var u := Descend(mem, PageOf(pte), va, level - 1).value.trail;
      assert forall k :: 0 <= k < |u| ==> u[k] == t[k + 1];
      DescendFrame(mem, mem2, lo, n, PageOf(pte), va, level - 1);
    }
  }

  /** A guest store that misses the words an entry was walked through leaves it backed. */
  lemma StoreKeepsBacked(mem: seq<u8>, mem2: seq<u8>, lo: int, n: nat, g: Regime, vpn: nat, access: nat, page: u64, trail: seq<u64>)
    requires |mem| == RAM_SIZE == |mem2|
    requires forall p :: 0 <= p < RAM_SIZE && !(lo <= RAM_BASE + p < lo + n) ==> mem2[p] == mem[p]
    requires Backed(mem, g, vpn, access, page, trail) && !Touches(trail, lo, n)
    ensures Backed(mem2, g, vpn, access, page, trail)
  {
    hide Descend;
    DescendFrame(mem, mem2, lo, n, g.Root(), vpn * 4096, 2);
  }
}
