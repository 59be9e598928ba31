/** The ELF symbol table as a value, and what adding a symbol to it means.

    Entry 0 is the reserved null symbol.  A table is the sequence of its entries with their names
    spelled out; the byte buffers and the hash index behind it are in SymbolSection.dfy. */
module SymbolTable {

  type Name = seq<bv8>

  const SHN_UNDEF: nat := 0
  const SHN_LORESERVE: nat := 0xff00
  const SHN_COMMON: nat := 0xfff2
  const STB_LOCAL: nat := 0
  const STB_GLOBAL: nat := 1
  const STB_WEAK: nat := 2
  const STV_DEFAULT: nat := 0
  const STV_INTERNAL: nat := 1
  const STV_HIDDEN: nat := 2

  /** The fields of a symbol other than its name.  `bind` and `typ` are the halves of st_info. */
  datatype Attrs = Attrs(value: nat, size: nat, bind: nat, typ: nat, other: nat, shndx: nat) {
    function Visibility(): nat { other % 4 }
    predicate AsmSet() { other / 4 % 2 == 1 }
    predicate Defined() { shndx != SHN_UNDEF }
    predicate Hidden() { Visibility() == STV_HIDDEN || Visibility() == STV_INTERNAL }
  }

  datatype Entry = Entry(name: Name, a: Attrs) {
    predicate Local() { a.bind == STB_LOCAL }
    predicate Named(n: Name) { !Local() && name == n }
  }

  type Table = seq<Entry>

  /** The linear scan: the largest index in [1, k) of a non-local entry called `n`, or 0. */
  function Scan(t: Table, n: Name, k: nat): (j: nat)
    requires k <= |t|
    ensures j != 0 ==> j < k && t[j].Named(n)
    ensures forall i :: (if j == 0 then 1 else j + 1) <= i < k ==> !t[i].Named(n)
  {
    if k <= 1 then 0
    else if t[k - 1].Named(n) then k - 1
    else Scan(t, n, k - 1)
  }

  /** 0 stands for "none", as in the index words. */
  function Find(t: Table, n: Name): (j: nat)
    ensures if j == 0 then forall i :: 1 <= i < |t| ==> !t[i].Named(n) else j < |t| && t[j].Named(n)
  {
    Scan(t, n, |t|)
  }

  // ---------------------------------------------------------------- the merge state machine

  /** Of two visibilities the more constraining one; STV_DEFAULT constrains nothing. */
  function Tightest(old_vis: nat, new_vis: nat): nat {
    if old_vis == STV_DEFAULT then new_vis
    else if new_vis == STV_DEFAULT then old_vis
    else if old_vis < new_vis then old_vis
    else new_vis
  }

  /** What an existing entry `e` becomes when `x` arrives under its name, and whether that is an error. */
  function Merge(e: Attrs, x: Attrs, bss: nat): (Attrs, bool) {
    if e == x then (e, false)
    else if !e.Defined() then (x, false)
    else
      var other := e.other - e.Visibility() + Tightest(e.Visibility(), x.Visibility());
      var kept, patched := e.(other := other), x.(other := other);
      if !x.Defined() then (kept, false)
      else if x.bind == STB_GLOBAL && e.bind == STB_WEAK then (patched, false)
      else if x.bind == STB_WEAK && (e.bind == STB_GLOBAL || e.bind == STB_WEAK) then (kept, false)
      else if x.Hidden() then (kept, false)
      else if (e.shndx == SHN_COMMON || e.shndx == bss) && x.shndx < SHN_LORESERVE && x.shndx != bss then (patched, false)
      else if x.shndx == SHN_COMMON || x.shndx == bss then (kept, false)
      else if kept.AsmSet() then (patched, false)
      else (kept, true)
  }

  datatype Added = Added(table: Table, index: nat, twice: bool)

  /** Adding one symbol: locals and new names are appended, a known name is merged in place. */
  function Add(t: Table, n: Name, x: Attrs, bss: nat): Added {
    var j := if x.bind == STB_LOCAL then 0 else Find(t, n);
    if j == 0 then Added(t + [Entry(n, x)], |t|, false)
    else
      var (a, twice) := Merge(t[j].a, x, bss);
      Added(t[j := Entry(t[j].name, a)], j, twice)
  }

  /** A whole link run: symbols added one after the other, with the index each was given. */
  datatype Run = Run(table: Table, indices: seq<nat>, errors: nat)

  function AddAll(t: Table, xs: seq<Entry>, bss: nat): (r: Run)
    ensures |r.indices| == |xs|
  {
    if xs == [] then Run(t, [], 0)
    else
      var r := AddAll(t, xs[..|xs| - 1], bss);
      var x := xs[|xs| - 1];
      var d := Add(r.table, x.name, x.a, bss);
      Run(d.table, r.indices + [d.index], r.errors + if d.twice then 1 else 0)
  }

  lemma AddAllNothing(t: Table, bss: nat)
    ensures AddAll(t, [], bss) == Run(t, [], 0)
  {
  }

  lemma AddAllStep(t: Table, xs: seq<Entry>, i: nat, bss: nat)
    requires i < |xs|
    ensures var r := AddAll(t, xs[..i], bss);
            var d := Add(r.table, xs[i].name, xs[i].a, bss);
            AddAll(t, xs[..i + 1], bss) == Run(d.table, r.indices + [d.index], r.errors + if d.twice then 1 else 0)
  {
    assert xs[..i + 1][..i] == xs[..i];
  }

  /** Two link runs one after the other are one run. */
  lemma {:induction false} RunsCompose(t: Table, xs: seq<Entry>, ys: seq<Entry>, bss: nat)
    ensures var r1 := AddAll(t, xs, bss);
            var r2 := AddAll(r1.table, ys, bss);
            AddAll(t, xs + ys, bss) == Run(r2.table, r1.indices + r2.indices, r1.errors + r2.errors)
    decreases |ys|
  {
    hide Add;
    if ys == [] {
      assert xs + ys == xs;
    } else {
      RunsCompose(t, xs, ys[..|ys| - 1], bss);
      assert (xs + ys)[..|xs + ys| - 1] == xs + ys[..|ys| - 1];
    }
  }

  // ---------------------------------------------------------------- what a run keeps

  /** One non-local entry a name. */
  ghost predicate Unique(t: Table) {
    forall i, j :: 1 <= i < j < |t| && !t[i].Local() && !t[j].Local() ==> t[i].name != t[j].name
  }

  /** undefined < weak < global common or bss < any other global */
  function Rank(a: Attrs, bss: nat): nat {
    if !a.Defined() then 0
    else if a.bind == STB_WEAK then 1
    else if a.shndx == SHN_COMMON || a.shndx == bss then 2
    else 3
  }

  /** The order visibilities tighten along: the default is the loosest, then the numbers upwards. */
  function Looseness(a: Attrs): nat { if a.Visibility() == STV_DEFAULT then 4 else a.Visibility() }

  /** Bindings of the generic ABI; the values from 10 up are left to systems and processors. */
  predicate Standard(a: Attrs) { a.bind == STB_LOCAL || a.bind == STB_GLOBAL || a.bind == STB_WEAK }

  ghost predicate AllStandard(t: seq<Entry>) { forall i :: 0 <= i < |t| ==> Standard(t[i].a) }

  function Max(a: nat, b: nat): nat { if a < b then b else a }

  /** `u` extends `t`: every entry keeps its index, its name and its binding class, nothing defined is lost
      and, once defined, no visibility loosens. */
  ghost predicate Grows(t: Table, u: Table) {
    |t| <= |u| && forall i :: 0 <= i < |t| ==> Improves(t[i], u[i])
  }

  ghost predicate Improves(e: Entry, f: Entry) {
    && f.name == e.name
    && f.Local() == e.Local()
    && (e.Local() ==> f == e)
    && (e.a.Defined() ==> f.a.Defined() && Looseness(f.a) <= Looseness(e.a))
  }

  /** No entry of `t` has a lower rank in `u`. */
  ghost predicate RanksKept(t: Table, u: Table, bss: nat) {
    |t| <= |u| && forall i :: 0 <= i < |t| ==> Rank(t[i].a, bss) <= Rank(u[i].a, bss)
  }

  /** The definitions that do not displace a common or bss entry although they outrank it: a hidden one is
      ignored, and one in a reserved section (absolute, say) is reported as a second definition unless the
      entry came from an assembler .set. */
  predicate Refused(e: Attrs, x: Attrs, bss: nat) {
    Rank(e, bss) == 2 && Rank(x, bss) == 3 && (x.Hidden() || (x.shndx >= SHN_LORESERVE && !e.AsmSet()))
  }

  lemma OtherSplits(e: Attrs, vis: nat)
    requires vis < 4
    ensures var f := e.(other := e.other - e.Visibility() + vis);
            f.Visibility() == vis && f.AsmSet() == e.AsmSet()
  {
    var f := e.(other := e.other - e.Visibility() + vis);
    assert f.other / 4 == e.other / 4;
  }

  /** Merging lifts an entry to the higher of the two ranks, except exactly in the refused cases, where the
      entry keeps its own. */
  lemma MergeTakesTheHigherRank(e: Attrs, x: Attrs, bss: nat)
    requires bss != SHN_UNDEF
    requires Standard(e) && Standard(x) && e.bind != STB_LOCAL && x.bind != STB_LOCAL
    ensures var m := Merge(e, x, bss).0;
            && (Rank(m, bss) == Max(Rank(e, bss), Rank(x, bss)) <==> !Refused(e, x, bss))
            && (Refused(e, x, bss) ==> Rank(m, bss) == Rank(e, bss))
  {
    OtherSplits(e, Tightest(e.Visibility(), x.Visibility()));
  }

  /** Once an entry is defined, a merge keeps it defined and gives it the tighter of the two visibilities. */
  lemma MergeTightens(e: Attrs, x: Attrs, bss: nat)
    requires e.Defined()
    ensures var m := Merge(e, x, bss).0;
            && m.Defined()
            && Looseness(m) == if Looseness(x) < Looseness(e) then Looseness(x) else Looseness(e)
  {
    OtherSplits(e, Tightest(e.Visibility(), x.Visibility()));
  }

  /** The merges that lower a rank: a weak definition patched over one with a system-specific binding. */
  predicate Demoted(e: Attrs, x: Attrs, bss: nat) {
    && e.Defined() && e.bind != STB_GLOBAL && e.bind != STB_WEAK
    && x.Defined() && x.bind == STB_WEAK && !x.Hidden()
    && (if e.shndx == SHN_COMMON || e.shndx == bss
        then (x.shndx < SHN_LORESERVE && x.shndx != bss) || (x.shndx != SHN_COMMON && x.shndx != bss && e.AsmSet())
        else x.shndx != SHN_COMMON && x.shndx != bss && e.AsmSet())
  }

  /** A merge lowers a rank exactly in the demoted cases; with standard bindings there are none. */
  lemma RankDropsExactly(e: Attrs, x: Attrs, bss: nat)
    ensures Rank(Merge(e, x, bss).0, bss) < Rank(e, bss) <==> Demoted(e, x, bss)
  {
    OtherSplits(e, Tightest(e.Visibility(), x.Visibility()));
  }

  /** A weak definition in section 1 patched over a definition in .bss with a system-specific binding. */
  lemma DemotionExample()
    ensures Demoted(Attrs(0, 0, 10, 0, 0, 3), Attrs(0, 0, 2, 0, 0, 1), 3)
    ensures Merge(Attrs(0, 0, 10, 0, 0, 3), Attrs(0, 0, 2, 0, 0, 1), 3) == (Attrs(0, 0, 2, 0, 0, 1), false)
  {
  }

  const COMMON_ENTRY := Attrs(0, 0, STB_GLOBAL, 0, STV_DEFAULT, SHN_COMMON)
  const HIDDEN_ENTRY := Attrs(0, 0, STB_GLOBAL, 0, STV_HIDDEN, 1)

  /** A hidden definition in section 1 does not displace a common entry, but hides it. */
  lemma RefusalExample()
    ensures Refused(COMMON_ENTRY, HIDDEN_ENTRY, 3)
    ensures Merge(COMMON_ENTRY, HIDDEN_ENTRY, 3) == (COMMON_ENTRY.(other := STV_HIDDEN), false)
  {
    assert COMMON_ENTRY.Visibility() == STV_DEFAULT;
    assert HIDDEN_ENTRY.Visibility() == STV_HIDDEN && HIDDEN_ENTRY.Hidden();
    assert Tightest(STV_DEFAULT, STV_HIDDEN) == STV_HIDDEN;
  }

  // ---------------------------------------------------------------- one addition

  lemma FindIsUnique(t: Table, n: Name, j: nat)
    requires Unique(t) && 1 <= j < |t| && t[j].Named(n)
    ensures Find(t, n) == j
  {
  }

  /** One addition: where the symbol lands, and that nothing else moves. */
  lemma AddKeeps(t: Table, n: Name, x: Attrs, bss: nat)
    requires |t| >= 1 && Unique(t)
    ensures var d := Add(t, n, x, bss);
            && Unique(d.table) && Grows(t, d.table)
            && 1 <= d.index < |d.table| && d.table[d.index].name == n
            && d.table[d.index].Local() == (x.bind == STB_LOCAL)
            && (x.bind != STB_LOCAL ==> Find(d.table, n) == d.index)
            && (forall i :: 0 <= i < |t| && i != d.index ==> d.table[i] == t[i])
  {
    var d := Add(t, n, x, bss);
    var j := d.index;
    if j < |t| && t[j].a.Defined() {
      MergeTightens(t[j].a, x, bss);
    }
    if x.bind != STB_LOCAL {
      assert d.table[j].Named(n);
    }
  }

  /** The symbol is a weak definition that will be patched over an entry of higher rank. */
  predicate Demotes(t: Table, x: Entry, bss: nat) {
    !x.Local() && Find(t, x.name) != 0 && Demoted(t[Find(t, x.name)].a, x.a, bss)
  }

  /** One addition lowers a rank exactly if it demotes an entry. */
  lemma AddKeepsRanks(t: Table, x: Entry, bss: nat)
    ensures RanksKept(t, Add(t, x.name, x.a, bss).table, bss) <==> !Demotes(t, x, bss)
  {
    var j := Find(t, x.name);
    if !x.Local() && j != 0 {
      RankDropsExactly(t[j].a, x.a, bss);
      assert Add(t, x.name, x.a, bss).table[j].a == Merge(t[j].a, x.a, bss).0;
    }
  }

  lemma AddKeepsStandard(t: Table, x: Entry, bss: nat)
    requires AllStandard(t) && Standard(x.a)
    ensures AllStandard(Add(t, x.name, x.a, bss).table) && !Demotes(t, x, bss)
  {
  }

  // ---------------------------------------------------------------- whole runs

  lemma GrowsTransitively(t: Table, u: Table, w: Table)
    requires Grows(t, u) && Grows(u, w)
    ensures Grows(t, w)
  {
    forall i | 0 <= i < |t| ensures Improves(t[i], w[i]) {
      assert Improves(t[i], u[i]) && Improves(u[i], w[i]);
    }
  }

  /** A link run keeps one entry a name; every symbol ends at the index it was given when added, under its own
      name and binding class; nothing already in the table is lost, renumbered or loosened. */
  lemma {:induction false} RunResolves(t: Table, xs: seq<Entry>, bss: nat)
    requires |t| >= 1 && Unique(t)
    ensures var r := AddAll(t, xs, bss);
            && Unique(r.table) && Grows(t, r.table)
            && (forall k :: 0 <= k < |xs| ==> Resolved(r.table, r.indices[k], xs[k]))
  {
    hide Add, Find, Unique, Looseness;
    if xs != [] {
      var k := |xs| - 1;
      var init, x := xs[..k], xs[k];
      var r := AddAll(t, init, bss);
      RunResolves(t, init, bss);
      AddKeeps(r.table, x.name, x.a, bss);
      var d := Add(r.table, x.name, x.a, bss);
      GrowsTransitively(t, r.table, d.table);
      forall i | 0 <= i < k ensures Resolved(d.table, r.indices[i], xs[i]) {
        assert Resolved(r.table, r.indices[i], init[i]);
        StaysResolved(r.table, d.table, r.indices[i], xs[i]);
      }
    }
  }

  /** `j` is the entry that stands for symbol `x`. */
  ghost predicate Resolved(t: Table, j: nat, x: Entry) {
    && 1 <= j < |t| && t[j].name == x.name && t[j].Local() == x.Local()
    && (!x.Local() ==> Find(t, x.name) == j)
  }

  lemma StaysResolved(t: Table, u: Table, j: nat, x: Entry)
    requires Resolved(t, j, x) && Grows(t, u) && Unique(u)
    ensures Resolved(u, j, x)
  {
    assert Improves(t[j], u[j]);
    if !x.Local() {
      FindIsUnique(u, x.name, j);
    }
  }

  /** The state after any earlier part of a run only grows into the final one. */
  lemma {:induction false} RunGrowsFromEveryPrefix(t: Table, xs: seq<Entry>, k: nat, bss: nat)
    requires |t| >= 1 && Unique(t) && k <= |xs|
    ensures Grows(AddAll(t, xs[..k], bss).table, AddAll(t, xs, bss).table)
    ensures AddAll(t, xs[..k], bss).indices == AddAll(t, xs, bss).indices[..k]
    decreases |xs|
  {
    if k == |xs| {
      assert xs[..k] == xs;
    } else {
      var init := xs[..|xs| - 1];
      assert init[..k] == xs[..k];
      RunGrowsFromEveryPrefix(t, init, k, bss);
      RunResolves(t, init, bss);
      var r, x := AddAll(t, init, bss), xs[|xs| - 1];
      AddKeeps(r.table, x.name, x.a, bss);
      GrowsTransitively(AddAll(t, xs[..k], bss).table, r.table, AddAll(t, xs, bss).table);
    }
  }

  /** No step of the run demotes an entry. */
  ghost predicate NeverDemotes(t: Table, xs: seq<Entry>, bss: nat) {
    forall i :: 0 <= i < |xs| ==> !Demotes(AddAll(t, xs[..i], bss).table, xs[i], bss)
  }

  ghost predicate EveryStepKeepsRanks(t: Table, xs: seq<Entry>, bss: nat) {
    forall i :: 0 <= i < |xs| ==> RanksKept(AddAll(t, xs[..i], bss).table, AddAll(t, xs[..i + 1], bss).table, bss)
  }

  /** The steps of a run keep all ranks if and only if none of them demotes. */
  lemma RunKeepsRanksExactly(t: Table, xs: seq<Entry>, bss: nat)
    ensures EveryStepKeepsRanks(t, xs, bss) <==> NeverDemotes(t, xs, bss)
  {
    hide AddAll, Add, Demotes, RanksKept;
    forall i | 0 <= i < |xs|
      ensures RanksKept(AddAll(t, xs[..i], bss).table, AddAll(t, xs[..i + 1], bss).table, bss)
         <==> !Demotes(AddAll(t, xs[..i], bss).table, xs[i], bss)
    {
      AddAllStep(t, xs, i, bss);
      AddKeepsRanks(AddAll(t, xs[..i], bss).table, xs[i], bss);
    }
    if EveryStepKeepsRanks(t, xs, bss) {
      forall i | 0 <= i < |xs| ensures !Demotes(AddAll(t, xs[..i], bss).table, xs[i], bss) {
        assert RanksKept(AddAll(t, xs[..i], bss).table, AddAll(t, xs[..i + 1], bss).table, bss);
      }
    }
  }

  lemma NeverDemotesBefore(t: Table, xs: seq<Entry>, bss: nat)
    requires xs != [] && NeverDemotes(t, xs, bss)
    ensures var init := xs[..|xs| - 1]; NeverDemotes(t, init, bss) && !Demotes(AddAll(t, init, bss).table, xs[|xs| - 1], bss)
  {
    hide AddAll, Demotes;
    var init := xs[..|xs| - 1];
    forall i | 0 <= i < |init| ensures !Demotes(AddAll(t, init[..i], bss).table, init[i], bss) {
      assert init[..i] == xs[..i] && init[i] == xs[i];
    }
  }

  lemma RanksKeptTransitively(t: Table, u: Table, w: Table, bss: nat)
    requires RanksKept(t, u, bss) && RanksKept(u, w, bss)
    ensures RanksKept(t, w, bss)
  {
    hide Rank;
    forall i | 0 <= i < |t| ensures Rank(t[i].a, bss) <= Rank(w[i].a, bss) {
      assert Rank(t[i].a, bss) <= Rank(u[i].a, bss) && Rank(u[i].a, bss) <= Rank(w[i].a, bss);
    }
  }

  /** Then no entry has a lower rank at the end than it had after any part of the run. */
  lemma {:induction false} RanksKeptFromEveryPrefix(t: Table, xs: seq<Entry>, k: nat, bss: nat)
    requires NeverDemotes(t, xs, bss) && k <= |xs|
    ensures RanksKept(AddAll(t, xs[..k], bss).table, AddAll(t, xs, bss).table, bss)
    decreases |xs|
  {
    if k == |xs| {
      assert xs[..k] == xs;
    } else {
      hide Add, Demotes, NeverDemotes, RanksKept;
      var init, x := xs[..|xs| - 1], xs[|xs| - 1];
      assert init[..k] == xs[..k];
      NeverDemotesBefore(t, xs, bss);
      RanksKeptFromEveryPrefix(t, init, k, bss);
      var r := AddAll(t, init, bss);
      AddKeepsRanks(r.table, x, bss);
      RanksKeptTransitively(AddAll(t, xs[..k], bss).table, r.table, AddAll(t, xs, bss).table, bss);
    }
  }

  /** Symbols with the standard bindings never demote an entry with one. */
  lemma {:induction false} StandardRun(t: Table, xs: seq<Entry>, bss: nat)
    requires AllStandard(t) && AllStandard(xs)
    ensures AllStandard(AddAll(t, xs, bss).table) && NeverDemotes(t, xs, bss)
  {
    hide Add, Demotes;
    if xs != [] {
      var init, x := xs[..|xs| - 1], xs[|xs| - 1];
      assert AllStandard(init) && Standard(x.a);
      StandardRun(t, init, bss);
      AddKeepsStandard(AddAll(t, init, bss).table, x, bss);
      forall i | 0 <= i < |xs|
        ensures !Demotes(AddAll(t, xs[..i], bss).table, xs[i], bss)
      {
        if i < |init| {
          assert init[..i] == xs[..i] && init[i] == xs[i];
          assert !Demotes(AddAll(t, init[..i], bss).table, init[i], bss);
        }
      }
    }
  }

  /** The best rank on offer for a name: what the table had and every symbol that arrived. */
  function BestRank(t: Table, xs: seq<Entry>, n: Name, bss: nat): nat {
    if xs == [] then (if Find(t, n) == 0 then 0 else Rank(t[Find(t, n)].a, bss))
    else
      var best, x := BestRank(t, xs[..|xs| - 1], n, bss), xs[|xs| - 1];
      if x.Named(n) then Max(best, Rank(x.a, bss)) else best
  }

  /** Strong, but hidden or in a reserved section: a common or bss entry may refuse it. */
  predicate Refusable(x: Attrs, bss: nat) {
    Rank(x, bss) == 3 && (x.Hidden() || x.shndx >= SHN_LORESERVE)
  }

  /** One addition under name `n`: the name has an entry, of the higher of the two ranks. */
  lemma AddedRank(t: Table, n: Name, x: Attrs, bss: nat)
    requires |t| >= 1 && Unique(t) && AllStandard(t) && Standard(x) && bss != SHN_UNDEF && x.bind != STB_LOCAL
    ensures var u := Add(t, n, x, bss).table;
            var before := if Find(t, n) == 0 then 0 else Rank(t[Find(t, n)].a, bss);
            && Find(u, n) != 0
            && Rank(u[Find(u, n)].a, bss) <= Max(before, Rank(x, bss))
            && (!Refusable(x, bss) ==> Rank(u[Find(u, n)].a, bss) == Max(before, Rank(x, bss)))
  {
    AddKeeps(t, n, x, bss);
    var j := Find(t, n);
    if j != 0 {
      MergeTakesTheHigherRank(t[j].a, x, bss);
    }
  }

  /** One addition of anything else leaves the entry for `n` as it was, or absent. */
  lemma OtherNamesAreUntouched(t: Table, x: Entry, n: Name, bss: nat)
    requires |t| >= 1 && Unique(t) && !x.Named(n)
    ensures var u := Add(t, x.name, x.a, bss).table;
            Find(u, n) == Find(t, n) && (Find(t, n) != 0 ==> u[Find(t, n)] == t[Find(t, n)])
  {
    AddKeeps(t, x.name, x.a, bss);
    var d := Add(t, x.name, x.a, bss);
    var j := Find(t, n);
    if j != 0 {
      assert Improves(t[j], d.table[j]);
      FindIsUnique(d.table, n, j);
    } else {
      forall i | 1 <= i < |d.table| ensures !d.table[i].Named(n) {
        if i < |t| {
          assert !t[i].Named(n);
        }
      }
    }
  }

  predicate Offered(xs: seq<Entry>, n: Name) { exists i :: 0 <= i < |xs| && xs[i].Named(n) }

  predicate Unrefusable(xs: seq<Entry>, n: Name, bss: nat) {
    forall i :: 0 <= i < |xs| && xs[i].Named(n) ==> !Refusable(xs[i].a, bss)
  }

  lemma LastOffer(xs: seq<Entry>, n: Name, bss: nat)
    requires xs != []
    ensures var init, x := xs[..|xs| - 1], xs[|xs| - 1];
            && (Offered(xs, n) <==> Offered(init, n) || x.Named(n))
            && (Unrefusable(xs, n, bss) ==> Unrefusable(init, n, bss) && (x.Named(n) ==> !Refusable(x.a, bss)))
  {
    assert forall i :: 0 <= i < |xs| - 1 ==> xs[..|xs| - 1][i] == xs[i];
  }

  /** `u` holds for `n` the best rank on offer. */
  ghost predicate HoldsBest(u: Table, n: Name, offered: bool, unrefusable: bool, best: nat, bss: nat) {
    var j := Find(u, n);
    && (j != 0 <==> offered)
    && (j != 0 ==> Rank(u[j].a, bss) <= best)
    && (j != 0 && unrefusable ==> Rank(u[j].a, bss) == best)
    && (j == 0 ==> best == 0)
  }

  lemma BestStep(t: Table, x: Entry, n: Name, offered: bool, unrefusable: bool, best: nat, bss: nat)
    requires |t| >= 1 && Unique(t) && AllStandard(t) && Standard(x.a) && bss != SHN_UNDEF
    requires HoldsBest(t, n, offered, unrefusable, best, bss)
    ensures HoldsBest(Add(t, x.name, x.a, bss).table, n, offered || x.Named(n),
                      unrefusable && (x.Named(n) ==> !Refusable(x.a, bss)),
                      if x.Named(n) then Max(best, Rank(x.a, bss)) else best, bss)
  {
    if x.Named(n) {
      AddedRank(t, n, x.a, bss);
    } else {
      OtherNamesAreUntouched(t, x, n, bss);
    }
  }

  /** The run-level meaning of the merge: a name has an entry exactly when it had one or was offered, and however
      the symbols are ordered the entry ends with the best rank anybody offered, unless a definition could be
      refused - and never with a better one. */
  lemma {:induction false} RunTakesTheBestRank(t: Table, xs: seq<Entry>, n: Name, bss: nat)
    requires |t| >= 1 && Unique(t) && AllStandard(t) && AllStandard(xs) && bss != SHN_UNDEF
    ensures HoldsBest(AddAll(t, xs, bss).table, n, Find(t, n) != 0 || Offered(xs, n),
                      Unrefusable(xs, n, bss), BestRank(t, xs, n, bss), bss)
  {
    if xs != [] {
      var init, x := xs[..|xs| - 1], xs[|xs| - 1];
      RunTakesTheBestRank(t, init, n, bss);
      RunResolves(t, init, bss);
      StandardRun(t, init, bss);
      LastOffer(xs, n, bss);
      BestStep(AddAll(t, init, bss).table, x, n, Find(t, n) != 0 || Offered(init, n),
               Unrefusable(init, n, bss), BestRank(t, init, n, bss), bss);
    }
  }
}
