/** Which definition an entry of the symbol table ends with, and when a second one is an error. */
module Definitions {
  import opened SymbolTable

  // ---------------------------------------------------------------- one merge

  /** `a` is the definition `d`, whatever its visibility: value, size, binding, type and section. */
  predicate Holds(a: Attrs, d: Attrs) {
    a.value == d.value && a.size == d.size && a.bind == d.bind && a.typ == d.typ && a.shndx == d.shndx
  }

  predicate Global(a: Attrs) { a.bind == STB_GLOBAL || a.bind == STB_WEAK }

  /** The arriving definition displaces the entry: the entry is undefined, or of lower rank and does not refuse, or an
      assembler .set as strong as the new definition, which is not hidden. */
  predicate TakesOver(e: Attrs, x: Attrs, bss: nat) {
    || !e.Defined()
    || (Rank(e, bss) < Rank(x, bss) && !Refused(e, x, bss))
    || (Rank(e, bss) == 3 && Rank(x, bss) == 3 && e.AsmSet() && !x.Hidden())
  }

  /** Two different strong definitions, or one in a reserved section against a common or bss entry; the second hides
      itself from the error by being hidden, the first by being an assembler .set. */
  predicate Clashes(e: Attrs, x: Attrs, bss: nat) {
    e != x && !x.Hidden() && !e.AsmSet() && ((Rank(e, bss) == 3 && Rank(x, bss) == 3) || Refused(e, x, bss))
  }

  /** Over an undefined entry a symbol is taken as it is. */
  lemma UndefinedYields(e: Attrs, x: Attrs, bss: nat)
    requires !e.Defined()
    ensures Merge(e, x, bss) == (x, false)
  {
  }

  /** For every binding: a merge never mixes two definitions, and of a defined entry it changes at most the visibility
      bits of the last field. */
  lemma MergeIsWhole(e: Attrs, x: Attrs, bss: nat)
    ensures var m := Merge(e, x, bss).0;
            && (Holds(m, e) || Holds(m, x))
            && (e.Defined() ==> m.other / 4 == e.other / 4)
  {
    OtherSplits(e, Tightest(e.Visibility(), x.Visibility()));
    assert e.Defined() ==> Merge(e, x, bss).0.other / 4 == e.other / 4;
  }

  /** Which of the two it is, and when it is an error. */
  lemma MergeChooses(e: Attrs, x: Attrs, bss: nat)
    requires bss != SHN_UNDEF && Global(e) && Global(x)
    ensures var (m, twice) := Merge(e, x, bss);
            && Holds(m, if TakesOver(e, x, bss) then x else e)
            && (twice <==> Clashes(e, x, bss))
  {
    OtherSplits(e, Tightest(e.Visibility(), x.Visibility()));
  }

  // ---------------------------------------------------------------- one addition

  /** Locals and symbols of a new name come in as they are. */
  lemma AddsNew(t: Table, x: Entry, bss: nat)
    requires x.Local() || Find(t, x.name) == 0
    ensures Add(t, x.name, x.a, bss) == Added(t + [x], |t|, false)
  {
  }

  ghost predicate AllGlobal(t: seq<Entry>) { forall i :: 0 <= i < |t| && !t[i].Local() ==> Global(t[i].a) }

  /** Adding `x` to `t` is reported. */
  predicate Reported(t: Table, x: Entry, bss: nat) {
    !x.Local() && Find(t, x.name) != 0 && Clashes(t[Find(t, x.name)].a, x.a, bss)
  }

  /** Adding a symbol of a known name keeps or replaces the definition of its entry. */
  lemma AddChooses(t: Table, x: Entry, bss: nat)
    requires bss != SHN_UNDEF && AllGlobal(t) && (!x.Local() ==> Global(x.a))
    ensures var d, j := Add(t, x.name, x.a, bss), Find(t, x.name);
            && AllGlobal(d.table) && (d.twice <==> Reported(t, x, bss))
            && (!x.Local() && j != 0 ==>
                  Holds(d.table[j].a, if TakesOver(t[j].a, x.a, bss) then x.a else t[j].a))
  {
    var j := Find(t, x.name);
    if !x.Local() && j != 0 {
      hide Merge, Clashes, TakesOver;
      MergeChooses(t[j].a, x.a, bss);
    }
  }

  // ---------------------------------------------------------------- whole runs

  /** Symbol `k` of the run clashes with the entry it meets. */
  predicate ReportedAt(t: Table, xs: seq<Entry>, k: nat, bss: nat)
    requires k < |xs|
  {
    Reported(AddAll(t, xs[..k], bss).table, xs[k], bss)
  }

  ghost function Reports(t: Table, xs: seq<Entry>, bss: nat): set<nat> {
    set k: nat | k < |xs| && ReportedAt(t, xs, k, bss)
  }

  /** The errors of a run are the additions that clash with the entry they meet. */
  lemma {:induction false} ErrorsCounted(t: Table, xs: seq<Entry>, bss: nat)
    requires bss != SHN_UNDEF && AllGlobal(t) && AllGlobal(xs)
    ensures AllGlobal(AddAll(t, xs, bss).table) && AddAll(t, xs, bss).errors == |Reports(t, xs, bss)|
  {
    if xs != [] {
      hide Add, AllGlobal, Reported, Reports;
      var init, x := xs[..|xs| - 1], xs[|xs| - 1];
      GlobalParts(xs);
      ErrorsCounted(t, init, bss);
      AddChooses(AddAll(t, init, bss).table, x, bss);
      ReportsMore(t, xs, bss);
    }
  }

  lemma ReportsMore(t: Table, xs: seq<Entry>, bss: nat)
    requires xs != []
    ensures |Reports(t, xs, bss)|
         == |Reports(t, xs[..|xs| - 1], bss)|
            + if Reported(AddAll(t, xs[..|xs| - 1], bss).table, xs[|xs| - 1], bss) then 1 else 0
  {
    hide Reported, AddAll;
    var n := |xs| - 1;
    var init := xs[..n];
    forall k: nat | k < n ensures ReportedAt(t, init, k, bss) == ReportedAt(t, xs, k, bss) {
      assert init[..k] == xs[..k];
    }
    assert Reports(t, xs, bss) == Reports(t, init, bss) + if ReportedAt(t, xs, n, bss) then {n} else {};
  }

  lemma GlobalParts(xs: seq<Entry>)
    requires xs != [] && AllGlobal(xs)
    ensures var x := xs[|xs| - 1]; AllGlobal(xs[..|xs| - 1]) && (!x.Local() ==> Global(x.a))
  {
  }

  /** The entry is, visibility aside, one that the table had there or one of the symbols that got its index. */
  ghost predicate Offering(t: Table, xs: seq<Entry>, indices: seq<nat>, i: nat, f: Entry)
    requires |indices| == |xs|
  {
    || (i < |t| && f.name == t[i].name && Holds(f.a, t[i].a))
    || exists k :: 0 <= k < |xs| && indices[k] == i && f.name == xs[k].name && Holds(f.a, xs[k].a)
  }

  lemma OfferingMore(t: Table, xs: seq<Entry>, indices: seq<nat>, x: Entry, j: nat, i: nat, f: Entry)
    requires |indices| == |xs|
    ensures Offering(t, xs, indices, i, f) ==> Offering(t, xs + [x], indices + [j], i, f)
    ensures f.name == x.name && Holds(f.a, x.a) ==> Offering(t, xs + [x], indices + [j], j, f)
  {
    hide Holds;
    if Offering(t, xs, indices, i, f) && !(i < |t| && f.name == t[i].name && Holds(f.a, t[i].a)) {
      var k :| 0 <= k < |xs| && indices[k] == i && f.name == xs[k].name && Holds(f.a, xs[k].a);
      assert (indices + [j])[k] == i && (xs + [x])[k] == xs[k];
    }
    assert (indices + [j])[|xs|] == j && (xs + [x])[|xs|] == x;
  }

  ghost predicate AllOffered(t: Table, xs: seq<Entry>, indices: seq<nat>, u: Table)
    requires |indices| == |xs|
  {
    forall i :: 0 <= i < |u| ==> Offering(t, xs, indices, i, u[i])
  }

  /** For every binding: no entry of a run mixes two definitions - each is one that was there or one that was offered. */
  lemma {:induction false} RunIsWhole(t: Table, xs: seq<Entry>, bss: nat)
    ensures var r := AddAll(t, xs, bss); AllOffered(t, xs, r.indices, r.table)
  {
    if xs != [] {
      hide AllOffered, Add;
      var init, x := xs[..|xs| - 1], xs[|xs| - 1];
      RunIsWhole(t, init, bss);
      OneMoreOffered(t, init, AddAll(t, init, bss), x, bss);
      assert xs == init + [x];
    }
  }

  lemma OneMoreOffered(t: Table, xs: seq<Entry>, r: Run, x: Entry, bss: nat)
    requires |r.indices| == |xs| && AllOffered(t, xs, r.indices, r.table)
    ensures var d := Add(r.table, x.name, x.a, bss); AllOffered(t, xs + [x], r.indices + [d.index], d.table)
  {
    hide Offering, Add, Holds;
    var d := Add(r.table, x.name, x.a, bss);
    forall i | 0 <= i < |d.table| ensures Offering(t, xs + [x], r.indices + [d.index], i, d.table[i]) {
      AddedEntry(r.table, x, bss, i);
      OfferingMore(t, xs, r.indices, x, d.index, i, d.table[i]);
      if i < |r.table| && d.table[i].name == r.table[i].name && Holds(d.table[i].a, r.table[i].a) {
        SameOffering(t, xs, r.indices, i, r.table[i], d.table[i]);
      }
    }
  }

  lemma SameOffering(t: Table, xs: seq<Entry>, indices: seq<nat>, i: nat, e: Entry, f: Entry)
    requires |indices| == |xs| && Offering(t, xs, indices, i, e) && f.name == e.name && Holds(f.a, e.a)
    ensures Offering(t, xs, indices, i, f)
  {
  }

  /** An entry after one addition. */
  lemma AddedEntry(t: Table, x: Entry, bss: nat, i: nat)
    requires var d := Add(t, x.name, x.a, bss); i < |d.table|
    ensures var d := Add(t, x.name, x.a, bss);
            || (i < |t| && d.table[i].name == t[i].name && Holds(d.table[i].a, t[i].a))
            || (i == d.index && d.table[i].name == x.name && Holds(d.table[i].a, x.a))
  {
    var j := Find(t, x.name);
    if !x.Local() && j != 0 {
      MergeIsWhole(t[j].a, x.a, bss);
    }
  }

  /** No symbol of these has the name. */
  ghost predicate Absent(xs: seq<Entry>, n: Name) { forall i :: 0 <= i < |xs| ==> !xs[i].Named(n) }

  lemma {:induction false} AbsentRun(t: Table, xs: seq<Entry>, n: Name, bss: nat)
    requires |t| >= 1 && Unique(t) && Absent(xs, n)
    ensures var u := AddAll(t, xs, bss).table; Find(u, n) == Find(t, n) && (Find(t, n) != 0 ==> u[Find(t, n)] == t[Find(t, n)])
  {
    if xs != [] {
      hide Add, Find, Unique;
      var init, x := xs[..|xs| - 1], xs[|xs| - 1];
      assert Absent(init, n) by { assert forall i :: 0 <= i < |init| ==> init[i] == xs[i]; }
      AbsentRun(t, init, n, bss);
      RunResolves(t, init, bss);
      OtherNamesAreUntouched(AddAll(t, init, bss).table, x, n, bss);
    }
  }

  /** A name that the table has not and that is offered once ends with the very symbol that was offered. */
  lemma SingleOffer(t: Table, xs: seq<Entry>, k: nat, bss: nat)
    requires |t| >= 1 && Unique(t) && k < |xs| && !xs[k].Local() && Find(t, xs[k].name) == 0
    requires Absent(xs[..k], xs[k].name) && Absent(xs[k + 1..], xs[k].name)
    ensures var u := AddAll(t, xs, bss).table; Find(u, xs[k].name) != 0 && u[Find(u, xs[k].name)] == xs[k]
  {
    hide Find, Unique, Absent, AddAll;
    var n := xs[k].name;
    var r := AddAll(t, xs[..k], bss);
    AbsentRun(t, xs[..k], n, bss);
    RunResolves(t, xs[..k], bss);
    AddsNew(r.table, xs[k], bss);
    AddAllStep(t, xs, k, bss);
    AddKeeps(r.table, n, xs[k].a, bss);
    var r2 := AddAll(t, xs[..k + 1], bss);
    AbsentRun(r2.table, xs[k + 1..], n, bss);
    RunsCompose(t, xs[..k + 1], xs[k + 1..], bss);
    assert xs[..k + 1] + xs[k + 1..] == xs;
  }

  /** No symbol of these defines the name, though they may refer to it. */
  ghost predicate Undefining(xs: seq<Entry>, n: Name) {
    forall i :: 0 <= i < |xs| && xs[i].Named(n) ==> !xs[i].a.Defined()
  }

  predicate DefinedIn(t: Table, n: Name) { Find(t, n) != 0 && t[Find(t, n)].a.Defined() }

  lemma UndefiningStep(t: Table, x: Entry, n: Name, bss: nat)
    requires |t| >= 1 && Unique(t) && (x.Named(n) ==> !x.a.Defined())
    ensures var u := Add(t, x.name, x.a, bss).table;
            if DefinedIn(t, n) then Find(u, n) == Find(t, n) && Holds(u[Find(t, n)].a, t[Find(t, n)].a) else !DefinedIn(u, n)
  {
    AddKeeps(t, x.name, x.a, bss);
    if !x.Named(n) {
      OtherNamesAreUntouched(t, x, n, bss);
    }
  }

  lemma {:induction false} UndefiningRun(t: Table, xs: seq<Entry>, n: Name, bss: nat)
    requires |t| >= 1 && Unique(t) && Undefining(xs, n)
    ensures var u := AddAll(t, xs, bss).table;
            if DefinedIn(t, n) then Find(u, n) == Find(t, n) && Holds(u[Find(t, n)].a, t[Find(t, n)].a) else !DefinedIn(u, n)
  {
    if xs != [] {
      hide Add, Find, Unique;
      var init, x := xs[..|xs| - 1], xs[|xs| - 1];
      assert Undefining(init, n) by { assert forall i :: 0 <= i < |init| ==> init[i] == xs[i]; }
      UndefiningRun(t, init, n, bss);
      RunResolves(t, init, bss);
      UndefiningStep(AddAll(t, init, bss).table, x, n, bss);
    }
  }

  lemma DefiningStep(t: Table, x: Entry, bss: nat)
    requires |t| >= 1 && Unique(t) && !x.Local() && x.a.Defined() && !DefinedIn(t, x.name)
    ensures var u := Add(t, x.name, x.a, bss).table; DefinedIn(u, x.name) && u[Find(u, x.name)] == x
  {
    AddKeeps(t, x.name, x.a, bss);
  }

  /** A name that the table does not define and that one symbol of a run defines ends with that definition, however often
      it is referred to. */
  lemma SingleDefinition(t: Table, xs: seq<Entry>, k: nat, bss: nat)
    requires |t| >= 1 && Unique(t) && k < |xs| && !xs[k].Local() && xs[k].a.Defined() && !DefinedIn(t, xs[k].name)
    requires Undefining(xs[..k], xs[k].name) && Undefining(xs[k + 1..], xs[k].name)
    ensures var u := AddAll(t, xs, bss).table; Find(u, xs[k].name) != 0 && Holds(u[Find(u, xs[k].name)].a, xs[k].a)
  {
    hide Find, Unique, Undefining, AddAll;
    var n := xs[k].name;
    var r, r2 := AddAll(t, xs[..k], bss), AddAll(t, xs[..k + 1], bss);
    UndefiningRun(t, xs[..k], n, bss);
    RunResolves(t, xs[..k], bss);
    DefiningStep(r.table, xs[k], bss);
    AddAllStep(t, xs, k, bss);
    AddKeeps(r.table, n, xs[k].a, bss);
    UndefiningRun(r2.table, xs[k + 1..], n, bss);
    RunsCompose(t, xs[..k + 1], xs[k + 1..], bss);
    assert xs[..k + 1] + xs[k + 1..] == xs;
  }

  // ---------------------------------------------------------------- two strong definitions

  predicate Strong(a: Attrs, bss: nat) { Rank(a, bss) == 3 && !a.AsmSet() }

  /** A strong definition that is no assembler .set is there to stay. */
  lemma StrongStays(t: Table, x: Entry, n: Name, d: Attrs, bss: nat)
    requires |t| >= 1 && Unique(t) && bss != SHN_UNDEF && AllGlobal(t) && (!x.Local() ==> Global(x.a))
    requires Find(t, n) != 0 && Strong(t[Find(t, n)].a, bss) && Holds(t[Find(t, n)].a, d)
    ensures var u := Add(t, x.name, x.a, bss).table;
            Find(u, n) == Find(t, n) && Strong(u[Find(t, n)].a, bss) && Holds(u[Find(t, n)].a, d)
  {
    var j := Find(t, n);
    AddKeeps(t, x.name, x.a, bss);
    if x.Named(n) {
      MergeIsWhole(t[j].a, x.a, bss);
      MergeChooses(t[j].a, x.a, bss);
    } else {
      OtherNamesAreUntouched(t, x, n, bss);
    }
  }

  lemma {:induction false} StrongStaysInRun(t: Table, xs: seq<Entry>, n: Name, d: Attrs, bss: nat)
    requires |t| >= 1 && Unique(t) && bss != SHN_UNDEF && AllGlobal(t) && AllGlobal(xs)
    requires Find(t, n) != 0 && Strong(t[Find(t, n)].a, bss) && Holds(t[Find(t, n)].a, d)
    ensures var u := AddAll(t, xs, bss).table;
            Find(u, n) == Find(t, n) && Strong(u[Find(t, n)].a, bss) && Holds(u[Find(t, n)].a, d)
  {
    if xs != [] {
      hide Add, Find, Unique, AllGlobal, Strong, Holds;
      var init, x := xs[..|xs| - 1], xs[|xs| - 1];
      GlobalParts(xs);
      StrongStaysInRun(t, init, n, d, bss);
      RunResolves(t, init, bss);
      ErrorsCounted(t, init, bss);
      StrongStays(AddAll(t, init, bss).table, x, n, d, bss);
    }
  }

  /** Once an entry is strong, a different strong definition of its name, not hidden, is an error wherever it comes. */
  lemma SecondDefinitionIsReported(t: Table, xs: seq<Entry>, k: nat, d: Attrs, bss: nat)
    requires |t| >= 1 && Unique(t) && bss != SHN_UNDEF && AllGlobal(t) && AllGlobal(xs) && k < |xs| && !xs[k].Local()
    requires var j := Find(t, xs[k].name); j != 0 && Strong(t[j].a, bss) && Holds(t[j].a, d)
    requires Rank(xs[k].a, bss) == 3 && !xs[k].a.Hidden() && !Holds(xs[k].a, d)
    ensures AddAll(t, xs, bss).errors >= 1
  {
    hide AddAll, AllGlobal, Rank;
    var u := AddAll(t, xs[..k], bss).table;
    assert AllGlobal(xs[..k]) by { GlobalPrefix(xs, k); }
    StrongStaysInRun(t, xs[..k], xs[k].name, d, bss);
    assert ReportedAt(t, xs, k, bss);
    ErrorsCounted(t, xs, bss);
    assert k in Reports(t, xs, bss);
  }

  lemma GlobalPrefix(xs: seq<Entry>, k: nat)
    requires k <= |xs| && AllGlobal(xs)
    ensures AllGlobal(xs[..k])
  {
  }
}
