/** Loading from an archive: only the members that some undefined or weakly defined symbol asks for. */
module Archive {
  import opened Words
  import opened SymbolTable
  import opened SymbolSection
  import opened ObjectFile

  datatype IndexEntry = IndexEntry(name: Name, off: nat)

  /** The archive's symbol index, and its members by file offset; other offsets hold no valid header. */
  datatype Ar = Ar(index: seq<IndexEntry>, members: map<nat, Object>) {
    ghost predicate WellFormed() {
      && (forall i :: 0 <= i < |index| ==> 0 !in index[i].name)
      && (forall o :: o in members ==> members[o].WellFormed())
    }
  }

  /** The symbol is in the table but has no strong definition yet. */
  predicate Wanted(t: Table, n: Name) {
    var j := Find(t, n);
    j != 0 && (!t[j].a.Defined() || t[j].a.bind == STB_WEAK)
  }

  /** In terms of ranks: the name has an entry, of a lower rank than a common one. */
  lemma WantedExactly(t: Table, n: Name, bss: nat)
    requires bss != SHN_UNDEF && (Find(t, n) != 0 ==> Standard(t[Find(t, n)].a))
    ensures Wanted(t, n) <==> Find(t, n) != 0 && Rank(t[Find(t, n)].a, bss) < 2
  {
  }

  ghost predicate Present(ar: Ar, offs: seq<nat>) {
    ar.WellFormed() && forall k :: 0 <= k < |offs| ==> offs[k] in ar.members
  }

  /** The members at `offs`, loaded in that order. */
  function LoadAll(l: Link, ar: Ar, offs: seq<nat>, c: Numbers): (r: Link)
    requires |l.out| >= 1 && Present(ar, offs)
    ensures |r.out| >= 1
  {
    if offs == [] then l
    else Load(LoadAll(l, ar, offs[..|offs| - 1], c), ar.members[offs[|offs| - 1]], c).0
  }

  /** When member `offs[k]` was loaded, an index name pointing to it was wanted, and loading it went well. */
  ghost predicate Asked(l: Link, ar: Ar, offs: seq<nat>, k: nat, c: Numbers)
    requires |l.out| >= 1 && Present(ar, offs) && k < |offs|
  {
    var before := LoadAll(l, ar, offs[..k], c);
    && Load(before, ar.members[offs[k]], c).1
    && exists i :: 0 <= i < |ar.index| && ar.index[i].off == offs[k] && Wanted(before.table, ar.index[i].name)
  }

  /** A legitimate order of loads: existing members, none twice, each asked for at its time. */
  ghost predicate Loads(l: Link, ar: Ar, offs: seq<nat>, c: Numbers) {
    && |l.out| >= 1 && Present(ar, offs)
    && (forall k, q :: 0 <= k < q < |offs| ==> offs[k] != offs[q])
    && (forall k :: 0 <= k < |offs| ==> Asked(l, ar, offs, k, c))
  }

  /** Nothing is left to load: every indexed name is absent, strongly defined, or has its member loaded. */
  ghost predicate Closed(t: Table, ar: Ar, offs: seq<nat>, upto: nat)
    requires upto <= |ar.index|
  {
    forall i :: 0 <= i < upto ==> !Wanted(t, ar.index[i].name) || ar.index[i].off in offs
  }

  lemma OneMoreLoad(l: Link, ar: Ar, offs: seq<nat>, i: nat, c: Numbers)
    requires Loads(l, ar, offs, c) && i < |ar.index| && ar.index[i].off !in offs && ar.index[i].off in ar.members
    requires Wanted(LoadAll(l, ar, offs, c).table, ar.index[i].name)
    requires Load(LoadAll(l, ar, offs, c), ar.members[ar.index[i].off], c).1
    ensures Loads(l, ar, offs + [ar.index[i].off], c)
    ensures LoadAll(l, ar, offs + [ar.index[i].off], c) == Load(LoadAll(l, ar, offs, c), ar.members[ar.index[i].off], c).0
  {
    hide Wanted, Load;
    var more := offs + [ar.index[i].off];
    assert more[..|offs|] == offs;
    forall k | 0 <= k < |more| ensures Asked(l, ar, more, k, c) {
      if k < |offs| {
        assert more[..k] == offs[..k];
        assert Asked(l, ar, offs, k, c);
      }
    }
  }

  /** Between two moments of a sequence of loads the output sections only grow. */
  lemma {:induction false} SectionsGrow(l: Link, ar: Ar, offs: seq<nat>, k: nat, c: Numbers)
    requires |l.out| >= 1 && Present(ar, offs) && k <= |offs|
    ensures OutGrows(LoadAll(l, ar, offs[..k], c).out, LoadAll(l, ar, offs, c).out)
    decreases |offs|
  {
    hide OutGrows, Load, Place;
    if k == |offs| {
      assert offs[..k] == offs;
      OutGrowsRefl(LoadAll(l, ar, offs, c).out);
    } else {
      var early := offs[..|offs| - 1];
      assert early[..k] == offs[..k];
      SectionsGrow(l, ar, early, k, c);
      LoadGrows(LoadAll(l, ar, early, c), ar.members[offs[|offs| - 1]], c);
      OutGrowsTransitively(LoadAll(l, ar, offs[..k], c).out, LoadAll(l, ar, early, c).out, LoadAll(l, ar, offs, c).out);
    }
  }

  lemma GrowsBetween(l: Link, ar: Ar, offs: seq<nat>, j: nat, k: nat, c: Numbers)
    requires |l.out| >= 1 && Present(ar, offs) && j <= k <= |offs|
    ensures OutGrows(LoadAll(l, ar, offs[..j], c).out, LoadAll(l, ar, offs[..k], c).out)
  {
    hide OutGrows, Load;
    assert offs[..k][..j] == offs[..j];
    SectionsGrow(l, ar, offs[..k], j, c);
  }

  lemma LoadIs(l: Link, ar: Ar, offs: seq<nat>, k: nat, c: Numbers)
    requires |l.out| >= 1 && Present(ar, offs) && k < |offs|
    ensures LoadAll(l, ar, offs[..k + 1], c) == Load(LoadAll(l, ar, offs[..k], c), ar.members[offs[k]], c).0
  {
    assert offs[..k + 1][..k] == offs[..k];
  }

  /** Section `i` of the member loaded `k`-th went to `at`. */
  ghost predicate Landed(l: Link, ar: Ar, offs: seq<nat>, k: nat, i: nat, c: Numbers, at: Placement)
    requires |l.out| >= 1 && Present(ar, offs) && k < |offs|
  {
    var before, o := LoadAll(l, ar, offs[..k], c), ar.members[offs[k]];
    && i < |o.headers| && o.Merged(i)
    && Place(before.out, o, c.symtab, |o.headers|).ok && Place(before.out, o, c.symtab, |o.headers|).placed[i] == Some(at)
  }

  lemma LandedIn(l: Link, ar: Ar, offs: seq<nat>, k: nat, i: nat, c: Numbers, at: Placement)
    requires Loads(l, ar, offs, c) && k < |offs| && Landed(l, ar, offs, k, i, c, at)
    ensures WentTo(LoadAll(l, ar, offs[..k], c).out, LoadAll(l, ar, offs[..k + 1], c).out, ar.members[offs[k]].headers[i], at)
  {
    hide WentTo, Place, LoadAll;
    var before, o := LoadAll(l, ar, offs[..k], c), ar.members[offs[k]];
    assert Asked(l, ar, offs, k, c);
    SectionsKept(before.out, o, c.symtab, |o.headers|);
    LoadIs(l, ar, offs, k, c);
  }

  /** Every section of a member goes to an output section of its name and type, after all that was there before the
      archive; what another member brings later comes after it. */
  lemma MembersApart(l: Link, ar: Ar, offs: seq<nat>, k: nat, i: nat, a: Placement, q: nat, j: nat, b: Placement, c: Numbers)
    requires Loads(l, ar, offs, c) && k < q < |offs| && Landed(l, ar, offs, k, i, c, a) && Landed(l, ar, offs, q, j, c, b)
    ensures WentTo(l.out, LoadAll(l, ar, offs, c).out, ar.members[offs[k]].headers[i], a)
    ensures a.num == b.num ==> a.offset + ar.members[offs[k]].headers[i].size <= b.offset
  {
    hide OutGrows, LoadAll, Load, Place;
    var h := ar.members[offs[k]].headers[i];
    var s, t, u := LoadAll(l, ar, offs[..k], c).out, LoadAll(l, ar, offs[..k + 1], c).out, LoadAll(l, ar, offs[..q], c).out;
    LandedIn(l, ar, offs, k, i, c, a);
    LandedIn(l, ar, offs, q, j, c, b);
    GrowsBetween(l, ar, offs, 0, k, c);
    GrowsBetween(l, ar, offs, k + 1, q, c);
    GrowsBetween(l, ar, offs, k + 1, |offs|, c);
    assert offs[..|offs|] == offs && offs[..0] == [];
    NothingLoaded(l, ar, c);
    StillThere(l.out, s, t, LoadAll(l, ar, offs, c).out, h, a);
    StillThere(s, s, t, u, h, a) by { OutGrowsRefl(s); }
  }

  /** The offsets of the index that are not loaded yet: what bounds the number of productive passes. */
  ghost function Unloaded(ar: Ar, offs: seq<nat>): set<nat> {
    (set i | 0 <= i < |ar.index| :: ar.index[i].off) - (set k | 0 <= k < |offs| :: offs[k])
  }

  lemma FewerUnloaded(ar: Ar, offs: seq<nat>, i: nat)
    requires i < |ar.index| && ar.index[i].off !in offs
    ensures |Unloaded(ar, offs + [ar.index[i].off])| < |Unloaded(ar, offs)|
  {
    var o := ar.index[i].off;
    var more := offs + [o];
    assert (set k | 0 <= k < |more| :: more[k]) == (set k | 0 <= k < |offs| :: offs[k]) + {o} by {
      assert more[|offs|] == o;
      forall k | 0 <= k < |offs| ensures offs[k] in (set q | 0 <= q < |more| :: more[q]) {
        assert more[k] == offs[k];
      }
    }
    assert Unloaded(ar, more) == Unloaded(ar, offs) - {o};
    assert o in Unloaded(ar, offs);
  }

  lemma NothingLoaded(l: Link, ar: Ar, c: Numbers)
    requires |l.out| >= 1 && ar.WellFormed()
    ensures LoadAll(l, ar, [], c) == l
  {
  }

  /** The test of tcc_load_alacarte on one index name. */
  method IsWanted(st: SymbolTab, n: Name) returns (wanted: bool)
    requires st.Valid()
    ensures wanted == Wanted(st.Contents(), n)
  {
    var j := st.FindSym(n);
    if j == 0 {
      return false;
    }
    assert st.Contents()[j].a == st.syms[j].a;
    wanted := !(st.syms[j].a.shndx != SHN_UNDEF && st.syms[j].a.bind != STB_WEAK);
  }

  /** tcc_load_alacarte */
  method LoadAlacarte(link: Linker, ar: Ar) returns (ok: bool, loaded: seq<nat>)
    requires link.Valid() && ar.WellFormed()
    modifies link`out, link.st
    ensures link.Valid() && Loads(old(link.State()), ar, loaded, link.Nums())
    ensures ok ==> link.State() == LoadAll(old(link.State()), ar, loaded, link.Nums())
    ensures ok ==> Closed(link.st.Contents(), ar, loaded, |ar.index|)
    ensures !ok ==> var now := LoadAll(old(link.State()), ar, loaded, link.Nums());
                    exists i :: 0 <= i < |ar.index| && ar.index[i].off !in loaded && Wanted(now.table, ar.index[i].name)
                      && (ar.index[i].off in ar.members ==> !Load(now, ar.members[ar.index[i].off], link.Nums()).1)
  {
    hide Load, Threaded, NamesEnd, Entries, Wanted, LoadAll, Asked, Unloaded, AddAll, Unique;
    ghost var l, c := link.State(), link.Nums();
    loaded := [];
    NothingLoaded(l, ar, c);
    var bound := 1;
    while bound != 0
      invariant link.Valid() && Loads(l, ar, loaded, c) && link.State() == LoadAll(l, ar, loaded, c)
      invariant bound == 0 ==> Closed(link.st.Contents(), ar, loaded, |ar.index|)
      decreases |Unloaded(ar, loaded)|, bound
    {
      bound := 0;
      ghost var start := loaded;
      var i := 0;
      while i < |ar.index|
        invariant 0 <= i <= |ar.index| && bound >= 0
        invariant link.Valid() && Loads(l, ar, loaded, c) && link.State() == LoadAll(l, ar, loaded, c)
        invariant bound == 0 ==> loaded == start && Closed(link.st.Contents(), ar, loaded, i)
        invariant bound > 0 ==> |Unloaded(ar, loaded)| < |Unloaded(ar, start)|
      {
        var e := ar.index[i];
        var wanted := IsWanted(link.st, e.name);
        if wanted && e.off !in loaded {
          if e.off !in ar.members {
            return false, loaded;
          }
          var done := link.LoadObject(ar.members[e.off]);
          if !done {
            return false, loaded;
          }
          OneMoreLoad(l, ar, loaded, i, c);
          FewerUnloaded(ar, loaded, i);
          loaded := loaded + [e.off];
          bound := bound + 1;
        }
        i := i + 1;
      }
    }
    ok := true;
  }
}
