/** Sorting the symbol table for the output file: local symbols first, relocations renumbered. */
module SymbolSort {
  import opened SymbolTable
  import opened SymbolSection

  function Locals(t: Table): (s: Table) {
    if t == [] then []
    else Locals(t[..|t| - 1]) + if t[|t| - 1].Local() then [t[|t| - 1]] else []
  }

  function Others(t: Table): (s: Table) {
    if t == [] then []
    else Others(t[..|t| - 1]) + if t[|t| - 1].Local() then [] else [t[|t| - 1]]
  }

  /** Both parts in their old order. */
  function Sorted(t: Table): Table { Locals(t) + Others(t) }

  /** Where entry `i` goes. */
  function Place(t: Table, i: nat): (j: nat)
    requires i < |t|
  {
    if t[i].Local() then |Locals(t[..i])| else |Locals(t)| + |Others(t[..i])|
  }

  lemma {:induction false} PartsGrow(t: Table, i: nat)
    requires i <= |t|
    ensures |Locals(t[..i])| <= |Locals(t)| && Locals(t)[..|Locals(t[..i])|] == Locals(t[..i])
    ensures |Others(t[..i])| <= |Others(t)| && Others(t)[..|Others(t[..i])|] == Others(t[..i])
    decreases |t|
  {
    if i == |t| {
      assert t[..i] == t;
    } else {
      var init := t[..|t| - 1];
      PartsGrow(init, i);
      assert init[..i] == t[..i];
    }
  }

  lemma PlaceOfPart(t: Table, i: nat)
    requires i < |t|
    ensures t[i].Local() ==> |Locals(t[..i])| < |Locals(t)| && Locals(t)[|Locals(t[..i])|] == t[i]
    ensures !t[i].Local() ==> |Others(t[..i])| < |Others(t)| && Others(t)[|Others(t[..i])|] == t[i]
  {
    PartsGrow(t, i + 1);
    assert t[..i + 1][..i] == t[..i];
    var n, m := |Locals(t[..i])|, |Others(t[..i])|;
    if t[i].Local() {
      assert Locals(t[..i + 1]) == Locals(t[..i]) + [t[i]];
      assert Locals(t)[n] == Locals(t)[..n + 1][n];
    } else {
      assert Others(t[..i + 1]) == Others(t[..i]) + [t[i]];
      assert Others(t)[m] == Others(t)[..m + 1][m];
    }
  }

  /** Every entry is found at its place. */
  lemma FoundAtItsPlace(t: Table, i: nat)
    requires i < |t|
    ensures Place(t, i) < |Sorted(t)| && Sorted(t)[Place(t, i)] == t[i]
  {
    PlaceOfPart(t, i);
  }

  /** Entries of one part keep their order, and locals come before the others: places differ. */
  lemma OrderKept(t: Table, i: nat, k: nat)
    requires i < k < |t|
    ensures t[i].Local() == t[k].Local() ==> Place(t, i) < Place(t, k)
    ensures t[i].Local() && !t[k].Local() ==> Place(t, i) < Place(t, k)
    ensures !t[i].Local() && t[k].Local() ==> Place(t, k) < Place(t, i)
  {
    PlaceOfPart(t, i);
    PlaceOfPart(t, k);
    PartsGrow(t[..k], i + 1);
    assert t[..k][..i + 1] == t[..i + 1] && t[..i + 1][..i] == t[..i];
  }

  lemma PartsAreAll(t: Table)
    ensures |Sorted(t)| == |t| && multiset(Sorted(t)) == multiset(t)
    ensures forall i :: 0 <= i < |Locals(t)| ==> Locals(t)[i].Local()
    ensures forall i :: 0 <= i < |Others(t)| ==> !Others(t)[i].Local()
  {
    hide Locals, Others;
    PartsCount(t);
    PartsSeparate(t);
  }

  lemma SnocCount(a: Table, x: Entry)
    ensures multiset(a + [x]) == multiset(a) + multiset{x}
  {
  }

  lemma AddOne(a: multiset<Entry>, b: multiset<Entry>, c: multiset<Entry>, x: Entry)
    requires a + b == c
    ensures (a + multiset{x}) + b == c + multiset{x} && a + (b + multiset{x}) == c + multiset{x}
  {
  }

  lemma NoEntries()
    ensures |Locals([])| + |Others([])| == 0 && multiset(Locals([])) + multiset(Others([])) == multiset{}
  {
  }

  lemma {:induction false} PartsCount(t: Table)
    ensures |Locals(t)| + |Others(t)| == |t| && multiset(Locals(t)) + multiset(Others(t)) == multiset(t)
  {
    hide Locals, Others;
    if t == [] {
      NoEntries();
    } else {
      var init, x := t[..|t| - 1], t[|t| - 1];
      PartsCount(init);
      assert t[..|t| - 1 + 1] == t == init + [x];
      Snoc(t, |t| - 1);
      SnocCount(init, x);
      SnocCount(Locals(init), x);
      SnocCount(Others(init), x);
      AddOne(multiset(Locals(init)), multiset(Others(init)), multiset(init), x);
    }
  }

  lemma {:induction false} PartsSeparate(t: Table)
    ensures forall i :: 0 <= i < |Locals(t)| ==> Locals(t)[i].Local()
    ensures forall i :: 0 <= i < |Others(t)| ==> !Others(t)[i].Local()
  {
    if t != [] {
      PartsSeparate(t[..|t| - 1]);
    }
  }

  /** sh_info marks the first entry that is not local. */
  lemma InfoSeparates(t: Table, i: nat)
    requires i < |t|
    ensures |Sorted(t)| == |t| && (Sorted(t)[i].Local() <==> i < |Locals(t)|)
  {
    PartsAreAll(t);
  }

  lemma Snoc(t: Table, i: nat)
    requires i < |t|
    ensures Locals(t[..i + 1]) == Locals(t[..i]) + if t[i].Local() then [t[i]] else []
    ensures Others(t[..i + 1]) == Others(t[..i]) + if t[i].Local() then [] else [t[i]]
  {
    assert t[..i + 1][..i] == t[..i];
  }

  class Output {
    var syms: Table
    var info: nat
    /** The relocation sections of the output. */
    var sections: seq<RelocSection>

    /** Sorts the table; each relocation against it still names the entry it named, and nothing else of it changes. */
    method SortSyms(sized: bool)
      requires forall i :: 0 <= i < |sections| ==> Named(sections[i], |syms|)
      modifies this
      ensures syms == Sorted(old(syms)) && info == (if sized then |Locals(old(syms))| else old(info))
      ensures |sections| == |old(sections)|
      ensures forall i :: 0 <= i < |sections| ==>
                Named(sections[i], |syms|) && Follows(old(syms), syms, old(sections)[i], sections[i])
    {
      hide Locals, Others;
      ghost var t := syms;
      var newSyms, places := [], seq(|syms|, _ => 0);
      var i := 0;
      StartParts();
      while i < |syms|
        invariant syms == t && sections == old(sections) && info == old(info)
        invariant 0 <= i <= |syms| && newSyms == Locals(t[..i]) && |places| == |t|
        invariant forall k :: 0 <= k < i && t[k].Local() ==> places[k] == Place(t, k)
      {
        Snoc(t, i);
        if syms[i].Local() {
          places, newSyms := places[i := |newSyms|], newSyms + [syms[i]];
        }
        i := i + 1;
      }
      assert t[..i] == t;
      if sized {
        info := |newSyms|;
      }
      i := 0;
      while i < |syms|
        invariant syms == t && sections == old(sections) && info == if sized then |Locals(t)| else old(info)
        invariant 0 <= i <= |syms| && newSyms == Locals(t) + Others(t[..i]) && |places| == |t|
        invariant forall k :: 0 <= k < |t| && (t[k].Local() || k < i) ==> places[k] == Place(t, k)
      {
        Snoc(t, i);
        if !syms[i].Local() {
          places, newSyms := places[i := |newSyms|], newSyms + [syms[i]];
        }
        i := i + 1;
      }
      assert t[..i] == t;
      syms := newSyms;
      ghost var was := sections;
      Renumber(t, places);
      forall i | 0 <= i < |sections|
        ensures Named(sections[i], |syms|) && Follows(t, syms, was[i], sections[i])
      {
        MovedFollows(t, was[i], sections[i], places);
      }
    }

    /** The relocations follow, section by section. */
    method Renumber(ghost t: Table, places: seq<nat>)
      requires |places| == |t| && forall i :: 0 <= i < |sections| ==> Named(sections[i], |t|)
      modifies this`sections
      ensures |sections| == |old(sections)|
      ensures forall i :: 0 <= i < |sections| ==> Moved(old(sections)[i], sections[i], places)
    {
      ghost var was := sections;
      var i := 0;
      while i < |sections|
        invariant 0 <= i <= |sections| == |was|
        invariant forall k :: 0 <= k < i ==> Moved(was[k], sections[k], places)
        invariant forall k :: i <= k < |sections| ==> sections[k] == was[k]
      {
        if sections[i].ofSymtab {
          var rels, k := sections[i].rels, 0;
          while k < |rels|
            invariant 0 <= k <= |rels| == |was[i].rels|
            invariant forall m :: 0 <= m < k ==> rels[m] == was[i].rels[m].(sym := places[was[i].rels[m].sym])
            invariant forall m :: k <= m < |rels| ==> rels[m] == was[i].rels[m]
          {
            rels := rels[k := rels[k].(sym := places[rels[k].sym])];
            k := k + 1;
          }
          sections := sections[i := sections[i].(rels := rels)];
        }
        i := i + 1;
      }
    }
  }

  /** Relocations against the table name one of its `n` entries. */
  predicate Named(s: RelocSection, n: nat) {
    s.ofSymtab ==> forall k :: 0 <= k < |s.rels| ==> s.rels[k].sym < n
  }

  /** Only the symbol numbers of relocations against the table differ: they are mapped by `places`. */
  predicate Moved(s: RelocSection, s': RelocSection, places: seq<nat>)
    requires Named(s, |places|)
  {
    s'.ofSymtab == s.ofSymtab && s'.start == s.start && |s'.rels| == |s.rels|
    && (!s.ofSymtab ==> s' == s)
    && (s.ofSymtab ==> forall k :: 0 <= k < |s.rels| ==> s'.rels[k] == s.rels[k].(sym := places[s.rels[k].sym]))
  }

  /** Each relocation names the entry it named. */
  predicate Follows(t: Table, t': Table, s: RelocSection, s': RelocSection)
    requires Named(s, |t|) && Named(s', |t'|)
  {
    s'.ofSymtab == s.ofSymtab && s'.start == s.start && |s'.rels| == |s.rels|
    && (!s.ofSymtab ==> s' == s)
    && (s.ofSymtab ==> forall k :: 0 <= k < |s.rels| ==>
          s'.rels[k] == s.rels[k].(sym := s'.rels[k].sym) && t'[s'.rels[k].sym] == t[s.rels[k].sym])
  }

  lemma MovedFollows(t: Table, s: RelocSection, s': RelocSection, places: seq<nat>)
    requires |places| == |t| && Named(s, |t|) && Moved(s, s', places)
    requires forall k :: 0 <= k < |t| ==> places[k] == Place(t, k)
    ensures Named(s', |Sorted(t)|) && Follows(t, Sorted(t), s, s')
  {
    hide Locals, Others, Place, Sorted;
    if s.ofSymtab {
      forall k | 0 <= k < |s.rels|
        ensures s'.rels[k].sym < |Sorted(t)| && Sorted(t)[s'.rels[k].sym] == t[s.rels[k].sym]
      {
        FoundAtItsPlace(t, s.rels[k].sym);
      }
    }
  }

  lemma StartParts()
    ensures Locals([]) == [] && Others([]) == []
  {
  }
}
