/** Merging an object file into the link: its sections are appended to the sections of their names, and its symbols go
    to the symbol table with the offsets of their sections added. */
module ObjectFile {
  import opened Words
  import opened Align
  import opened SymbolTable
  import opened SymbolSection
  import opened Definitions

  const SHT_PROGBITS: nat := 1
  const SHT_SYMTAB: nat := 2
  const SHT_RELA: nat := 4
  const SHT_NOBITS: nat := 8
  const SHT_INIT_ARRAY: nat := 14
  const SHT_FINI_ARRAY: nat := 15
  const SHT_PREINIT_ARRAY: nat := 16

  /** A section of the output; `size` is data_offset. */
  datatype Section = Section(name: Name, typ: nat, size: nat, align: nat)

  /** A section header of the object. */
  datatype Header = Header(name: Name, typ: nat, size: nat, align: nat, info: nat) {
    function Alignment(): (a: nat) ensures a > 0 { if align < 1 then 1 else align }
  }

  /** Where a section of the object went. */
  datatype Placement = Placement(num: nat, offset: nat)

  predicate InSection(a: Attrs) { a.shndx != SHN_UNDEF && a.shndx < SHN_LORESERVE }

  /** An object: section headers, the number of the one with their names, and symbols after the null symbol.  `readable`
      is false if the file is refused before anything is merged, `sound` if a relocation names no symbol that was kept. */
  datatype Object = Object(headers: seq<Header>, shstr: nat, symbols: seq<Entry>, readable: bool, sound: bool) {
    predicate WellFormed() {
      && (forall i :: 0 <= i < |headers| && headers[i].typ == SHT_RELA ==> headers[i].info < |headers|)
      && (forall k :: 0 <= k < |symbols| ==> 0 !in symbols[k].name && (InSection(symbols[k].a) ==> symbols[k].a.shndx < |headers|))
    }

    /** The sections that are merged: of the kinds with contents, and relocations against those. */
    predicate Merged(i: nat)
      requires WellFormed() && i < |headers|
    {
      i != 0 && i != shstr
      && (if headers[i].typ == SHT_RELA then headers[headers[i].info].typ else headers[i].typ)
         in {SHT_PROGBITS, SHT_NOBITS, SHT_PREINIT_ARRAY, SHT_INIT_ARRAY, SHT_FINI_ARRAY}
    }
  }

  // ---------------------------------------------------------------- sections

  /** The first output section of that name, or their number. */
  function Named(out: seq<Section>, name: Name, from: nat): (j: nat)
    requires 1 <= from <= |out|
    ensures from <= j <= |out| && (j < |out| ==> out[j].name == name)
    ensures forall k :: from <= k < j ==> out[k].name != name
    decreases |out| - from
  {
    if from == |out| || out[from].name == name then from else Named(out, name, from + 1)
  }

  datatype Placing = Placing(out: seq<Section>, placed: seq<Option<Placement>>, ok: bool)

  /** One section appended to the output section of its name, which must have its type. */
  function Append(out: seq<Section>, h: Header): (Section, Placement)
    requires |out| >= 1
  {
    var j := Named(out, h.name, 1);
    var s := if j < |out| then out[j] else Section(h.name, h.typ, 0, h.Alignment());
    var at := AlignUp(s.size, h.Alignment());
    (s.(size := at + h.size, align := if h.Alignment() > s.align then h.Alignment() else s.align), Placement(j, at))
  }

  /** Section `i` of the object, after those before it. */
  function PlaceOne(p: Placing, o: Object, i: nat, symtab: nat): (q: Placing)
    requires |p.out| >= 1 && o.WellFormed() && i < |o.headers|
    ensures |q.out| >= 1
  {
    var h := o.headers[i];
    if !o.Merged(i) then
      p.(placed := p.placed + [if i != 0 && h.typ == SHT_SYMTAB then Some(Placement(symtab, 0)) else None])
    else
      var (s, at) := Append(p.out, h);
      if s.typ != h.typ then p.(ok := false)
      else Placing(if at.num < |p.out| then p.out[at.num := s] else p.out + [s], p.placed + [Some(at)], true)
  }

  /** The first `k` sections of the object; a section of another type than the output section of its name ends it. */
  function Place(out: seq<Section>, o: Object, symtab: nat, k: nat): (p: Placing)
    requires |out| >= 1 && o.WellFormed() && k <= |o.headers|
    ensures |p.out| >= 1 && (p.ok ==> |p.placed| == k)
  {
    if k == 0 then Placing(out, [], true)
    else
      var p := Place(out, o, symtab, k - 1);
      if p.ok then PlaceOne(p, o, k - 1, symtab) else p
  }

  lemma {:induction false} PlaceFails(out: seq<Section>, o: Object, symtab: nat, k: nat, n: nat)
    requires |out| >= 1 && o.WellFormed() && k <= n <= |o.headers|
    ensures !Place(out, o, symtab, k).ok ==> Place(out, o, symtab, n) == Place(out, o, symtab, k)
    decreases n
  {
    if k < n {
      PlaceFails(out, o, symtab, k, n - 1);
    }
  }

  /** Output sections keep their number, name and type, and never shrink. */
  ghost predicate OutGrows(a: seq<Section>, b: seq<Section>) {
    |a| <= |b| && forall j :: 1 <= j < |a| ==> SectionGrows(a[j], b[j])
  }

  predicate SectionGrows(a: Section, b: Section) {
    b.name == a.name && b.typ == a.typ && a.size <= b.size && a.align <= b.align
  }

  /** No two output sections have the same name. */
  ghost predicate NamesDiffer(out: seq<Section>) {
    forall j, k :: 1 <= j < k < |out| ==> out[j].name != out[k].name
  }

  /** Header `h` went to `at`: to a section of its name and type, aligned, after what was there before, and inside of
      what is there now. */
  ghost predicate WentTo(was: seq<Section>, out: seq<Section>, h: Header, at: Placement) {
    && 1 <= at.num < |out| && out[at.num].name == h.name && out[at.num].typ == h.typ
    && Multiple(at.offset, h.Alignment()) && h.Alignment() <= out[at.num].align
    && (at.num < |was| ==> was[at.num].size <= at.offset) && at.offset + h.size <= out[at.num].size
  }

  lemma AppendIs(p: Placing, o: Object, i: nat, symtab: nat)
    requires |p.out| >= 1 && o.WellFormed() && i < |o.headers| && p.ok
    ensures var q := PlaceOne(p, o, i, symtab);
            && OutGrows(p.out, q.out) && (NamesDiffer(p.out) ==> NamesDiffer(q.out))
            && (q.ok && o.Merged(i) ==>
                  var last := q.placed[|q.placed| - 1]; last.Some? && WentTo(p.out, q.out, o.headers[i], last.value))
  {
    hide Multiple;
    var h := o.headers[i];
    if o.Merged(i) {
      AlignedUp(Append(p.out, h).0.size, h.Alignment());
      var j := Named(p.out, h.name, 1);
      AlignedUp(if j < |p.out| then p.out[j].size else 0, h.Alignment());
    }
  }

  lemma OutGrowsTransitively(a: seq<Section>, b: seq<Section>, c: seq<Section>)
    requires OutGrows(a, b) && OutGrows(b, c)
    ensures OutGrows(a, c)
  {
    forall j | 1 <= j < |a| ensures SectionGrows(a[j], c[j]) {
      assert SectionGrows(a[j], b[j]) && SectionGrows(b[j], c[j]);
    }
  }

  lemma StillThere(a: seq<Section>, was: seq<Section>, b: seq<Section>, c: seq<Section>, h: Header, at: Placement)
    requires OutGrows(a, was) && WentTo(was, b, h, at) && OutGrows(b, c)
    ensures WentTo(a, c, h, at)
  {
    assert SectionGrows(b[at.num], c[at.num]);
    if 1 <= at.num < |a| { assert SectionGrows(a[at.num], was[at.num]); }
  }

  /** The merged ones among the first sections of the object went to these places. */
  ghost predicate AllWentTo(was: seq<Section>, out: seq<Section>, o: Object, placed: seq<Option<Placement>>)
    requires o.WellFormed() && |placed| <= |o.headers|
  {
    forall i :: 0 <= i < |placed| && o.Merged(i) ==> placed[i].Some? && WentTo(was, out, o.headers[i], placed[i].value)
  }

  lemma OneMorePlaced(was: seq<Section>, p: Placing, q: Placing, o: Object)
    requires o.WellFormed() && |q.placed| == |p.placed| + 1 <= |o.headers| && q.placed[..|p.placed|] == p.placed
    requires OutGrows(was, p.out) && OutGrows(p.out, q.out) && AllWentTo(was, p.out, o, p.placed)
    requires var k := |p.placed|; o.Merged(k) ==> q.placed[k].Some? && WentTo(p.out, q.out, o.headers[k], q.placed[k].value)
    ensures AllWentTo(was, q.out, o, q.placed)
  {
    hide WentTo, OutGrows;
    var k := |p.placed|;
    OutGrowsRefl(was);
    OutGrowsRefl(q.out);
    forall i | 0 <= i < |q.placed| && o.Merged(i)
      ensures q.placed[i].Some? && WentTo(was, q.out, o.headers[i], q.placed[i].value)
    {
      if i < k {
        assert q.placed[i] == p.placed[i];
        StillThere(was, was, p.out, q.out, o.headers[i], p.placed[i].value);
      } else {
        StillThere(was, p.out, q.out, q.out, o.headers[i], q.placed[i].value);
      }
    }
  }

  /** Merging an object keeps the output sections and their contents, and puts every merged section of the object after
      them. */
  lemma {:induction false} SectionsKept(out: seq<Section>, o: Object, symtab: nat, k: nat)
    requires |out| >= 1 && o.WellFormed() && k <= |o.headers|
    ensures var p := Place(out, o, symtab, k);
            OutGrows(out, p.out) && (NamesDiffer(out) ==> NamesDiffer(p.out)) && (p.ok ==> AllWentTo(out, p.out, o, p.placed))
  {
    hide WentTo, OutGrows, NamesDiffer, PlaceOne;
    if k == 0 {
      OutGrowsRefl(out);
    } else {
      hide AllWentTo;
      SectionsKept(out, o, symtab, k - 1);
      var p := Place(out, o, symtab, k - 1);
      if p.ok {
        var q := PlaceOne(p, o, k - 1, symtab);
        AppendIs(p, o, k - 1, symtab);
        PlacedPrefix(p, o, k - 1, symtab);
        OutGrowsTransitively(out, p.out, q.out);
        if q.ok { OneMorePlaced(out, p, q, o); }
      }
    }
  }

  lemma OutGrowsRefl(out: seq<Section>)
    ensures OutGrows(out, out)
  {
  }

  lemma PlacedPrefix(p: Placing, o: Object, i: nat, symtab: nat)
    requires |p.out| >= 1 && o.WellFormed() && i < |o.headers| && |p.placed| == i
    ensures var q := PlaceOne(p, o, i, symtab); q.ok && p.ok ==> |q.placed| == i + 1 && q.placed[..i] == p.placed
  {
  }

  lemma {:induction false} PlacedBefore(out: seq<Section>, o: Object, symtab: nat, i: nat, k: nat)
    requires |out| >= 1 && o.WellFormed() && i < k <= |o.headers| && Place(out, o, symtab, k).ok
    ensures Place(out, o, symtab, i).ok && Place(out, o, symtab, i + 1).ok
    ensures Place(out, o, symtab, k).placed[i] == Place(out, o, symtab, i + 1).placed[i]
    decreases k
  {
    hide PlaceOne;
    PlaceFails(out, o, symtab, i, k);
    PlaceFails(out, o, symtab, i + 1, k);
    PlaceFails(out, o, symtab, k - 1, k);
    if i < k - 1 {
      PlacedBefore(out, o, symtab, i, k - 1);
      PlacedPrefix(Place(out, o, symtab, k - 1), o, k - 1, symtab);
    }
  }

  /** Sections of one object that share an output section lie one after the other, in their order. */
  lemma PlacedApart(out: seq<Section>, o: Object, symtab: nat, i: nat, k: nat)
    requires |out| >= 1 && o.WellFormed() && i < k < |o.headers| && o.Merged(i) && o.Merged(k)
    requires Place(out, o, symtab, |o.headers|).ok
    ensures var placed := Place(out, o, symtab, |o.headers|).placed;
            && placed[i].Some? && placed[k].Some?
            && (placed[i].value.num == placed[k].value.num ==>
                  placed[i].value.offset + o.headers[i].size <= placed[k].value.offset)
  {
    hide PlaceOne, Multiple;
    PlacedBefore(out, o, symtab, i, |o.headers|);
    PlacedBefore(out, o, symtab, k, |o.headers|);
    PlacedBefore(out, o, symtab, i, k);
    SectionsKept(out, o, symtab, k);
    AppendIs(Place(out, o, symtab, k), o, k, symtab);
  }

  /** Which sections are merged, by the numbers of the ELF standard: those with the contents of a program or with pointers
      to be called at start and end, and relocations against such. */
  lemma MergedExactly(o: Object, i: nat)
    requires o.WellFormed() && i < |o.headers|
    ensures var t := if o.headers[i].typ == 4 then o.headers[o.headers[i].info].typ else o.headers[i].typ;
            o.Merged(i) <==> i != 0 && i != o.shstr && (t == 1 || t == 8 || t == 14 || t == 15 || t == 16)
  {
  }

  /** A merged section lies at the first place from the end of its output section on that is aligned for it, and ends that
      section now; the other output sections are as they were. */
  lemma PlacedTight(out: seq<Section>, o: Object, symtab: nat, i: nat)
    requires |out| >= 1 && o.WellFormed() && i < |o.headers| && o.Merged(i) && Place(out, o, symtab, |o.headers|).ok
    ensures var p, q := Place(out, o, symtab, i).out, Place(out, o, symtab, i + 1).out;
            var at, h := Place(out, o, symtab, |o.headers|).placed[i], o.headers[i];
            && at.Some? && 1 <= at.value.num < |q| && |p| <= |q| <= |p| + 1
            && LeastMultiple(at.value.offset, if at.value.num < |p| then p[at.value.num].size else 0, h.Alignment())
            && q[at.value.num].size == at.value.offset + h.size
            && forall j :: 0 <= j < |p| && j != at.value.num ==> q[j] == p[j]
  {
    hide Multiple, AlignUp;
    PlacedBefore(out, o, symtab, i, |o.headers|);
    var p, h := Place(out, o, symtab, i), o.headers[i];
    var j := Named(p.out, h.name, 1);
    AlignUpIsLeast(if j < |p.out| then p.out[j].size else 0, h.Alignment());
  }

  /** Of the sections that are not merged, the symbol table's stands for the output's, and the others are dropped. */
  lemma NotMerged(out: seq<Section>, o: Object, symtab: nat, i: nat)
    requires |out| >= 1 && o.WellFormed() && i < |o.headers| && !o.Merged(i) && Place(out, o, symtab, |o.headers|).ok
    ensures Place(out, o, symtab, |o.headers|).placed[i]
         == if i != 0 && o.headers[i].typ == SHT_SYMTAB then Some(Placement(symtab, 0)) else None
  {
    PlacedBefore(out, o, symtab, i, |o.headers|);
  }

  // ---------------------------------------------------------------- symbols

  /** A symbol as it is added: a symbol of a section moves with it, one of a section that was dropped is skipped. */
  function Relocated(e: Entry, placed: seq<Option<Placement>>): Option<Entry>
    requires InSection(e.a) ==> e.a.shndx < |placed|
  {
    if !InSection(e.a) then Some(e)
    else match placed[e.a.shndx]
      case None => None
      case Some(at) => Some(Entry(e.name, e.a.(shndx := at.num, value := e.a.value + at.offset)))
  }

  ghost predicate SymbolsIn(symbols: seq<Entry>, n: nat) {
    forall k :: 0 <= k < |symbols| && InSection(symbols[k].a) ==> symbols[k].a.shndx < n
  }

  lemma KeptNone(placed: seq<Option<Placement>>)
    ensures Kept([], placed) == []
  {
  }

  /** The symbols that are added, in their order. */
  function Kept(symbols: seq<Entry>, placed: seq<Option<Placement>>): seq<Entry>
    requires SymbolsIn(symbols, |placed|)
  {
    if symbols == [] then []
    else
      var k := |symbols| - 1;
      match Relocated(symbols[k], placed)
      case None => Kept(symbols[..k], placed)
      case Some(e) => Kept(symbols[..k], placed) + [e]
  }

  lemma {:induction false} KeptNames(symbols: seq<Entry>, placed: seq<Option<Placement>>)
    requires SymbolsIn(symbols, |placed|) && forall k :: 0 <= k < |symbols| ==> 0 !in symbols[k].name
    ensures forall k :: 0 <= k < |Kept(symbols, placed)| ==> 0 !in Kept(symbols, placed)[k].name
  {
    if symbols != [] {
      KeptNames(symbols[..|symbols| - 1], placed);
    }
  }

  /** The symbol is in a section that was dropped. */
  predicate Dropped(e: Entry, placed: seq<Option<Placement>>) {
    1 <= e.a.shndx < 0xff00 && e.a.shndx < |placed| && placed[e.a.shndx] == None
  }

  /** `f` is `e` moved with its section: that section's number, and the value counted from its new place. */
  predicate MovedTo(e: Entry, f: Entry, placed: seq<Option<Placement>>) {
    if 1 <= e.a.shndx < 0xff00 then
      && e.a.shndx < |placed| && placed[e.a.shndx].Some?
      && var at := placed[e.a.shndx].value;
      && f.name == e.name && f.a.shndx == at.num && f.a.value == e.a.value + at.offset
      && f.a.size == e.a.size && f.a.bind == e.a.bind && f.a.typ == e.a.typ && f.a.other == e.a.other
    else f == e
  }

  /** Exactly the symbols of sections that were not dropped are added, each once, in their order, moved with their
      sections. */
  lemma {:induction false} KeptAll(symbols: seq<Entry>, placed: seq<Option<Placement>>) returns (from: seq<nat>)
    requires SymbolsIn(symbols, |placed|)
    ensures |from| == |Kept(symbols, placed)|
    ensures forall i :: 0 <= i < |from| ==> from[i] < |symbols| && MovedTo(symbols[from[i]], Kept(symbols, placed)[i], placed)
    ensures forall i, j :: 0 <= i < j < |from| ==> from[i] < from[j]
    ensures forall k: nat :: k in from <==> k < |symbols| && !Dropped(symbols[k], placed)
  {
    from := [];
    if symbols != [] {
      var n := |symbols| - 1;
      from := KeptAll(symbols[..n], placed);
      if !Dropped(symbols[n], placed) {
        from := from + [n];
      }
    }
  }

  // ---------------------------------------------------------------- the link

  datatype Link = Link(table: Table, out: seq<Section>)

  /** The numbers of the symbol table's and the bss section. */
  datatype Numbers = Numbers(symtab: nat, bss: nat)

  function Load(l: Link, o: Object, c: Numbers): (r: (Link, bool))
    requires |l.out| >= 1 && o.WellFormed()
    ensures |r.0.out| >= 1
  {
    if !o.readable then (l, false)
    else
      var p := Place(l.out, o, c.symtab, |o.headers|);
      if !p.ok then (Link(l.table, p.out), false)
      else (Link(AddAll(l.table, Kept(o.symbols, p.placed), c.bss).table, p.out), o.sound)
  }

  lemma LoadGrows(l: Link, o: Object, c: Numbers)
    requires |l.out| >= 1 && o.WellFormed()
    ensures OutGrows(l.out, Load(l, o, c).0.out)
  {
    hide Place, OutGrows;
    OutGrowsRefl(l.out);
    SectionsKept(l.out, o, c.symtab, |o.headers|);
  }

  /** After an object is loaded the name of each global symbol it keeps is found, and nothing there before is lost. */
  lemma LoadResolves(l: Link, o: Object, c: Numbers, k: nat)
    requires |l.out| >= 1 && o.WellFormed() && o.readable && Place(l.out, o, c.symtab, |o.headers|).ok
    requires |l.table| >= 1 && Unique(l.table) && k < |o.symbols|
    ensures var r, placed := Load(l, o, c).0, Place(l.out, o, c.symtab, |o.headers|).placed;
            && Unique(r.table) && Grows(l.table, r.table) && OutGrows(l.out, r.out)
            && (!Dropped(o.symbols[k], placed) && !o.symbols[k].Local() ==> Find(r.table, o.symbols[k].name) != 0)
  {
    hide AddAll, Find, Grows, OutGrows, Place, Kept, Unique;
    var placed := Place(l.out, o, c.symtab, |o.headers|).placed;
    var xs := Kept(o.symbols, placed);
    SectionsKept(l.out, o, c.symtab, |o.headers|);
    RunResolves(l.table, xs, c.bss);
    var from := KeptAll(o.symbols, placed);
    if k in from {
      var i :| 0 <= i < |from| && from[i] == k;
      assert Resolved(AddAll(l.table, xs, c.bss).table, AddAll(l.table, xs, c.bss).indices[i], xs[i]);
    }
  }

  /** Symbol `k` is the one definition of its name: no other global symbol of the object defines it. */
  ghost predicate Defines(o: Object, k: nat) {
    && k < |o.symbols| && !o.symbols[k].Local() && o.symbols[k].a.Defined()
    && forall i :: 0 <= i < |o.symbols| && i != k && o.symbols[i].Named(o.symbols[k].name) ==> !o.symbols[i].a.Defined()
  }

  /** Around the place of symbol `k` nothing that is added defines its name. */
  lemma OthersUndefined(o: Object, placed: seq<Option<Placement>>, k: nat) returns (i: nat)
    requires SymbolsIn(o.symbols, |placed|) && Defines(o, k) && !Dropped(o.symbols[k], placed)
    ensures var xs := Kept(o.symbols, placed);
            && i < |xs| && MovedTo(o.symbols[k], xs[i], placed)
            && Undefining(xs[..i], xs[i].name) && Undefining(xs[i + 1..], xs[i].name)
  {
    hide Kept;
    var xs := Kept(o.symbols, placed);
    var from := KeptAll(o.symbols, placed);
    i :| 0 <= i < |from| && from[i] == k;
    forall j | 0 <= j < |xs| && j != i && xs[j].Named(xs[i].name) ensures !xs[j].a.Defined() {
      assert from[j] != k;
      assert MovedTo(o.symbols[from[j]], xs[j], placed);
    }
  }

  /** A name that the table does not define and that one symbol of the object defines stands for that symbol afterwards:
      in the output section its section went to, as far into it as it was, counted from where its section starts there. */
  lemma LoadDefines(l: Link, o: Object, c: Numbers, k: nat)
    requires |l.out| >= 1 && o.WellFormed() && o.readable && Place(l.out, o, c.symtab, |o.headers|).ok
    requires |l.table| >= 1 && Unique(l.table) && c.symtab != 0 && Defines(o, k) && !DefinedIn(l.table, o.symbols[k].name)
    requires !Dropped(o.symbols[k], Place(l.out, o, c.symtab, |o.headers|).placed)
    ensures var r, placed := Load(l, o, c).0, Place(l.out, o, c.symtab, |o.headers|).placed;
            var e, j := o.symbols[k], Find(r.table, o.symbols[k].name);
            && 0 < j < |r.table| && r.table[j].a.size == e.a.size && r.table[j].a.bind == e.a.bind && r.table[j].a.typ == e.a.typ
            && if 1 <= e.a.shndx < 0xff00 then
                 && placed[e.a.shndx].Some?
                 && var at := placed[e.a.shndx].value;
                 && r.table[j].a.shndx == at.num && r.table[j].a.value == e.a.value + at.offset
                 && (o.Merged(e.a.shndx) && e.a.value < o.headers[e.a.shndx].size ==>
                       && 1 <= at.num < |r.out| && r.out[at.num].name == o.headers[e.a.shndx].name
                       && (at.num < |l.out| ==> l.out[at.num].size <= r.table[j].a.value)
                       && at.offset <= r.table[j].a.value < at.offset + o.headers[e.a.shndx].size <= r.out[at.num].size)
               else r.table[j].a.shndx == e.a.shndx && r.table[j].a.value == e.a.value
  {
    hide AddAll, Place, Kept, Unique, Undefining, Defines;
    var placed := Place(l.out, o, c.symtab, |o.headers|).placed;
    SectionsKept(l.out, o, c.symtab, |o.headers|);
    DefinesOne(o, k);
    var i := OthersUndefined(o, placed, k);
    var e := o.symbols[k];
    if 1 <= e.a.shndx < 0xff00 {
      if o.Merged(e.a.shndx) {
        assert WentTo(l.out, Place(l.out, o, c.symtab, |o.headers|).out, o.headers[e.a.shndx], placed[e.a.shndx].value);
      } else {
        NotMerged(l.out, o, c.symtab, e.a.shndx);
      }
    }
    SingleDefinition(l.table, Kept(o.symbols, placed), i, c.bss);
  }

  lemma DefinesOne(o: Object, k: nat)
    requires Defines(o, k)
    ensures k < |o.symbols| && !o.symbols[k].Local() && o.symbols[k].a.Defined()
  {
  }

  class Linker {
    const st: SymbolTab
    const symtab: nat
    var out: seq<Section>

    ghost predicate Valid()
      reads this, st
    {
      |out| >= 1 && st.Valid()
    }

    ghost function State(): Link
      requires Valid()
      reads this, st
    {
      Link(st.Contents(), out)
    }

    function Nums(): Numbers
    {
      Numbers(symtab, st.bss)
    }

    constructor (table: SymbolTab, number: nat, sections: seq<Section>)
      requires table.Valid() && |sections| >= 1
      ensures Valid() && st == table && symtab == number && out == sections
    {
      st, symtab, out := table, number, sections;
    }

    method FindSection(name: Name) returns (j: nat)
      requires |out| >= 1
      ensures j == Named(out, name, 1)
    {
      j := 1;
      while j < |out| && out[j].name != name
        invariant 1 <= j <= |out| && Named(out, name, 1) == Named(out, name, j)
      {
        j := j + 1;
      }
    }

    /** The pass over the object's section headers. */
    method PlaceSections(o: Object) returns (ok: bool, placed: seq<Option<Placement>>)
      requires |out| >= 1 && o.WellFormed()
      modifies this`out
      ensures var p := Place(old(out), o, symtab, |o.headers|); out == p.out && ok == p.ok && (ok ==> placed == p.placed)
    {
      ghost var was := out;
      placed := [];
      var i := 0;
      while i < |o.headers|
        invariant 0 <= i <= |o.headers| && Place(was, o, symtab, i) == Placing(out, placed, true)
      {
        PlaceFails(was, o, symtab, i + 1, |o.headers|);
        var h := o.headers[i];
        if !o.Merged(i) {
          placed := placed + [if i != 0 && h.typ == SHT_SYMTAB then Some(Placement(symtab, 0)) else None];
          i := i + 1;
          continue;
        }
        var j := FindSection(h.name);
        var s := if j < |out| then out[j] else Section(h.name, h.typ, 0, h.Alignment());
        if s.typ != h.typ {
          return false, placed;
        }
        var at := AlignUp(s.size, h.Alignment());
        s := s.(size := at + h.size, align := if h.Alignment() > s.align then h.Alignment() else s.align);
        out := if j < |out| then out[j := s] else out + [s];
        placed := placed + [Some(Placement(j, at))];
        i := i + 1;
      }
      ok := true;
    }

    /** The pass over the object's symbols. */
    method AddSymbols(symbols: seq<Entry>, placed: seq<Option<Placement>>)
      requires Valid() && SymbolsIn(symbols, |placed|) && forall k :: 0 <= k < |symbols| ==> 0 !in symbols[k].name
      modifies st
      ensures Valid() && st.Contents() == AddAll(old(st.Contents()), Kept(symbols, placed), st.bss).table
    {
      hide Add, AddAll, Kept, Entries, Threaded, NamesEnd;
      ghost var t := st.Contents();
      KeptNone(placed);
      AddAllNothing(t, st.bss);
      assert symbols[..0] == [];
      for k := 0 to |symbols|
        invariant Valid() && st.Contents() == AddAll(t, Kept(symbols[..k], placed), st.bss).table
      {
        KeptStep(symbols, placed, k);
        match Relocated(symbols[k], placed) {
          case None =>
            assert Kept(symbols[..k + 1], placed) == Kept(symbols[..k], placed);
          case Some(e) =>
            ghost var xs := Kept(symbols[..k], placed);
            AddAllStep(t, xs + [e], |xs|, st.bss);
            assert (xs + [e])[..|xs|] == xs && (xs + [e])[..|xs| + 1] == xs + [e];
            assert e.name == symbols[k].name;
            var _ := st.SetSym(e.name, e.a);
        }
      }
      assert symbols[..|symbols|] == symbols;
    }

    /** tcc_load_object_file as far as sections and the symbol table go. */
    method LoadObject(o: Object) returns (ok: bool)
      requires Valid() && o.WellFormed()
      modifies this`out, st
      ensures Valid() && (State(), ok) == Load(old(State()), o, Nums())
    {
      hide AddAll, Place, Kept, Entries, Threaded, NamesEnd;
      if !o.readable {
        return false;
      }
      var placed;
      ok, placed := PlaceSections(o);
      if !ok {
        return;
      }
      AddSymbols(o.symbols, placed);
      ok := o.sound;
    }
  }

  lemma KeptStep(symbols: seq<Entry>, placed: seq<Option<Placement>>, k: nat)
    requires SymbolsIn(symbols, |placed|) && k < |symbols|
    ensures SymbolsIn(symbols[..k], |placed|) && SymbolsIn(symbols[..k + 1], |placed|)
    ensures Kept(symbols[..k + 1], placed)
         == Kept(symbols[..k], placed) + (match Relocated(symbols[k], placed) case None => [] case Some(e) => [e])
  {
    hide Relocated;
    var some := symbols[..k + 1];
    assert some[..|some| - 1] == symbols[..k] && some[|some| - 1] == symbols[k];
  }
}
