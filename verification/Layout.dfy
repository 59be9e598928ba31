/** layout_sections: where every section goes in the file and in memory, and the two segments that load them. */
module Layout {
  import opened Align
  import opened Words

  /** A section; `offset` and `addr` are what the layout fills in. */
  datatype Section = Section(alloc: bool, write: bool, nobits: bool, size: nat, align: nat, offset: int, addr: int) {
    /** The bytes it takes in the file. */
    function FileSize(): nat { if nobits then 0 else size }

    /** Its turn: 0 and 1 for the initialised and the NOBITS sections of the read-execute segment, 2 and 3 for
        the read-write segment, 4 for everything that is not loaded. */
    function Turn(phnum: nat): nat {
      if phnum == 0 || !alloc then 4 else (if write then 2 else 0) + if nobits then 1 else 0
    }

    /** The same section before or after layout. */
    predicate SameAs(s: Section) {
      alloc == s.alloc && write == s.write && nobits == s.nobits && size == s.size && align == s.align
    }
  }

  datatype Phdr = Phdr(exec: bool, offset: int, vaddr: int, filesz: int, memsz: int)

  // ---------------------------------------------------------------- what the layout keeps

  /** Section `q` comes before section `r`: an earlier turn, or the same turn and a smaller number. */
  predicate Earlier(s: seq<Section>, phnum: nat, q: nat, r: nat)
    requires q < |s| && r < |s|
  {
    s[q].Turn(phnum) < s[r].Turn(phnum) || (s[q].Turn(phnum) == s[r].Turn(phnum) && q < r)
  }

  /** Section `q` has been placed when turn `c` has come to section `i`. */
  predicate Done(s: seq<Section>, phnum: nat, q: nat, c: nat, i: nat)
    requires q < |s|
  {
    1 <= q && (s[q].Turn(phnum) < c || (s[q].Turn(phnum) == c && q < i))
  }

  /** Both have been placed, `q` before `r`. */
  predicate DoneInOrder(s: seq<Section>, phnum: nat, q: nat, r: nat, c: nat, i: nat)
    requires q < |s| && r < |s|
  {
    Done(s, phnum, q, c, i) && Done(s, phnum, r, c, i) && Earlier(s, phnum, q, r)
  }

  predicate Loaded(s: Section, phnum: nat) { s.Turn(phnum) < 4 }

  /** The loaded sections among those done: aligned, in [base, addr), one after the other in the order of their turns. */
  ghost predicate InMemory(s: seq<Section>, phnum: nat, c: nat, i: nat, base: int, addr: int) {
    && (forall q :: 0 <= q < |s| && Done(s, phnum, q, c, i) && Loaded(s[q], phnum) ==>
          s[q].align > 0 && Multiple(s[q].addr, s[q].align) && base <= s[q].addr && s[q].addr + s[q].size <= addr)
    && (forall q, r :: 0 <= q < |s| && 0 <= r < |s| && DoneInOrder(s, phnum, q, r, c, i) && Loaded(s[r], phnum) ==>
          s[q].addr + s[q].size <= s[r].addr)
  }

  /** The bytes in the file of those done: in [base, off), one after the other; sections not loaded are aligned there. */
  ghost predicate InFile(s: seq<Section>, phnum: nat, c: nat, i: nat, base: int, off: int) {
    && (forall q :: 0 <= q < |s| && Done(s, phnum, q, c, i) ==>
          && base <= s[q].offset && s[q].offset + s[q].FileSize() <= off
          && (!Loaded(s[q], phnum) ==> s[q].align > 0 && Multiple(s[q].offset, s[q].align)))
    && (forall q, r :: 0 <= q < |s| && 0 <= r < |s| && DoneInOrder(s, phnum, q, r, c, i) ==>
          s[q].offset + s[q].FileSize() <= s[r].offset)
  }

  /** `order` lists each section done exactly once, in the order of their turns, after the null section. */
  ghost predicate Ordered(s: seq<Section>, phnum: nat, c: nat, i: nat, order: seq<nat>) {
    && |order| >= 1 && order[0] == 0
    && (forall t :: 1 <= t < |order| ==> order[t] < |s| && Done(s, phnum, order[t], c, i))
    && (forall t, u :: 1 <= t < u < |order| ==> Earlier(s, phnum, order[t], order[u]))
    && (forall q :: 0 <= q < |s| && Done(s, phnum, q, c, i) ==> q in order[1..])
  }

  /** Turn `c` belongs to segment `j`. */
  predicate OfSegment(c: nat, j: nat) { c == 2 * j || c == 2 * j + 1 }

  ghost predicate Used(s: seq<Section>, phnum: nat, c: nat, i: nat, j: nat) {
    exists q :: 0 <= q < |s| && Done(s, phnum, q, c, i) && OfSegment(s[q].Turn(phnum), j)
  }

  /** The segment being filled: its start in file and memory is `shift` apart, as is every initialised section, and
      no section of it lies before its start. */
  ghost predicate Filling(s: seq<Section>, phnum: nat, c: nat, i: nat, j: nat, ph: Phdr, shift: int) {
    && ph.offset >= 0
    && (ph.offset != 0 <==> Used(s, phnum, c, i, j))
    && (ph.offset == 0 ==> ph.vaddr == 0)
    && (ph.offset != 0 ==> ph.vaddr - ph.offset == shift)
    && (forall q :: 0 <= q < |s| && Done(s, phnum, q, c, i) && OfSegment(s[q].Turn(phnum), j) ==>
          && ph.vaddr <= s[q].addr && ph.offset <= s[q].offset
          && (s[q].Turn(phnum) == 2 * j ==> s[q].addr - s[q].offset == shift))
  }

  /** The bytes of the NOBITS sections of segment `j` with numbers below `i`. */
  function Nobits(s: seq<Section>, phnum: nat, j: nat, i: nat): nat
    requires i <= |s|
  {
    if i <= 1 then 0
    else Nobits(s, phnum, j, i - 1) + if s[i - 1].Turn(phnum) == 2 * j + 1 then s[i - 1].size else 0
  }

  ghost predicate SameInputs(s: seq<Section>, t: seq<Section>) {
    |s| == |t| && forall q :: 0 <= q < |s| ==> s[q].SameAs(t[q])
  }

  ghost predicate Laid(s: seq<Section>, phnum: nat, c: nat, i: nat, base: int, addr: int, fbase: int, off: int, order: seq<nat>) {
    && InMemory(s, phnum, c, i, base, addr) && InFile(s, phnum, c, i, fbase, off) && Ordered(s, phnum, c, i, order)
    && base <= addr && fbase <= off
  }

  /** A section of another turn is passed over. */
  lemma Skipped(s: seq<Section>, phnum: nat, c: nat, i: nat)
    requires i < |s| && (i == 0 || s[i].Turn(phnum) != c)
    ensures forall q :: 0 <= q < |s| ==> Done(s, phnum, q, c, i + 1) == Done(s, phnum, q, c, i)
  {
  }

  /** When a turn is over the next one starts at section 1. */
  lemma NextTurn(s: seq<Section>, phnum: nat, c: nat)
    ensures forall q :: 0 <= q < |s| ==> Done(s, phnum, q, c, |s|) == Done(s, phnum, q, c + 1, 1)
  {
  }

  function Put(s: seq<Section>, i: nat, a: int, o: int): seq<Section>
    requires i < |s|
  {
    s[i := s[i].(addr := a, offset := o)]
  }

  lemma PutTurns(s: seq<Section>, phnum: nat, c: nat, i: nat, a: int, o: int)
    requires 1 <= i < |s| && s[i].Turn(phnum) == c
    ensures var t := Put(s, i, a, o);
            && (forall q :: 0 <= q < |s| ==> t[q].Turn(phnum) == s[q].Turn(phnum))
            && (forall q :: 0 <= q < |s| ==> Done(t, phnum, q, c, i + 1) == (Done(s, phnum, q, c, i) || q == i))
            && (forall q :: 0 <= q < |s| && Done(s, phnum, q, c, i) ==>
                  Earlier(t, phnum, q, i) && !Earlier(t, phnum, i, q) && s[q].Turn(phnum) <= c)
            && !Earlier(t, phnum, i, i)
            && (forall q, r :: 0 <= q < |s| && 0 <= r < |s| ==> Earlier(t, phnum, q, r) == Earlier(s, phnum, q, r))
  {
  }

  lemma InMemoryOne(s: seq<Section>, phnum: nat, c: nat, i: nat, base: int, addr: int, a2: int, o2: int, addr2: int)
    requires 1 <= i < |s| && s[i].Turn(phnum) == c && s[i].align > 0 && base <= addr <= addr2
    requires InMemory(s, phnum, c, i, base, addr)
    requires c < 4 ==> addr <= a2 && addr2 == a2 + s[i].size && Multiple(a2, s[i].align)
    ensures InMemory(Put(s, i, a2, o2), phnum, c, i + 1, base, addr2)
  {
    hide Multiple, Done, Earlier;
    PutTurns(s, phnum, c, i, a2, o2);
  }

  lemma InFileOne(s: seq<Section>, phnum: nat, c: nat, i: nat, fbase: int, off: int, a2: int, o2: int, off2: int)
    requires 1 <= i < |s| && s[i].Turn(phnum) == c && s[i].align > 0 && fbase <= off <= o2
    requires InFile(s, phnum, c, i, fbase, off)
    requires off2 == o2 + s[i].FileSize() && (c == 4 ==> Multiple(o2, s[i].align))
    ensures InFile(Put(s, i, a2, o2), phnum, c, i + 1, fbase, off2)
  {
    hide Multiple, Done, Earlier;
    PutTurns(s, phnum, c, i, a2, o2);
  }

  lemma OrderedOne(s: seq<Section>, phnum: nat, c: nat, i: nat, order: seq<nat>, a2: int, o2: int)
    requires 1 <= i < |s| && s[i].Turn(phnum) == c && Ordered(s, phnum, c, i, order)
    ensures Ordered(Put(s, i, a2, o2), phnum, c, i + 1, order + [i])
  {
    hide Done, Earlier;
    PutTurns(s, phnum, c, i, a2, o2);
    assert (order + [i])[1..] == order[1..] + [i];
  }

  /** Laying section `i` in its turn. */
  lemma LaidOne(s: seq<Section>, phnum: nat, c: nat, i: nat, base: int, addr: int, fbase: int, off: int, order: seq<nat>,
                a2: int, o2: int, addr2: int, off2: int)
    requires 1 <= i < |s| && s[i].Turn(phnum) == c && s[i].align > 0
    requires Laid(s, phnum, c, i, base, addr, fbase, off, order)
    requires off <= o2 && off2 == o2 + s[i].FileSize() && addr <= addr2
    requires if c < 4 then addr <= a2 && addr2 == a2 + s[i].size && Multiple(a2, s[i].align) else Multiple(o2, s[i].align)
    ensures Laid(Put(s, i, a2, o2), phnum, c, i + 1, base, addr2, fbase, off2, order + [i])
  {
    hide InMemory, InFile, Ordered, Multiple, Put;
    InMemoryOne(s, phnum, c, i, base, addr, a2, o2, addr2);
    InFileOne(s, phnum, c, i, fbase, off, a2, o2, off2);
    OrderedOne(s, phnum, c, i, order, a2, o2);
  }

  lemma LaidSkip(s: seq<Section>, phnum: nat, c: nat, i: nat, base: int, addr: int, fbase: int, off: int, order: seq<nat>)
    requires i < |s| && (i == 0 || s[i].Turn(phnum) != c)
    requires Laid(s, phnum, c, i, base, addr, fbase, off, order)
    ensures Laid(s, phnum, c, i + 1, base, addr, fbase, off, order)
  {
    hide Multiple;
    Skipped(s, phnum, c, i);
  }

  lemma LaidTurn(s: seq<Section>, phnum: nat, c: nat, base: int, addr: int, fbase: int, off: int, order: seq<nat>)
    requires Laid(s, phnum, c, |s|, base, addr, fbase, off, order)
    ensures Laid(s, phnum, c + 1, 1, base, addr, fbase, off, order)
  {
    hide Multiple;
    NextTurn(s, phnum, c);
  }

  // ---------------------------------------------------------------- no more padding than is needed

  /** Where the last section of `order` ends in memory and in the file; the start if there is none. */
  function LastAddr(s: seq<Section>, order: seq<nat>, a0: int): int {
    if |order| <= 1 || order[|order| - 1] >= |s| then a0 else s[order[|order| - 1]].addr + s[order[|order| - 1]].size
  }

  function LastOff(s: seq<Section>, order: seq<nat>, o0: int): int {
    if |order| <= 1 || order[|order| - 1] >= |s| then o0 else s[order[|order| - 1]].offset + s[order[|order| - 1]].FileSize()
  }

  /** The second segment starts a page further on if the first does not end on a page boundary. */
  function Gapped(addr: int, align: nat): int
    requires align > 0
  {
    if Multiple(addr, align) then addr else addr + align
  }

  /** The address that section `order[t]` is laid from: the end of the one before, with the gap between the segments. */
  function FromAddr(s: seq<Section>, phnum: nat, order: seq<nat>, t: nat, a0: int, align: nat): int
    requires align > 0 && 1 <= t < |order| && forall u :: 0 <= u < |order| ==> order[u] < |s|
  {
    var a := LastAddr(s, order[..t], a0);
    if OfSegment(s[order[t]].Turn(phnum), 1) && (t == 1 || !OfSegment(s[order[t - 1]].Turn(phnum), 1)) then Gapped(a, align) else a
  }

  /** Each section lies at the first place that is aligned for it from where the one before ends - in memory if it is
      loaded, with the same distance in the file, and else in the file. */
  ghost predicate Tight(s: seq<Section>, phnum: nat, order: seq<nat>, a0: int, o0: int, align: nat)
    requires align > 0
  {
    (forall t :: 0 <= t < |order| ==> order[t] < |s|)
    && forall t :: 1 <= t < |order| ==> TightAt(s, phnum, order, t, a0, o0, align)
  }

  ghost predicate TightAt(s: seq<Section>, phnum: nat, order: seq<nat>, t: nat, a0: int, o0: int, align: nat)
    requires align > 0 && 1 <= t < |order| && forall u :: 0 <= u < |order| ==> order[u] < |s|
  {
    var x, o := s[order[t]], LastOff(s, order[..t], o0);
    && x.align > 0
    && if Loaded(x, phnum) then
         && LeastMultiple(x.addr, FromAddr(s, phnum, order, t, a0, align), x.align)
         && x.offset - o == x.addr - FromAddr(s, phnum, order, t, a0, align)
       else LeastMultiple(x.offset, o, x.align)
  }

  /** The layout so far is tight, and segment `j` goes on at `addr` and `off`. */
  ghost predicate Trace(s: seq<Section>, phnum: nat, order: seq<nat>, j: nat, a0: int, o0: int, align: nat, addr: int, off: int)
    requires align > 0
  {
    && |order| >= 1 && Tight(s, phnum, order, a0, o0, align) && off == LastOff(s, order, o0)
    && (j < 2 ==> addr == if j == 1 && (|order| == 1 || !OfSegment(s[order[|order| - 1]].Turn(phnum), 1))
                          then Gapped(LastAddr(s, order, a0), align) else LastAddr(s, order, a0))
  }

  lemma TraceStarts(s: seq<Section>, phnum: nat, j: nat, a0: int, o0: int, align: nat)
    requires align > 0 && |s| >= 1 && j != 1
    ensures Trace(s, phnum, [0], j, a0, o0, align, a0, o0)
  {
  }

  lemma NotYet(s: seq<Section>, phnum: nat, c: nat, i: nat, order: seq<nat>)
    requires 1 <= i < |s| && s[i].Turn(phnum) == c && Ordered(s, phnum, c, i, order)
    ensures i !in order
  {
  }

  /** A section that is not in the order yet does not matter for it. */
  lemma TightWithout(s: seq<Section>, phnum: nat, order: seq<nat>, i: nat, a2: int, o2: int, t: nat, a0: int, o0: int, align: nat)
    requires align > 0 && i < |s| && i !in order && (forall u :: 0 <= u < |order| ==> order[u] < |s|)
    requires 1 <= t < |order| && TightAt(s, phnum, order, t, a0, o0, align)
    ensures forall u :: 0 <= u < |order| + 1 ==> (order + [i])[u] < |s|
    ensures TightAt(Put(s, i, a2, o2), phnum, order + [i], t, a0, o0, align)
  {
    hide LeastMultiple, Multiple;
    var more, r := order + [i], Put(s, i, a2, o2);
    assert more[..t] == order[..t] && more[t] == order[t] && more[t - 1] == order[t - 1];
    assert r[order[t]] == s[order[t]] && r[order[t - 1]] == s[order[t - 1]];
  }

  lemma TraceOne(s: seq<Section>, phnum: nat, order: seq<nat>, j: nat, a0: int, o0: int, align: nat, addr: int, off: int,
                 i: nat, a2: int, o2: int)
    requires align > 0 && i < |s| && i !in order && s[i].align > 0 && Trace(s, phnum, order, j, a0, o0, align, addr, off)
    requires if j < 2 then Loaded(s[i], phnum) && OfSegment(s[i].Turn(phnum), j) && a2 == AlignUp(addr, s[i].align) && o2 == off + (a2 - addr)
             else !Loaded(s[i], phnum) && o2 == AlignUp(off, s[i].align)
    ensures Trace(Put(s, i, a2, o2), phnum, order + [i], j, a0, o0, align, a2 + s[i].size, o2 + s[i].FileSize())
  {
    hide LeastMultiple, Multiple, AlignUp, TightAt;
    var more, r := order + [i], Put(s, i, a2, o2);
    var n := |order|;
    assert forall t :: 0 <= t < |more| ==> more[t] < |s|;
    forall t | 1 <= t < |more| ensures TightAt(r, phnum, more, t, a0, o0, align) {
      if t < n {
        TightWithout(s, phnum, order, i, a2, o2, t, a0, o0, align);
      } else {
        TightLast(s, phnum, order, j, a0, o0, align, addr, off, i, a2, o2);
      }
    }
  }

  lemma TightLast(s: seq<Section>, phnum: nat, order: seq<nat>, j: nat, a0: int, o0: int, align: nat, addr: int, off: int,
                  i: nat, a2: int, o2: int)
    requires align > 0 && i < |s| && i !in order && s[i].align > 0 && Trace(s, phnum, order, j, a0, o0, align, addr, off)
    requires if j < 2 then Loaded(s[i], phnum) && OfSegment(s[i].Turn(phnum), j) && a2 == AlignUp(addr, s[i].align) && o2 == off + (a2 - addr)
             else !Loaded(s[i], phnum) && o2 == AlignUp(off, s[i].align)
    ensures forall t :: 0 <= t < |order| + 1 ==> (order + [i])[t] < |s|
    ensures TightAt(Put(s, i, a2, o2), phnum, order + [i], |order|, a0, o0, align)
  {
    hide LeastMultiple, Multiple, AlignUp, TightAt, Tight;
    var more, r, n := order + [i], Put(s, i, a2, o2), |order|;
    if j < 2 { AlignUpIsLeast(addr, s[i].align); } else { AlignUpIsLeast(off, s[i].align); }
    assert more[..n] == order && more[n] == i && more[n - 1] == order[n - 1];
    assert Tight(s, phnum, order, a0, o0, align);
    TightBounds(s, phnum, order, a0, o0, align);
    assert n > 1 ==> r[order[n - 1]] == s[order[n - 1]];
    assert LastOff(r, order, o0) == off && LastAddr(r, order, a0) == LastAddr(s, order, a0);
    TightAtIs(r, phnum, more, n, a0, o0, align);
  }

  lemma TightBounds(s: seq<Section>, phnum: nat, order: seq<nat>, a0: int, o0: int, align: nat)
    requires align > 0 && Tight(s, phnum, order, a0, o0, align)
    ensures forall t :: 0 <= t < |order| ==> order[t] < |s|
  {
  }

  lemma TightAtIs(s: seq<Section>, phnum: nat, order: seq<nat>, t: nat, a0: int, o0: int, align: nat)
    requires align > 0 && 1 <= t < |order| && (forall u :: 0 <= u < |order| ==> order[u] < |s|) && s[order[t]].align > 0
    requires var x, o := s[order[t]], LastOff(s, order[..t], o0);
             if Loaded(x, phnum) then
               && LeastMultiple(x.addr, FromAddr(s, phnum, order, t, a0, align), x.align)
               && x.offset - o == x.addr - FromAddr(s, phnum, order, t, a0, align)
             else LeastMultiple(x.offset, o, x.align)
    ensures TightAt(s, phnum, order, t, a0, o0, align)
  {
  }

  /** From the first segment to the second, and from the second to what is not loaded. */
  lemma TraceNext(s: seq<Section>, phnum: nat, order: seq<nat>, a0: int, o0: int, align: nat, addr: int, off: int)
    requires align > 0
    ensures Trace(s, phnum, order, 1, a0, o0, align, addr, off) ==> Trace(s, phnum, order, 2, a0, o0, align, addr, off)
    ensures Trace(s, phnum, order, 0, a0, o0, align, addr, off) && (|order| == 1 || s[order[|order| - 1]].Turn(phnum) < 2) ==>
              Trace(s, phnum, order, 1, a0, o0, align, Gapped(addr, align), off)
  {
    hide Tight, Multiple;
    if |order| >= 1 && Tight(s, phnum, order, a0, o0, align) { TightBounds(s, phnum, order, a0, o0, align); }
  }

  // ---------------------------------------------------------------- one segment

  lemma FillingSkip(s: seq<Section>, phnum: nat, c: nat, i: nat, j: nat, ph: Phdr, shift: int)
    requires i < |s| && (i == 0 || s[i].Turn(phnum) != c) && Filling(s, phnum, c, i, j, ph, shift)
    ensures Filling(s, phnum, c, i + 1, j, ph, shift)
  {
    Skipped(s, phnum, c, i);
  }

  lemma FillingTurn(s: seq<Section>, phnum: nat, c: nat, j: nat, ph: Phdr, shift: int)
    requires Filling(s, phnum, c, |s|, j, ph, shift)
    ensures Filling(s, phnum, c + 1, 1, j, ph, shift)
  {
    NextTurn(s, phnum, c);
  }

  /** A section of the segment starts where the header says, in memory and in the file. */
  ghost predicate StartsAt(s: seq<Section>, phnum: nat, c: nat, i: nat, j: nat, ph: Phdr) {
    ph.offset != 0 ==>
      exists q :: 0 <= q < |s| && Done(s, phnum, q, c, i) && OfSegment(s[q].Turn(phnum), j) && s[q].addr == ph.vaddr && s[q].offset == ph.offset
  }

  lemma StartsSkip(s: seq<Section>, phnum: nat, c: nat, i: nat, j: nat, ph: Phdr)
    requires i < |s| && (i == 0 || s[i].Turn(phnum) != c) && StartsAt(s, phnum, c, i, j, ph)
    ensures StartsAt(s, phnum, c, i + 1, j, ph)
  {
    Skipped(s, phnum, c, i);
  }

  lemma StartsTurn(s: seq<Section>, phnum: nat, c: nat, j: nat, ph: Phdr)
    requires StartsAt(s, phnum, c, |s|, j, ph)
    ensures StartsAt(s, phnum, c + 1, 1, j, ph)
  {
    NextTurn(s, phnum, c);
  }

  lemma StartsOne(s: seq<Section>, phnum: nat, c: nat, i: nat, j: nat, ph: Phdr, a2: int, o2: int)
    requires 1 <= i < |s| && s[i].Turn(phnum) == c && OfSegment(c, j) && StartsAt(s, phnum, c, i, j, ph)
    ensures StartsAt(Put(s, i, a2, o2), phnum, c, i + 1, j, Started(ph, a2, o2))
  {
    hide Done, Earlier;
    PutTurns(s, phnum, c, i, a2, o2);
    var t := Put(s, i, a2, o2);
    if ph.offset == 0 {
      assert Done(t, phnum, i, c, i + 1) && t[i].addr == a2 && t[i].offset == o2;
    } else {
      var q :| 0 <= q < |s| && Done(s, phnum, q, c, i) && OfSegment(s[q].Turn(phnum), j) && s[q].addr == ph.vaddr && s[q].offset == ph.offset;
      assert Done(t, phnum, q, c, i + 1) && t[q].addr == ph.vaddr && t[q].offset == ph.offset by { NotItself(s, phnum, q, c, i); }
    }
  }

  lemma NotItself(s: seq<Section>, phnum: nat, q: nat, c: nat, i: nat)
    requires q < |s| && i < |s| && Done(s, phnum, q, c, i) && s[i].Turn(phnum) == c
    ensures q != i
  {
  }

  lemma TraceMore(s: seq<Section>, phnum: nat, order: seq<nat>, j: nat, a0: int, o0: int, align: nat, addr: int, off: int,
                  i: nat, a2: int, o2: int, base: int, fbase: int)
    requires align > 0 && 1 <= i < |s| && s[i].align > 0 && Trace(s, phnum, order, j, a0, o0, align, addr, off)
    requires exists end :: Laid(s, phnum, s[i].Turn(phnum), i, base, end, fbase, off, order)
    requires if j < 2 then Loaded(s[i], phnum) && OfSegment(s[i].Turn(phnum), j) && a2 == AlignUp(addr, s[i].align) && o2 == off + (a2 - addr)
             else !Loaded(s[i], phnum) && o2 == AlignUp(off, s[i].align)
    ensures Trace(Put(s, i, a2, o2), phnum, order + [i], j, a0, o0, align, a2 + s[i].size, o2 + s[i].FileSize())
  {
    hide Trace, InMemory, InFile, AlignUp;
    NotYet(s, phnum, s[i].Turn(phnum), i, order);
    TraceOne(s, phnum, order, j, a0, o0, align, addr, off, i, a2, o2);
  }

  function Started(ph: Phdr, a: int, o: int): Phdr {
    if ph.offset == 0 then ph.(offset := o, vaddr := a) else ph
  }

  lemma FillingOne(s: seq<Section>, phnum: nat, c: nat, i: nat, j: nat, ph: Phdr, shift: int, base: int, addr: int, fbase: int, off: int, a2: int, o2: int)
    requires 1 <= i < |s| && s[i].Turn(phnum) == c && OfSegment(c, j) && c < 4
    requires Filling(s, phnum, c, i, j, ph, shift) && InMemory(s, phnum, c, i, base, addr) && InFile(s, phnum, c, i, fbase, off)
    requires 0 < fbase <= off <= o2 && addr <= a2
    requires c == 2 * j || ph.offset == 0 ==> a2 - o2 == shift
    ensures Filling(Put(s, i, a2, o2), phnum, c, i + 1, j, Started(ph, a2, o2), shift)
  {
    hide Multiple, Done, Earlier;
    PutTurns(s, phnum, c, i, a2, o2);
    var t := Put(s, i, a2, o2);
    assert Used(t, phnum, c, i + 1, j) by {
      assert Done(t, phnum, i, c, i + 1);
    }
    if ph.offset != 0 {
      var q :| 0 <= q < |s| && Done(s, phnum, q, c, i) && OfSegment(s[q].Turn(phnum), j);
      assert s[q].FileSize() >= 0;
    }
  }

  lemma {:induction false} NobitsSame(s: seq<Section>, t: seq<Section>, phnum: nat, j: nat, i: nat)
    requires SameInputs(s, t) && i <= |s|
    ensures Nobits(s, phnum, j, i) == Nobits(t, phnum, j, i)
  {
    if i > 1 {
      NobitsSame(s, t, phnum, j, i - 1);
      assert s[i - 1].SameAs(t[i - 1]);
    }
  }

  lemma SharedInputs(s: seq<Section>, t: seq<Section>, u: seq<Section>)
    requires SameInputs(s, t) && SameInputs(t, u)
    ensures SameInputs(s, u)
  {
    forall q | 0 <= q < |s| ensures s[q].SameAs(u[q]) {
      assert s[q].SameAs(t[q]) && t[q].SameAs(u[q]);
    }
  }

  /** The innermost loop of the layout: one turn, in the order of the section numbers. */
  method LayTurn(secs: array<Section>, j: nat, k: nat, addr0: int, off0: int, ph0: Phdr, order0: seq<nat>,
                 ghost shift: int, ghost base: int, ghost fbase: int, ghost a0: int, ghost o0: int, ghost align: nat)
    returns (addr: int, off: int, ph: Phdr, order: seq<nat>)
    requires align > 0 && Trace(secs[..], 2, order0, j, a0, o0, align, addr0, off0) && StartsAt(secs[..], 2, 2 * j + k, 1, j, ph0)
    requires secs.Length >= 1 && j < 2 && k < 2 && forall q :: 0 <= q < secs.Length ==> secs[q].align > 0
    requires Laid(secs[..], 2, 2 * j + k, 1, base, addr0, fbase, off0, order0) && 0 < fbase
    requires Filling(secs[..], 2, 2 * j + k, 1, j, ph0, shift)
    requires k == 0 || ph0.offset == 0 ==> addr0 - off0 == shift
    modifies secs
    ensures SameInputs(secs[..], old(secs[..]))
    ensures forall q :: 0 <= q < secs.Length && secs[q].Turn(2) != 2 * j + k ==> secs[q] == old(secs[q])
    ensures Laid(secs[..], 2, 2 * j + k + 1, 1, base, addr, fbase, off, order)
    ensures Filling(secs[..], 2, 2 * j + k + 1, 1, j, ph, shift)
    ensures ph.exec == ph0.exec && addr0 <= addr && off0 <= off
    ensures ph.offset != 0 && ph0.offset == 0 ==> addr0 <= ph.vaddr
    ensures ph0.offset != 0 ==> ph == ph0
    ensures addr - off == addr0 - off0 + if k == 1 then Nobits(secs[..], 2, j, secs.Length) else 0
    ensures ph.offset == 0 ==> addr - off == addr0 - off0
    ensures Trace(secs[..], 2, order, j, a0, o0, align, addr, off) && StartsAt(secs[..], 2, 2 * j + k + 1, 1, j, ph)
  {
    hide Laid, Filling, Multiple, Put, Trace, StartsAt, AlignUp;
    addr, off, ph, order := addr0, off0, ph0, order0;
    ghost var s0 := secs[..];
    var i := 1;
    while i < secs.Length
      invariant 1 <= i <= secs.Length && SameInputs(secs[..], s0)
      invariant forall q :: 0 <= q < secs.Length && (s0[q].Turn(2) != 2 * j + k || q >= i) ==> secs[q] == s0[q]
      invariant InTurn(secs[..], 2 * j + k, i, j, order, addr, off, ph, shift, base, fbase, a0, o0, align)
      invariant ph.exec == ph0.exec && addr0 <= addr && off0 <= off
      invariant if ph0.offset != 0 then ph == ph0 else ph.offset != 0 ==> addr0 <= ph.vaddr
      invariant addr - off == addr0 - off0 + if k == 1 then Nobits(s0, 2, j, i) else 0
      invariant ph.offset == 0 ==> addr - off == addr0 - off0
    {
      ghost var s := secs[..];
      var sec := secs[i];
      assert sec == s[i] == s0[i];
      if sec.Turn(2) == 2 * j + k {
        order := order + [i];
        var tmp := addr;
        var a2 := AlignUp(addr, sec.align);
        var o2 := off + (a2 - tmp);
        secs[i] := sec.(offset := o2, addr := a2);
        assert secs[..] == Put(s, i, a2, o2) by { PutIs(s, i, a2, o2); }
        TurnOne(s, 2 * j + k, i, j, order[..|order| - 1], addr, off, ph, shift, base, fbase, a0, o0, align);
        if ph.offset == 0 {
          ph := ph.(offset := o2, vaddr := a2);
        }
        addr := a2 + sec.size;
        off := o2;
        if !sec.nobits {
          off := off + sec.size;
        }
      } else {
        TurnSkip(s, 2 * j + k, i, j, order, addr, off, ph, shift, base, fbase, a0, o0, align);
      }
      i := i + 1;
    }
    LaidTurn(secs[..], 2, 2 * j + k, base, addr, fbase, off, order);
    FillingTurn(secs[..], 2, 2 * j + k, j, ph, shift);
    StartsTurn(secs[..], 2, 2 * j + k, j, ph);
    NobitsSame(secs[..], s0, 2, j, secs.Length);
  }

  /** All that is known in the middle of a turn. */
  ghost predicate InTurn(s: seq<Section>, c: nat, i: nat, j: nat, order: seq<nat>, addr: int, off: int, ph: Phdr, shift: int,
                         base: int, fbase: int, a0: int, o0: int, align: nat)
    requires align > 0
  {
    && Laid(s, 2, c, i, base, addr, fbase, off, order) && Filling(s, 2, c, i, j, ph, shift)
    && Trace(s, 2, order, j, a0, o0, align, addr, off) && StartsAt(s, 2, c, i, j, ph)
  }

  lemma TurnSkip(s: seq<Section>, c: nat, i: nat, j: nat, order: seq<nat>, addr: int, off: int, ph: Phdr, shift: int,
                 base: int, fbase: int, a0: int, o0: int, align: nat)
    requires align > 0 && i < |s| && s[i].Turn(2) != c && InTurn(s, c, i, j, order, addr, off, ph, shift, base, fbase, a0, o0, align)
    ensures InTurn(s, c, i + 1, j, order, addr, off, ph, shift, base, fbase, a0, o0, align)
  {
    hide Laid, Filling, Trace, StartsAt;
    LaidSkip(s, 2, c, i, base, addr, fbase, off, order);
    FillingSkip(s, 2, c, i, j, ph, shift);
    StartsSkip(s, 2, c, i, j, ph);
  }

  lemma TurnOne(s: seq<Section>, c: nat, i: nat, j: nat, order: seq<nat>, addr: int, off: int, ph: Phdr, shift: int,
                base: int, fbase: int, a0: int, o0: int, align: nat)
    requires align > 0 && 1 <= i < |s| && s[i].align > 0 && s[i].Turn(2) == c && c < 4 && j < 2 && OfSegment(c, j) && 0 < fbase
    requires InTurn(s, c, i, j, order, addr, off, ph, shift, base, fbase, a0, o0, align)
    requires c == 2 * j || ph.offset == 0 ==> addr - off == shift
    ensures var a2 := AlignUp(addr, s[i].align);
            var o2 := off + (a2 - addr);
            && ph.offset >= 0 && Started(ph, a2, o2).offset != 0
            && InTurn(Put(s, i, a2, o2), c, i + 1, j, order + [i], a2 + s[i].size, o2 + s[i].FileSize(), Started(ph, a2, o2), shift,
                      base, fbase, a0, o0, align)
  {
    hide Filling, InMemory, InFile, Ordered, Trace, StartsAt, Put, AlignUp, Multiple;
    var a2 := AlignUp(addr, s[i].align);
    var o2 := off + (a2 - addr);
    AlignedUp(addr, s[i].align);
    LaidOne(s, 2, c, i, base, addr, fbase, off, order, a2, o2, a2 + s[i].size, o2 + s[i].FileSize());
    TraceMore(s, 2, order, j, a0, o0, align, addr, off, i, a2, o2, base, fbase);
    FillingOne(s, 2, c, i, j, ph, shift, base, addr, fbase, off, a2, o2);
    StartsOne(s, 2, c, i, j, ph, a2, o2);
    FillingPositive(s, 2, c, i, j, ph, shift);
  }

  lemma PutIs(s: seq<Section>, i: nat, a: int, o: int)
    requires i < |s|
    ensures Put(s, i, a, o) == s[i := s[i].(addr := a, offset := o)]
  {
  }

  lemma FillingPositive(s: seq<Section>, phnum: nat, c: nat, i: nat, j: nat, ph: Phdr, shift: int)
    requires Filling(s, phnum, c, i, j, ph, shift)
    ensures ph.offset >= 0
  {
  }

  /** A loadable segment: every section of it lies in the ranges its header gives, and the initialised ones lie in
      the file exactly where memory expects them; the file part is not longer than the memory part. */
  ghost predicate SegmentOk(s: seq<Section>, j: nat, ph: Phdr) {
    && ph.filesz <= ph.memsz
    && forall q :: 1 <= q < |s| && OfSegment(s[q].Turn(2), j) ==>
         && ph.vaddr <= s[q].addr && s[q].addr + s[q].size <= ph.vaddr + ph.memsz
         && (!s[q].nobits ==> && s[q].offset - ph.offset == s[q].addr - ph.vaddr
                              && ph.offset <= s[q].offset && s[q].offset + s[q].size <= ph.offset + ph.filesz)
  }

  predicate InUse(s: seq<Section>, j: nat) { exists q :: 1 <= q < |s| && OfSegment(s[q].Turn(2), j) }

  /** The header of segment `j` once all its sections are placed. */
  function Closed(ph: Phdr, addr: int, off: int, align: nat): Phdr
    requires align > 0
  {
    var p := if ph.exec then ph.(offset := AlignDown(ph.offset, align), vaddr := AlignDown(ph.vaddr, align)) else ph;
    p.(filesz := off - p.offset, memsz := addr - p.vaddr)
  }

  /** What is known of a finished segment that was started at addresses `addr0` and `off0`. */
  ghost predicate Finished(s: seq<Section>, j: nat, ph: Phdr, addr0: int, off0: int, addr: int, off: int, align: nat)
    requires align > 0
  {
    && ph.vaddr + ph.memsz == addr && ph.offset + ph.filesz == off
    && (if InUse(s, j) then SegmentOk(s, j, ph) && ph.vaddr - ph.offset == addr0 - off0
                            && (if j == 0 then AlignDown(addr0, align) else addr0) <= ph.vaddr
        else ph.vaddr == 0 == ph.offset)
  }

  lemma ClosedIsFinished(s: seq<Section>, j: nat, ph: Phdr, addr0: int, off0: int, base: int, addr: int, fbase: int, off: int,
                         order: seq<nat>, align: nat)
    requires j < 2 && align > 0 && 0 < fbase && Laid(s, 2, 2 * j + 2, 1, base, addr, fbase, off, order)
    requires Filling(s, 2, 2 * j + 2, 1, j, ph, addr0 - off0) && addr - off >= addr0 - off0
    requires ph.exec == (j == 0) && (j == 0 ==> Multiple(addr0 - off0, align))
    requires ph.offset != 0 ==> addr0 <= ph.vaddr
    ensures Finished(s, j, Closed(ph, addr, off, align), addr0, off0, addr, off, align)
  {
    hide Multiple, AlignDown, Ordered;
    assert forall q :: 1 <= q < |s| && OfSegment(s[q].Turn(2), j) ==> Done(s, 2, q, 2 * j + 2, 1);
    assert ph.offset != 0 <==> InUse(s, j);
    if ph.offset != 0 {
      if ph.exec {
        CongruentRounding(ph.vaddr, ph.offset, align);
        AlignDownMono(addr0, ph.vaddr, align);
      }
      var p := Closed(ph, addr, off, align);
      assert p.vaddr - p.offset == addr0 - off0 && p.vaddr <= ph.vaddr && p.offset <= ph.offset;
      assert SegmentOk(s, j, p);
    } else {
      AlignDownZero(align);
    }
  }

  /** One turn of the segment loop: initialised sections, then NOBITS ones, then the header. */
  method LaySegment(secs: array<Section>, j: nat, align: nat, addr0: int, off0: int, order0: seq<nat>, ghost base: int, ghost fbase: int,
                    ghost a0: int, ghost o0: int)
    returns (addr: int, off: int, ph: Phdr, order: seq<nat>)
    requires align > 0 && Trace(secs[..], 2, order0, j, a0, o0, align, addr0, off0)
    requires secs.Length >= 1 && j < 2 && align > 0 && forall q :: 0 <= q < secs.Length ==> secs[q].align > 0
    requires Laid(secs[..], 2, 2 * j, 1, base, addr0, fbase, off0, order0) && 0 < fbase
    requires j == 0 ==> Multiple(addr0 - off0, align)
    modifies secs
    ensures SameInputs(secs[..], old(secs[..]))
    ensures forall q :: 0 <= q < secs.Length && !OfSegment(secs[q].Turn(2), j) ==> secs[q] == old(secs[q])
    ensures Laid(secs[..], 2, 2 * j + 2, 1, base, addr, fbase, off, order)
    ensures Finished(secs[..], j, ph, addr0, off0, addr, off, align)
    ensures addr0 <= addr && off0 <= off && addr - off == addr0 - off0 + Nobits(secs[..], 2, j, secs.Length)
    ensures Trace(secs[..], 2, order, j, a0, o0, align, addr, off) && HeaderTight(secs[..], j, ph, align) && EndTight(secs[..], j, ph)
  {
    hide InMemory, InFile, Ordered, Filling, Multiple, AlignDown, Closed, Finished, Trace, HeaderTight, EndTight, StartsAt;
    ghost var s0 := secs[..];
    ph := Phdr(j == 0, 0, 0, 0, 0);
    StartsFilling(s0, j, ph, addr0 - off0);
    addr, off, ph, order := LayTurn(secs, j, 0, addr0, off0, ph, order0, addr0 - off0, base, fbase, a0, o0, align);
    ghost var s1 := secs[..];
    assert forall q :: 0 <= q < |s1| ==> s1[q].SameAs(s0[q]);
    addr, off, ph, order := LayTurn(secs, j, 1, addr, off, ph, order, addr0 - off0, base, fbase, a0, o0, align);
    ghost var s2 := secs[..];
    SharedInputs(s2, s1, s0);
    assert forall q :: 0 <= q < |s2| ==> s2[q].SameAs(s1[q]);
    ClosedIsFinished(s2, j, ph, addr0, off0, base, addr, fbase, off, order, align);
    ClosedIsTight(s2, j, ph, addr0 - off0, addr, off, align);
    ph := Closed(ph, addr, off, align);
    FinishedEnds(s2, j, ph, addr0, off0, addr, off, align);
    LastEnds(s2, j, ph, base, addr, fbase, off, order, a0, o0, align);
  }

  /** A section of the segment ends where the header says, in memory and in the file. */
  ghost predicate EndTight(s: seq<Section>, j: nat, ph: Phdr) {
    InUse(s, j) ==>
      exists q :: 1 <= q < |s| && OfSegment(s[q].Turn(2), j)
        && s[q].addr + s[q].size == ph.vaddr + ph.memsz && s[q].offset + s[q].FileSize() == ph.offset + ph.filesz
  }

  lemma LastEnds(s: seq<Section>, j: nat, ph: Phdr, base: int, addr: int, fbase: int, off: int, order: seq<nat>, a0: int, o0: int, align: nat)
    requires j < 2 && align > 0 && Laid(s, 2, 2 * j + 2, 1, base, addr, fbase, off, order) && Trace(s, 2, order, j, a0, o0, align, addr, off)
    requires ph.vaddr + ph.memsz == addr && ph.offset + ph.filesz == off
    ensures EndTight(s, j, ph)
  {
    hide InMemory, InFile, Tight, Multiple;
    if InUse(s, j) {
      var q :| 1 <= q < |s| && OfSegment(s[q].Turn(2), j);
      assert Done(s, 2, q, 2 * j + 2, 1);
      var t :| 0 <= t < |order[1..]| && order[1..][t] == q;
      assert order[t + 1] == q;
      var last := order[|order| - 1];
      assert Done(s, 2, last, 2 * j + 2, 1);
      assert t + 1 < |order| - 1 ==> Earlier(s, 2, q, last);
      assert OfSegment(s[last].Turn(2), j);
    }
  }

  lemma FinishedEnds(s: seq<Section>, j: nat, ph: Phdr, addr0: int, off0: int, addr: int, off: int, align: nat)
    requires align > 0 && Finished(s, j, ph, addr0, off0, addr, off, align)
    ensures ph.vaddr + ph.memsz == addr && ph.offset + ph.filesz == off
  {
  }

  lemma StartsFilling(s: seq<Section>, j: nat, ph: Phdr, shift: int)
    requires ph.offset == 0 == ph.vaddr
    ensures Filling(s, 2, 2 * j, 1, j, ph, shift) && StartsAt(s, 2, 2 * j, 1, j, ph)
  {
  }

  /** The header starts where a section of its segment starts, on the page boundary below for the first segment. */
  ghost predicate HeaderTight(s: seq<Section>, j: nat, ph: Phdr, align: nat)
    requires align > 0
  {
    InUse(s, j) ==>
      exists q :: 1 <= q < |s| && OfSegment(s[q].Turn(2), j)
        && ph.vaddr == (if j == 0 then AlignDown(s[q].addr, align) else s[q].addr)
        && ph.offset == (if j == 0 then AlignDown(s[q].offset, align) else s[q].offset)
  }

  lemma ClosedIsTight(s: seq<Section>, j: nat, ph: Phdr, shift: int, addr: int, off: int, align: nat)
    requires j < 2 && align > 0 && Filling(s, 2, 2 * j + 2, 1, j, ph, shift) && StartsAt(s, 2, 2 * j + 2, 1, j, ph) && ph.exec == (j == 0)
    ensures HeaderTight(s, j, Closed(ph, addr, off, align), align)
  {
    hide AlignDown;
    assert forall q :: 1 <= q < |s| && OfSegment(s[q].Turn(2), j) ==> Done(s, 2, q, 2 * j + 2, 1);
    if InUse(s, j) {
      var q :| 0 <= q < |s| && Done(s, 2, q, 2 * j + 2, 1) && OfSegment(s[q].Turn(2), j) && s[q].addr == ph.vaddr && s[q].offset == ph.offset;
    }
  }

  /** The sections that are not loaded come last, aligned in the file. */
  method LayRest(secs: array<Section>, phnum: nat, off0: int, order0: seq<nat>, ghost base: int, ghost addr: int, ghost fbase: int,
                 ghost a0: int, ghost o0: int, ghost align: nat)
    returns (off: int, order: seq<nat>)
    requires align > 0 && exists a :: Trace(secs[..], phnum, order0, 2, a0, o0, align, a, off0)
    requires secs.Length >= 1 && (phnum == 0 || phnum == 2) && forall q :: 0 <= q < secs.Length ==> secs[q].align > 0
    requires Laid(secs[..], phnum, 4, 1, base, addr, fbase, off0, order0)
    modifies secs
    ensures SameInputs(secs[..], old(secs[..]))
    ensures forall q :: 0 <= q < secs.Length && Loaded(secs[q], phnum) ==> secs[q] == old(secs[q])
    ensures Laid(secs[..], phnum, 4, secs.Length, base, addr, fbase, off, order) && off0 <= off
    ensures Tight(secs[..], phnum, order, a0, o0, align) && off == LastOff(secs[..], order, o0)
  {
    hide InMemory, InFile, Ordered, Multiple, Put, Trace;
    ghost var a :| Trace(secs[..], phnum, order0, 2, a0, o0, align, a, off0);
    ghost var s0 := secs[..];
    off, order := off0, order0;
    var i := 1;
    while i < secs.Length
      invariant 1 <= i <= secs.Length && SameInputs(secs[..], s0) && off0 <= off
      invariant forall q :: 0 <= q < secs.Length && (Loaded(s0[q], phnum) || q >= i) ==> secs[q] == s0[q]
      invariant Laid(secs[..], phnum, 4, i, base, addr, fbase, off, order)
      invariant Trace(secs[..], phnum, order, 2, a0, o0, align, a, off)
    {
      ghost var s := secs[..];
      var sec := secs[i];
      assert sec == s[i] == s0[i];
      if !(phnum > 0 && sec.alloc) {
        var o2 := AlignUp(off, sec.align);
        AlignedUp(off, sec.align);
        secs[i] := sec.(offset := o2);
        assert secs[..] == Put(s, i, sec.addr, o2) by { PutIs(s, i, sec.addr, o2); }
        LaidOne(s, phnum, 4, i, base, addr, fbase, off, order, sec.addr, o2, addr, o2 + sec.FileSize());
        TraceMore(s, phnum, order, 2, a0, o0, align, a, off, i, sec.addr, o2, base, fbase);
        a := sec.addr + sec.size;
        order := order + [i];
        off := o2;
        if !sec.nobits {
          off := off + sec.size;
        }
      } else {
        LaidSkip(s, phnum, 4, i, base, addr, fbase, off, order);
      }
      i := i + 1;
    }
    TraceIs(secs[..], phnum, order, 2, a0, o0, align, a, off);
  }

  lemma TraceIs(s: seq<Section>, phnum: nat, order: seq<nat>, j: nat, a0: int, o0: int, align: nat, addr: int, off: int)
    requires align > 0 && Trace(s, phnum, order, j, a0, o0, align, addr, off)
    ensures Tight(s, phnum, order, a0, o0, align) && off == LastOff(s, order, o0)
  {
  }

  predicate Inside(x: int, p: Phdr) { p.vaddr <= x < p.vaddr + p.memsz }

  /** The pages of two memory ranges meet. */
  ghost predicate SharePage(p: Phdr, q: Phdr, align: nat)
    requires align > 0
  {
    exists x: int, y: int :: Inside(x, p) && Inside(y, q) && AlignDown(x, align) == AlignDown(y, align)
  }

  /** A range that starts on the page boundary at or after the end of another, or a whole page further on, shares no
      page with it. */
  lemma PagesApart(p: Phdr, q: Phdr, align: nat, end: int)
    requires align > 0 && p.vaddr + p.memsz == end
    requires (if Multiple(end, align) then end else end + align) <= q.vaddr
    ensures !SharePage(p, q, align)
  {
    forall x: int, y: int | x < end && q.vaddr <= y ensures AlignDown(x, align) != AlignDown(y, align) {
      if Multiple(end, align) {
        MultipleIs(end, align);
        AlignDownMono(end, y, align);
      }
    }
  }

  /** A range [0, addr) shares a page with every range that is not empty and lies in it. */
  lemma PagesMeet(p: Phdr, q: Phdr, align: nat)
    requires align > 0 && q.vaddr == 0 <= p.vaddr && p.memsz > 0 && p.vaddr < q.memsz
    ensures SharePage(p, q, align)
  {
    assert Inside(p.vaddr, p) && Inside(p.vaddr, q);
  }

  const EHDR: nat := 64
  const PHDR: nat := 56

  /** The bytes of the headers of an executable. */
  const HEADERS: nat := EHDR + 2 * PHDR

  /** Where an executable starts: the headers' offset in the file and the address it is to have, a whole number of
      segment alignments apart. */
  method Start(phnum: nat, align: nat, startAddr: nat, textAddr: Option<nat>) returns (addr: int, off: int)
    requires align > 0 && Multiple(startAddr, align)
    ensures Multiple(addr - off, align) && 0 < off && EHDR + phnum * PHDR <= off < EHDR + phnum * PHDR + align && 0 <= addr
    ensures textAddr.Some? ==> addr == textAddr.value
    ensures textAddr.None? ==> addr == startAddr + (off - AlignDown(off, align)) && off == EHDR + phnum * PHDR
  {
    off := EHDR + phnum * PHDR;
    if textAddr.Some? {
      addr := textAddr.value;
      var aOffset := addr - AlignDown(addr, align);
      var pOffset := off - AlignDown(off, align);
      AlignedDown(addr, align);
      AlignedDown(off, align);
      ghost var d := AlignDown(addr, align) - AlignDown(off, align);
      MultipleMinus(AlignDown(addr, align), AlignDown(off, align), align);
      if aOffset < pOffset {
        aOffset := aOffset + align;
        MultipleMinus(d, align, align);
        QuotientIs(align, align, 1, 0);
      }
      off := off + (aOffset - pOffset);
      assert addr - off == if aOffset < align then d else d - align;
    } else {
      addr := startAddr + (off - AlignDown(off, align));
      AlignedDown(off, align);
      MultipleMinus(startAddr, AlignDown(off, align), align);
    }
  }

  /** layout_sections for an executable: two segments, then the rest. */
  method LayoutExecutable(secs: array<Section>, align: nat, startAddr: nat, textAddr: Option<nat>)
    returns (fileOffset: int, rx: Phdr, rw: Phdr, order: seq<nat>, ghost base: int, ghost end: int)
    requires secs.Length >= 1 && align > 0 && IsPowerOf2(align) && Multiple(startAddr, align)
    requires forall q :: 0 <= q < secs.Length ==> secs[q].align > 0 && IsPowerOf2(secs[q].align)
    modifies secs
    ensures SameInputs(secs[..], old(secs[..]))
    ensures Laid(secs[..], 2, 4, secs.Length, base, end, EHDR + 2 * PHDR, fileOffset, order)
    ensures base == (match textAddr case Some(a) => a case None => startAddr + (HEADERS - AlignDown(HEADERS, align)))
    ensures rw.vaddr + rw.memsz == end
    ensures exists start :: HEADERS <= start < HEADERS + align && Multiple(base - start, align)
              && Tight(secs[..], 2, order, base, start, align) && fileOffset == LastOff(secs[..], order, start)
    ensures HeaderTight(secs[..], 0, rx, align) && HeaderTight(secs[..], 1, rw, align)
    ensures EndTight(secs[..], 0, rx) && EndTight(secs[..], 1, rw)
    ensures InUse(secs[..], 0) ==> SegmentOk(secs[..], 0, rx) && Multiple(rx.vaddr - rx.offset, align)
    ensures InUse(secs[..], 1) ==> SegmentOk(secs[..], 1, rw)
    ensures InUse(secs[..], 1) ==>
              (Multiple(rw.vaddr - rw.offset, align) <==> Multiple(Nobits(secs[..], 2, 0, secs.Length), align))
    ensures rx.memsz > 0 ==> (!SharePage(rx, rw, align) <==> InUse(secs[..], 1))
  {
    hide InMemory, InFile, Ordered, Multiple, AlignDown, SegmentOk, SharePage, InUse, Nobits, Trace, Tight, HeaderTight, EndTight, LastOff;
    ghost var s0, n := secs[..], secs.Length;
    var addr, off := Start(2, align, startAddr, textAddr);
    base := addr;
    order := [0];
    ghost var fbase := EHDR + 2 * PHDR;
    NothingLaid(s0, 2, 0, addr, fbase, off);
    ghost var start := off;
    TraceStarts(s0, 2, 0, base, start, align);
    ghost var addr0, off0 := addr, off;
    addr, off, rx, order := LaySegment(secs, 0, align, addr, off, order, base, fbase, base, start);
    ghost var s1, endRx := secs[..], addr;
    var aligned := addr == AlignDown(addr, align);
    MultipleIs(addr, align);
    if !aligned {
      addr := addr + align;
      LaidHigher(s1, 2, 2, 1, base, endRx, addr, fbase, off, order);
    }
    LastIsFirst(s1, base, endRx, fbase, off, order);
    TraceNext(s1, 2, order, base, start, align, endRx, off);
    ghost var addr1, off1 := addr, off;
    addr, off, rw, order := LaySegment(secs, 1, align, addr, off, order, base, fbase, base, start);
    ghost var s2 := secs[..];
    SharedInputs(s2, s1, s0);
    TraceNext(s2, 2, order, base, start, align, addr, off);
    fileOffset, order := LayRest(secs, 2, off, order, base, addr, fbase, base, start, align);
    ghost var s3 := secs[..];
    SharedInputs(s3, s2, s0);
    end := addr;
    SegmentKept(s1, s2, 0, rx);
    SegmentKept(s2, s3, 0, rx);
    SegmentKept(s2, s3, 1, rw);
    NobitsSame(s3, s1, 2, 0, n);
    Congruence(addr0 - off0, Nobits(s3, 2, 0, n), addr1 - off1, align);
    AlignDownZero(align);
    AlignDownMono(0, addr0, align);
    if rx.memsz > 0 {
      SegmentPages(rx, rw, align, endRx, addr1, addr, InUse(s3, 1));
    }
  }

  /** Before the second segment is laid the order holds sections of the first. */
  lemma LastIsFirst(s: seq<Section>, base: int, addr: int, fbase: int, off: int, order: seq<nat>)
    requires Laid(s, 2, 2, 1, base, addr, fbase, off, order)
    ensures |order| > 1 ==> order[|order| - 1] < |s| && s[order[|order| - 1]].Turn(2) < 2
    ensures |order| >= 1
  {
    hide InMemory, InFile;
  }

  lemma NothingLaid(s: seq<Section>, phnum: nat, c: nat, addr: int, fbase: int, off: int)
    requires fbase <= off && (c == 0 || (c == 4 && phnum == 0))
    ensures Laid(s, phnum, c, 1, addr, addr, fbase, off, [0])
  {
  }

  lemma LaidHigher(s: seq<Section>, phnum: nat, c: nat, i: nat, base: int, addr: int, addr2: int, fbase: int, off: int, order: seq<nat>)
    requires addr <= addr2 && Laid(s, phnum, c, i, base, addr, fbase, off, order)
    ensures Laid(s, phnum, c, i, base, addr2, fbase, off, order)
  {
    hide Multiple;
  }

  /** Placing other sections leaves a segment as it was. */
  lemma SegmentKept(s: seq<Section>, t: seq<Section>, j: nat, ph: Phdr)
    requires SameInputs(t, s) && forall q :: 0 <= q < |t| && OfSegment(t[q].Turn(2), j) ==> t[q] == s[q]
    ensures InUse(t, j) == InUse(s, j) && SegmentOk(t, j, ph) == SegmentOk(s, j, ph) && EndTight(t, j, ph) == EndTight(s, j, ph)
    ensures forall align: nat :: align > 0 ==> HeaderTight(t, j, ph, align) == HeaderTight(s, j, ph, align)
  {
    hide AlignDown;
    assert forall q :: 0 <= q < |t| ==> t[q].SameAs(s[q]) && t[q].Turn(2) == s[q].Turn(2);
  }

  lemma Congruence(shift0: int, n: nat, shift1: int, align: nat)
    requires align > 0 && Multiple(shift0, align) && (shift1 == shift0 + n || shift1 == shift0 + n + align)
    ensures Multiple(shift1, align) <==> Multiple(n, align)
  {
    MultipleSum(shift0, n, align);
    QuotientIs(align, align, 1, 0);
    MultipleSum(align, shift0 + n, align);
  }

  lemma SegmentPages(rx: Phdr, rw: Phdr, align: nat, endRx: int, addr1: int, end: int, used: bool)
    requires align > 0 && rx.vaddr + rx.memsz == endRx && rw.vaddr + rw.memsz == end && endRx <= end
    requires addr1 == if Multiple(endRx, align) then endRx else endRx + align
    requires 0 <= rx.vaddr && (if used then addr1 <= rw.vaddr else rw.vaddr == 0)
    requires rx.memsz > 0
    ensures SharePage(rx, rw, align) == !used
  {
    hide Multiple, AlignDown, SharePage;
    if used {
      PagesApart(rx, rw, align, endRx);
    } else {
      PagesMeet(rx, rw, align);
    }
  }

  /** One uninitialised byte in the first segment: the second segment's address and offset are not congruent. */
  method IncongruentExample() returns (rw: Phdr)
    ensures !Multiple(rw.vaddr - rw.offset, 0x1000)
  {
    hide Multiple, Laid, SegmentOk, SharePage, AlignDown;
    var secs := new Section[3];
    secs[0] := Section(false, false, true, 0, 1, 0, 0);
    secs[1] := Section(true, false, true, 1, 1, 0, 0);
    secs[2] := Section(true, true, false, 8, 8, 0, 0);
    ghost var s := secs[..];
    PowersUsed();
    var off, rx, order;
    ghost var base, end;
    off, rx, rw, order, base, end := LayoutExecutable(secs, 0x1000, 0x1_0000, None);
    ghost var t := secs[..];
    assert t[1].SameAs(s[1]) && t[2].SameAs(s[2]);
    assert Nobits(t, 2, 0, 3) == 1 by { assert Nobits(t, 2, 0, 2) == 1; }
    assert OfSegment(t[2].Turn(2), 1);
  }

  lemma PowersUsed()
    ensures IsPowerOf2(1) && IsPowerOf2(8) && IsPowerOf2(0x1000) && Multiple(0x1_0000, 0x1000) && !Multiple(1, 0x1000)
  {
    assert IsPowerOf2(0x40) && IsPowerOf2(0x200);
  }

  /** layout_sections for an object file: no segments, every section in the file. */
  method LayoutObject(secs: array<Section>) returns (fileOffset: int, order: seq<nat>)
    requires secs.Length >= 1 && forall q :: 0 <= q < secs.Length ==> secs[q].align > 0 && IsPowerOf2(secs[q].align)
    modifies secs
    ensures SameInputs(secs[..], old(secs[..]))
    ensures Laid(secs[..], 0, 4, secs.Length, 0, 0, EHDR, fileOffset, order)
    ensures Tight(secs[..], 0, order, 0, EHDR, 1) && fileOffset == LastOff(secs[..], order, EHDR)
  {
    NothingLaid(secs[..], 0, 4, 0, EHDR, EHDR);
    TraceStarts(secs[..], 0, 2, 0, EHDR, 1);
    fileOffset, order := LayRest(secs, 0, EHDR, [0], 0, 0, EHDR, 0, EHDR, 1);
  }

  // ---------------------------------------------------------------- what a finished layout means

  /** Two ranges that do not overlap. */
  predicate Beside(a: int, n: nat, b: int, k: nat) { a + n <= b || b + k <= a }

  /** In a finished image no two loaded sections overlap in memory, each is aligned there, no two sections overlap in
      the file, the bytes of none reach past the file offset that is reported, and the order lists every section once. */
  lemma FinishedImage(s: seq<Section>, phnum: nat, base: int, addr: int, fbase: int, off: int, order: seq<nat>)
    requires Laid(s, phnum, 4, |s|, base, addr, fbase, off, order) && |s| >= 1
    ensures forall q, r :: 1 <= q < r < |s| && Loaded(s[q], phnum) && Loaded(s[r], phnum) ==>
              Beside(s[q].addr, s[q].size, s[r].addr, s[r].size)
    ensures forall q :: 1 <= q < |s| && Loaded(s[q], phnum) ==> s[q].align > 0 && Multiple(s[q].addr, s[q].align)
    ensures forall q, r :: 1 <= q < r < |s| ==> Beside(s[q].offset, s[q].FileSize(), s[r].offset, s[r].FileSize())
    ensures forall q :: 1 <= q < |s| ==> fbase <= s[q].offset && s[q].offset + s[q].FileSize() <= off
    ensures |order| == |s| && forall q :: 0 <= q < |s| ==> q in order
  {
    hide Multiple;
    assert forall q :: 1 <= q < |s| ==> Done(s, phnum, q, 4, |s|);
    forall q, r | 1 <= q < r < |s|
      ensures Beside(s[q].offset, s[q].FileSize(), s[r].offset, s[r].FileSize())
      ensures Loaded(s[q], phnum) && Loaded(s[r], phnum) ==> Beside(s[q].addr, s[q].size, s[r].addr, s[r].size)
    {
      assert DoneInOrder(s, phnum, q, r, 4, |s|) || DoneInOrder(s, phnum, r, q, 4, |s|);
    }
    OrderIsComplete(s, phnum, order);
  }

  lemma OrderIsComplete(s: seq<Section>, phnum: nat, order: seq<nat>)
    requires |s| >= 1 && Ordered(s, phnum, 4, |s|, order)
    ensures |order| == |s| && forall q :: 0 <= q < |s| ==> q in order
  {
    var o := order[1..];
    assert forall t :: 0 <= t < |o| ==> o[t] == order[t + 1];
    forall q | 1 <= q < |s| ensures q in o {
      assert Done(s, phnum, q, 4, |s|);
    }
    hide Earlier, Done;
    EarlierIsStrict(s, phnum);
    CountAll(o, |s|) by {
      forall t | 0 <= t < |o| ensures 1 <= o[t] < |s| {
        DoneIsNumbered(s, phnum, order[t + 1]);
      }
    }
    assert order == [0] + o;
  }

  lemma EarlierIsStrict(s: seq<Section>, phnum: nat)
    ensures forall q :: 0 <= q < |s| ==> !Earlier(s, phnum, q, q)
  {
  }

  lemma DoneIsNumbered(s: seq<Section>, phnum: nat, q: nat)
    requires q < |s| && Done(s, phnum, q, 4, |s|)
    ensures 1 <= q
  {
  }

  lemma CountAll(o: seq<nat>, n: nat)
    requires n >= 1 && (forall t :: 0 <= t < |o| ==> 1 <= o[t] < n) && (forall q :: 1 <= q < n ==> q in o)
    requires forall t, u :: 0 <= t < u < |o| ==> o[t] != o[u]
    ensures |o| == n - 1
  {
    Distinct(o);
    assert Elements(o) == Numbers(n);
  }

  function Elements(o: seq<nat>): (e: set<nat>)
    ensures forall q :: q in e <==> q in o
  {
    if o == [] then {} else Elements(o[..|o| - 1]) + {o[|o| - 1]}
  }

  function Numbers(n: nat): (e: set<nat>)
    ensures forall q :: q in e <==> 1 <= q < n
    ensures n >= 1 ==> |e| == n - 1
  {
    if n <= 1 then {} else Numbers(n - 1) + {n - 1}
  }

  lemma {:induction false} Distinct(o: seq<nat>)
    requires forall t, u :: 0 <= t < u < |o| ==> o[t] != o[u]
    ensures |Elements(o)| == |o|
  {
    if o != [] {
      Distinct(o[..|o| - 1]);
    }
  }
}
