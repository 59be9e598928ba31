/** Spilling registers to the frame: the value stack of the code generator against the machine its code runs on. */
module Spill {
  import opened Words
  import opened Align

  const NB_REGS: nat := 19
  const VSTACK_SIZE: nat := 256
  const MAX_TEMPS: nat := 8
  const PTR_SIZE: nat := 8

  type Word = w: seq<u8> | |w| == 8 witness [0, 0, 0, 0, 0, 0, 0, 0]

  /** The part of a type that spilling looks at; `two` if values of it take two registers. */
  datatype BType = Void | Func | Obj(size: nat, align: nat, two: bool)

  const PTR := Obj(PTR_SIZE, PTR_SIZE, false)

  /** Where an entry lives, VT_VALMASK of r: a register, or a constant, frame or jump location. */
  datatype Place = Reg(n: nat) | Const | LLocal | Local | Cmp | Jmp

  /** A value-stack entry; `c` is the frame offset or constant. */
  datatype SValue = SValue(place: Place, lval: bool, flags: nat, r2: Option<nat>, c: int, ty: BType) {
    /** The entry occupies register `r`. */
    predicate Uses(r: nat) { place == Reg(r) || r2 == Some(r) }

    /** What is stored to save it: an lvalue or a function is saved as its address. */
    function SavedType(): BType { if lval || ty.Func? then PTR else ty }

    /** The bytes that saving it stores. */
    function SavedSize(): nat { if SavedType().Obj? then SavedType().size else 0 }

    /** The bytes of its value in memory. */
    function Width(): nat { match ty case Void => 0 case Func => PTR_SIZE case Obj(n, _, _) => n }

    /** The bytes of the frame it names directly: a saved pointer, or an object. */
    function FrameWidth(): nat {
      if ty.Void? then 0 else if place == LLocal then PTR_SIZE else if place == Local && lval then Width() else 0
    }

    /** Well-formed as the generator keeps them: a second register only beside a first, for two-word rvalues. */
    predicate WellFormed() {
      && (ty.Obj? ==> 0 < ty.align <= 16 && 0 < ty.size && (ty.two ==> ty.size == 2 * PTR_SIZE))
      && (place.Reg? ==> place.n < NB_REGS && (!lval && ty.Obj? ==> ty.two || ty.size <= PTR_SIZE))
      && (r2.Some? ==> r2.value < NB_REGS)
      && (r2.Some? <==> place.Reg? && !lval && ty.Obj? && ty.two)
      && (place == LLocal ==> lval)
    }
  }

  // ---------------------------------------------------------------- the machine the code runs on

  /** Registers, memory and the frame pointer. */
  datatype Machine = Machine(regs: nat -> Word, mem: int -> u8, fp: int) {
    ghost function Mem(a: int, n: nat): (s: seq<u8>)
      ensures |s| == n
    {
      seq<u8>(n, i requires 0 <= i => mem(a + i))
    }

    /** The machine after storing `bytes` at address `a`. */
    ghost function Store(a: int, bytes: seq<u8>): Machine {
      var old_mem := mem;
      Machine(regs, (x: int) => if a <= x < a + |bytes| then bytes[x - a] else old_mem(x), fp)
    }
  }

  datatype Meaning = NoValue | Bytes(bytes: seq<u8>) | Address(a: int) | Fixed(e: SValue)

  /** The address an lvalue entry designates. */
  ghost function Target(e: SValue, m: Machine): int
    requires e.lval
  {
    match e.place
    case Reg(n) => FromLE(m.regs(n))
    case LLocal => FromLE(m.Mem(m.fp + e.c, PTR_SIZE))
    case Local => m.fp + e.c
    case _ => e.c
  }

  /** The value an entry denotes when the code generated so far has run. */
  ghost function Denote(e: SValue, m: Machine): Meaning
    requires e.WellFormed()
  {
    if e.ty.Void? then NoValue
    else if e.lval && (e.place.Reg? || e.place == LLocal || e.place == Local || e.place == Const) then
      Bytes(m.Mem(Target(e, m), e.Width()))
    else if e.place.Reg? then
      if e.ty.Obj? && e.ty.two then Bytes(m.regs(e.place.n) + m.regs(e.r2.value))
      else Bytes(m.regs(e.place.n)[..e.Width()])
    else if e.place == Local then Address(m.fp + e.c)
    else Fixed(e)
  }

  /** [a, a + n) and [b, b + k) have no address in common. */
  predicate NoOverlap(a: int, n: nat, b: int, k: nat) { n == 0 || k == 0 || a + n <= b || b + k <= a }

  /** Nothing the entry denotes is read from [lo, lo + n). */
  ghost predicate Avoids(e: SValue, m: Machine, lo: int, n: nat) {
    && NoOverlap(m.fp + e.c, e.FrameWidth(), lo, n)
    && (e.lval && e.place != Local ==> NoOverlap(Target(e, m), e.Width(), lo, n))
  }

  lemma MemApart(m: Machine, lo: int, bytes: seq<u8>, a: int, n: nat)
    requires NoOverlap(a, n, lo, |bytes|)
    ensures m.Store(lo, bytes).Mem(a, n) == m.Mem(a, n)
  {
  }

  /** A store elsewhere leaves the meaning of an entry alone. */
  lemma AvoidsKeepsMeaning(e: SValue, m: Machine, lo: int, bytes: seq<u8>)
    requires e.WellFormed() && Avoids(e, m, lo, |bytes|)
    ensures Denote(e, m.Store(lo, bytes)) == Denote(e, m)
    ensures e.lval && !e.ty.Void? ==> Target(e, m.Store(lo, bytes)) == Target(e, m)
  {
    if e.place == LLocal && !e.ty.Void? {
      MemApart(m, lo, bytes, m.fp + e.c, PTR_SIZE);
    }
    if e.lval && !e.ty.Void? {
      MemApart(m, lo, bytes, Target(e, m), e.Width());
    }
  }

  // ---------------------------------------------------------------- saving one entry

  /** An entry marked as saved in the frame slot at `l`. */
  function SavedEntry(e: SValue, l: int): SValue {
    if e.lval then e.(place := LLocal, r2 := None, c := l)
    else e.(place := Local, lval := true, flags := 0, r2 := None, c := l)
  }

  /** What store() writes to the slot for the first entry found. */
  ghost function SavedBytes(e: SValue, m: Machine): (b: seq<u8>)
    requires e.WellFormed() && e.place.Reg? && !e.ty.Void?
    ensures |b| == e.SavedSize()
  {
    if e.r2.Some? then m.regs(e.place.n) + m.regs(e.r2.value) else m.regs(e.place.n)[..e.SavedSize()]
  }

  /** The slot holds the first register, as far as it is needed, and then the second; nothing else changes. */
  lemma SavedWords(e: SValue, m: Machine, l: int)
    requires InRegister(e)
    ensures var m2 := m.Store(m.fp + l, SavedBytes(e, m));
            && (if e.r2.Some? then m2.Mem(m.fp + l, 8) == m.regs(e.place.n) && m2.Mem(m.fp + l + 8, 8) == m.regs(e.r2.value)
                else m2.Mem(m.fp + l, e.SavedSize()) == m.regs(e.place.n)[..e.SavedSize()])
            && (forall x :: !(m.fp + l <= x < m.fp + l + e.SavedSize()) ==> m2.mem(x) == m.mem(x))
  {
  }

  /** `e` can be read back from the slot written for `f`: the same first register, the same second one if it has a
      second one, and no wider. */
  predicate Compatible(f: SValue, e: SValue) {
    e.place == f.place && (e.r2.Some? ==> e.r2 == f.r2) && e.SavedSize() <= f.SavedSize()
  }

  /** Entries in registers that have a value. */
  predicate InRegister(e: SValue) { e.WellFormed() && e.place.Reg? && !e.ty.Void? }

  lemma SavedWellFormed(e: SValue, l: int)
    requires e.WellFormed() && e.place.Reg?
    ensures SavedEntry(e, l).WellFormed()
  {
  }

  /** A saved entry means what it meant in its registers. */
  lemma SavedKeepsMeaning(f: SValue, e: SValue, m: Machine, l: int)
    requires InRegister(f) && InRegister(e) && Compatible(f, e)
    requires Avoids(e, m, m.fp + l, f.SavedSize())
    ensures var m2 := m.Store(m.fp + l, SavedBytes(f, m));
            && SavedEntry(e, l).WellFormed()
            && Denote(SavedEntry(e, l), m2) == Denote(e, m)
            && (e.lval ==> Target(SavedEntry(e, l), m2) == Target(e, m))
  {
    var b := SavedBytes(f, m);
    var m2 := m.Store(m.fp + l, b);
    var k := e.SavedSize();
    assert m2.Mem(m.fp + l, k) == b[..k];
    if e.lval {
      assert b[..k] == m.regs(e.place.n);
      MemApart(m, m.fp + l, b, Target(e, m), e.Width());
    }
  }

  // ---------------------------------------------------------------- exactly when the meaning is kept

  /** In machine `m`, if nothing `e` denotes is read from the slot, saving `f` there and marking `e` keeps what `e` means. */
  ghost predicate Survives(f: SValue, e: SValue, l: int, m: Machine)
    requires InRegister(f) && InRegister(e)
  {
    SavedWellFormed(e, l);
    Avoids(e, m, m.fp + l, f.SavedSize()) ==>
      Denote(SavedEntry(e, l), m.Store(m.fp + l, SavedBytes(f, m))) == Denote(e, m)
  }

  /** Every byte of register q is q. */
  function Filled(q: nat): Word {
    var b: u8 := if q < 256 then q else 0;
    [b, b, b, b, b, b, b, b]
  }

  /** A machine that tells registers, the frame and the object at `t` apart. */
  function Telltale(fp: int, t: int): Machine {
    Machine((q: nat) => Filled(q), (x: int) => if x == t then 20 else 255, fp)
  }

  /** A machine that does so, whatever it has in [lo, 0). */
  ghost predicate Telling(m: Machine, t: nat, lo: int) {
    && lo <= 0 && (forall q: nat :: m.regs(q) == Filled(q))
    && forall x :: x < lo || 0 <= x ==> m.mem(x) == if x == t then 20 else 255
  }

  /** The byte of the slot that differs from the registers of an entry that is not compatible. */
  lemma WrongByte(f: SValue, e: SValue, m: Machine, l: int, t: nat, lo: int) returns (k: nat)
    requires InRegister(f) && InRegister(e) && !Compatible(f, e) && Telling(m, t, lo) && m.fp + l + 16 <= lo
    ensures k < e.SavedSize() && m.Store(m.fp + l, SavedBytes(f, m)).mem(m.fp + l + k) != SavedBytes(e, m)[k]
  {
    var b := SavedBytes(f, m);
    if e.place != f.place {
      k := 0;
    } else if f.SavedSize() < e.SavedSize() {
      k := f.SavedSize();
    } else {
      k := 8;
    }
  }

  /** An entry that is not compatible means something else in a machine that tells registers apart. */
  lemma IncompatibleIsLost(f: SValue, e: SValue, l: int, m: Machine, lo: int)
    requires InRegister(f) && InRegister(e) && !Compatible(f, e)
    requires Telling(m, FromLE(Filled(e.place.n)), lo) && m.fp + l + 16 <= lo
    ensures SavedEntry(e, l).WellFormed()
    ensures Denote(SavedEntry(e, l), m.Store(m.fp + l, SavedBytes(f, m))) != Denote(e, m)
  {
    hide Denote, SavedBytes, FromLE, Compatible;
    SavedWellFormed(e, l);
    var t := FromLE(Filled(e.place.n));
    var m2 := m.Store(m.fp + l, SavedBytes(f, m));
    var k := WrongByte(f, e, m, l, t, lo);
    if e.lval {
      var w := m2.Mem(m.fp + l, PTR_SIZE);
      assert SavedBytes(e, m) == Filled(e.place.n) by { SavedPointer(e, m); }
      assert w[k] != Filled(e.place.n)[k];
      if FromLE(w) == t { FromLEInjective(w, Filled(e.place.n)); }
      OtherTarget(e, l, m, m2);
    } else {
      assert m2.Mem(m.fp + l, e.SavedSize())[k] != SavedBytes(e, m)[k];
      SavedValue(e, l, m, m2);
    }
  }

  lemma SavedPointer(e: SValue, m: Machine)
    requires InRegister(e) && e.lval
    ensures SavedBytes(e, m) == m.regs(e.place.n) && e.SavedSize() == PTR_SIZE
  {
  }

  lemma SavedValue(e: SValue, l: int, m: Machine, m2: Machine)
    requires InRegister(e) && !e.lval && m2.fp == m.fp
    ensures SavedEntry(e, l).WellFormed()
    ensures Denote(e, m) == Bytes(SavedBytes(e, m)) && Denote(SavedEntry(e, l), m2) == Bytes(m2.Mem(m.fp + l, e.SavedSize()))
  {
  }

  /** The object is read from a place where the machine holds something else. */
  lemma OtherTarget(e: SValue, l: int, m: Machine, m2: Machine)
    requires InRegister(e) && e.lval && m2.fp == m.fp && m.mem(FromLE(m.regs(e.place.n))) == 20
    requires FromLE(m2.Mem(m.fp + l, PTR_SIZE)) >= 0 && m2.mem(FromLE(m2.Mem(m.fp + l, PTR_SIZE))) == 255
    ensures SavedEntry(e, l).WellFormed() && Denote(SavedEntry(e, l), m2) != Denote(e, m)
  {
    hide FromLE;
    assert m.Mem(FromLE(m.regs(e.place.n)), e.Width())[0] == 20;
    assert m2.Mem(FromLE(m2.Mem(m.fp + l, PTR_SIZE)), e.Width())[0] == 255;
  }

  /** Marking `e` as saved where `f` was saved keeps its meaning in every machine if and only if the two are
      compatible - for values and for lvalues. */
  lemma MeaningKeptExactly(f: SValue, e: SValue, l: int)
    requires InRegister(f) && InRegister(e)
    ensures (forall m :: Survives(f, e, l, m)) <==> Compatible(f, e)
  {
    hide Denote, SavedBytes, FromLE, Compatible;
    SavedWellFormed(e, l);
    if Compatible(f, e) {
      forall m ensures Survives(f, e, l, m) {
        if Avoids(e, m, m.fp + l, f.SavedSize()) { SavedKeepsMeaning(f, e, m, l); }
      }
    } else {
      var m := Telltale(-l - 16, FromLE(Filled(e.place.n)));
      IncompatibleIsLost(f, e, l, m, 0);
      assert !Survives(f, e, l, m);
    }
  }

  // ---------------------------------------------------------------- the value stack

  /** A frame slot set aside for spilling. */
  datatype Temp = Temp(location: int, size: nat, align: nat)

  /** The entry names a frame slot only at its base, and lies in the frame allocated so far. */
  predicate Placed(e: SValue, temps: seq<Temp>, loc: int) {
    (e.place == Local || e.place == LLocal) ==>
      && loc <= e.c
      && forall k :: 0 <= k < |temps| ==>
           (e.c == temps[k].location && e.FrameWidth() <= temps[k].size)
           || NoOverlap(e.c, e.FrameWidth(), temps[k].location, temps[k].size)
  }

  /** What the entry points to is outside the spill slots and the part of the frame not yet allocated. */
  ghost predicate Aims(e: SValue, m: Machine, temps: seq<Temp>, floor: int, loc: int) {
    (e.lval && e.place != Local) ==>
      && (floor <= loc ==> NoOverlap(Target(e, m), e.Width(), m.fp + floor, loc - floor))
      && forall k :: 0 <= k < |temps| ==> NoOverlap(Target(e, m), e.Width(), m.fp + temps[k].location, temps[k].size)
  }

  predicate TempsOk(temps: seq<Temp>, loc: int) {
    && |temps| <= MAX_TEMPS && loc <= 0
    && (forall k :: 0 <= k < |temps| ==> temps[k].size > 0 && loc <= temps[k].location < 0)
    && (forall k :: 0 <= k < |temps| ==> temps[k].align > 0 && Multiple(temps[k].location, temps[k].align))
    && (forall k, q :: 0 <= k < q < |temps| ==> NoOverlap(temps[k].location, temps[k].size, temps[q].location, temps[q].size))
  }

  /** A slot that overlaps no recorded slot but one it lies at the base of. */
  predicate SlotOk(temps: seq<Temp>, loc: int, location: int, size: nat) {
    && loc <= location < 0
    && forall k :: 0 <= k < |temps| ==>
         (temps[k].location == location && size <= temps[k].size) || NoOverlap(location, size, temps[k].location, temps[k].size)
  }

  function Recorded(temps: seq<Temp>, t: Temp): seq<Temp> { if |temps| < MAX_TEMPS then temps + [t] else temps }

  lemma SlotIsBelow(temps: seq<Temp>, loc: int, location: int, size: nat)
    requires SlotOk(temps, loc, location, size)
    ensures location < 0
  {
  }

  lemma ReusedSlot(temps: seq<Temp>, loc: int, i: nat, size: nat)
    requires TempsOk(temps, loc) && i < |temps| && size <= temps[i].size
    ensures SlotOk(temps, loc, temps[i].location, size) && temps[i].align > 0 && Multiple(temps[i].location, temps[i].align)
  {
  }

  lemma NewSlot(temps: seq<Temp>, loc: int, location: int, size: nat, align: nat)
    requires TempsOk(temps, loc) && size > 0 && location + size <= loc && align > 0 && Multiple(location, align)
    ensures TempsOk(Recorded(temps, Temp(location, size, align)), location)
    ensures SlotOk(Recorded(temps, Temp(location, size, align)), location, location, size)
  {
  }

  /** No entry names this place in the frame. */
  predicate FreeAt(s: seq<SValue>, location: int) {
    forall i :: 0 <= i < |s| && (s[i].place == Local || s[i].place == LLocal) ==> s[i].c != location
  }

  /** The frame grows, by the slot and its alignment, only if no recorded slot fits and is free. */
  ghost predicate Chosen(s: seq<SValue>, temps0: seq<Temp>, temps: seq<Temp>, loc0: int, loc: int, size: nat, align: nat, location: int)
    requires align > 0
  {
    if exists k :: 0 <= k < |temps0| && temps0[k].size >= size && temps0[k].align == align && FreeAt(s, temps0[k].location)
    then loc == loc0 && temps == temps0
    else loc == location == AlignDown(loc0 - size, align) && temps == Recorded(temps0, Temp(location, size, align))
  }

  lemma FreeEntry(s: seq<SValue>, location: int, k: nat)
    requires FreeAt(s, location) && k < |s|
    ensures s[k].place == Local || s[k].place == LLocal ==> s[k].c != location
  {
  }

  lemma FreeSlotAvoided(e: SValue, m: Machine, temps: seq<Temp>, floor: int, loc: int, i: nat, size: nat)
    requires Placed(e, temps, loc) && Aims(e, m, temps, floor, loc) && i < |temps| && size <= temps[i].size
    requires e.place == Local || e.place == LLocal ==> e.c != temps[i].location
    ensures Avoids(e, m, m.fp + temps[i].location, size)
  {
  }

  lemma NewSlotAvoided(e: SValue, m: Machine, temps: seq<Temp>, floor: int, loc: int, location: int, size: nat, align: nat)
    requires Placed(e, temps, loc) && Aims(e, m, temps, floor, loc) && size > 0 && floor <= location && location + size <= loc
    ensures var temps2 := Recorded(temps, Temp(location, size, align));
            Placed(e, temps2, location) && Aims(e, m, temps2, floor, location)
    ensures Avoids(e, m, m.fp + location, size)
  {
    assert e.place == Local || e.place == LLocal ==> NoOverlap(e.c, e.FrameWidth(), location, size);
    assert e.lval && e.place != Local ==> NoOverlap(Target(e, m), e.Width(), m.fp + floor, loc - floor);
  }

  predicate UsesPlace(e: SValue, r: Place) { r.Reg? && e.Uses(r.n) }

  /** The lowest entry below `cut` that has a value in register `r`, or `cut`. */
  function FirstUser(s: seq<SValue>, r: Place, cut: nat): (f: nat)
    requires cut <= |s|
    ensures f <= cut && (f < cut ==> UsesPlace(s[f], r) && !s[f].ty.Void?)
    ensures forall k :: 0 <= k < f ==> !(UsesPlace(s[k], r) && !s[k].ty.Void?)
  {
    if cut == 0 then 0
    else
      var f := FirstUser(s, r, cut - 1);
      if f < cut - 1 || (UsesPlace(s[f], r) && !s[f].ty.Void?) then f else cut
  }

  /** Entries marked as saved: the lowest one with a value and whatever uses the register above it. */
  predicate Moved(s: seq<SValue>, r: Place, cut: nat, i: nat)
    requires cut <= |s|
  {
    FirstUser(s, r, cut) <= i < cut && UsesPlace(s[i], r)
  }

  /** The slot is aligned for what is saved there. */
  predicate SlotAligned(e: SValue, slot: int) { e.SavedType().Obj? && e.SavedType().align > 0 && Multiple(slot, e.SavedType().align) }

  /** The stack once the users of `r` below `cut` are saved at `l`. */
  function Saved(s: seq<SValue>, r: Place, cut: nat, l: int): (t: seq<SValue>)
    requires cut <= |s|
    ensures |t| == |s|
  {
    seq(|s|, i requires 0 <= i < |s| => if Moved(s, r, cut, i) then SavedEntry(s[i], l) else s[i])
  }

  /** Every user of the register that has a value can be read back from the slot of the lowest one. */
  predicate Savable(s: seq<SValue>, r: Place, cut: nat)
    requires cut <= |s|
  {
    var f := FirstUser(s, r, cut);
    f < cut ==> forall k :: f <= k < cut && UsesPlace(s[k], r) && !s[k].ty.Void? ==> Compatible(s[f], s[k])
  }

  lemma SavedStep(s: seq<SValue>, r: Place, i: nat, l: int)
    requires i < |s|
    ensures var t := Saved(s, r, i, l);
            t[i] == s[i] && Saved(s, r, i + 1, l) == if Moved(s, r, i + 1, i) then t[i := SavedEntry(s[i], l)] else t
  {
  }

  lemma SavedNothing(s: seq<SValue>, r: Place, i: nat, l: int)
    requires i <= |s| && FirstUser(s, r, i) == i
    ensures Saved(s, r, i, l) == s
  {
  }

  ghost predicate EntriesOk(s: seq<SValue>, m: Machine, temps: seq<Temp>, floor: int, loc: int) {
    forall i :: 0 <= i < |s| ==> s[i].WellFormed() && Placed(s[i], temps, loc) && Aims(s[i], m, temps, floor, loc)
  }

  ghost predicate SameMeanings(s: seq<SValue>, m: Machine, t: seq<SValue>, m2: Machine)
    requires |s| == |t| && AllWellFormed(s) && AllWellFormed(t)
  {
    forall i :: 0 <= i < |s| ==> Denote(t[i], m2) == Denote(s[i], m)
  }

  /** The heart of spilling: writing the registers of the lowest user to a slot nothing reads, and renaming every user
      below the cut to it, changes what no entry means if all of them can be read back from it. */
  lemma SavingKeepsMeanings(s: seq<SValue>, r: Place, cut: nat, l: int, m: Machine, temps: seq<Temp>, floor: int, loc: int)
    requires EntriesOk(s, m, temps, floor, loc) && cut <= |s| && Savable(s, r, cut) && FirstUser(s, r, cut) < cut
    requires var f := FirstUser(s, r, cut);
             InRegister(s[f]) && SlotOk(temps, loc, l, s[f].SavedSize())
             && forall k :: 0 <= k < |s| ==> Avoids(s[k], m, m.fp + l, s[f].SavedSize())
    ensures var t, m2 := Saved(s, r, cut, l), m.Store(m.fp + l, SavedBytes(s[FirstUser(s, r, cut)], m));
            EntriesOk(t, m2, temps, floor, loc) && SameMeanings(s, m, t, m2)
  {
    hide Denote, Target, Avoids, SavedBytes, SlotOk, FirstUser;
    var f := FirstUser(s, r, cut);
    var t, m2 := Saved(s, r, cut, l), m.Store(m.fp + l, SavedBytes(s[f], m));
    forall k | 0 <= k < |s|
      ensures t[k].WellFormed() && Placed(t[k], temps, loc) && Aims(t[k], m2, temps, floor, loc)
      ensures Denote(t[k], m2) == Denote(s[k], m)
    {
      if !Moved(s, r, cut, k) {
        AvoidsKeepsMeaning(s[k], m, m.fp + l, SavedBytes(s[f], m));
      } else if s[k].ty.Void? {
        SavedVoid(s[f], s[k], m, m2, temps, floor, loc, l);
      } else {
        SavedKeepsMeaning(s[f], s[k], m, l);
        SavedIsPlaced(s[f], s[k], temps, loc, l);
      }
    }
  }

  lemma SavedIsPlaced(f: SValue, e: SValue, temps: seq<Temp>, loc: int, l: int)
    requires InRegister(e) && e.SavedSize() <= f.SavedSize() && SlotOk(temps, loc, l, f.SavedSize())
    ensures Placed(SavedEntry(e, l), temps, loc)
  {
  }

  lemma SavedVoid(f: SValue, e: SValue, m: Machine, m2: Machine, temps: seq<Temp>, floor: int, loc: int, l: int)
    requires e.WellFormed() && e.place.Reg? && e.ty.Void? && SlotOk(temps, loc, l, f.SavedSize())
    ensures var t := SavedEntry(e, l);
            t.WellFormed() && Placed(t, temps, loc) && Aims(t, m2, temps, floor, loc) && Denote(t, m2) == Denote(e, m)
  {
  }

  // ---------------------------------------------------------------- exactly when a whole stack keeps its meanings

  /** In machine `m`, if no entry reads from the slot, saving register `r` to it keeps what every entry means. */
  ghost predicate StackSurvives(s: seq<SValue>, r: Place, cut: nat, l: int, m: Machine)
    requires cut <= |s| && FirstUser(s, r, cut) < cut && AllWellFormed(s)
  {
    var f := FirstUser(s, r, cut);
    SavedAllWellFormed(s, r, cut, l);
    (forall k :: 0 <= k < |s| ==> Avoids(s[k], m, m.fp + l, s[f].SavedSize()))
    ==> SameMeanings(s, m, Saved(s, r, cut, l), m.Store(m.fp + l, SavedBytes(s[f], m)))
  }

  predicate AllWellFormed(s: seq<SValue>) {
    forall i :: 0 <= i < |s| ==> s[i].WellFormed()
  }

  lemma SavedAllWellFormed(s: seq<SValue>, r: Place, cut: nat, l: int)
    requires cut <= |s| && AllWellFormed(s)
    ensures AllWellFormed(Saved(s, r, cut, l))
  {
    hide FirstUser;
    forall i | 0 <= i < |s|
      ensures Saved(s, r, cut, l)[i].WellFormed()
    {
      if Moved(s, r, cut, i) { SavedWellFormed(s[i], l); }
    }
  }

  /** A bound on the constants of the stack. */
  function Bound(s: seq<SValue>): (b: nat)
    ensures forall i :: 0 <= i < |s| ==> -(b as int) <= s[i].c
  {
    if s == [] then 0
    else
      var b := Bound(s[..|s| - 1]);
      var c := s[|s| - 1].c;
      if -c > b then -c else b
  }

  /** In a machine with its frame below all constants no entry reads from a slot that no frame object overlaps. */
  lemma FrameBelowAll(e: SValue, l: int, n: nat, m: Machine)
    requires e.WellFormed() && NoOverlap(e.c, e.FrameWidth(), l, n) && n <= 16 && m.fp + l + 16 <= 0 && m.fp + l + 16 <= e.c
    ensures Avoids(e, m, m.fp + l, n)
  {
  }

  /** Saving a register keeps the meaning of every entry, in every machine in which none of them reads from the slot, if
      and only if all users below the cut can be read back from the slot of the lowest. */
  lemma StackKeptExactly(s: seq<SValue>, r: Place, cut: nat, l: int)
    requires cut <= |s| && FirstUser(s, r, cut) < cut && AllWellFormed(s)
    requires forall k :: 0 <= k < |s| ==> NoOverlap(s[k].c, s[k].FrameWidth(), l, s[FirstUser(s, r, cut)].SavedSize())
    ensures (forall m :: StackSurvives(s, r, cut, l, m)) <==> Savable(s, r, cut)
  {
    hide Denote, Target, SavedBytes, FirstUser;
    var f := FirstUser(s, r, cut);
    SavedAllWellFormed(s, r, cut, l);
    if Savable(s, r, cut) {
      forall m ensures StackSurvives(s, r, cut, l, m) {
        if forall k :: 0 <= k < |s| ==> Avoids(s[k], m, m.fp + l, s[f].SavedSize()) {
          SavedMeanings(s, r, cut, l, m);
        }
      }
    } else {
      var k :| f <= k < cut && UsesPlace(s[k], r) && !s[k].ty.Void? && !Compatible(s[f], s[k]);
      OneIsLost(s, r, cut, l, k, -l - 16 - Bound(s));
    }
  }

  /** A user that cannot be read back, and a machine with its frame below all constants in which it is lost. */
  lemma OneIsLost(s: seq<SValue>, r: Place, cut: nat, l: int, k: nat, fp: int)
    requires cut <= |s| && FirstUser(s, r, cut) <= k < cut && AllWellFormed(s)
    requires UsesPlace(s[k], r) && !s[k].ty.Void? && !Compatible(s[FirstUser(s, r, cut)], s[k])
    requires forall i :: 0 <= i < |s| ==> fp + l + 16 <= s[i].c && NoOverlap(s[i].c, s[i].FrameWidth(), l, s[FirstUser(s, r, cut)].SavedSize())
    requires fp + l + 16 <= 0
    ensures s[k].place.Reg? && !StackSurvives(s, r, cut, l, Telltale(fp, FromLE(Filled(s[k].place.n))))
  {
    hide Denote, Target, SavedBytes, FirstUser;
    var f := FirstUser(s, r, cut);
    var m := Telltale(fp, FromLE(Filled(s[k].place.n)));
    SavedAllWellFormed(s, r, cut, l);
    IncompatibleIsLost(s[f], s[k], l, m, 0);
    forall i | 0 <= i < |s| ensures Avoids(s[i], m, m.fp + l, s[f].SavedSize()) {
      FrameBelowAll(s[i], l, s[f].SavedSize(), m);
    }
    assert Saved(s, r, cut, l)[k] == SavedEntry(s[k], l);
  }

  lemma SavedMeanings(s: seq<SValue>, r: Place, cut: nat, l: int, m: Machine)
    requires cut <= |s| && FirstUser(s, r, cut) < cut && AllWellFormed(s) && AllWellFormed(Saved(s, r, cut, l)) && Savable(s, r, cut)
    requires forall k :: 0 <= k < |s| ==> Avoids(s[k], m, m.fp + l, s[FirstUser(s, r, cut)].SavedSize())
    ensures InRegister(s[FirstUser(s, r, cut)])
    ensures SameMeanings(s, m, Saved(s, r, cut, l), m.Store(m.fp + l, SavedBytes(s[FirstUser(s, r, cut)], m)))
  {
    hide Target, Avoids, SavedBytes, FirstUser;
    var f := FirstUser(s, r, cut);
    var t, m2 := Saved(s, r, cut, l), m.Store(m.fp + l, SavedBytes(s[f], m));
    forall k | 0 <= k < |s|
      ensures Denote(t[k], m2) == Denote(s[k], m)
    {
      if !Moved(s, r, cut, k) {
        AvoidsKeepsMeaning(s[k], m, m.fp + l, SavedBytes(s[f], m));
      } else if !s[k].ty.Void? {
        SavedKeepsMeaning(s[f], s[k], m, l);
      }
    }
  }

  lemma NoUser(s: seq<SValue>, r: Place, cut: nat)
    requires cut <= |s|
    ensures FirstUser(s, r, 0) == 0 && (!r.Reg? ==> FirstUser(s, r, cut) == cut)
  {
  }

  lemma FirstUserBelow(s: seq<SValue>, r: Place, i: nat, cut: nat)
    requires i <= cut <= |s|
    ensures FirstUser(s, r, i) == if FirstUser(s, r, cut) < i then FirstUser(s, r, cut) else i
  {
    hide FirstUser;
    var f, g := FirstUser(s, r, i), FirstUser(s, r, cut);
    if f < i {
      assert g == f;
    }
  }

  /** Stacks that differ in frame offsets alone. */
  predicate SameButOffsets(s: seq<SValue>, t: seq<SValue>) {
    |s| == |t| && forall i :: 0 <= i < |s| ==> t[i] == s[i].(c := t[i].c)
  }

  lemma {:induction false} SameFirstUser(s: seq<SValue>, t: seq<SValue>, r: Place, cut: nat)
    requires SameButOffsets(s, t) && cut <= |s|
    ensures FirstUser(s, r, cut) == FirstUser(t, r, cut) && Savable(s, r, cut) == Savable(t, r, cut)
    ensures forall l, l' :: SameButOffsets(Saved(s, r, cut, l), Saved(t, r, cut, l'))
  {
    hide FirstUser;
    var f, g := FirstUser(s, r, cut), FirstUser(t, r, cut);
    assert forall i :: 0 <= i < cut ==> UsesPlace(s[i], r) == UsesPlace(t[i], r) && s[i].ty == t[i].ty;
    assert f == g;
    forall l, l' ensures SameButOffsets(Saved(s, r, cut, l), Saved(t, r, cut, l')) {
    }
  }

  // ---------------------------------------------------------------- saving one register after the other

  /** The stack after turns of save_regs: turn `k` saves the register that entry `k` is in by then, at `slots[k]`. */
  function RunStack(s: seq<SValue>, slots: seq<int>): (t: seq<SValue>)
    requires |slots| <= |s|
    ensures |t| == |s|
  {
    if slots == [] then s
    else
      var k := |slots| - 1;
      var t := RunStack(s, slots[..k]);
      Saved(t, t[k].place, |s|, slots[k])
  }

  /** The machine after the code for one turn. */
  ghost function Stored(s: seq<SValue>, r: Place, cut: nat, l: int, m: Machine): Machine
    requires cut <= |s| && AllWellFormed(s)
  {
    var f := FirstUser(s, r, cut);
    if f < cut then m.Store(m.fp + l, SavedBytes(s[f], m)) else m
  }

  ghost function RunMachine(s: seq<SValue>, slots: seq<int>, m: Machine): (m2: Machine)
    requires |slots| <= |s| && AllWellFormed(s)
    ensures m2.regs == m.regs && m2.fp == m.fp
  {
    if slots == [] then m
    else
      var k := |slots| - 1;
      RunWellFormed(s, slots[..k]);
      var t := RunStack(s, slots[..k]);
      Stored(t, t[k].place, |s|, slots[k], RunMachine(s, slots[..k], m))
  }

  lemma {:induction false} RunWellFormed(s: seq<SValue>, slots: seq<int>)
    requires |slots| <= |s| && AllWellFormed(s)
    ensures AllWellFormed(RunStack(s, slots))
  {
    hide AllWellFormed, Saved;
    if slots != [] {
      var k := |slots| - 1;
      RunWellFormed(s, slots[..k]);
      var t := RunStack(s, slots[..k]);
      SavedAllWellFormed(t, t[k].place, |s|, slots[k]);
    }
  }

  function Zeros(n: nat): (z: seq<int>)
    ensures |z| == n
  {
    seq(n, _ => 0)
  }

  /** In the turn of entry `k` the users of its register can be read back from one slot - wherever the slots are. */
  predicate TurnSavable(s: seq<SValue>, k: nat)
    requires k < |s|
  {
    var t := RunStack(s, Zeros(k));
    Savable(t, t[k].place, |s|)
  }

  predicate RunSavable(s: seq<SValue>, n: nat)
    requires n <= |s|
  {
    forall k :: 0 <= k < n ==> TurnSavable(s, k)
  }

  lemma {:induction false} SlotsDoNotMatter(s: seq<SValue>, slots: seq<int>, slots2: seq<int>)
    requires |slots| == |slots2| <= |s|
    ensures SameButOffsets(RunStack(s, slots), RunStack(s, slots2))
  {
    hide Saved, SameButOffsets;
    if slots == [] {
      SameButOffsetsRefl(s);
    } else {
      var k := |slots| - 1;
      SlotsDoNotMatter(s, slots[..k], slots2[..k]);
      var t, t2 := RunStack(s, slots[..k]), RunStack(s, slots2[..k]);
      SameRegister(t, t2, k);
      SameFirstUser(t, t2, t[k].place, |s|);
    }
  }

  lemma SameButOffsetsRefl(s: seq<SValue>)
    ensures SameButOffsets(s, s)
  {
  }

  lemma SameRegister(s: seq<SValue>, t: seq<SValue>, k: nat)
    requires SameButOffsets(s, t) && k < |s|
    ensures s[k].place == t[k].place
  {
  }

  lemma TurnSavableAnywhere(s: seq<SValue>, slots: seq<int>)
    requires |slots| < |s|
    ensures var t := RunStack(s, slots); TurnSavable(s, |slots|) <==> Savable(t, t[|slots|].place, |s|)
  {
    hide SameButOffsets, Savable, RunStack;
    var t, z := RunStack(s, slots), RunStack(s, Zeros(|slots|));
    SlotsDoNotMatter(s, slots, Zeros(|slots|));
    SameRegister(t, z, |slots|);
    SameFirstUser(t, z, t[|slots|].place, |s|);
  }

  /** In the turn after `slots` nothing is read from the slot at `l`. */
  ghost predicate TurnAvoids(s: seq<SValue>, slots: seq<int>, l: int, m: Machine)
    requires |slots| < |s| && AllWellFormed(s)
  {
    var t, m1 := RunStack(s, slots), RunMachine(s, slots, m);
    var f := FirstUser(t, t[|slots|].place, |s|);
    f < |s| ==> forall i :: 0 <= i < |s| ==> Avoids(t[i], m1, m1.fp + l, t[f].SavedSize())
  }

  ghost predicate RunAvoids(s: seq<SValue>, slots: seq<int>, m: Machine)
    requires |slots| <= |s| && AllWellFormed(s)
  {
    forall k :: 0 <= k < |slots| ==> TurnAvoids(s, slots[..k], slots[k], m)
  }

  /** In machine `m`, if no entry reads from a slot when it is written, the run keeps what every entry means. */
  ghost predicate RunSurvives(s: seq<SValue>, slots: seq<int>, m: Machine)
    requires |slots| <= |s| && AllWellFormed(s)
  {
    RunWellFormed(s, slots);
    RunAvoids(s, slots, m) ==> SameMeanings(s, m, RunStack(s, slots), RunMachine(s, slots, m))
  }

  lemma RunAvoidsPrefix(s: seq<SValue>, slots: seq<int>, m: Machine, n: nat)
    requires n <= |slots| <= |s| && AllWellFormed(s) && RunAvoids(s, slots, m)
    ensures RunAvoids(s, slots[..n], m)
  {
    hide TurnAvoids, AllWellFormed;
    forall k | 0 <= k < n
      ensures TurnAvoids(s, slots[..n][..k], slots[..n][k], m)
    {
      assert slots[..n][..k] == slots[..k] && TurnAvoids(s, slots[..k], slots[k], m);
    }
  }

  /** One turn in which all users can be read back. */
  lemma TurnKeeps(s: seq<SValue>, k: nat, l: int, m: Machine)
    requires k < |s| && AllWellFormed(s) && Savable(s, s[k].place, |s|)
    requires var f := FirstUser(s, s[k].place, |s|);
             f < |s| ==> forall i :: 0 <= i < |s| ==> Avoids(s[i], m, m.fp + l, s[f].SavedSize())
    ensures AllWellFormed(Saved(s, s[k].place, |s|, l))
    ensures SameMeanings(s, m, Saved(s, s[k].place, |s|, l), Stored(s, s[k].place, |s|, l, m))
  {
    hide Denote, Avoids, SavedBytes, FirstUser;
    var r := s[k].place;
    SavedAllWellFormed(s, r, |s|, l);
    if FirstUser(s, r, |s|) < |s| {
      SavedMeanings(s, r, |s|, l, m);
    } else {
      SavedNothing(s, r, |s|, l);
      SameMeaningsRefl(s, m);
    }
  }

  lemma {:induction false} RunKeeps(s: seq<SValue>, slots: seq<int>, m: Machine)
    requires |slots| <= |s| && AllWellFormed(s) && RunSavable(s, |slots|) && RunAvoids(s, slots, m)
    ensures AllWellFormed(RunStack(s, slots)) && SameMeanings(s, m, RunStack(s, slots), RunMachine(s, slots, m))
  {
    hide Denote, Avoids, SavedBytes, FirstUser, Saved, Stored, AllWellFormed, SameMeanings, Savable, TurnSavable;
    RunWellFormed(s, slots);
    if slots == [] {
      SameMeaningsRefl(s, m);
    } else {
      var k := |slots| - 1;
      RunAvoidsPrefix(s, slots, m, k);
      RunKeeps(s, slots[..k], m);
      assert TurnSavable(s, k) && TurnAvoids(s, slots[..k], slots[k], m);
      TurnSavableAnywhere(s, slots[..k]);
      var t, m1 := RunStack(s, slots[..k]), RunMachine(s, slots[..k], m);
      TurnKeeps(t, k, slots[k], m1);
      SameMeaningsTrans(s, m, t, m1, RunStack(s, slots), RunMachine(s, slots, m));
    }
  }

  lemma SameMeaningsRefl(s: seq<SValue>, m: Machine)
    requires AllWellFormed(s)
    ensures SameMeanings(s, m, s, m)
  {
  }

  lemma SameMeaningsTrans(s: seq<SValue>, m: Machine, t: seq<SValue>, m1: Machine, u: seq<SValue>, m2: Machine)
    requires |s| == |t| == |u| && AllWellFormed(s) && AllWellFormed(t) && AllWellFormed(u)
    requires SameMeanings(s, m, t, m1) && SameMeanings(t, m1, u, m2)
    ensures SameMeanings(s, m, u, m2)
  {
  }

  lemma RunStart(s: seq<SValue>, m: Machine)
    requires AllWellFormed(s)
    ensures RunStack(s, []) == s && RunMachine(s, [], m) == m
  {
  }

  /** Slots below all constants, 32 bytes apart. */
  function LowSlot(b: int, k: nat): int { -b - 32 * (k + 1) }

  function LowSlots(b: int, n: nat): (z: seq<int>)
    ensures |z| == n
  {
    seq(n, k requires 0 <= k => LowSlot(b, k))
  }

  lemma {:induction false} RunStaysHigh(s: seq<SValue>, b: int, n: nat)
    requires n <= |s| && forall i :: 0 <= i < |s| ==> -b <= s[i].c
    ensures forall i :: 0 <= i < |s| ==> -b - 32 * n <= RunStack(s, LowSlots(b, n))[i].c
  {
    hide FirstUser;
    if n != 0 {
      assert LowSlots(b, n)[..n - 1] == LowSlots(b, n - 1);
      RunStaysHigh(s, b, n - 1);
    }
  }

  /** No entry reads from these slots, in a machine with its frame at 0. */
  lemma LowSlotsAvoided(s: seq<SValue>, b: int, n: nat, m: Machine)
    requires b >= 0 && n <= |s| && AllWellFormed(s) && m.fp == 0 && forall i :: 0 <= i < |s| ==> -b <= s[i].c
    ensures RunAvoids(s, LowSlots(b, n), m)
  {
    hide FirstUser, Avoids, RunStack, RunMachine;
    forall k | 0 <= k < n
      ensures TurnAvoids(s, LowSlots(b, n)[..k], LowSlots(b, n)[k], m)
    {
      assert LowSlots(b, n)[..k] == LowSlots(b, k);
      var t, m1 := RunStack(s, LowSlots(b, k)), RunMachine(s, LowSlots(b, k), m);
      RunWellFormed(s, LowSlots(b, k));
      RunStaysHigh(s, b, k);
      var f := FirstUser(t, t[k].place, |s|);
      if f < |s| {
        forall i | 0 <= i < |s| ensures Avoids(t[i], m1, m1.fp + LowSlot(b, k), t[f].SavedSize()) {
          SavedSizeBound(t[f]);
          FrameBelowAll(t[i], LowSlot(b, k), t[f].SavedSize(), m1);
        }
      }
    }
  }

  lemma SavedSizeBound(e: SValue)
    requires e.WellFormed() && e.place.Reg?
    ensures e.SavedSize() <= 16
  {
  }

  /** They are all the run writes. */
  lemma {:induction false} RunTells(s: seq<SValue>, b: int, n: nat, t: nat)
    requires b >= 0 && n <= |s| && AllWellFormed(s)
    ensures Telling(RunMachine(s, LowSlots(b, n), Telltale(0, t)), t, -b - 32 * n)
  {
    hide FirstUser, RunStack, SavedBytes, AllWellFormed, Filled;
    if n != 0 {
      var slots := LowSlots(b, n);
      assert slots[..n - 1] == LowSlots(b, n - 1);
      RunTells(s, b, n - 1, t);
      RunWellFormed(s, slots[..n - 1]);
      var u, m1 := RunStack(s, slots[..n - 1]), RunMachine(s, slots[..n - 1], Telltale(0, t));
      StoredTells(u, u[n - 1].place, LowSlot(b, n - 1), m1, t, -b - 32 * n);
    }
  }

  lemma StoredTells(s: seq<SValue>, r: Place, l: int, m: Machine, t: nat, lo: int)
    requires AllWellFormed(s) && Telling(m, t, lo + 32) && m.fp == 0 && l == lo <= -32
    ensures Telling(Stored(s, r, |s|, l, m), t, lo)
  {
    hide FirstUser, SavedBytes;
    var f := FirstUser(s, r, |s|);
    if f < |s| {
      SavedSizeBound(s[f]);
    }
  }

  /** What an entry that is in no register means stays what it is in later turns. */
  lemma {:induction false} StaysAsItIs(s: seq<SValue>, slots: seq<int>, m: Machine, k: nat, j: nat)
    requires k <= |slots| <= |s| && AllWellFormed(s) && j < |s| && RunAvoids(s, slots, m)
    requires !RunStack(s, slots[..k])[j].place.Reg?
    ensures var t, t2 := RunStack(s, slots[..k]), RunStack(s, slots);
            && AllWellFormed(t) && AllWellFormed(t2) && t2[j] == t[j]
            && Denote(t2[j], RunMachine(s, slots, m)) == Denote(t[j], RunMachine(s, slots[..k], m))
    decreases |slots|
  {
    hide Denote, Avoids, SavedBytes, FirstUser, RunStack, RunMachine, Saved, Stored, AllWellFormed;
    RunWellFormed(s, slots[..k]);
    RunWellFormed(s, slots);
    if k == |slots| {
      assert slots[..k] == slots;
    } else {
      var n := |slots| - 1;
      assert slots[..n][..k] == slots[..k] && slots[..n + 1] == slots;
      RunAvoidsPrefix(s, slots, m, n);
      StaysAsItIs(s, slots[..n], m, k, j);
      assert TurnAvoids(s, slots[..n], slots[n], m);
      RunNext(s, slots, m, n);
      var t, m1 := RunStack(s, slots[..n]), RunMachine(s, slots[..n], m);
      OneStays(t, t[n].place, slots[n], m1, j);
    }
  }

  lemma OneStays(s: seq<SValue>, r: Place, l: int, m: Machine, j: nat)
    requires AllWellFormed(s) && j < |s| && !s[j].place.Reg?
    requires var f := FirstUser(s, r, |s|); f < |s| ==> Avoids(s[j], m, m.fp + l, s[f].SavedSize())
    ensures Saved(s, r, |s|, l)[j] == s[j] && Denote(s[j], Stored(s, r, |s|, l, m)) == Denote(s[j], m)
  {
    hide Denote, Avoids, SavedBytes, FirstUser;
    var f := FirstUser(s, r, |s|);
    if f < |s| {
      AvoidsKeepsMeaning(s[j], m, m.fp + l, SavedBytes(s[f], m));
    }
  }

  /** The first turn whose users cannot be read back loses the meaning of one of them for good. */
  lemma RunLoses(s: seq<SValue>, n: nat, k: nat)
    requires k < n <= |s| && AllWellFormed(s) && RunSavable(s, k) && !TurnSavable(s, k)
    ensures exists slots, m :: |slots| == n && !RunSurvives(s, slots, m)
  {
    hide Denote, Avoids, SavedBytes, FirstUser, RunStack, RunMachine, Savable, RunSurvives, RunAvoids, TurnSavable, RunSavable, AllWellFormed, FromLE, Filled;
    var b: int := Bound(s);
    var slots := LowSlots(b, n);
    assert slots[..k] == LowSlots(b, k) && slots[k] == LowSlot(b, k) && slots[..k + 1] == LowSlots(b, k + 1);
    TurnSavableAnywhere(s, slots[..k]);
    var t := RunStack(s, slots[..k]);
    RunWellFormed(s, slots[..k]);
    var j := LostUser(t, t[k].place);
    var m := Telltale(0, FromLE(Filled(t[j].place.n)));
    LowSlotsAvoided(s, b, n, m);
    RunAvoidsPrefix(s, slots, m, k);
    RunKeeps(s, slots[..k], m);
    RunTells(s, b, k, FromLE(Filled(t[j].place.n)));
    var m1 := RunMachine(s, slots[..k], m);
    LostTurn(t, t[k].place, LowSlot(b, k), m1, -b - 32 * k, j);
    RunNext(s, slots, m, k);
    StaysAsItIs(s, slots, m, k + 1, j);
    DiffersSomewhere(s, slots, m, j, Denote(t[j], m1));
  }

  lemma LostUser(s: seq<SValue>, r: Place) returns (j: nat)
    requires AllWellFormed(s) && !Savable(s, r, |s|)
    ensures var f := FirstUser(s, r, |s|);
            f <= j < |s| && UsesPlace(s[j], r) && InRegister(s[f]) && InRegister(s[j]) && !Compatible(s[f], s[j])
  {
    hide FirstUser;
    var f := FirstUser(s, r, |s|);
    j :| f <= j < |s| && UsesPlace(s[j], r) && !s[j].ty.Void? && !Compatible(s[f], s[j]);
  }

  lemma LostTurn(s: seq<SValue>, r: Place, l: int, m: Machine, lo: int, j: nat)
    requires AllWellFormed(s) && var f := FirstUser(s, r, |s|);
             f <= j < |s| && UsesPlace(s[j], r) && InRegister(s[f]) && InRegister(s[j]) && !Compatible(s[f], s[j])
    requires Telling(m, FromLE(Filled(s[j].place.n)), lo) && m.fp + l + 16 <= lo
    ensures var t := Saved(s, r, |s|, l);
            t[j].WellFormed() && !t[j].place.Reg? && Denote(t[j], Stored(s, r, |s|, l, m)) != Denote(s[j], m)
  {
    hide Denote, SavedBytes, FirstUser, FromLE, Filled, Compatible, Telling;
    IncompatibleIsLost(s[FirstUser(s, r, |s|)], s[j], l, m, lo);
  }

  lemma RunNext(s: seq<SValue>, slots: seq<int>, m: Machine, k: nat)
    requires k < |slots| <= |s| && AllWellFormed(s)
    ensures var t := RunStack(s, slots[..k]);
            AllWellFormed(t) && RunStack(s, slots[..k + 1]) == Saved(t, t[k].place, |s|, slots[k])
            && RunMachine(s, slots[..k + 1], m) == Stored(t, t[k].place, |s|, slots[k], RunMachine(s, slots[..k], m))
  {
    hide Saved, Stored, AllWellFormed;
    RunWellFormed(s, slots[..k]);
    assert slots[..k + 1][..k] == slots[..k];
  }

  lemma DiffersSomewhere(s: seq<SValue>, slots: seq<int>, m: Machine, j: nat, was: Meaning)
    requires |slots| <= |s| && AllWellFormed(s) && j < |s| && RunAvoids(s, slots, m) && Denote(s[j], m) == was
    requires AllWellFormed(RunStack(s, slots)) && Denote(RunStack(s, slots)[j], RunMachine(s, slots, m)) != was
    ensures !RunSurvives(s, slots, m)
  {
    hide Denote, RunStack, RunMachine, RunAvoids;
  }

  /** Saving one register after the other keeps every meaning - wherever the slots are, in every machine in which nothing
      reads from a slot when it is written - if and only if in each turn all users can be read back. */
  lemma RunKeptExactly(s: seq<SValue>, n: nat)
    requires n <= |s| && AllWellFormed(s)
    ensures (forall slots, m :: |slots| == n ==> RunSurvives(s, slots, m)) <==> RunSavable(s, n)
  {
    hide RunStack, RunMachine, RunAvoids, TurnSavable, AllWellFormed, SameMeanings;
    if RunSavable(s, n) {
      forall slots, m | |slots| == n ensures RunSurvives(s, slots, m) {
        RunWellFormed(s, slots);
        if RunAvoids(s, slots, m) { RunKeeps(s, slots, m); }
      }
    } else {
      var k := FirstBadTurn(s, n);
      RunLoses(s, n, k);
    }
  }

  lemma {:induction false} FirstBadTurn(s: seq<SValue>, n: nat) returns (k: nat)
    requires n <= |s| && !RunSavable(s, n)
    ensures k < n && RunSavable(s, k) && !TurnSavable(s, k)
  {
    hide TurnSavable;
    if RunSavable(s, n - 1) {
      k := n - 1;
    } else {
      k := FirstBadTurn(s, n - 1);
    }
  }

  /** No entry comes into a register, and those with a value leave theirs. */
  lemma SavedPlaces(s: seq<SValue>, r: Place, cut: nat, l: int)
    requires cut <= |s|
    ensures var t := Saved(s, r, cut, l);
            (forall i :: 0 <= i < |s| ==> t[i].ty == s[i].ty && (t[i].place.Reg? ==> t[i].place == s[i].place))
            && (forall i :: 0 <= i < cut && s[i].place == r && !s[i].ty.Void? ==> r.Reg? ==> !t[i].place.Reg?)
  {
    hide FirstUser;
  }

  const BYTE_10 := SValue(Reg(10), false, 0, None, 0, Obj(1, 1, false))
  const WORD_10 := SValue(Reg(10), false, 0, None, 0, Obj(8, 8, false))
  const WORD_11 := SValue(Reg(11), false, 0, None, 0, Obj(8, 8, false))
  const PAIR := SValue(Reg(10), false, 0, Some(11), 0, Obj(16, 8, true))

  lemma TwoUsers(a: SValue, b: SValue, r: Place)
    requires UsesPlace(a, r) && !a.ty.Void?
    ensures FirstUser([a, b], r, 2) == 0
  {
    assert FirstUser([a, b], r, 1) == 0;
  }

  /** A byte below a word in one register: the word is lost in this machine; the other way round both are kept. */
  lemma NarrowExample()
    ensures FirstUser([BYTE_10, WORD_10], Reg(10), 2) == 0 && AllWellFormed([BYTE_10, WORD_10])
    ensures !StackSurvives([BYTE_10, WORD_10], Reg(10), 2, -16, Telltale(0, FromLE(Filled(10))))
    ensures Savable([WORD_10, BYTE_10], Reg(10), 2)
  {
    TwoUsers(BYTE_10, WORD_10, Reg(10));
    TwoUsers(WORD_10, BYTE_10, Reg(10));
    OneIsLost([BYTE_10, WORD_10], Reg(10), 2, -16, 1, 0);
  }

  /** A two-word value in registers 10 and 11 below a word in 11: the word is read back from register 10.  Below a word
      in 10 nothing is lost. */
  lemma SecondRegisterExample()
    ensures FirstUser([PAIR, WORD_11], Reg(11), 2) == 0 && AllWellFormed([PAIR, WORD_11])
    ensures !StackSurvives([PAIR, WORD_11], Reg(11), 2, -16, Telltale(0, FromLE(Filled(11))))
    ensures Savable([PAIR, WORD_10], Reg(10), 2)
  {
    TwoUsers(PAIR, WORD_11, Reg(11));
    TwoUsers(PAIR, WORD_10, Reg(10));
    OneIsLost([PAIR, WORD_11], Reg(11), 2, -16, 1, 0);
  }

  /** The register classes of the RISC-V target: a0-a7, fa0-fa7, an unused one, ra and sp. */
  const REG_CLASSES: seq<bv32> := [
    0x5, 0x9, 0x11, 0x21, 0x41, 0x81, 0x101, 0x201,
    0x402, 0x802, 0x1002, 0x2002, 0x4002, 0x8002, 0x1_0002, 0x2_0002,
    0, 0x2_0000, 0x4_0000]

  predicate InClass(r: nat, rc: bv32) { r < NB_REGS && REG_CLASSES[r] & rc != 0 }

  /** `r` belongs to the lowest entry that uses a register of the class, and is its second register if that is one. */
  ghost predicate FirstVictim(s: seq<SValue>, rc: bv32, r: int) {
    exists i :: 0 <= i < |s|
      && (forall j, q: nat :: 0 <= j < i && InClass(q, rc) ==> !s[j].Uses(q))
      && (if s[i].r2.Some? && InClass(s[i].r2.value, rc) then r == s[i].r2.value else s[i].place.Reg? && r == s[i].place.n)
  }

  lemma ClassBound(rc: bv32)
    ensures forall r: nat :: InClass(r, rc) ==> r < NB_REGS
  {
  }

  class CodeGen {
    const vstack: array<SValue>   // entries [0, depth) are in use
    var depth: nat
    var temps: seq<Temp>          // temp_locals
    var loc: int                  // lowest frame offset allocated
    var nocode: bool              // nocode_wanted
    ghost var m: Machine          // the machine when the code emitted so far has run
    ghost const floor: int        // the frame may grow down to here

    /** What every operation keeps, whether or not meanings are kept. */
    ghost predicate Shape()
      reads this, vstack
    {
      depth <= vstack.Length == VSTACK_SIZE && TempsOk(temps, loc) && AllWellFormed(Entries())
    }

    /** Moreover no entry reads from the slots in use by others or from the frame not yet allocated. */
    ghost predicate Valid()
      reads this, vstack
    {
      Shape() && EntriesOk(Entries(), m, temps, floor, loc)
    }

    ghost function Entries(): seq<SValue>
      requires depth <= vstack.Length
      reads this`depth, vstack
    {
      vstack[..depth]
    }

    lemma EntryAt(i: nat)
      requires i < depth <= vstack.Length
      ensures vstack[i] == Entries()[i]
    {
    }

    /** Room in the frame for `n` more slots of the largest size and alignment. */
    ghost predicate Room(n: nat)
      reads this
    {
      floor <= loc - 32 * n
    }

    /** temp_local_is_free */
    method TempLocalIsFree(location: int) returns (free: bool)
      requires depth <= vstack.Length
      ensures free == FreeAt(Entries(), location)
    {
      var i := 0;
      while i < depth
        invariant 0 <= i <= depth
        invariant forall k :: 0 <= k < i && (vstack[k].place == Local || vstack[k].place == LLocal) ==> vstack[k].c != location
      {
        if (vstack[i].place == Local || vstack[i].place == LLocal) && vstack[i].c == location {
          return false;
        }
        i := i + 1;
      }
      free := true;
    }

    /** vstack_temp_local: a slot no entry on the stack reads from, reused or new. */
    method TempLocal(size: nat, align: nat) returns (location: int)
      requires Shape() && 0 < size <= 16 && 0 < align <= 16 && Room(1)
      modifies this`temps, this`loc
      ensures Shape() && old(loc) - 32 <= loc <= old(loc) && SlotOk(temps, loc, location, size) && Multiple(location, align)
      ensures Chosen(Entries(), old(temps), temps, old(loc), loc, size, align, location)
      ensures old(Valid()) ==> Valid() && forall i :: 0 <= i < depth ==> Avoids(Entries()[i], m, m.fp + location, size)
    {
      hide Placed, Aims, Avoids, TempsOk, SlotOk, FreeAt, Multiple;
      ghost var ok := Valid();
      var i := 0;
      while i < |temps|
        invariant 0 <= i <= |temps| && Shape() && temps == old(temps) && loc == old(loc)
        invariant forall k :: 0 <= k < i ==>
                    !(temps[k].size >= size && temps[k].align == align && FreeAt(Entries(), temps[k].location))
      {
        if temps[i].size >= size && temps[i].align == align {
          var free := TempLocalIsFree(temps[i].location);
          if free {
            location := temps[i].location;
            ReusedSlot(temps, loc, i, size);
            ghost var s := Entries();
            if ok {
              forall k | 0 <= k < depth ensures Avoids(s[k], m, m.fp + location, size) {
                FreeEntry(s, location, k);
                FreeSlotAvoided(s[k], m, temps, floor, loc, i, size);
              }
            }
            return;
          }
        }
        i := i + 1;
      }
      location := AlignDown(loc - size, align);
      AlignedDown(loc - size, align);
      NewSlot(temps, loc, location, size, align);
      ghost var before, was := temps, loc;
      loc := location;
      if |temps| < MAX_TEMPS {
        temps := temps + [Temp(location, size, align)];
      }
      ghost var s := Entries();
      if ok {
        forall k | 0 <= k < depth
          ensures Placed(s[k], temps, loc) && Aims(s[k], m, temps, floor, loc) && Avoids(s[k], m, m.fp + location, size)
        {
          NewSlotAvoided(s[k], m, before, floor, was, location, size, align);
        }
      }
    }

    /** The store instruction of the target, emitted and run: the registers of `e` to the frame slot at `l`. */
    ghost method EmitStore(e: SValue, l: int)
      requires e.WellFormed() && e.place.Reg? && !e.ty.Void?
      modifies this`m
      ensures m == old(m).Store(old(m).fp + l, SavedBytes(e, old(m)))
    {
      m := m.Store(m.fp + l, SavedBytes(e, m));
    }

    /** save_reg_upstack: the users of register `r` below the top `n` are saved in one frame slot. What every entry
        means stays the same if all of them can be read back from there. */
    method SaveRegUpstack(r: Place, n: nat) returns (ghost slot: int)
      requires Shape() && n <= depth && Room(1)
      modifies this`temps, this`loc, this`m, vstack
      ensures Shape() && old(loc) - 32 <= loc <= old(loc)
      ensures Entries() == Saved(old(Entries()), r, if nocode then 0 else depth - n, slot)
      ensures m == if nocode then old(m) else Stored(old(Entries()), r, depth - n, slot, old(m))
      ensures !nocode && FirstUser(old(Entries()), r, depth - n) < depth - n ==>
                SlotAligned(old(Entries())[FirstUser(old(Entries()), r, depth - n)], slot)
      ensures old(Valid()) && (nocode || Savable(old(Entries()), r, depth - n)) ==>
                Valid() && SameMeanings(old(Entries()), old(m), Entries(), m)
    {
      hide TempsOk, EntriesOk, Avoids, SlotOk, SavedBytes, SavedEntry, Saved, SameMeanings, FirstUser, Savable, Chosen, Multiple;
      ghost var s, m0, cut, ok := Entries(), m, depth - n, Valid();
      if !r.Reg? || nocode {
        NoUser(s, r, cut);
        SavedNothing(s, r, if nocode then 0 else cut, 0);
        SameMeaningsRefl(s, m);
        return 0;
      }
      var l := 0;
      ghost var f := FirstUser(s, r, cut);
      var i := 0;
      SavedNothing(s, r, 0, l);
      while i < depth - n
        invariant 0 <= i <= cut && Entries() == Saved(s, r, i, l)
        invariant TempsOk(temps, loc) && old(loc) - 32 <= loc <= old(loc)
        invariant l <= 0 && (l != 0 <==> f < i) && (l == 0 ==> m == m0 && loc == old(loc))
        invariant l != 0 ==> InRegister(s[f]) && SlotOk(temps, loc, l, s[f].SavedSize()) && m == m0.Store(m0.fp + l, SavedBytes(s[f], m0))
        invariant l != 0 ==> SlotAligned(s[f], l)
        invariant ok && l != 0 ==> forall k :: 0 <= k < |s| ==> Avoids(s[k], m0, m0.fp + l, s[f].SavedSize())
        invariant ok ==> EntriesOk(s, m0, temps, floor, loc)
      {
        FirstUserBelow(s, r, i, cut);
        FirstUserBelow(s, r, i + 1, cut);
        SavedStep(s, r, i, l);
        var p := vstack[i];
        EntryAt(i);
        assert Saved(s, r, i, l)[i] == s[i] && s[i].WellFormed();
        if p.place == r || p.r2 == Some(r.n) {
          if l == 0 && p.ty.Void? {
            i := i + 1;
            continue;
          }
          if l == 0 {
            var bt := p.SavedType();
            SavedNothing(s, r, i, l);
            l := TempLocal(bt.size, bt.align);
            assert l < 0 by { SlotIsBelow(temps, loc, l, bt.size); }
            SavedNothing(s, r, i, l);
            SavedStep(s, r, i, l);
            EmitStore(p, l);
          }
          vstack[i] := SavedEntry(p, l);
          assert Entries() == Saved(s, r, i, l)[i := SavedEntry(s[i], l)];
        }
        i := i + 1;
      }
      slot := l;
      SavedAllWellFormed(s, r, cut, l);
      if l == 0 {
        SavedNothing(s, r, cut, l);
        SameMeaningsRefl(s, m);
      } else if ok && Savable(s, r, cut) {
        SavingKeepsMeanings(s, r, cut, l, m0, temps, floor, loc);
      }
    }

    /** save_reg: nothing that has a value is left in the register. */
    method SaveReg(r: Place) returns (ghost slot: int)
      requires Shape() && Room(1)
      modifies this`temps, this`loc, this`m, vstack
      ensures Shape() && old(loc) - 32 <= loc <= old(loc) && m.regs == old(m.regs) && m.fp == old(m.fp)
      ensures nocode ==> Entries() == old(Entries()) && m == old(m)
      ensures !nocode ==> Entries() == Saved(old(Entries()), r, depth, slot) && m == Stored(old(Entries()), r, depth, slot, old(m))
      ensures !nocode ==> forall i :: 0 <= i < depth && UsesPlace(Entries()[i], r) ==> Entries()[i].ty.Void?
      ensures forall i :: 0 <= i < depth && !UsesPlace(old(Entries())[i], r) ==> Entries()[i] == old(Entries())[i]
      ensures old(Valid()) && (nocode || Savable(old(Entries()), r, depth)) ==>
                Valid() && SameMeanings(old(Entries()), old(m), Entries(), m)
    {
      hide TempsOk, Placed, Aims, Denote, Target, SavedBytes, Compatible;
      ghost var s := Entries();
      slot := SaveRegUpstack(r, 0);
      if nocode { SavedNothing(s, r, 0, slot); }
    }

    /** save_regs: no value but the top `n` is left in a register. What every entry means stays the same if in each turn
        all users of the register can be read back from its slot. */
    method SaveRegs(n: nat) returns (ghost slots: seq<int>)
      requires Shape() && n <= depth && Room(depth)
      modifies this`temps, this`loc, this`m, vstack
      ensures Shape() && |slots| == depth - n
      ensures nocode ==> Entries() == old(Entries()) && m == old(m)
      ensures !nocode ==> Entries() == RunStack(old(Entries()), slots) && m == RunMachine(old(Entries()), slots, old(m))
      ensures !nocode ==> forall i :: 0 <= i < depth - n ==> Entries()[i].ty.Void? || !Entries()[i].place.Reg?
      ensures old(Valid()) && (nocode || RunSavable(old(Entries()), depth - n)) ==>
                Valid() && SameMeanings(old(Entries()), old(m), Entries(), m)
    {
      hide TempsOk, AllWellFormed, EntriesOk, SameMeanings, Savable, Saved, Stored, RunStack, RunMachine, TurnSavable;
      ghost var s, m0, keeps := Entries(), m, Valid() && (nocode || RunSavable(Entries(), depth - n));
      SameMeaningsRefl(s, m);
      RunStart(s, m);
      slots := [];
      var i := 0;
      while i < depth - n
        invariant 0 <= i <= depth - n && |slots| == i && Shape() && old(loc) - 32 * i <= loc
        invariant nocode ==> Entries() == s && m == m0
        invariant !nocode ==> Entries() == RunStack(s, slots) && m == RunMachine(s, slots, m0)
        invariant !nocode ==> forall k :: 0 <= k < i ==> Entries()[k].ty.Void? || !Entries()[k].place.Reg?
        invariant keeps ==> Valid() && SameMeanings(s, m0, Entries(), m)
      {
        ghost var t, m1 := Entries(), m;
        EntryAt(i);
        if keeps && !nocode {
          assert TurnSavable(s, i);
          TurnSavableAnywhere(s, slots);
        }
        ghost var l := SaveReg(vstack[i].place);
        if keeps { SameMeaningsTrans(s, m0, t, m1, Entries(), m); }
        ghost var more := slots + [l];
        assert more[..i] == slots;
        if !nocode {
          RunNext(s, more, m0, i);
          assert more[..i + 1] == more;
          SavedPlaces(t, t[i].place, depth, l);
        }
        slots := more;
        i := i + 1;
      }
    }

    /** get_reg: a register of the class, saved if none is free; no value on the stack is in it any more. */
    method GetReg(rc: bv32) returns (r: int, ghost slot: int)
      requires Shape() && Room(1)
      modifies this`temps, this`loc, this`m, vstack
      ensures Shape() && m.regs == old(m.regs) && m.fp == old(m.fp)
      ensures r == -1 || (r >= 0 && InClass(r, rc))
      ensures r == -1 <==> forall q: nat :: !InClass(q, rc)
      ensures !nocode && r >= 0 ==> forall i :: 0 <= i < depth && Entries()[i].Uses(r) ==> Entries()[i].ty.Void?
      ensures old(Valid()) && (nocode || r < 0 || !InUse(old(Entries()), r) || Savable(old(Entries()), Reg(r), depth)) ==>
                Valid() && SameMeanings(old(Entries()), old(m), Entries(), m)
      ensures if nocode || r < 0 || !InUse(old(Entries()), r) then Entries() == old(Entries()) && m == old(m)
              else Entries() == Saved(old(Entries()), Reg(r), depth, slot) && m == Stored(old(Entries()), Reg(r), depth, slot, old(m))
      ensures r >= 0 && InUse(old(Entries()), r) && !nocode ==> forall q: nat :: InClass(q, rc) ==> InUse(old(Entries()), q)
      ensures r >= 0 && (nocode || !InUse(old(Entries()), r)) ==>
                forall q: nat :: q < r && InClass(q, rc) ==> !nocode && InUse(old(Entries()), q)
      ensures r >= 0 && !nocode && InUse(old(Entries()), r) ==> FirstVictim(old(Entries()), rc, r)
    {
      hide TempsOk, EntriesOk, Denote, Target, SameMeanings, InClass, REG_CLASSES, Savable, Stored;
      ghost var s, m0 := Entries(), m;
      SameMeaningsRefl(s, m);
      ClassBound(rc);
      slot := 0;
      var q := 0;
      while q < NB_REGS
        invariant 0 <= q <= NB_REGS && Entries() == s && m == m0 && Shape() && loc == old(loc) && temps == old(temps)
        invariant forall k: nat :: k < q && InClass(k, rc) ==> !nocode && InUse(s, k)
      {
        if InClass(q, rc) {
          if nocode {
            return q, 0;
          }
          var used := IsUsed(q);
          if !used {
            return q, 0;
          }
        }
        q := q + 1;
      }
      var i := 0;
      while i < depth
        invariant 0 <= i <= depth && Entries() == s && m == m0 && Shape() && loc == old(loc) && temps == old(temps)
        invariant forall k: nat, j :: InClass(k, rc) && 0 <= j < i ==> !s[j].Uses(k)
      {
        EntryAt(i);
        if vstack[i].r2.Some? && InClass(vstack[i].r2.value, rc) {
          r := vstack[i].r2.value;
          assert s[i].Uses(r) && FirstVictim(s, rc, r);
          slot := SaveReg(Reg(r));
          return;
        }
        if vstack[i].place.Reg? && InClass(vstack[i].place.n, rc) {
          r := vstack[i].place.n;
          assert s[i].Uses(r) && FirstVictim(s, rc, r);
          slot := SaveReg(Reg(r));
          return;
        }
        i := i + 1;
      }
      assert forall k: nat :: InClass(k, rc) ==> InUse(s, k);
      assert forall k: nat :: InClass(k, rc) ==> !InUse(s, k);
      r := -1;
    }

    method IsUsed(r: nat) returns (used: bool)
      requires depth <= vstack.Length
      ensures used == InUse(Entries(), r)
    {
      var i := 0;
      while i < depth
        invariant 0 <= i <= depth && forall k :: 0 <= k < i ==> !Entries()[k].Uses(r)
      {
        EntryAt(i);
        if vstack[i].place == Reg(r) || vstack[i].r2 == Some(r) {
          return true;
        }
        i := i + 1;
      }
      used := false;
    }

    /** move_reg: copies register `s` to `r` after saving what was in `r`. */
    method MoveReg(r: nat, s: nat) returns (ghost slot: int)
      requires Shape() && Room(1)
      modifies this`temps, this`loc, this`m, vstack
      ensures Shape()
      ensures old(Valid()) && (r == s || nocode || Savable(old(Entries()), Reg(r), depth)) ==>
                Valid() && SameMeanings(old(Entries()), old(m), Entries(), m)
      ensures Entries() == if r == s || nocode then old(Entries()) else Saved(old(Entries()), Reg(r), depth, slot)
      ensures m == if r == s || nocode then old(m)
                   else WithReg(Stored(old(Entries()), Reg(r), depth, slot, old(m)), r, old(m.regs(s)))
      ensures m.regs(r) == (if nocode then old(m.regs(r)) else old(m.regs(s)))
      ensures forall q: nat :: q != r ==> m.regs(q) == old(m.regs(q))
    {
      hide TempsOk, Placed, Denote, Target, SameMeanings, Aims, Savable, FirstUser, Stored;
      ghost var s0, m0, ok := Entries(), m, Valid();
      SameMeaningsRefl(s0, m0);
      slot := 0;
      if r != s {
        slot := SaveReg(Reg(r));
        ghost var m1 := m;
        if !nocode {
          m := WithReg(m, r, m.regs(s));
          if ok && Savable(s0, Reg(r), depth) {
            FreeRegister(Entries(), m1, r, m1.regs(s), temps, floor, loc);
            SameMeaningsTrans(s0, m0, Entries(), m1, Entries(), m);
          }
        }
      }
    }
  }

  predicate InUse(s: seq<SValue>, r: nat) { exists i :: 0 <= i < |s| && s[i].Uses(r) }

  ghost function WithReg(m: Machine, r: nat, w: Word): Machine {
    var old_regs := m.regs;
    Machine((q: nat) => if q == r then w else old_regs(q), m.mem, m.fp)
  }

  /** A register no value is in can be overwritten. */
  lemma FreeRegister(s: seq<SValue>, m: Machine, r: nat, w: Word, temps: seq<Temp>, floor: int, loc: int)
    requires EntriesOk(s, m, temps, floor, loc) && forall i :: 0 <= i < |s| && s[i].Uses(r) ==> s[i].ty.Void?
    ensures EntriesOk(s, WithReg(m, r, w), temps, floor, loc) && SameMeanings(s, m, s, WithReg(m, r, w))
  {
    var m2 := WithReg(m, r, w);
    forall i | 0 <= i < |s| ensures Denote(s[i], m2) == Denote(s[i], m) {
    }
  }
}
