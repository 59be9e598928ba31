/** struct_layout: offsets, bit positions and access units of the fields of a struct or union (PCC bit-field rules). */
module StructLayout {
  import opened Align
  import opened Words

  /** The type a bit-field is read and written through when it is not its own: another integer, or bytewise. */
  datatype Aux = Own | As(bytes: nat) | Bytewise

  /** A field.  `width` is None for a plain member; `align` is that of its type; `aligned` is the aligned attribute
      in bytes, 0 if absent.  The last four are what the layout fills in. */
  datatype Field = Field(width: Option<nat>, size: int, align: nat, aligned: nat, packed: bool, anon: bool,
                         offset: int, bitPos: int, access: nat, aux: Aux) {
    predicate IsBitField() { width.Some? }

    /** What the parser guarantees: integer types of 1, 2, 4 or 8 bytes under a bit-field no wider than its type and
        narrower than 64 bits; alignments are powers of two. */
    predicate WellFormed() {
      && align > 0
      && (IsBitField() ==> size in {1, 2, 4, 8} && align in {1, 2, 4, 8} && align <= size
                           && width.value <= size * 8 && width.value < 64 && access == size)
    }

    /** The absolute bit at which the field starts, and how many bits it takes. */
    function Start(): int { if IsBitField() then offset * 8 + bitPos else offset * 8 }
    function Bits(): nat { if IsBitField() then width.value else if size > 0 then size * 8 else 0 }

    /** The size of the integer it is accessed through, if it is not accessed bytewise. */
    function UnitBytes(): nat { if aux.As? then aux.bytes else access }

    /** The alignment that counts in the layout: an aligned attribute, then packing, then the type; packing does not
        affect zero-width bit-fields. */
    function Effective(packedStruct: bool): nat {
      if aligned > 0 then aligned
      else if width != Some(0) && (packed || packedStruct) then 1 else align
    }

    predicate SameDeclaration(f: Field) {
      width == f.width && size == f.size && align == f.align && aligned == f.aligned && packed == f.packed && anon == f.anon
    }
  }

  // ---------------------------------------------------------------- placing the fields of a struct

  /** The write position: `c` whole bytes and `bit` bits after them. */
  datatype Cursor = Cursor(c: int, bit: int) {
    function Pos(): int { c * 8 + bit }
  }

  function CeilBytes(bits: int): int { (bits + 7) / 8 }

  /** The fields before `k` are placed in order, without overlap, from bit 0 to the cursor. */
  ghost predicate PlacedUpTo(fs: seq<Field>, k: nat, pos: int)
    requires k <= |fs|
  {
    && 0 <= pos
    && (forall i :: 0 <= i < k ==> 0 <= fs[i].Start() && fs[i].Start() + fs[i].Bits() <= pos)
    && (forall i, j :: 0 <= i < j < k ==> fs[i].Start() + fs[i].Bits() <= fs[j].Start())
  }

  /** A run of bits that fits behind its offset in a container of `n` bits stays in one container. */
  lemma StaysInside(start: int, width: nat, n: nat)
    requires n > 0 && width > 0 && start % n + width <= n
    ensures start / n == (start + width - 1) / n
  {
    var q, r := start / n, start % n;
    assert start == n * q + r;
    QuotientIs(start + width - 1, n, q, r + width - 1);
  }

  lemma ByteMultiple(c: int, a: nat)
    requires a > 0 && Multiple(c, a)
    ensures c * 8 % (a * 8) == 0
  {
    var q := c / a;
    assert c == a * q;
    assert c * 8 == (a * 8) * q;
    QuotientIs(c * 8, a * 8, q, 0);
  }

  lemma FitsOnce(r: nat, width: nat, n: nat)
    requires n > 0 && (r + width + n - 1) / n <= 1
    ensures r + width <= n
  {
    var x := r + width + n - 1;
    assert x == n * (x / n) + x % n;
    MulSign(n, 1 - x / n);
    assert n * (1 - x / n) == n - n * (x / n);
  }

  /** new_field: the position rounded up to whole bytes and to the alignment. */
  function NewField(cur: Cursor, align: nat): (r: Cursor)
    requires align > 0
    ensures r.bit == 0 && cur.Pos() <= r.Pos() && Multiple(r.c, align)
  {
    AlignedUp(cur.c + CeilBytes(cur.bit), align);
    Cursor(AlignUp(cur.c + CeilBytes(cur.bit), align), 0)
  }

  // ---------------------------------------------------------------- where a field has to start

  /** Bits [pos, pos + width) touch this many aligned pieces of `a` bits. */
  function Touched(pos: int, width: nat, a: nat): int
    requires a > 0
  {
    (pos + width - 1) / a - pos / a + 1
  }

  /** A bit-field starts anew if it has zero width or an aligned attribute, or if, unpacked, its bits would touch more
      aligned pieces than its type consists of. */
  predicate StartsAnew(f: Field, packedStruct: bool, pos: int)
    requires f.align > 0 && f.IsBitField()
  {
    f.width.value == 0 || f.aligned > 0
    || (!f.packed && !packedStruct && Touched(pos, f.width.value, f.align * 8) > f.size / f.align)
  }

  /** With the fields before it ending at bit `pos`, the field has to start at bit `start`: a plain member, and a bit-field
      that starts anew, at the next multiple of its alignment - that of its aligned attribute, else 1 if it is packed,
      else that of its type; any other bit-field at once. */
  ghost predicate Position(f: Field, packedStruct: bool, pos: int, start: int) {
    f.align > 0
    && if f.IsBitField() && !StartsAnew(f, packedStruct, pos) then start == pos
       else if f.aligned > 0 then LeastMultiple(start, pos, f.aligned * 8)
       else if (f.packed || packedStruct) && f.width != Some(0) then LeastMultiple(start, pos, 8)
       else LeastMultiple(start, pos, f.align * 8)
  }

  /** The bit after field `k - 1`. */
  function EndOf(fs: seq<Field>, k: nat): int
    requires k <= |fs|
  {
    if k == 0 then 0 else fs[k - 1].Start() + fs[k - 1].Bits()
  }

  /** The first `k` fields are where they have to be. */
  ghost predicate InPosition(fs: seq<Field>, packedStruct: bool, k: nat)
    requires k <= |fs|
  {
    forall i :: 0 <= i < k ==> Position(fs[i], packedStruct, EndOf(fs, i), fs[i].Start())
  }

  lemma NewFieldIsLeast(cur: Cursor, align: nat)
    requires align > 0
    ensures LeastMultiple(NewField(cur, align).Pos(), cur.Pos(), align * 8)
  {
    var x := cur.c + CeilBytes(cur.bit);
    ByteMultiple(NewField(cur, align).c, align);
    hide AlignUp, CeilBytes;
    forall o | cur.Pos() <= o && Multiple(o, align * 8) ensures AlignUp(x, align) * 8 <= o {
      NoEarlierBit(cur, align, o);
    }
  }

  lemma NoEarlierBit(cur: Cursor, align: nat, o: int)
    requires align > 0 && cur.Pos() <= o && Multiple(o, align * 8)
    ensures AlignUp(cur.c + CeilBytes(cur.bit), align) * 8 <= o
  {
    var q := o / (align * 8);
    assert o == 8 * (align * q) by { assert o == (align * 8) * q; }
    var m := align * q;
    assert cur.c + CeilBytes(cur.bit) <= m;
    assert Multiple(m, align) by { QuotientIs(m, align, q, 0); }
    hide AlignUp, Multiple, CeilBytes;
    AlignUpIsLeast(cur.c + CeilBytes(cur.bit), align);
  }

  /** The source's test for an overflow counts the pieces touched. */
  lemma OverflowsExactly(cur: Cursor, f: Field, align: nat)
    requires align > 0 && f.IsBitField() && f.width.value > 0
    ensures Overflows(cur, f, align) <==> Touched(cur.Pos(), f.width.value, align * 8) > f.size / align
  {
    var a, pos, w := align * 8, cur.Pos(), f.width.value;
    var q, r := pos / a, pos % a;
    assert pos == a * q + r;
    var t := (r + w - 1) / a;
    QuotientIs(pos + w - 1, a, q + t, (r + w - 1) % a) by { Distribute(a, q, t); assert r + w - 1 == a * t + (r + w - 1) % a; }
    QuotientIs(r + w + a - 1, a, t + 1, (r + w - 1) % a) by { Distribute(a, t, 1); assert r + w - 1 == a * t + (r + w - 1) % a; }
  }

  /** Would the bits overflow the container of their type? */
  predicate Overflows(cur: Cursor, f: Field, align: nat)
    requires align > 0 && f.IsBitField()
  {
    (cur.Pos() % (align * 8) + f.width.value + align * 8 - 1) / (align * 8) > f.size / align
  }

  /** Bit-fields that may not straddle a container of their type. */
  predicate Contained(f: Field, packedStruct: bool) {
    f.IsBitField() && f.width.value > 0 && !f.packed && !packedStruct && f.aligned == 0 && f.align == f.size && f.size > 0
  }

  predicate FitsContainer(cur: Cursor, f: Field)
    requires f.IsBitField()
  {
    f.size > 0 && cur.Pos() % (f.size * 8) + f.width.value <= f.size * 8
  }

  lemma NewUnitFits(cur: Cursor, f: Field)
    requires f.WellFormed() && f.IsBitField() && cur.bit == 0 && f.align == f.size && Multiple(cur.c, f.align)
    ensures FitsContainer(cur, f)
  {
    ByteMultiple(cur.c, f.align);
  }

  lemma NoOverflowFits(cur: Cursor, f: Field)
    requires f.WellFormed() && f.IsBitField() && 0 <= cur.c && 0 <= cur.bit && f.align == f.size && !Overflows(cur, f, f.align)
    ensures FitsContainer(cur, f)
  {
    QuotientIs(f.size, f.align, 1, 0);
    FitsOnce(cur.Pos() % (f.align * 8), f.width.value, f.align * 8);
  }

  /** Where a bit-field goes: behind the previous bits, or in a new storage unit. */
  method StartBitField(f: Field, cur0: Cursor, packedStruct: bool, align: nat) returns (cur: Cursor)
    requires f.WellFormed() && f.IsBitField() && 0 <= cur0.c && 0 <= cur0.bit && align == f.Effective(packedStruct)
    ensures 0 <= cur.c && 0 <= cur.bit && cur0.Pos() <= cur.Pos()
    ensures f.aligned > 0 || f.width.value == 0 ==> cur.bit == 0 && Multiple(cur.c, align)
    ensures cur == cur0 || (cur.bit == 0 && Multiple(cur.c, align))
    ensures Contained(f, packedStruct) ==> FitsContainer(cur, f)
    ensures Position(f, packedStruct, cur0.Pos(), cur.Pos())
  {
    hide Multiple, NewField, Overflows, FitsContainer, CeilBytes, LeastMultiple, Touched;
    cur := cur0;
    NewFieldIsLeast(cur, align);
    if f.width.value > 0 { OverflowsExactly(cur, f, align); }
    var isPacked := f.width.value > 0 && (f.packed || packedStruct);
    if f.width.value == 0 || f.aligned > 0 || (!isPacked && Overflows(cur, f, align)) {
      cur := NewField(cur, align);
      if Contained(f, packedStruct) {
        NewUnitFits(cur, f);
      }
    } else if Contained(f, packedStruct) {
      NoOverflowFits(cur, f);
    }
  }

  /** Whole alignment units move from the bit position into the byte position. */
  method Settle(cur0: Cursor, align: nat) returns (cur: Cursor)
    requires align > 0 && 0 <= cur0.c && 0 <= cur0.bit
    ensures 0 <= cur.c && 0 <= cur.bit < align * 8 && cur.Pos() == cur0.Pos()
    ensures cur0.bit == 0 ==> cur == cur0
  {
    cur := cur0;
    while cur.bit >= align * 8
      invariant 0 <= cur.c && 0 <= cur.bit && cur.Pos() == cur0.Pos() && (cur0.bit == 0 ==> cur == cur0)
      decreases cur.bit
    {
      cur := Cursor(cur.c + align, cur.bit - align * 8);
    }
  }

  /** The sizes an integer can have. */
  predicate IsUnit(n: nat) { n == 1 || n == 2 || n == 4 || n == 8 }

  /** What the first pass promises of one placed field of a struct. */
  predicate FieldOk(g: Field, packedStruct: bool) {
    && (if g.IsBitField() then 0 <= g.bitPos < 64 && IsUnit(g.access) && g.width.value <= g.access * 8
        else g.Effective(packedStruct) > 0 && Multiple(g.offset, g.Effective(packedStruct)))
    && (Contained(g, packedStruct) ==> g.Start() / (g.size * 8) == (g.Start() + g.width.value - 1) / (g.size * 8))
    && 0 <= g.offset
  }

  lemma PlainPosition(f: Field, packedStruct: bool, cur: Cursor)
    requires f.WellFormed() && !f.IsBitField()
    ensures f.Effective(packedStruct) > 0
    ensures Position(f, packedStruct, cur.Pos(), NewField(cur, f.Effective(packedStruct)).Pos())
  {
    hide NewField, LeastMultiple;
    NewFieldIsLeast(cur, f.Effective(packedStruct));
  }

  /** One field of a struct.  `align` is what the field contributes to the alignment of the whole. */
  method PlaceField(f: Field, cur0: Cursor, packedStruct: bool) returns (g: Field, cur: Cursor, align: nat)
    requires f.WellFormed() && 0 <= cur0.c && 0 <= cur0.bit
    ensures g.SameDeclaration(f) && g.aux == Own && 0 <= cur.c && 0 <= cur.bit && align > 0
    ensures cur0.Pos() <= g.Start() && g.Start() + g.Bits() == cur.Pos()
    ensures Position(f, packedStruct, cur0.Pos(), g.Start())
    ensures g.IsBitField() ==> g.access == (if g.size == 8 && g.width.value <= 32 then 4 else g.size)
    ensures FieldOk(g, packedStruct)
    ensures align == if f.IsBitField() && f.anon then 1 else f.Effective(packedStruct)
  {
    hide Multiple, NewField, CeilBytes, Position, FieldOk, FitsContainer, Contained;
    cur := cur0;
    g := f.(aux := Own);
    align := f.Effective(packedStruct);
    if !f.IsBitField() {
      PlainPosition(f, packedStruct, cur);
      cur := NewField(cur, align);
      g := g.(offset := cur.c);
      PlainOk(f, g, packedStruct);
      if f.size > 0 {
        cur := Cursor(cur.c + f.size, 0);
      }
      return;
    }
    cur := StartBitField(f, cur, packedStruct, align);
    if f.size == 8 && f.width.value <= 32 {
      g := g.(access := 4);
    }
    ghost var start := cur;
    cur := Settle(cur, align);
    g := g.(offset := cur.c, bitPos := cur.bit);
    if f.anon {
      align := 1;
    }
    cur := Cursor(cur.c, cur.bit + f.width.value);
    BitFieldOk(f, g, packedStruct, start);
  }

  lemma PlainOk(f: Field, g: Field, packedStruct: bool)
    requires !f.IsBitField() && g.SameDeclaration(f) && g.Effective(packedStruct) > 0 && 0 <= g.offset && Multiple(g.offset, g.Effective(packedStruct))
    ensures FieldOk(g, packedStruct)
  {
    hide Multiple;
  }

  lemma BitFieldOk(f: Field, g: Field, packedStruct: bool, start: Cursor)
    requires f.WellFormed() && f.IsBitField() && g.SameDeclaration(f) && g.Start() == start.Pos() && 0 <= g.offset && 0 <= g.bitPos
    requires g.bitPos < f.Effective(packedStruct) * 8 && (f.aligned > 0 || f.width.value == 0 ==> g.bitPos == 0)
    requires g.access == if f.size == 8 && f.width.value <= 32 then 4 else f.size
    requires Contained(f, packedStruct) ==> FitsContainer(start, f)
    ensures FieldOk(g, packedStruct)
  {
    hide Multiple;
    if Contained(f, packedStruct) {
      StaysInside(start.Pos(), f.width.value, f.size * 8);
    }
  }

  // ---------------------------------------------------------------- choosing how to access a bit-field

  /** The alignment of the integer of `n` bytes; that of 8 bytes is 8, or 4 on i386. */
  function UnitAlign(n: nat, llAlign: nat): nat { if n == 8 then llAlign else n }

  /** The smallest integer of at least `n` bytes, or the largest there is. */
  function UnitFor(n: int): (u: nat)
    ensures IsUnit(u) && (n <= 8 ==> n <= u) && forall k: nat :: IsUnit(k) && n <= k ==> u <= k
  {
    if n > 4 then 8 else if n > 2 then 4 else if n > 1 then 2 else 1
  }

  function BytesFrom(c: int, start: int, width: nat): int { CeilBytes(start - c * 8 + width) }

  /** Coarser rounding goes further down, and to a multiple of the finer. */
  lemma RoundingNests(x: int, a: nat, b: nat)
    requires IsUnit(a) && IsUnit(b) && a <= b
    ensures AlignDown(x, b) <= AlignDown(x, a) && AlignDown(x, a) + a <= AlignDown(x, b) + b
    ensures AlignDown(x, b) <= x < AlignDown(x, b) + b
  {
    var q, r := x / 8, x % 8;
    assert x == 8 * q + r;
    assert x / 4 == 2 * q + r / 4 && x / 2 == 4 * q + r / 2;
    assert AlignDown(x, 8) == 8 * q && AlignDown(x, 4) == 8 * q + r / 4 * 4;
    assert AlignDown(x, 2) == 8 * q + r / 2 * 2 && AlignDown(x, 1) == x by { QuotientIs(x, 1, x, 0); }
  }

  /** The search for an access unit: starting from a byte, the unit grows until its start no longer moves. */
  method ChooseUnit(start: int, width: nat, llAlign: nat) returns (px: int, cx: int, s: nat)
    requires 0 <= start && width > 0 && (llAlign == 4 || llAlign == 8)
    ensures IsUnit(s) && cx * 8 + px == start && 0 <= px < UnitAlign(s, llAlign) * 8
    ensures cx == AlignDown(start / 8, UnitAlign(s, llAlign))
    ensures px + width <= 64 ==> px + width <= s * 8
    ensures llAlign == 8 ==> forall u: nat :: Covers(start, width, u) ==> s <= u
  {
    hide AlignDown;
    var c0 := -1;
    s := 1;
    var align := 1;
    ghost var before := 1;
    while true
      invariant IsUnit(s) && align == UnitAlign(s, llAlign) && IsUnit(before) && before <= align
      invariant c0 == -1 ==> s == 1 && align == 1
      invariant c0 != -1 ==> 0 <= c0 && c0 == AlignDown(start / 8, before) && s == UnitFor(BytesFrom(c0, start, width))
      invariant llAlign == 8 ==> forall u: nat :: Covers(start, width, u) ==> s <= u
      decreases 8 - align, if c0 == AlignDown(start / 8, align) then 0 else 1
    {
      px := start;
      cx := AlignDown(px / 8, align);
      RoundingNests(start / 8, before, align);
      RoundsNonNegative(start / 8, align);
      px := px - cx * 8;
      if c0 == cx {
        break;
      }
      if llAlign == 8 {
        forall u: nat | Covers(start, width, u) ensures UnitFor(BytesFrom(cx, start, width)) <= u {
          RoundingNests(start / 8, align, u);
        }
      }
      s := UnitFor(CeilBytes(px + width));
      assert c0 != -1 ==> BytesFrom(c0, start, width) <= BytesFrom(cx, start, width);
      before := align;
      align := UnitAlign(s, llAlign);
      c0 := cx;
    }
    RoundingNests(start / 8, align, align);
    assert start / 8 * 8 <= start < start / 8 * 8 + 8;
  }

  /** The naturally aligned unit of `u` bytes around the first bit holds all of them. */
  predicate Covers(start: int, width: nat, u: nat) {
    IsUnit(u) && start + width <= (AlignDown(start / 8, u) + u) * 8
  }

  lemma RoundsNonNegative(x: nat, a: nat)
    requires a > 0
    ensures 0 <= AlignDown(x, a) <= x
  {
    assert x / a >= 0 && a * (x / a) >= 0;
  }

  /** The bytes through which the field is accessed hold all its bits and lie inside the `total` bytes of the struct. */
  predicate AccessOk(f: Field, total: int)
    requires f.IsBitField()
  {
    && IsUnit(f.access) && f.width.value <= f.access * 8
    && (f.aux != Bytewise ==>
          IsUnit(f.UnitBytes()) && 0 <= f.bitPos && f.bitPos + f.width.value <= f.UnitBytes() * 8
          && 0 <= f.offset && f.offset + f.UnitBytes() <= total)
  }

  /** Some naturally aligned integer inside the struct holds all the bits. */
  ghost predicate SomeUnitFits(f: Field, total: int)
    requires f.IsBitField()
  {
    exists u: nat :: Covers(f.Start(), f.width.value, u) && AlignDown(f.Start() / 8, u) + u <= total
  }

  /** Nothing fits if the smallest covering unit does not. */
  lemma SmallestUnitDecides(f: Field, total: int, s: nat)
    requires f.IsBitField() && IsUnit(s) && forall u: nat :: Covers(f.Start(), f.width.value, u) ==> s <= u
    requires AlignDown(f.Start() / 8, s) + s > total
    ensures !SomeUnitFits(f, total)
  {
    forall u: nat | Covers(f.Start(), f.width.value, u) ensures AlignDown(f.Start() / 8, u) + u > total {
      RoundingNests(f.Start() / 8, s, u);
    }
  }

  /** The second pass for one field: its absolute bits stay, and it gets a unit inside the struct that holds them, or
      is accessed byte by byte - only when no naturally aligned unit would do. */
  method ChooseAccess(f: Field, total: int, llAlign: nat) returns (g: Field)
    requires f.IsBitField() && 0 <= f.bitPos < 64 && 0 <= f.offset && IsUnit(f.access) && f.width.value <= f.access * 8 && (llAlign == 4 || llAlign == 8)
    ensures g.SameDeclaration(f) && g.Start() == f.Start() && g.Bits() == f.Bits() && 0 <= g.bitPos < 64
    ensures f.width.value > 0 ==> AccessOk(g, total)
    ensures f.width.value > 0 && llAlign == 8 && g.aux == Bytewise ==> !SomeUnitFits(f, total)
  {
    g := f.(aux := Own);
    if f.width.value == 0 {
      return;
    }
    if f.bitPos + f.width.value <= f.access * 8 && f.offset + f.access <= total {
      return;
    }
    hide AlignDown;
    var px, cx, s := ChooseUnit(f.offset * 8 + f.bitPos, f.width.value, llAlign);
    if px + f.width.value <= s * 8 && cx + s <= total {
      RoundsNonNegative(f.Start() / 8, UnitAlign(s, llAlign));
      g := g.(offset := cx, bitPos := px);
      if s != f.access {
        g := g.(aux := As(s));
      }
    } else {
      g := g.(aux := Bytewise);
      if llAlign == 8 { BytewiseOnly(f, total, px, cx, s); }
    }
  }

  /** If the unit found does not do, none does. */
  lemma BytewiseOnly(f: Field, total: int, px: int, cx: int, s: nat)
    requires f.IsBitField() && IsUnit(s) && cx * 8 + px == f.Start() && cx == AlignDown(f.Start() / 8, s)
    requires px + f.width.value <= 64 ==> px + f.width.value <= s * 8
    requires forall u: nat :: Covers(f.Start(), f.width.value, u) ==> s <= u
    requires !(px + f.width.value <= s * 8 && cx + s <= total)
    ensures !SomeUnitFits(f, total)
  {
    hide AlignDown;
    if px + f.width.value > 64 {
      forall u: nat | IsUnit(u) ensures !Covers(f.Start(), f.width.value, u) {
        RoundingNests(f.Start() / 8, s, 8);
        RoundingNests(f.Start() / 8, u, 8);
      }
    } else {
      SmallestUnitDecides(f, total, s);
    }
  }

  // ---------------------------------------------------------------- the whole struct

  ghost predicate SameDeclarations(fs: seq<Field>, gs: seq<Field>) {
    |fs| == |gs| && forall i :: 0 <= i < |fs| ==> gs[i].SameDeclaration(fs[i])
  }

  /** The first pass over a struct. */
  method PlaceStruct(fs: array<Field>, packedStruct: bool) returns (c: int, maxalign: nat)
    requires forall i :: 0 <= i < fs.Length ==> fs[i].WellFormed()
    modifies fs
    ensures SameDeclarations(old(fs[..]), fs[..]) && maxalign > 0 && 0 <= c
    ensures PlacedUpTo(fs[..], fs.Length, c * 8)
    ensures forall i :: 0 <= i < fs.Length ==> FieldOk(fs[i], packedStruct)
    ensures forall i :: 0 <= i < fs.Length && !(fs[i].IsBitField() && fs[i].anon) ==> fs[i].Effective(packedStruct) <= maxalign
    ensures InPosition(fs[..], packedStruct, fs.Length) && Filled(fs[..], c)
    ensures maxalign == 1 || exists i :: 0 <= i < fs.Length && !(fs[i].IsBitField() && fs[i].anon) && fs[i].Effective(packedStruct) == maxalign
  {
    hide *;
    ghost var was := fs[..];
    var cur := Cursor(0, 0);
    NothingPlaced(was, packedStruct);
    CursorAtZero();
    maxalign := 1;
    var i := 0;
    while i < fs.Length
      invariant 0 <= i <= fs.Length && 0 <= cur.c && 0 <= cur.bit && maxalign > 0
      invariant forall k :: i <= k < fs.Length ==> fs[k] == was[k]
      invariant forall k :: 0 <= k < i ==> FirstPass(was[k], fs[k], packedStruct, maxalign)
      invariant PlacedUpTo(fs[..], i, cur.Pos()) && InPosition(fs[..], packedStruct, i) && EndOf(fs[..], i) == cur.Pos()
      invariant Met(fs[..], i, packedStruct, maxalign)
    {
      var g, cur2, align := PlaceField(fs[i], cur, packedStruct);
      ghost var s := fs[..];
      PlacedOne(s, i, cur.Pos(), g, cur2.Pos());
      PositionedOne(s, i, packedStruct, fs[i], g, cur.Pos());
      MetOne(s, i, packedStruct, maxalign, fs[i], g, align);
      fs[i] := g;
      assert fs[..] == s[i := g];
      ghost var before := maxalign;
      if align > maxalign {
        maxalign := align;
      }
      forall k | 0 <= k < i + 1 ensures FirstPass(was[k], fs[k], packedStruct, maxalign) {
        FirstPassLooser(was[k], fs[k], packedStruct, if k < i then before else align, maxalign);
      }
      cur := cur2;
      i := i + 1;
    }
    c := cur.c + CeilBytes(cur.bit);
    WholeBytes(cur);
    MetMeans(fs[..], packedStruct, maxalign);
    LastFills(fs[..], c);
    PlacedLooser(fs[..], fs.Length, cur.Pos(), c * 8);
    FirstPassMeans(was, fs[..], packedStruct, maxalign);
  }

  /** A field placed by the first pass, contributing at most `align` to the alignment. */
  ghost predicate FirstPass(f: Field, g: Field, packedStruct: bool, align: nat) {
    g.SameDeclaration(f) && FieldOk(g, packedStruct) && (!(g.IsBitField() && g.anon) ==> g.Effective(packedStruct) <= align)
  }

  lemma FirstPassLooser(f: Field, g: Field, packedStruct: bool, align: nat, align2: nat)
    requires align <= align2
    requires FirstPass(f, g, packedStruct, align) || (g.SameDeclaration(f) && FieldOk(g, packedStruct)
               && align == if f.IsBitField() && f.anon then 1 else f.Effective(packedStruct))
    ensures FirstPass(f, g, packedStruct, align2)
  {
    hide FieldOk;
  }

  lemma FirstPassMeans(fs: seq<Field>, gs: seq<Field>, packedStruct: bool, align: nat)
    requires |fs| == |gs| && forall k :: 0 <= k < |fs| ==> FirstPass(fs[k], gs[k], packedStruct, align)
    ensures SameDeclarations(fs, gs) && forall i :: 0 <= i < |gs| ==> FieldOk(gs[i], packedStruct)
    ensures forall i :: 0 <= i < |gs| && !(gs[i].IsBitField() && gs[i].anon) ==> gs[i].Effective(packedStruct) <= align
  {
    hide FieldOk;
  }

  lemma WholeBytes(cur: Cursor)
    requires 0 <= cur.c && 0 <= cur.bit
    ensures 0 <= cur.c + CeilBytes(cur.bit) && cur.Pos() <= (cur.c + CeilBytes(cur.bit)) * 8 < cur.Pos() + 8
  {
  }

  lemma NothingPlaced(fs: seq<Field>, packedStruct: bool)
    ensures PlacedUpTo(fs, 0, 0) && InPosition(fs, packedStruct, 0) && EndOf(fs, 0) == 0 && Met(fs, 0, packedStruct, 1)
  {
  }

  /** The alignment is 1 or that of one of the first `k` fields that count. */
  ghost predicate Met(fs: seq<Field>, k: nat, packedStruct: bool, align: nat)
    requires k <= |fs|
  {
    align == 1 || exists i :: 0 <= i < k && Counts(fs[i]) && fs[i].Effective(packedStruct) == align
  }

  /** Anonymous bit-fields do not raise the alignment of a struct. */
  predicate Counts(f: Field) { !(f.IsBitField() && f.anon) }

  lemma MetOne(fs: seq<Field>, k: nat, packedStruct: bool, align: nat, f: Field, g: Field, more: nat)
    requires k < |fs| && Met(fs, k, packedStruct, align) && g.SameDeclaration(f)
    requires more == if f.IsBitField() && f.anon then 1 else f.Effective(packedStruct)
    requires more > 0
    ensures Met(fs[k := g], k + 1, packedStruct, if more > align then more else align)
  {
    var u := fs[k := g];
    if more > align {
      assert u[k].Effective(packedStruct) == more || more == 1;
    } else if align != 1 {
      var i :| 0 <= i < k && Counts(fs[i]) && fs[i].Effective(packedStruct) == align;
      assert u[i] == fs[i];
    }
  }

  lemma LastFills(fs: seq<Field>, c: int)
    requires EndOf(fs, |fs|) <= c * 8 < EndOf(fs, |fs|) + 8
    ensures Filled(fs, c)
  {
  }

  lemma MetMeans(fs: seq<Field>, packedStruct: bool, align: nat)
    requires Met(fs, |fs|, packedStruct, align)
    ensures align == 1 || exists i :: 0 <= i < |fs| && !(fs[i].IsBitField() && fs[i].anon) && fs[i].Effective(packedStruct) == align
  {
  }

  lemma PositionedOne(fs: seq<Field>, k: nat, packedStruct: bool, f: Field, g: Field, pos: int)
    requires k < |fs| && InPosition(fs, packedStruct, k) && EndOf(fs, k) == pos
    requires g.SameDeclaration(f) && Position(f, packedStruct, pos, g.Start())
    ensures InPosition(fs[k := g], packedStruct, k + 1) && EndOf(fs[k := g], k + 1) == g.Start() + g.Bits()
  {
    hide Position;
    SamePosition(f, g, packedStruct, pos, g.Start());
    var u := fs[k := g];
    forall i | 0 <= i < k + 1 ensures Position(u[i], packedStruct, EndOf(u, i), u[i].Start()) {
      assert EndOf(u, i) == EndOf(fs, i);
    }
  }

  lemma SamePosition(f: Field, g: Field, packedStruct: bool, pos: int, start: int)
    requires g.SameDeclaration(f)
    ensures Position(f, packedStruct, pos, start) == Position(g, packedStruct, pos, start)
  {
  }

  lemma CursorAtZero()
    ensures Cursor(0, 0).Pos() == 0
  {
  }

  lemma PlacedLooser(fs: seq<Field>, k: nat, pos: int, pos2: int)
    requires k <= |fs| && PlacedUpTo(fs, k, pos) && pos <= pos2
    ensures PlacedUpTo(fs, k, pos2)
  {
  }

  lemma PlacedOne(fs: seq<Field>, k: nat, pos: int, g: Field, pos2: int)
    requires k < |fs| && PlacedUpTo(fs, k, pos) && pos <= g.Start() && g.Start() + g.Bits() <= pos2
    ensures PlacedUpTo(fs[k := g], k + 1, pos2)
  {
  }

  /** The first `k` members of a union in place, `c` and `align` no larger than one of them asks for. */
  ghost predicate UnionPass(fs: seq<Field>, gs: seq<Field>, k: nat, packedUnion: bool, c: int, align: nat)
    requires |fs| == |gs| && k <= |fs|
  {
    && 0 <= c && align > 0
    && (forall i :: 0 <= i < k ==> UnionMember(fs[i], gs[i], packedUnion, c, align))
    && (align == 1 || exists i :: 0 <= i < k && gs[i].Effective(packedUnion) == align)
    && (c == 0 || exists i :: 0 <= i < k && gs[i].Bits() > c * 8 - 8)
  }

  predicate UnionMember(f: Field, g: Field, packedUnion: bool, c: int, align: nat) {
    g.SameDeclaration(f) && g.Start() == 0 && g.Bits() <= c * 8 && FieldOk(g, true) && g.Effective(packedUnion) <= align
  }

  lemma OneMember(f: Field, packedUnion: bool)
    requires f.WellFormed() && (f.IsBitField() ==> f.bitPos == 0)
    ensures var g, size := f.(offset := 0), if f.IsBitField() then CeilBytes(f.width.value) else f.size;
            && g.SameDeclaration(f) && g.Start() == 0 && FieldOk(g, true) && g.Effective(packedUnion) == f.Effective(packedUnion) > 0
            && (size > 0 ==> size * 8 - 8 < g.Bits() <= size * 8) && (size <= 0 ==> g.Bits() == 0)
  {
    hide Multiple;
    ZeroIsMultiple(f.Effective(true));
  }

  lemma UnionOne(fs: seq<Field>, gs: seq<Field>, k: nat, packedUnion: bool, c: int, align: nat, size: int, c2: int, align2: nat)
    requires |fs| == |gs| && k < |fs| && fs[k].WellFormed() && (fs[k].IsBitField() ==> fs[k].bitPos == 0)
    requires UnionPass(fs, gs, k, packedUnion, c, align)
    requires size == if fs[k].IsBitField() then CeilBytes(fs[k].width.value) else fs[k].size
    requires c2 == (if size > c then size else c) && align2 == if fs[k].Effective(packedUnion) > align then fs[k].Effective(packedUnion) else align
    ensures UnionPass(fs, gs[k := fs[k].(offset := 0)], k + 1, packedUnion, c2, align2)
  {
    hide FieldOk, CeilBytes;
    OneMember(fs[k], packedUnion);
    var hs := gs[k := fs[k].(offset := 0)];
    forall i | 0 <= i < k + 1 ensures UnionMember(fs[i], hs[i], packedUnion, c2, align2) {
      assert i < k ==> UnionMember(fs[i], gs[i], packedUnion, c, align);
    }
    if align2 == align && align != 1 {
      var i :| 0 <= i < k && gs[i].Effective(packedUnion) == align;
      assert hs[i] == gs[i];
    } else if align2 != 1 {
      assert hs[k].Effective(packedUnion) == align2;
    }
    if c2 == c && c != 0 {
      var i :| 0 <= i < k && gs[i].Bits() > c * 8 - 8;
      assert hs[i] == gs[i];
    } else if c2 != 0 {
      assert hs[k].Bits() > c2 * 8 - 8;
    }
  }

  /** The first pass over a union: everything at offset 0. */
  method PlaceUnion(fs: array<Field>, packedUnion: bool) returns (c: int, maxalign: nat)
    requires forall i :: 0 <= i < fs.Length ==> fs[i].WellFormed() && (fs[i].IsBitField() ==> fs[i].bitPos == 0)
    modifies fs
    ensures SameDeclarations(old(fs[..]), fs[..]) && maxalign > 0 && 0 <= c
    ensures forall i :: 0 <= i < fs.Length ==> fs[i].Start() == 0 && fs[i].Bits() <= c * 8 && FieldOk(fs[i], true)
    ensures forall i :: 0 <= i < fs.Length ==> fs[i].Effective(packedUnion) <= maxalign
    ensures maxalign == 1 || exists i :: 0 <= i < fs.Length && fs[i].Effective(packedUnion) == maxalign
    ensures Filled(fs[..], c)
  {
    hide CeilBytes, FieldOk, UnionPass;
    ghost var was := fs[..];
    c, maxalign := 0, 1;
    assert UnionPass(was, fs[..], 0, packedUnion, 0, 1) by { NoMember(was, packedUnion); }
    var i := 0;
    while i < fs.Length
      invariant 0 <= i <= fs.Length && maxalign > 0
      invariant forall k :: i <= k < fs.Length ==> fs[k] == was[k]
      invariant UnionPass(was, fs[..], i, packedUnion, c, maxalign)
    {
      var f := fs[i];
      var size := if f.IsBitField() then CeilBytes(f.width.value) else f.size;
      var align := f.Effective(packedUnion);
      ghost var s, c0, align0 := fs[..], c, maxalign;
      fs[i] := f.(offset := 0);
      if size > c {
        c := size;
      }
      if align > maxalign {
        maxalign := align;
      }
      UnionOne(was, s, i, packedUnion, c0, align0, size, c, maxalign);
      assert fs[..] == s[i := f.(offset := 0)];
      i := i + 1;
    }
    UnionMeans(was, fs[..], packedUnion, c, maxalign);
  }

  lemma NoMember(fs: seq<Field>, packedUnion: bool)
    ensures UnionPass(fs, fs, 0, packedUnion, 0, 1)
  {
  }

  lemma UnionMeans(fs: seq<Field>, gs: seq<Field>, packedUnion: bool, c: int, align: nat)
    requires |fs| == |gs| && UnionPass(fs, gs, |fs|, packedUnion, c, align)
    ensures SameDeclarations(fs, gs) && 0 <= c && Filled(gs, c)
    ensures forall i :: 0 <= i < |gs| ==> gs[i].Start() == 0 && gs[i].Bits() <= c * 8 && FieldOk(gs[i], true) && gs[i].Effective(packedUnion) <= align
    ensures align == 1 || exists i :: 0 <= i < |gs| && gs[i].Effective(packedUnion) == align
  {
    hide FieldOk;
    assert forall i :: 0 <= i < |gs| ==> UnionMember(fs[i], gs[i], packedUnion, c, align);
    if c != 0 {
      var i :| 0 <= i < |gs| && gs[i].Bits() > c * 8 - 8;
      assert gs[i].Start() + gs[i].Bits() > c * 8 - 8;
    }
  }

  lemma ZeroIsMultiple(a: nat)
    ensures a > 0 ==> Multiple(0, a)
  {
    if a > 0 {
      QuotientIs(0, a, 0, 0);
    }
  }

  /** A struct of `size` bytes: its fields lie apart and each bit-field is accessed inside it. */
  ghost predicate LaidOut(fs: seq<Field>, size: int) {
    PlacedUpTo(fs, |fs|, size * 8)
    && forall i :: 0 <= i < |fs| && fs[i].IsBitField() && fs[i].width.value > 0 ==> AccessOk(fs[i], size)
  }

  /** struct_layout: first pass, total size and alignment, second pass. */
  method LayoutStruct(fs: array<Field>, union: bool, packedStruct: bool, structAligned: nat, llAlign: nat) returns (size: int, align: nat)
    requires forall i :: 0 <= i < fs.Length ==> fs[i].WellFormed() && (fs[i].IsBitField() ==> fs[i].bitPos == 0)
    requires llAlign == 4 || llAlign == 8
    modifies fs
    ensures SameDeclarations(old(fs[..]), fs[..])
    ensures align > 0 && structAligned <= align && 0 <= size && Multiple(size, align)
    ensures forall i :: 0 <= i < fs.Length && (union || !(fs[i].IsBitField() && fs[i].anon)) ==> fs[i].Effective(packedStruct) <= align
    ensures if union then forall i :: 0 <= i < fs.Length ==> fs[i].Start() == 0 && fs[i].Bits() <= size * 8
            else PlacedUpTo(fs[..], fs.Length, size * 8)
    ensures !union ==> forall i :: 0 <= i < fs.Length && !fs[i].IsBitField() ==> FieldOk(fs[i], packedStruct)
    ensures !union ==> forall i :: 0 <= i < fs.Length && Contained(fs[i], packedStruct) ==>
              fs[i].Start() / (fs[i].size * 8) == (fs[i].Start() + fs[i].width.value - 1) / (fs[i].size * 8)
    ensures forall i :: 0 <= i < fs.Length && fs[i].IsBitField() && fs[i].width.value > 0 ==>
              AccessOk(fs[i], size) && (llAlign == 8 && fs[i].aux == Bytewise ==> !SomeUnitFits(fs[i], size))
    ensures !union ==> LaidOut(fs[..], size) && InPosition(fs[..], packedStruct, fs.Length)
    ensures forall o :: 0 <= o && Multiple(o, align) && AllWithin(fs[..], o * 8) ==> size <= o
    ensures align == 1 || align == structAligned
         || exists i :: 0 <= i < fs.Length && (union || !(fs[i].IsBitField() && fs[i].anon)) && fs[i].Effective(packedStruct) == align
  {
    hide *;
    ghost var was := fs[..];
    var c, maxalign;
    if union {
      c, maxalign := PlaceUnion(fs, packedStruct);
    } else {
      c, maxalign := PlaceStruct(fs, packedStruct);
    }
    ghost var mid := fs[..];
    OnceIs(mid, union, packedStruct, c, maxalign);
    align := if structAligned > 1 then structAligned else 1;
    if align < maxalign {
      align := maxalign;
    }
    AlignedUp(c, align);
    size := AlignUp(c, align);
    var i := 0;
    while i < fs.Length
      invariant 0 <= i <= fs.Length
      invariant forall k :: i <= k < fs.Length ==> fs[k] == mid[k]
      invariant forall k :: 0 <= k < i ==> Accessed(mid[k], fs[k], size, llAlign)
    {
      OnceField(mid, union, packedStruct, c, maxalign, i, size, llAlign);
      if fs[i].IsBitField() {
        fs[i] := ChooseAccess(fs[i], size, llAlign);
        AccessedIs(mid[i], fs[i], size, llAlign);
      }
      i := i + 1;
    }
    DeclarationsKept(was, mid, fs[..], size, llAlign);
    AccessKeepsPlaces(mid, fs[..], c, size, llAlign, union);
    Finished(mid, fs[..], union, packedStruct, c, maxalign, size, llAlign, align);
    SizeIsLeast(mid, fs[..], union, packedStruct, c, maxalign, size, llAlign, align);
  }

  /** What the first pass leaves, in a struct or a union. */
  ghost predicate Once(fs: seq<Field>, union: bool, packedStruct: bool, c: int, maxalign: nat) {
    && maxalign > 0 && 0 <= c && Filled(fs, c)
    && (forall i :: 0 <= i < |fs| && (union || Counts(fs[i])) ==> fs[i].Effective(packedStruct) <= maxalign)
    && (maxalign == 1 || exists i :: 0 <= i < |fs| && (union || Counts(fs[i])) && fs[i].Effective(packedStruct) == maxalign)
    && (forall i :: 0 <= i < |fs| ==> FieldOk(fs[i], union || packedStruct))
    && if union then forall i :: 0 <= i < |fs| ==> fs[i].Start() == 0 && fs[i].Bits() <= c * 8
       else PlacedUpTo(fs, |fs|, c * 8) && InPosition(fs, packedStruct, |fs|)
  }

  lemma OnceIs(fs: seq<Field>, union: bool, packedStruct: bool, c: int, maxalign: nat)
    requires maxalign > 0 && 0 <= c && Filled(fs, c)
    requires forall i :: 0 <= i < |fs| && (union || !(fs[i].IsBitField() && fs[i].anon)) ==> fs[i].Effective(packedStruct) <= maxalign
    requires maxalign == 1
          || exists i :: 0 <= i < |fs| && (union || !(fs[i].IsBitField() && fs[i].anon)) && fs[i].Effective(packedStruct) == maxalign
    requires if union then forall i :: 0 <= i < |fs| ==> fs[i].Start() == 0 && fs[i].Bits() <= c * 8 && FieldOk(fs[i], true)
             else PlacedUpTo(fs, |fs|, c * 8) && InPosition(fs, packedStruct, |fs|) && forall i :: 0 <= i < |fs| ==> FieldOk(fs[i], packedStruct)
    ensures Once(fs, union, packedStruct, c, maxalign)
  {
    hide FieldOk, PlacedUpTo, InPosition, Filled;
  }

  lemma OnceField(fs: seq<Field>, union: bool, packedStruct: bool, c: int, maxalign: nat, i: nat, size: int, llAlign: nat)
    requires Once(fs, union, packedStruct, c, maxalign) && i < |fs|
    ensures var f := fs[i];
            if f.IsBitField() then 0 <= f.bitPos < 64 && 0 <= f.offset && IsUnit(f.access) && f.width.value <= f.access * 8
            else Accessed(f, f, size, llAlign)
  {
    hide Multiple, PlacedUpTo, InPosition, Filled;
    assert FieldOk(fs[i], union || packedStruct);
  }

  lemma AccessedIs(f: Field, g: Field, size: int, llAlign: nat)
    requires f.IsBitField() && g.SameDeclaration(f) && g.Start() == f.Start()
    requires f.width.value > 0 ==> AccessOk(g, size) && (llAlign == 8 && g.aux == Bytewise ==> !SomeUnitFits(f, size))
    ensures Accessed(f, g, size, llAlign)
  {
    hide AccessOk;
  }

  lemma DeclarationsKept(fs: seq<Field>, gs: seq<Field>, hs: seq<Field>, size: int, llAlign: nat)
    requires SameDeclarations(fs, gs) && |hs| == |gs| && forall i :: 0 <= i < |gs| ==> Accessed(gs[i], hs[i], size, llAlign)
    ensures SameDeclarations(fs, hs)
  {
    hide AccessOk, SomeUnitFits;
  }

  lemma Finished(fs: seq<Field>, gs: seq<Field>, union: bool, packedStruct: bool, c: int, maxalign: nat, size: int, llAlign: nat, align: nat)
    requires Once(fs, union, packedStruct, c, maxalign) && |fs| == |gs| && c <= size && maxalign <= align
    requires forall i :: 0 <= i < |fs| ==> Accessed(fs[i], gs[i], size, llAlign)
    ensures forall i :: 0 <= i < |gs| && (union || !(gs[i].IsBitField() && gs[i].anon)) ==> gs[i].Effective(packedStruct) <= align
    ensures union ==> forall i :: 0 <= i < |gs| ==> gs[i].Start() == 0 && gs[i].Bits() <= size * 8
    ensures !union ==> forall i :: 0 <= i < |gs| && !gs[i].IsBitField() ==> FieldOk(gs[i], packedStruct)
    ensures !union ==> forall i :: 0 <= i < |gs| && Contained(gs[i], packedStruct) ==>
              gs[i].Start() / (gs[i].size * 8) == (gs[i].Start() + gs[i].width.value - 1) / (gs[i].size * 8)
    ensures forall i :: 0 <= i < |gs| && gs[i].IsBitField() && gs[i].width.value > 0 ==>
              AccessOk(gs[i], size) && (llAlign == 8 && gs[i].aux == Bytewise ==> !SomeUnitFits(gs[i], size))
    ensures !union ==> PlacedUpTo(gs, |gs|, size * 8) && LaidOut(gs, size) && InPosition(gs, packedStruct, |gs|)
  {
    hide AccessOk, SomeUnitFits, Filled, Multiple, PlacedUpTo, InPosition, Position;
    AccessKeepsPlaces(fs, gs, c, size, llAlign, union);
    AccessKeepsPosition(fs, gs, packedStruct, size, llAlign);
    assert forall i :: 0 <= i < |gs| ==> FieldOk(fs[i], union || packedStruct);
  }

  lemma SizeIsLeast(fs: seq<Field>, gs: seq<Field>, union: bool, packedStruct: bool, c: int, maxalign: nat, size: int, llAlign: nat, align: nat)
    requires Once(fs, union, packedStruct, c, maxalign) && |fs| == |gs| && align > 0 && size == AlignUp(c, align)
    requires forall i :: 0 <= i < |fs| ==> Accessed(fs[i], gs[i], size, llAlign)
    ensures forall o :: 0 <= o && Multiple(o, align) && AllWithin(gs, o * 8) ==> size <= o
    ensures align == maxalign && align != 1 ==>
              exists i :: 0 <= i < |gs| && (union || !(gs[i].IsBitField() && gs[i].anon)) && gs[i].Effective(packedStruct) == align
  {
    hide AccessOk, SomeUnitFits, Filled, Multiple, PlacedUpTo, InPosition, FieldOk, AllWithin;
    forall o | 0 <= o && Multiple(o, align) && AllWithin(gs, o * 8) ensures size <= o {
      LeastSize(fs, gs, c, align, o);
    }
    if align == maxalign && align != 1 {
      var i :| 0 <= i < |fs| && (union || Counts(fs[i])) && fs[i].Effective(packedStruct) == align;
      assert Accessed(fs[i], gs[i], size, llAlign);
      assert gs[i].Effective(packedStruct) == align;
    }
  }

  /** Every field ends by bit `end`. */
  ghost predicate AllWithin(fs: seq<Field>, end: int) {
    forall i :: 0 <= i < |fs| ==> fs[i].Start() + fs[i].Bits() <= end
  }

  /** Some field ends in the last of `c` bytes. */
  ghost predicate Filled(fs: seq<Field>, c: int) {
    c == 0 || exists i :: 0 <= i < |fs| && fs[i].Start() + fs[i].Bits() > c * 8 - 8
  }

  lemma LeastSize(fs: seq<Field>, gs: seq<Field>, c: int, align: nat, o: int)
    requires |fs| == |gs| && Filled(fs, c) && forall i :: 0 <= i < |fs| ==> gs[i].Start() == fs[i].Start() && gs[i].Bits() == fs[i].Bits()
    requires align > 0 && 0 <= o && Multiple(o, align) && AllWithin(gs, o * 8)
    ensures AlignUp(c, align) <= o
  {
    AlignUpIsLeast(c, align);
  }

  lemma AccessKeepsPosition(fs: seq<Field>, gs: seq<Field>, packedStruct: bool, size: int, llAlign: nat)
    requires |fs| == |gs| && forall i :: 0 <= i < |fs| ==> Accessed(fs[i], gs[i], size, llAlign)
    ensures InPosition(fs, packedStruct, |fs|) ==> InPosition(gs, packedStruct, |gs|)
  {
    hide Position, AccessOk, SomeUnitFits;
    if InPosition(fs, packedStruct, |fs|) {
      forall i | 0 <= i < |gs| ensures Position(gs[i], packedStruct, EndOf(gs, i), gs[i].Start()) {
        assert EndOf(gs, i) == EndOf(fs, i);
        SamePosition(fs[i], gs[i], packedStruct, EndOf(fs, i), fs[i].Start());
      }
    }
  }

  /** What the second pass does to a field. */
  ghost predicate Accessed(f: Field, g: Field, size: int, llAlign: nat) {
    && g.SameDeclaration(f) && g.Start() == f.Start() && (!f.IsBitField() ==> g == f)
    && (f.IsBitField() && f.width.value > 0 ==>
          AccessOk(g, size) && (llAlign == 8 && g.aux == Bytewise ==> !SomeUnitFits(g, size)))
  }

  lemma AccessKeepsPlaces(fs: seq<Field>, gs: seq<Field>, c: int, size: int, llAlign: nat, union: bool)
    requires |fs| == |gs| && c <= size && forall i :: 0 <= i < |fs| ==> Accessed(fs[i], gs[i], size, llAlign)
    ensures !union && PlacedUpTo(fs, |fs|, c * 8) ==> PlacedUpTo(gs, |gs|, size * 8)
    ensures forall i :: 0 <= i < |fs| ==> gs[i].Bits() == fs[i].Bits()
  {
    hide AccessOk, SomeUnitFits;
  }
}
