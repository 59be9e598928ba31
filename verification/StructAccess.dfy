/** Bit-fields of a struct that was laid out, read and written through the access that the layout chose for each. */
module StructAccess {
  import opened StructLayout
  import opened Bitfield

  /** The width of the type that the field's value is computed in. */
  function ValueWidth(f: StructLayout.Field): nat { UnitWidth(if f.aux == Bytewise then f.access else f.UnitBytes()) }

  /** A bit-field that can hold something. */
  predicate HoldsBits(fs: seq<StructLayout.Field>, i: nat) { i < |fs| && fs[i].IsBitField() && fs[i].width.value > 0 }

  /** Where the field's first bit is in memory, for a struct at byte `base`. */
  function FirstBit(fs: seq<StructLayout.Field>, i: nat, base: nat): int
    requires i < |fs|
  {
    8 * base + fs[i].Start()
  }

  /** Writing a bit-field of a struct at byte `base` replaces exactly its bits, whichever access was chosen. */
  method StoreField(mem: array<Byte>, base: nat, fs: seq<StructLayout.Field>, size: int, i: nat, v: Bits, isBool: bool)
    requires LaidOut(fs, size) && HoldsBits(fs, i) && base + size <= mem.Length && |v| == ValueWidth(fs[i])
    requires isBool ==> forall k :: 1 <= k < |v| ==> !v[k]
    modifies mem
    ensures 0 <= FirstBit(fs, i, base) && FirstBit(fs, i, base) + fs[i].width.value <= |old(Flat(mem[..]))| && fs[i].width.value <= |v|
    ensures Flat(mem[..]) == Stored(old(Flat(mem[..])), FirstBit(fs, i, base), fs[i].width.value, v)
  {
    hide Flat, Stored;
    var f := fs[i];
    assert AccessOk(f, size) && 0 <= f.Start() && f.Start() + f.Bits() <= size * 8;
    if f.aux == Bytewise {
      StorePacked(mem, v, 8 * base + f.Start(), f.width.value);
    } else {
      StoreUnit(mem, base + f.offset, f.UnitBytes(), v, f.bitPos, f.width.value, isBool);
    }
  }

  /** Reading one gives its bits, extended. */
  method LoadField(mem: array<Byte>, base: nat, fs: seq<StructLayout.Field>, size: int, i: nat, unsigned: bool) returns (v: Bits)
    requires LaidOut(fs, size) && HoldsBits(fs, i) && base + size <= mem.Length
    ensures 0 <= FirstBit(fs, i, base) && FirstBit(fs, i, base) + fs[i].width.value <= |Flat(mem[..])|
    ensures v == Bitfield.Field(Flat(mem[..]), FirstBit(fs, i, base), fs[i].width.value, ValueWidth(fs[i]), unsigned)
  {
    hide Flat, Bitfield.Field;
    var f := fs[i];
    assert AccessOk(f, size) && 0 <= f.Start() && f.Start() + f.Bits() <= size * 8;
    if f.aux == Bytewise {
      v := LoadPacked(mem, 8 * base + f.Start(), f.width.value, ValueWidth(f), unsigned);
    } else {
      v := LoadUnit(mem, base + f.offset, f.UnitBytes(), f.bitPos, f.width.value, unsigned);
    }
  }

  /** A store into one bit-field of a struct reads back cut to its width, and every other field of the struct, bit-field
      or not, keeps its value, as does everything outside the struct. */
  lemma FieldsAreIndependent(mem: Bits, base: nat, fs: seq<StructLayout.Field>, size: int, i: nat, v: Bits, w: nat, unsigned: bool)
    requires LaidOut(fs, size) && HoldsBits(fs, i) && 8 * (base + size) <= |mem| && |v| == ValueWidth(fs[i])
    ensures 0 <= FirstBit(fs, i, base) && FirstBit(fs, i, base) + fs[i].width.value <= |mem| && fs[i].width.value <= |v|
    ensures var after := Stored(mem, FirstBit(fs, i, base), fs[i].width.value, v);
            && Bitfield.Field(after, FirstBit(fs, i, base), fs[i].width.value, w, unsigned) == Cast(v[..fs[i].width.value], w, unsigned)
            && (forall j :: 0 <= j < |fs| && j != i && fs[j].Bits() > 0 ==>
                  0 <= FirstBit(fs, j, base) && FirstBit(fs, j, base) + fs[j].Bits() <= |mem|
                  && Bitfield.Field(after, FirstBit(fs, j, base), fs[j].Bits(), w, unsigned)
                  == Bitfield.Field(mem, FirstBit(fs, j, base), fs[j].Bits(), w, unsigned))
            && (forall k :: 0 <= k < |mem| && !(8 * base <= k < 8 * (base + size)) ==> after[k] == mem[k])
  {
    hide Stored, Bitfield.Field, Cast;
    var f := fs[i];
    assert AccessOk(f, size) && 0 <= f.Start() && f.Start() + f.Bits() <= size * 8;
    var pos, n := FirstBit(fs, i, base), f.width.value;
    RoundTrip(mem, pos, n, v, w, unsigned);
    forall j | 0 <= j < |fs| && j != i && fs[j].Bits() > 0
      ensures 0 <= FirstBit(fs, j, base) && FirstBit(fs, j, base) + fs[j].Bits() <= |mem|
      ensures Bitfield.Field(Stored(mem, pos, n, v), FirstBit(fs, j, base), fs[j].Bits(), w, unsigned)
           == Bitfield.Field(mem, FirstBit(fs, j, base), fs[j].Bits(), w, unsigned)
    {
      assert 0 <= fs[j].Start() && fs[j].Start() + fs[j].Bits() <= size * 8;
      assert if i < j then f.Start() + f.Bits() <= fs[j].Start() else fs[j].Start() + fs[j].Bits() <= f.Start();
      OtherFieldsKept(mem, pos, n, v, FirstBit(fs, j, base), fs[j].Bits(), w, unsigned);
    }
    forall k | 0 <= k < |mem| && !(8 * base <= k < 8 * (base + size))
      ensures Stored(mem, pos, n, v)[k] == mem[k]
    {
      StoredAt(mem, pos, n, v, k);
    }
  }
}
