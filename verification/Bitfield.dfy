/** Reading and writing bit-fields: byte by byte for packed fields, through one access unit for the others, and into
    the image of an initialised object. Integers are sequences of bits, the lowest first. */
module Bitfield {

  type Bits = seq<bool>

  /** An eight-bit byte of memory. */
  type Byte = b: Bits | |b| == 8 witness [false, false, false, false, false, false, false, false]

  // ---------------------------------------------------------------- operators on integers of |v| bits

  function Shl(v: Bits, n: nat): (r: Bits)
    ensures |r| == |v|
    ensures forall i :: 0 <= i < |r| ==> r[i] == (i >= n && v[i - n])
  {
    seq(|v|, i requires 0 <= i < |v| => i >= n && v[i - n])
  }

  function Shr(v: Bits, n: nat): (r: Bits)
    ensures |r| == |v|
    ensures forall i :: 0 <= i < |r| ==> r[i] == (i + n < |v| && v[i + n])
  {
    seq(|v|, i requires 0 <= i < |v| => i + n < |v| && v[i + n])
  }

  function Sar(v: Bits, n: nat): (r: Bits)
    requires v != []
    ensures |r| == |v|
    ensures forall i :: 0 <= i < |r| ==> r[i] == (if i + n < |v| then v[i + n] else v[|v| - 1])
  {
    seq(|v|, i requires 0 <= i < |v| => if i + n < |v| then v[i + n] else v[|v| - 1])
  }

  function And(a: Bits, b: Bits): (r: Bits)
    requires |a| == |b|
    ensures |r| == |a|
    ensures forall i :: 0 <= i < |r| ==> r[i] == (a[i] && b[i])
  {
    seq(|a|, i requires 0 <= i < |a| => a[i] && b[i])
  }

  function Or(a: Bits, b: Bits): (r: Bits)
    requires |a| == |b|
    ensures |r| == |a|
    ensures forall i :: 0 <= i < |r| ==> r[i] == (a[i] || b[i])
  {
    seq(|a|, i requires 0 <= i < |a| => a[i] || b[i])
  }

  function Not(a: Bits): (r: Bits)
    ensures |r| == |a|
    ensures forall i :: 0 <= i < |r| ==> r[i] == !a[i]
  {
    seq(|a|, i requires 0 <= i < |a| => !a[i])
  }

  /** ((1 << n) - 1) << pos */
  function Mask(w: nat, pos: nat, n: nat): (r: Bits)
    ensures |r| == w
    ensures forall i :: 0 <= i < |r| ==> r[i] == (pos <= i < pos + n)
  {
    seq(w, i => pos <= i < pos + n)
  }

  function Zero(w: nat): (r: Bits)
    ensures |r| == w
    ensures forall i :: 0 <= i < |r| ==> r[i] == false
  {
    seq(w, _ => false)
  }

  /** The low `w` bits of `v`, or `v` sign- or zero-extended. */
  function Cast(v: Bits, w: nat, unsigned: bool): (r: Bits)
    requires v != []
    ensures |r| == w
    ensures forall i :: 0 <= i < |r| ==> r[i] == (if i < |v| then v[i] else !unsigned && v[|v| - 1])
  {
    seq(w, i requires 0 <= i => if i < |v| then v[i] else !unsigned && v[|v| - 1])
  }

  // ---------------------------------------------------------------- memory as one row of bits

  function Flat(m: seq<Byte>): (r: Bits)
    ensures |r| == 8 * |m|
  {
    if m == [] then [] else m[0] + Flat(m[1..])
  }

  lemma {:induction false} FlatAt(m: seq<Byte>, a: nat, b: nat)
    requires a < |m| && b < 8
    ensures Flat(m)[8 * a + b] == m[a][b]
  {
    if a > 0 {
      FlatAt(m[1..], a - 1, b);
      assert Flat(m)[8 * a + b] == Flat(m[1..])[8 * (a - 1) + b];
    }
  }

  lemma BitOf(p: nat, n: nat) returns (a: nat, b: nat)
    requires p < 8 * n
    ensures p == 8 * a + b && b < 8 && a < n
  {
    a, b := p / 8, p % 8;
  }

  /** The value of a field: its bits, sign- or zero-extended. */
  function Field(mem: Bits, pos: nat, size: nat, w: nat, unsigned: bool): (r: Bits)
    requires 0 < size && pos + size <= |mem|
    ensures |r| == w
  {
    Cast(mem[pos..pos + size], w, unsigned)
  }

  /** Memory with the low bits of `v` in the field. */
  function Stored(mem: Bits, pos: nat, size: nat, v: Bits): (r: Bits)
    requires pos + size <= |mem| && size <= |v|
    ensures |r| == |mem|
  {
    mem[..pos] + v[..size] + mem[pos + size..]
  }

  // ---------------------------------------------------------------- what the field operations promise

  /** Reading back gives the value cut to the field's width and extended again. */
  lemma RoundTrip(mem: Bits, pos: nat, size: nat, v: Bits, w: nat, unsigned: bool)
    requires 0 < size <= |v| && pos + size <= |mem|
    ensures Field(Stored(mem, pos, size, v), pos, size, w, unsigned) == Cast(v[..size], w, unsigned)
  {
    assert Stored(mem, pos, size, v)[pos..pos + size] == v[..size];
  }

  /** A field that shares no bit keeps its value. */
  lemma OtherFieldsKept(mem: Bits, pos: nat, size: nat, v: Bits, pos': nat, size': nat, w: nat, unsigned: bool)
    requires size <= |v| && pos + size <= |mem|
    requires 0 < size' && pos' + size' <= |mem|
    requires pos + size <= pos' || pos' + size' <= pos
    ensures Field(Stored(mem, pos, size, v), pos', size', w, unsigned) == Field(mem, pos', size', w, unsigned)
  {
    assert Stored(mem, pos, size, v)[pos'..pos' + size'] == mem[pos'..pos' + size'];
  }

  lemma StoredAt(mem: Bits, pos: nat, size: nat, v: Bits, i: nat)
    requires pos + size <= |mem| && size <= |v| && i < |mem|
    ensures Stored(mem, pos, size, v)[i] == if pos <= i < pos + size then v[i - pos] else mem[i]
  {
  }

  /** Stores to fields that share no bit commute. */
  lemma StoresCommute(mem: Bits, pos: nat, size: nat, v: Bits, pos': nat, size': nat, v': Bits)
    requires size <= |v| && pos + size <= |mem|
    requires size' <= |v'| && pos' + size' <= |mem|
    requires pos + size <= pos'
    ensures Stored(Stored(mem, pos, size, v), pos', size', v') == Stored(Stored(mem, pos', size', v'), pos, size, v)
  {
    hide Stored;
    var one, two := Stored(Stored(mem, pos, size, v), pos', size', v'), Stored(Stored(mem, pos', size', v'), pos, size, v);
    forall i | 0 <= i < |mem|
      ensures one[i] == two[i]
    {
      StoredAt(mem, pos, size, v, i);
      StoredAt(mem, pos', size', v', i);
      StoredAt(Stored(mem, pos, size, v), pos', size', v', i);
      StoredAt(Stored(mem, pos', size', v'), pos, size, v, i);
    }
  }

  /** A value in range reads back unchanged exactly when it is the extension of its low bits. */
  lemma FitsExactlyWhenKept(mem: Bits, pos: nat, size: nat, v: Bits, unsigned: bool)
    requires 0 < size <= |v| && pos + size <= |mem|
    ensures Field(Stored(mem, pos, size, v), pos, size, |v|, unsigned) == v
       <==> forall i :: size <= i < |v| ==> v[i] == (!unsigned && v[size - 1])
  {
    RoundTrip(mem, pos, size, v, |v|, unsigned);
    var r := Cast(v[..size], |v|, unsigned);
    if r == v {
      forall i | size <= i < |v| ensures v[i] == (!unsigned && v[size - 1]) {
        assert r[i] == (!unsigned && v[size - 1]);
      }
    }
  }

  // ---------------------------------------------------------------- one byte of a packed field

  // A shift by 0 and a mask of all eight bits emit no operation.

  function ShrBy(v: Bits, n: nat): (r: Bits)
    ensures |r| == |v| && forall i :: 0 <= i < |r| ==> r[i] == (i + n < |v| && v[i + n])
  {
    if n > 0 then Shr(v, n) else v
  }

  function ShlBy(v: Bits, n: nat): (r: Bits)
    ensures |r| == |v| && forall i :: 0 <= i < |r| ==> r[i] == (i >= n && v[i - n])
  {
    if n > 0 then Shl(v, n) else v
  }

  function KeepLow(v: Bits, n: nat): (r: Bits)
    ensures |r| == |v| && forall i :: 0 <= i < |r| ==> r[i] == (v[i] && (i < n || n >= 8))
  {
    if n < 8 then And(v, Mask(|v|, 0, n)) else v
  }

  /** From byte `byte`, the bits [pos, pos + n) as the low bits of a `w`-bit integer, moved up by `bits`. */
  function Piece(byte: Byte, pos: nat, n: nat, bits: nat, w: nat, unsigned: bool): (r: Bits)
    requires 0 < n && pos + n <= 8 && 0 < w
    ensures |r| == w
  {
    var x := Cast(byte, 32, true);
    var z := KeepLow(ShrBy(x, pos), n);
    ShlBy(Cast(z, w, unsigned), bits)
  }

  lemma PieceIs(byte: Byte, pos: nat, n: nat, bits: nat, w: nat, unsigned: bool)
    requires 0 < n && pos + n <= 8 && w >= 32
    ensures forall i :: 0 <= i < w ==> Piece(byte, pos, n, bits, w, unsigned)[i] == (bits <= i < bits + n && byte[pos + i - bits])
  {
    hide Cast, ShrBy, ShlBy, KeepLow;
    var x := Cast(byte, 32, true);
    var y := ShrBy(x, pos);
    var z := KeepLow(y, n);
    ByteShifted(byte, pos, x, y);
    ByteKept(byte, pos, n, y, z);
    BytePlaced(byte, pos, n, z, w, unsigned);
  }

  lemma ByteShifted(byte: Byte, pos: nat, x: Bits, y: Bits)
    requires pos < 8 && x == Cast(byte, 32, true) && y == ShrBy(x, pos)
    ensures forall j :: 0 <= j < 32 ==> y[j] == (j + pos < 8 && byte[j + pos])
  {
    hide Cast, ShrBy;
  }

  lemma ByteKept(byte: Byte, pos: nat, n: nat, y: Bits, z: Bits)
    requires 0 < n && pos + n <= 8 && |y| == 32 && forall j :: 0 <= j < 32 ==> y[j] == (j + pos < 8 && byte[j + pos])
    requires z == KeepLow(y, n)
    ensures forall j :: 0 <= j < 32 ==> z[j] == (j < n && byte[pos + j])
  {
    hide KeepLow;
  }

  lemma BytePlaced(byte: Byte, pos: nat, n: nat, z: Bits, w: nat, unsigned: bool)
    requires 0 < n && pos + n <= 8 && |z| == 32 && w >= 32 && forall j :: 0 <= j < 32 ==> z[j] == (j < n && byte[pos + j])
    ensures forall i :: 0 <= i < w ==> Cast(z, w, unsigned)[i] == (i < n && byte[pos + i])
  {
    hide Cast;
    assert !z[31];
  }

  /** Byte `byte` with bits [pos, pos + n) replaced by the bits of `v` from `bits` on. */
  function Patched(byte: Byte, v: Bits, bits: nat, pos: nat, n: nat): (r: Byte)
    requires 0 < n && pos + n <= 8 && |v| >= 32
  {
    var y := ShlBy(ShrBy(v, bits), pos);
    if n == 8 then y[..8]
    else
      var m := Mask(|v|, pos, n);
      var rest := if m[7] then And(Not(m), Mask(|v|, 0, 7)) else Not(m);
      Or(And(y, m), And(Cast(byte, |v|, true), rest))[..8]
  }

  lemma PatchedIs(byte: Byte, v: Bits, bits: nat, pos: nat, n: nat)
    requires 0 < n && pos + n <= 8 && |v| >= 32 && bits + n <= |v|
    ensures forall b :: 0 <= b < 8 ==>
              Patched(byte, v, bits, pos, n)[b] == if pos <= b < pos + n then v[bits + b - pos] else byte[b]
  {
    hide Cast, ShrBy, ShlBy, And, Or, Not, Mask;
    var y := ShlBy(ShrBy(v, bits), pos);
    assert forall b :: pos <= b < pos + n ==> y[b] == v[bits + b - pos];
  }

  /** The static initialiser's byte: v >> bits << pos, cut to a byte and put in under the mask. */
  function Initialised(byte: Byte, v: Bits, bits: nat, pos: nat, n: nat): (r: Byte)
    requires 0 < n && pos + n <= 8 && |v| >= 32
  {
    var m := Mask(8, pos, n);
    Or(And(byte, Not(m)), And(Shl(Shr(v, bits), pos)[..8], m))
  }

  lemma InitialisedIs(byte: Byte, v: Bits, bits: nat, pos: nat, n: nat)
    requires 0 < n && pos + n <= 8 && |v| >= 32 && bits + n <= |v|
    ensures forall b :: 0 <= b < 8 ==>
              Initialised(byte, v, bits, pos, n)[b] == if pos <= b < pos + n then v[bits + b - pos] else byte[b]
  {
    hide Shr, Shl, And, Or, Not, Mask;
    assert forall b :: pos <= b < pos + n ==> Shl(Shr(v, bits), pos)[b] == v[bits + b - pos];
  }

  // ---------------------------------------------------------------- the byte loops

  /** The first `done` bits of the field are in place and no other bit differs. */
  ghost predicate Filled(m0: seq<Byte>, m: seq<Byte>, pos: nat, done: nat, v: Bits) {
    |m| == |m0| && done <= |v|
    && forall a, b :: 0 <= a < |m| && 0 <= b < 8 ==>
         m[a][b] == if pos <= 8 * a + b < pos + done then v[8 * a + b - pos] else m0[a][b]
  }

  lemma FilledIsStored(m0: seq<Byte>, m: seq<Byte>, pos: nat, size: nat, v: Bits)
    requires Filled(m0, m, pos, size, v) && pos + size <= 8 * |m|
    ensures Flat(m) == Stored(Flat(m0), pos, size, v)
  {
    forall p | 0 <= p < 8 * |m|
      ensures Flat(m)[p] == Stored(Flat(m0), pos, size, v)[p]
    {
      var a, b := BitOf(p, |m|);
      FlatAt(m, a, b);
      FlatAt(m0, a, b);
    }
  }

  /** One more byte, the `a`-th, with `n` bits of the field from bit `at` on. */
  lemma FillsMore(m0: seq<Byte>, m: seq<Byte>, pos: nat, done: nat, v: Bits, a: nat, at: nat, n: nat, now: Byte)
    requires Filled(m0, m, pos, done, v) && a < |m| && 8 * a + at == pos + done && at + n <= 8 && done + n <= |v|
    requires forall b :: 0 <= b < 8 ==> now[b] == if at <= b < at + n then v[done + b - at] else m[a][b]
    ensures Filled(m0, m[a := now], pos, done + n, v)
  {
  }

  method StorePacked(mem: array<Byte>, v: Bits, bitPos: nat, bitSize: nat)
    requires 0 < bitSize <= |v| && |v| in {32, 64} && bitPos + bitSize <= 8 * mem.Length
    modifies mem
    ensures Flat(mem[..]) == Stored(old(Flat(mem[..])), bitPos, bitSize, v)
  {
    var bits, left, o, at := 0, bitSize, bitPos / 8, bitPos % 8;
    ghost var m0 := mem[..];
    while left > 0
      invariant 0 <= left && 0 <= bits && bits + left == bitSize
      invariant left > 0 ==> 0 <= o && 0 <= at < 8 && 8 * o + at == bitPos + bits
      invariant Filled(m0, mem[..], bitPos, bits, v)
    {
      var n := 8 - at;
      if n > left { n := left; }
      ghost var before := mem[..];
      var now := Patched(mem[o], v, bits, at, n);
      PatchedIs(mem[o], v, bits, at, n);
      FillsMore(m0, before, bitPos, bits, v, o, at, n, now);
      mem[o] := now;
      assert mem[..] == before[o := now];
      bits, left, at, o := bits + n, left - n, 0, o + 1;
    }
    FilledIsStored(m0, mem[..], bitPos, bitSize, v);
  }

  method InitBitField(mem: array<Byte>, v: Bits, bitPos: nat, bitSize: nat)
    requires 0 < bitSize < |v| == 64 && bitPos + bitSize <= 8 * mem.Length
    modifies mem
    ensures Flat(mem[..]) == Stored(old(Flat(mem[..])), bitPos, bitSize, v)
  {
    var bits, left, p, at := 0, bitSize, bitPos / 8, bitPos % 8;
    ghost var m0 := mem[..];
    while left > 0
      invariant 0 <= left && 0 <= bits && bits + left == bitSize
      invariant left > 0 ==> 0 <= p && 0 <= at < 8 && 8 * p + at == bitPos + bits
      invariant Filled(m0, mem[..], bitPos, bits, v)
    {
      var n := 8 - at;
      if n > left { n := left; }
      ghost var before := mem[..];
      var now := Initialised(mem[p], v, bits, at, n);
      InitialisedIs(mem[p], v, bits, at, n);
      FillsMore(m0, before, bitPos, bits, v, p, at, n, now);
      mem[p] := now;
      assert mem[..] == before[p := now];
      bits, left, at, p := bits + n, left - n, 0, p + 1;
    }
    FilledIsStored(m0, mem[..], bitPos, bitSize, v);
  }

  /** The first `done` bits of the field gathered, nothing above. */
  ghost predicate Gathered(m: seq<Byte>, pos: nat, done: nat, acc: Bits)
    requires pos + done <= 8 * |m| && done <= |acc|
  {
    forall i :: 0 <= i < |acc| ==> acc[i] == (i < done && Flat(m)[pos + i])
  }

  lemma GathersMore(m: seq<Byte>, pos: nat, done: nat, acc: Bits, a: nat, at: nat, n: nat, unsigned: bool)
    requires pos + done + n <= 8 * |m| && done + n <= |acc| && |acc| >= 32
    requires Gathered(m, pos, done, acc) && a < |m| && 8 * a + at == pos + done && 0 < n && at + n <= 8
    ensures Gathered(m, pos, done + n, Or(acc, Piece(m[a], at, n, done, |acc|, unsigned)))
  {
    hide Flat, Or, Piece;
    PieceIs(m[a], at, n, done, |acc|, unsigned);
    var piece := Piece(m[a], at, n, done, |acc|, unsigned);
    var r := Or(acc, piece);
    forall i | 0 <= i < |r|
      ensures r[i] == (i < done + n && Flat(m)[pos + i])
    {
      assert r[i] == (acc[i] || piece[i]);
      if done <= i < done + n {
        FlatAt(m, a, at + i - done);
      }
    }
  }

  lemma SignExtends(acc: Bits, size: nat)
    requires 0 < size <= |acc|
    ensures Sar(Shl(acc, |acc| - size), |acc| - size) == Cast(acc[..size], |acc|, false)
  {
    hide Shl, Sar, Cast;
    var k := |acc| - size;
    var s := Shl(acc, k);
    var r, f := Sar(s, k), Cast(acc[..size], |acc|, false);
    forall i | 0 <= i < |acc|
      ensures r[i] == f[i]
    {
      if i < size {
        assert r[i] == s[i + k] && s[i + k] == acc[i];
      } else {
        assert r[i] == s[|acc| - 1] && s[|acc| - 1] == acc[size - 1];
      }
    }
  }

  lemma ZeroExtends(acc: Bits, size: nat)
    requires 0 < size <= |acc| && forall i :: size <= i < |acc| ==> !acc[i]
    ensures acc == Cast(acc[..size], |acc|, true)
  {
  }

  lemma GatheredIsField(m: seq<Byte>, pos: nat, size: nat, acc: Bits, unsigned: bool)
    requires 0 < size <= |acc| && pos + size <= 8 * |m| && Gathered(m, pos, size, acc)
    ensures Field(Flat(m), pos, size, |acc|, unsigned) == Cast(acc[..size], |acc|, unsigned)
    ensures forall i :: size <= i < |acc| ==> !acc[i]
  {
    hide Flat, Cast;
    assert acc[..size] == Flat(m)[pos..pos + size];
  }

  lemma Extends(m: seq<Byte>, pos: nat, size: nat, acc: Bits, unsigned: bool)
    requires 0 < size <= |acc| && pos + size <= 8 * |m| && Gathered(m, pos, size, acc)
    ensures (if unsigned then acc else Sar(Shl(acc, |acc| - size), |acc| - size)) == Field(Flat(m), pos, size, |acc|, unsigned)
  {
    hide Gathered, Flat, Cast, Shl, Sar, Field;
    GatheredIsField(m, pos, size, acc, unsigned);
    if unsigned { ZeroExtends(acc, size); } else { SignExtends(acc, size); }
  }

  method LoadPacked(mem: array<Byte>, bitPos: nat, bitSize: nat, w: nat, unsigned: bool) returns (v: Bits)
    requires 0 < bitSize <= w && w in {32, 64} && bitPos + bitSize <= 8 * mem.Length
    ensures v == Field(Flat(mem[..]), bitPos, bitSize, w, unsigned)
  {
    hide Flat, Piece, Gathered, Or, Sar, Shl, Field, Cast, Zero;
    ghost var m := mem[..];
    var bits, left, o, at := 0, bitSize, bitPos / 8, bitPos % 8;
    v := Zero(w);
    assert Gathered(m, bitPos, 0, v) by { NothingGathered(m, bitPos, v); }
    while left > 0
      invariant 0 <= left && 0 <= bits && bits + left == bitSize
      invariant left > 0 ==> 0 <= o && 0 <= at < 8 && 8 * o + at == bitPos + bits
      invariant |v| == w && Gathered(m, bitPos, bits, v)
    {
      var n := 8 - at;
      if n > left { n := left; }
      GathersMore(m, bitPos, bits, v, o, at, n, unsigned);
      v := Or(v, Piece(mem[o], at, n, bits, w, unsigned));
      bits, left, at, o := bits + n, left - n, 0, o + 1;
    }
    Extends(m, bitPos, bitSize, v, unsigned);
    if !unsigned {
      var n := w - bits;
      v := Sar(Shl(v, n), n);
    }
  }

  lemma NothingGathered(m: seq<Byte>, pos: nat, acc: Bits)
    requires pos <= 8 * |m| && acc == Zero(|acc|)
    ensures Gathered(m, pos, 0, acc)
  {
    assert forall i :: 0 <= i < |acc| ==> !acc[i];
  }

  // ---------------------------------------------------------------- fields inside an access unit

  /** The width of the type that the operations on an `s`-byte unit are done in. */
  function UnitWidth(s: nat): nat { if s == 8 then 64 else 32 }

  lemma FlatSlice(m: seq<Byte>, c: nat, s: nat, q: nat)
    requires c + s <= |m| && q < 8 * s
    ensures Flat(m[c..c + s])[q] == Flat(m)[8 * c + q]
  {
    hide Flat;
    var a, b := BitOf(q, s);
    FlatAt(m[c..c + s], a, b);
    FlatAt(m, c + a, b);
  }

  /** Shift the field to the top, then down again. */
  function Extracted(x: Bits, pos: nat, size: nat, unsigned: bool): (r: Bits)
    requires 0 < size && pos + size <= |x|
    ensures |r| == |x|
  {
    var top := Shl(x, |x| - (pos + size));
    if unsigned then Shr(top, |x| - size) else Sar(top, |x| - size)
  }

  lemma ExtractedIs(x: Bits, pos: nat, size: nat, unsigned: bool)
    requires 0 < size && pos + size <= |x|
    ensures Extracted(x, pos, size, unsigned) == Cast(x[pos..pos + size], |x|, unsigned)
  {
    hide Shl, Shr, Sar, Cast;
    var k := |x| - (pos + size);
    var top, r, f := Shl(x, k), Extracted(x, pos, size, unsigned), Cast(x[pos..pos + size], |x|, unsigned);
    forall i | 0 <= i < |x|
      ensures r[i] == f[i]
    {
      if i < size {
        assert top[i + |x| - size] == x[pos + i];
      } else {
        assert top[|x| - 1] == x[pos + size - 1];
      }
    }
  }

  method LoadUnit(mem: array<Byte>, c: nat, s: nat, bitPos: nat, bitSize: nat, unsigned: bool) returns (v: Bits)
    requires s in {1, 2, 4, 8} && c + s <= mem.Length && 0 < bitSize && bitPos + bitSize <= 8 * s
    ensures v == Field(Flat(mem[..]), 8 * c + bitPos, bitSize, UnitWidth(s), unsigned)
  {
    hide Flat, Cast, Extracted;
    var unit := Flat(mem[c..c + s]);
    var x := Cast(unit, UnitWidth(s), unsigned);
    v := Extracted(x, bitPos, bitSize, unsigned);
    ExtractedIs(x, bitPos, bitSize, unsigned);
    assert mem[..][c..c + s] == mem[c..c + s];
    forall i | bitPos <= i < bitPos + bitSize
      ensures x[i] == Flat(mem[..])[8 * c + i]
    {
      FlatSlice(mem[..], c, s, i);
    }
    assert x[bitPos..bitPos + bitSize] == Flat(mem[..])[8 * c + bitPos..8 * c + bitPos + bitSize];
  }

  /** The unit with the field replaced; a _Bool is 0 or 1 and needs no mask. */
  function Combined(x: Bits, v: Bits, pos: nat, size: nat, isBool: bool): (r: Bits)
    requires |x| == |v|
    ensures |r| == |x|
  {
    var src := if isBool then v else And(v, Mask(|v|, 0, size));
    Or(Shl(src, pos), And(x, Not(Mask(|v|, pos, size))))
  }

  lemma CombinedIs(x: Bits, v: Bits, pos: nat, size: nat, isBool: bool)
    requires |x| == |v| && 0 < size && pos + size <= |v|
    requires isBool ==> forall i :: 1 <= i < |v| ==> !v[i]
    ensures forall i :: 0 <= i < |x| ==> Combined(x, v, pos, size, isBool)[i] == if pos <= i < pos + size then v[i - pos] else x[i]
  {
    hide Or, And, Not, Shl, Mask;
  }

  function ByteOf(x: Bits, k: nat): Byte
    requires 8 * k + 8 <= |x|
  {
    x[8 * k..8 * k + 8]
  }

  lemma ByteOfAt(x: Bits, k: nat, b: nat)
    requires 8 * k + 8 <= |x| && b < 8
    ensures ByteOf(x, k)[b] == x[8 * k + b]
  {
  }

  /** The unit's bytes written back: the field is replaced, everything else is as before. */
  lemma UnitIsStored(m0: seq<Byte>, m: seq<Byte>, c: nat, s: nat, x: Bits, v: Bits, pos: nat, size: nat)
    requires |m| == |m0| && c + s <= |m| && 8 * s <= |x| == |v| && 0 < size && pos + size <= 8 * s
    requires forall a :: 0 <= a < |m| ==> m[a] == if c <= a < c + s then ByteOf(x, a - c) else m0[a]
    requires forall i :: 0 <= i < 8 * s ==> x[i] == if pos <= i < pos + size then v[i - pos] else Flat(m0[c..c + s])[i]
    ensures Filled(m0, m, 8 * c + pos, size, v)
  {
    hide Flat, ByteOf;
    forall a, b | 0 <= a < |m| && 0 <= b < 8
      ensures m[a][b] == if 8 * c + pos <= 8 * a + b < 8 * c + pos + size then v[8 * a + b - (8 * c + pos)] else m0[a][b]
    {
      if c <= a < c + s {
        var k := a - c;
        FlatAt(m0[c..c + s], k, b);
        ByteOfAt(x, k, b);
        assert m[a][b] == x[8 * k + b];
      }
    }
  }

  method StoreUnit(mem: array<Byte>, c: nat, s: nat, v: Bits, bitPos: nat, bitSize: nat, isBool: bool)
    requires s in {1, 2, 4, 8} && c + s <= mem.Length && 0 < bitSize && bitPos + bitSize <= 8 * s && |v| == UnitWidth(s)
    requires isBool ==> forall i :: 1 <= i < |v| ==> !v[i]
    modifies mem
    ensures Flat(mem[..]) == Stored(old(Flat(mem[..])), 8 * c + bitPos, bitSize, v)
  {
    hide Flat, Cast, Combined, ByteOf, Filled, Stored;
    ghost var m0 := mem[..];
    var unit := Flat(mem[c..c + s]);
    var x := Combined(Cast(unit, |v|, true), v, bitPos, bitSize, isBool);
    CombinedIs(Cast(unit, |v|, true), v, bitPos, bitSize, isBool);
    forall k | 0 <= k < s {
      mem[c + k] := ByteOf(x, k);
    }
    assert m0[c..c + s] == old(mem[c..c + s]);
    UnitIsStored(m0, mem[..], c, s, x, v, bitPos, bitSize);
    FilledIsStored(m0, mem[..], 8 * c + bitPos, bitSize, v);
  }
}
