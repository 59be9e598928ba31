/** The symbol section with its string table and its chained hash index, as the linker keeps them: growable
    buffers with a cursor each, updated in place. */
module SymbolSection {
  import opened SymbolTable

  /** A record of the symbol buffer: the name is an offset into the string buffer. */
  datatype Record = Record(name: nat, a: Attrs)

  // ---------------------------------------------------------------- names in the string buffer

  /** The bytes from `off` up to the first NUL, or to the end of the buffer. */
  function CStr(buf: seq<bv8>, off: nat): (s: Name)
    ensures 0 !in s
    decreases |buf| - off
  {
    if off >= |buf| || buf[off] == 0 then [] else [buf[off]] + CStr(buf, off + 1)
  }

  /** There is a NUL at or after `off`, before `end`. */
  ghost predicate Terminated(buf: seq<bv8>, off: nat, end: nat)
    requires end <= |buf|
  {
    exists p :: off <= p < end && buf[p] == 0
  }

  lemma {:induction false} CStrEnds(buf: seq<bv8>, off: nat, end: nat)
    requires end <= |buf| && Terminated(buf, off, end)
    ensures off + |CStr(buf, off)| < end && buf[off + |CStr(buf, off)|] == 0
    ensures buf[off..off + |CStr(buf, off)|] == CStr(buf, off)
    decreases end - off
  {
    if buf[off] == 0 {
      assert CStr(buf, off) == [] && buf[off..off] == [];
    } else {
      CStrEnds(buf, off + 1, end);
      var n := |CStr(buf, off + 1)|;
      assert buf[off..off + 1 + n] == [buf[off]] + buf[off + 1..off + 1 + n];
    }
  }

  /** A name depends on the buffer only up to its terminator. */
  lemma {:induction false} CStrFrame(buf: seq<bv8>, buf2: seq<bv8>, off: nat, end: nat)
    requires end <= |buf| && end <= |buf2| && Terminated(buf, off, end)
    requires forall p :: off <= p < end ==> buf[p] == buf2[p]
    ensures Terminated(buf2, off, end) && CStr(buf2, off) == CStr(buf, off)
    decreases end - off
  {
    if buf[off] != 0 {
      CStrFrame(buf, buf2, off + 1, end);
    } else {
      assert buf2[off] == 0;
    }
  }

  lemma {:induction false} CStrOf(buf: seq<bv8>, off: nat, name: Name)
    requires 0 !in name && off + |name| < |buf| && buf[off..off + |name|] == name && buf[off + |name|] == 0
    ensures CStr(buf, off) == name
    decreases |name|
  {
    if name != [] {
      assert buf[off] == name[0] && buf[off] in name;
      CStrOf(buf, off + 1, name[1..]);
    }
  }

  /** The names spelled out: what the records of a string buffer stand for. */
  ghost function Entries(rs: seq<Record>, strs: seq<bv8>): (t: Table)
    ensures |t| == |rs|
  {
    seq(|rs|, i requires 0 <= i < |rs| => Entry(CStr(strs, rs[i].name), rs[i].a))
  }

  ghost predicate NamesEnd(rs: seq<Record>, strs: seq<bv8>, nstr: nat) {
    nstr <= |strs| && forall i :: 0 <= i < |rs| ==> Terminated(strs, rs[i].name, nstr)
  }

  lemma EntriesFrame(rs: seq<Record>, strs: seq<bv8>, strs2: seq<bv8>, nstr: nat)
    requires NamesEnd(rs, strs, nstr) && nstr <= |strs2| && strs2[..nstr] == strs[..nstr]
    ensures NamesEnd(rs, strs2, nstr) && Entries(rs, strs2) == Entries(rs, strs)
  {
    forall i | 0 <= i < |rs| ensures Terminated(strs2, rs[i].name, nstr) && CStr(strs2, rs[i].name) == CStr(strs, rs[i].name) {
      forall p | rs[i].name <= p < nstr ensures strs[p] == strs2[p] {
        assert strs[..nstr][p] == strs2[..nstr][p];
      }
      CStrFrame(strs, strs2, rs[i].name, nstr);
    }
  }

  // ---------------------------------------------------------------- the hash index

  /** The ELF hash (System V gABI, chapter 5), in the 64-bit arithmetic of the host. */
  function ElfHashStep(h: bv64, c: bv8): bv64 {
    var h1 := (h << 4) + (c as bv64);
    var g := h1 & 0xf000_0000;
    (if g != 0 then h1 ^ (g >> 24) else h1) & !g
  }

  function ElfHashFrom(h: bv64, name: Name): bv64
    decreases |name|
  {
    if name == [] then h else ElfHashFrom(ElfHashStep(h, name[0]), name[1..])
  }

  function ElfHash(name: Name): nat { ElfHashFrom(0, name) as nat }

  function Bucket(name: Name, nb: nat): (b: nat)
    requires nb > 0
    ensures b < nb
  {
    ElfHash(name) % nb
  }

  /** The most recent non-local entry below `k` in bucket `b` of `nb`, or 0. */
  function Recent(t: Table, nb: nat, b: nat, k: nat): (j: nat)
    requires nb > 0 && k <= |t|
    ensures j != 0 ==> j < k && !t[j].Local() && Bucket(t[j].name, nb) == b
    ensures forall i :: (if j == 0 then 1 else j + 1) <= i < k ==> t[i].Local() || Bucket(t[i].name, nb) != b
  {
    if k <= 1 then 0
    else if !t[k - 1].Local() && Bucket(t[k - 1].name, nb) == b then k - 1
    else Recent(t, nb, b, k - 1)
  }

  /** Two tables with the same names and binding classes below `k` have the same buckets there. */
  lemma RecentAgrees(t: Table, u: Table, nb: nat, b: nat, k: nat)
    requires nb > 0 && k <= |t| && k <= |u|
    requires forall i :: 0 <= i < k ==> t[i].name == u[i].name && t[i].Local() == u[i].Local()
    ensures Recent(t, nb, b, k) == Recent(u, nb, b, k)
  {
  }

  /** The link word of entry `k`: the next older entry of its chain; locals are on no chain. */
  function Link(t: Table, nb: nat, k: nat): nat
    requires nb > 0 && k < |t|
  {
    if k == 0 || t[k].Local() then 0 else Recent(t, nb, Bucket(t[k].name, nb), k)
  }

  /** The words of a hash section: bucket count, chain count, bucket heads, links. */
  ghost predicate Shaped(hash: seq<int>, n: nat) {
    |hash| >= 2 && hash[0] > 0 && hash[1] == n && |hash| == 2 + hash[0] + n
  }

  function Head(hash: seq<int>, b: nat): int
    requires 2 + b < |hash|
  {
    hash[2 + b]
  }

  function Next(hash: seq<int>, k: nat): int
    requires |hash| > 0 && 0 <= 2 + hash[0] + k < |hash|
  {
    hash[2 + hash[0] + k]
  }

  /** The first `n` entries of `t` are threaded onto their chains. */
  ghost predicate Threaded(t: Table, hash: seq<int>, n: nat)
    requires n <= |t|
  {
    && Shaped(hash, |t|)
    && (forall b :: 0 <= b < hash[0] ==> Head(hash, b) == Recent(t, hash[0], b, n))
    && (forall k :: 0 <= k < n ==> Next(hash, k) == Link(t, hash[0], k))
  }

  ghost predicate Hashed(t: Table, hash: seq<int>) { Threaded(t, hash, |t|) }

  /** Threading entry `k`: the bucket head moves into its link word and it becomes the head. */
  function Thread(hash: seq<int>, e: Entry, k: nat): seq<int>
    requires |hash| >= 2 && hash[0] > 0 && 2 + hash[0] + k < |hash|
  {
    var h := Bucket(e.name, hash[0]);
    if e.Local() then hash[2 + hash[0] + k := 0]
    else hash[2 + hash[0] + k := hash[2 + h]][2 + h := k]
  }

  lemma RecentStep(t: Table, nb: nat, b: nat, k: nat)
    requires nb > 0 && 1 <= k < |t|
    ensures Recent(t, nb, b, k + 1) == if !t[k].Local() && Bucket(t[k].name, nb) == b then k else Recent(t, nb, b, k)
  {
    hide Bucket;
  }

  lemma ThreadStep(t: Table, hash: seq<int>, k: nat)
    requires 1 <= k < |t| && Threaded(t, hash, k)
    ensures Threaded(t, Thread(hash, t[k], k), k + 1)
  {
    hide Bucket, Recent;
    var nb, p := hash[0], Thread(hash, t[k], k);
    var h := Bucket(t[k].name, nb);
    forall b | 0 <= b < nb ensures Head(p, b) == Recent(t, nb, b, k + 1) {
      RecentStep(t, nb, b, k);
      assert Head(hash, b) == Recent(t, nb, b, k);
    }
    forall i | 0 <= i < k + 1 ensures Next(p, i) == Link(t, nb, i) {
      if i < k {
        assert Next(hash, i) == Link(t, nb, i);
      } else {
        assert Head(hash, h) == Recent(t, nb, h, k);
      }
    }
  }

  /** The section resized for `n` entries in `nb` buckets: heads and the first link zeroed, the rest as it was. */
  function Cleared(stale: seq<int>, nb: nat, n: nat): (hash: seq<int>)
    requires nb > 0 && n > 0
    ensures Shaped(hash, n) && hash[0] == nb && forall p :: 2 <= p < 3 + nb ==> hash[p] == 0
  {
    seq(2 + nb + n, p requires 0 <= p =>
      if p == 0 then nb else if p == 1 then n else if p < 3 + nb then 0 else if p < |stale| then stale[p] else 0)
  }

  lemma NothingThreaded(t: Table, hash: seq<int>)
    requires |t| >= 1 && Shaped(hash, |t|) && forall p :: 2 <= p < 3 + hash[0] ==> hash[p] == 0
    ensures Threaded(t, hash, 1)
  {
    assert Next(hash, 0) == hash[2 + hash[0]];
  }

  /** Making room for one more entry, not yet threaded. */
  lemma RoomForOne(t: Table, hash: seq<int>, e: Entry, w: int)
    requires Hashed(t, hash)
    ensures Threaded(t + [e], (hash + [w])[1 := hash[1] + 1], |t|)
  {
    hide Bucket, Recent;
    var u, nb, p := t + [e], hash[0], (hash + [w])[1 := hash[1] + 1];
    forall b | 0 <= b < nb ensures Head(p, b) == Recent(u, nb, b, |t|) {
      RecentAgrees(t, u, nb, b, |t|);
      assert Head(hash, b) == Recent(t, nb, b, |t|);
    }
    forall k | 0 <= k < |t| ensures Next(p, k) == Link(u, nb, k) {
      RecentAgrees(t, u, nb, Bucket(t[k].name, nb), k);
      assert Next(hash, k) == Link(t, nb, k);
    }
  }

  /** Patching an entry under the same name and binding class leaves the index right. */
  lemma PatchKeepsHashed(t: Table, hash: seq<int>, j: nat, e: Entry)
    requires Hashed(t, hash) && j < |t| && e.name == t[j].name && e.Local() == t[j].Local()
    ensures Hashed(t[j := e], hash)
  {
    hide Bucket, Recent;
    var u, nb := t[j := e], hash[0];
    forall b | 0 <= b < nb ensures Head(hash, b) == Recent(u, nb, b, |u|) {
      RecentAgrees(t, u, nb, b, |t|);
      assert Head(hash, b) == Recent(t, nb, b, |t|);
    }
    forall k | 0 <= k < |u| ensures Next(hash, k) == Link(u, nb, k) {
      RecentAgrees(t, u, nb, Bucket(t[k].name, nb), k);
      assert Next(hash, k) == Link(t, nb, k);
    }
  }

  lemma {:induction false} ScanSkips(t: Table, n: Name, lo: nat, hi: nat)
    requires 1 <= lo <= hi <= |t|
    requires forall i :: lo <= i < hi ==> !t[i].Named(n)
    ensures Scan(t, n, lo) == Scan(t, n, hi)
    decreases hi
  {
    if lo < hi {
      ScanSkips(t, n, lo, hi - 1);
    }
  }

  lemma ScanHit(t: Table, n: Name, j: nat)
    requires 1 <= j < |t| && t[j].Named(n)
    ensures Scan(t, n, j + 1) == j
  {
  }

  lemma ScanMiss(t: Table, n: Name, j: nat)
    requires 1 <= j < |t| && !t[j].Named(n)
    ensures Scan(t, n, j + 1) == Scan(t, n, j)
  {
  }

  /** `j` carries on the search for `n` below `k`: nothing skipped is called `n`, and `j` is on its chain. */
  ghost predicate CarriesOn(t: Table, nb: nat, n: Name, k: nat, j: int)
    requires nb > 0 && 1 <= k <= |t|
  {
    && 0 <= j < k
    && Scan(t, n, k) == Scan(t, n, if j == 0 then 1 else j + 1)
    && (j != 0 ==> !t[j].Local() && Bucket(t[j].name, nb) == Bucket(n, nb))
  }

  lemma ChainSkipsNothing(t: Table, nb: nat, n: Name, k: nat)
    requires nb > 0 && 1 <= k <= |t|
    ensures CarriesOn(t, nb, n, k, Recent(t, nb, Bucket(n, nb), k))
  {
    hide Bucket;
    var j := Recent(t, nb, Bucket(n, nb), k);
    ScanSkips(t, n, if j == 0 then 1 else j + 1, k);
  }

  lemma ChainStarts(t: Table, hash: seq<int>, n: Name)
    requires |t| >= 1 && Hashed(t, hash)
    ensures CarriesOn(t, hash[0], n, |t|, Head(hash, Bucket(n, hash[0])))
  {
    hide Bucket, Recent, CarriesOn;
    var h := Bucket(n, hash[0]);
    assert Head(hash, h) == Recent(t, hash[0], h, |t|);
    ChainSkipsNothing(t, hash[0], n, |t|);
  }

  lemma ChainContinues(t: Table, hash: seq<int>, n: Name, k: nat)
    requires Hashed(t, hash) && 1 <= k < |t| && !t[k].Local() && Bucket(t[k].name, hash[0]) == Bucket(n, hash[0])
    ensures CarriesOn(t, hash[0], n, k, Next(hash, k))
  {
    hide Bucket, Recent, CarriesOn;
    assert Next(hash, k) == Link(t, hash[0], k);
    ChainSkipsNothing(t, hash[0], n, k);
  }

  // ---------------------------------------------------------------- the section

  /** section_realloc: the capacity doubles until it suffices. */
  function Doubled(size: nat, need: nat): (r: nat)
    requires size > 0
    ensures r >= need && r >= size
    decreases need - size
  {
    if size < need then Doubled(2 * size, need) else size
  }

  function Room<T>(buf: seq<T>, need: nat, zero: T): (r: seq<T>)
    ensures |r| >= need && buf <= r
    ensures need <= |buf| ==> r == buf
  {
    if need <= |buf| then buf
    else buf + seq(Doubled(if |buf| == 0 then 1 else |buf|, need) - |buf|, _ => zero)
  }

  /** The buffer was not moved if it had the room, and nothing at or past the new cursor was written. */
  ghost predicate KeepsBeyond<T>(before: seq<T>, after: seq<T>, cursor: nat) {
    && (cursor <= |before| ==> |after| == |before|)
    && |before| <= |after|
    && forall p :: cursor <= p < |before| ==> after[p] == before[p]
  }

  /** A record appended with its name in the string buffer adds the entry it spells. */
  lemma Appended(rs: seq<Record>, strs: seq<bv8>, nstr: nat, strs2: seq<bv8>, nstr2: nat, name: Name, offset: nat, a: Attrs)
    requires NamesEnd(rs, strs, nstr) && nstr2 <= |strs2| && nstr >= 1 && strs[0] == 0 && 0 !in name
    requires nstr <= nstr2 && strs2[..nstr] == strs[..nstr]
    requires if name == [] then offset == 0 else offset == nstr && nstr2 == nstr + |name| + 1 && strs2[nstr..nstr2] == name + [0]
    ensures NamesEnd(rs + [Record(offset, a)], strs2, nstr2)
    ensures Entries(rs + [Record(offset, a)], strs2) == Entries(rs, strs) + [Entry(name, a)]
  {
    EntriesFrame(rs, strs, strs2, nstr);
    if name == [] {
      assert strs2[0] == strs2[..nstr][0] == 0;
    } else {
      var end := offset + |name|;
      assert strs2[end] == strs2[nstr..nstr2][|name|] == 0;
      assert strs2[offset..end] == strs2[nstr..nstr2][..|name|] == name;
      CStrOf(strs2, offset, name);
    }
    forall i | 0 <= i < |rs| ensures Terminated(strs2, rs[i].name, nstr2) {
      assert Terminated(strs2, rs[i].name, nstr);
    }
  }

  lemma Patched(rs: seq<Record>, strs: seq<bv8>, nstr: nat, j: nat, a: Attrs)
    requires j < |rs| && NamesEnd(rs, strs, nstr)
    ensures var rs2 := rs[j := Record(rs[j].name, a)];
            NamesEnd(rs2, strs, nstr) && Entries(rs2, strs) == Entries(rs, strs)[j := Entry(CStr(strs, rs[j].name), a)]
  {
  }

  // ---------------------------------------------------------------- the symbols of one source file

  datatype Reloc = Reloc(offset: nat, sym: nat, typ: nat, addend: int)

  /** A section; `ofSymtab` if it holds relocations against the symbol table, `start` its cursor at the file's start. */
  datatype RelocSection = RelocSection(ofSymtab: bool, start: nat, rels: seq<Reloc>) {
    ghost predicate InFile(first: nat, n: nat) {
      start <= |rels| && forall k :: start <= k < |rels| ==> first <= rels[k].sym < n
    }
  }

  function NameEnd(r: Record, strs: seq<bv8>): nat { r.name + |CStr(strs, r.name)| + 1 }

  /** The names of `rs` lie in [lo, hi) in the order of the symbols, without overlapping; offset 0 is the empty name. */
  ghost predicate Laid(rs: seq<Record>, strs: seq<bv8>, lo: nat, hi: nat) {
    && (forall i :: 0 <= i < |rs| && rs[i].name != 0 ==> lo <= rs[i].name && NameEnd(rs[i], strs) <= hi)
    && (forall i, j :: 0 <= i < j < |rs| && rs[i].name != 0 && rs[j].name != 0 ==> NameEnd(rs[i], strs) <= rs[j].name)
  }

  lemma LaidAppended(rs: seq<Record>, strs: seq<bv8>, nstr: nat, strs2: seq<bv8>, nstr2: nat, name: Name, r: Record, lo: nat)
    requires NamesEnd(rs, strs, nstr) && Laid(rs, strs, lo, nstr) && lo <= nstr <= nstr2 <= |strs2|
    requires strs2[..nstr] == strs[..nstr]
    requires if name == [] then r.name == 0 else r.name == nstr && CStr(strs2, nstr) == name && nstr2 == nstr + |name| + 1
    ensures Laid(rs + [r], strs2, lo, nstr2)
    ensures Entries(rs, strs2) == Entries(rs, strs)
  {
    EntriesFrame(rs, strs, strs2, nstr);
    forall i | 0 <= i < |rs| ensures NameEnd(rs[i], strs2) == NameEnd(rs[i], strs) {
      assert Entries(rs, strs2)[i].name == Entries(rs, strs)[i].name;
    }
  }

  /** An undefined local symbol becomes global when the file ends. */
  function GlobalisedEntry(x: Entry): Entry {
    if x.a.shndx == SHN_UNDEF && x.Local() then x.(a := x.a.(bind := STB_GLOBAL)) else x
  }

  function Globalised(file: seq<Entry>): (xs: seq<Entry>)
    ensures |xs| == |file|
  {
    seq(|file|, i requires 0 <= i < |file| => GlobalisedEntry(file[i]))
  }

  function Redirected(s: RelocSection, tr: seq<nat>, first: nat): RelocSection {
    if !s.ofSymtab then s
    else s.(rels := seq(|s.rels|, k requires 0 <= k < |s.rels| =>
      if k >= s.start && first <= s.rels[k].sym < first + |tr| then s.rels[k].(sym := tr[s.rels[k].sym - first]) else s.rels[k]))
  }

  /** The in-place argument: with the write cursor at or below the next unread name, symbol `i` still reads as it
      was written, and after its name is appended again the cursor is at or below every later name. */
  lemma ReadsOriginal(fs: seq<Record>, strs: seq<bv8>, lo: nat, hi: nat, strs2: seq<bv8>, nstr: nat, i: nat)
    requires hi <= |strs| == |strs2| && NamesEnd(fs, strs, hi) && Laid(fs, strs, lo, hi) && i < |fs|
    requires |strs| > 0 && strs[0] == 0 && strs2[0] == 0
    requires forall p :: nstr <= p < |strs| ==> strs2[p] == strs[p]
    requires forall k :: i <= k < |fs| && fs[k].name != 0 ==> nstr <= fs[k].name
    requires nstr <= hi
    ensures var s := CStr(strs2, fs[i].name);
            && s == CStr(strs, fs[i].name)
            && (var cursor := nstr + if s == [] then 0 else |s| + 1;
                && cursor <= hi
                && forall k :: i < k < |fs| && fs[k].name != 0 ==> cursor <= fs[k].name)
  {
    if fs[i].name != 0 {
      CStrFrame(strs, strs2, fs[i].name, hi);
      assert NameEnd(fs[i], strs) <= hi;
    }
  }

  lemma GlobalisedAt(fs: seq<Record>, strs: seq<bv8>)
    ensures var xs := Globalised(Entries(fs, strs));
            |xs| == |fs| && forall k :: 0 <= k < |fs| ==> xs[k] == GlobalisedEntry(Entry(CStr(strs, fs[k].name), fs[k].a))
  {
  }

  /** After a file ends each of its relocations is where it was, of the same kind, and names the entry that now
      stands for the symbol it named. */
  lemma RelocationsFollowTheirSymbols(base: Table, file: Table, s: RelocSection, first: nat, bss: nat)
    requires |base| >= 1 && Unique(base)
    requires s.ofSymtab && s.InFile(first, first + |file|)
    ensures var r := AddAll(base, Globalised(file), bss);
            var after := Redirected(s, r.indices, first);
            && |after.rels| == |s.rels| && after.rels[..s.start] == s.rels[..s.start]
            && forall k :: s.start <= k < |s.rels| ==>
                 && after.rels[k] == s.rels[k].(sym := after.rels[k].sym)
                 && Resolved(r.table, after.rels[k].sym, Globalised(file)[s.rels[k].sym - first])
  {
    hide AddAll, Find;
    RunResolves(base, Globalised(file), bss);
  }

  lemma ShapeOf(t: Table, hash: seq<int>)
    requires Hashed(t, hash)
    ensures Shaped(hash, |t|)
  {
  }

  const NO_ATTRS := Attrs(0, 0, 0, 0, 0, 0)
  const NO_RECORD := Record(0, NO_ATTRS)

  class SymbolTab {
    var syms: seq<Record>   // the symbol buffer: allocated records ...
    var nsyms: nat          // ... and how many are in use
    var strs: seq<bv8>      // the string buffer
    var nstr: nat
    var hash: seq<int>      // the words of the hash section
    var hashing: bool       // false while a file is being compiled
    var nbHashed: nat
    var firstSym: nat       // sh_offset of both buffers: where the file being compiled starts
    var firstStr: nat
    var errors: nat
    var rels: seq<RelocSection>
    const bss: nat          // section number of .bss

    ghost function Contents(): Table
      reads this
      requires nsyms <= |syms|
    {
      Entries(syms[..nsyms], strs)
    }

    ghost predicate Buffers()
      reads this
    {
      && 1 <= nsyms <= |syms| && 1 <= nstr <= |strs| && strs[0] == 0
      && NamesEnd(syms[..nsyms], strs, nstr)
    }

    /** Between files: the index is live. */
    ghost predicate Valid()
      reads this
    {
      Buffers() && hashing && Hashed(Contents(), hash)
    }

    constructor (bss: nat)
      ensures Valid() && Contents() == [Entry([], NO_ATTRS)] && errors == 0 && this.bss == bss
    {
      this.bss := bss;
      syms, nsyms, strs, nstr := [NO_RECORD], 1, [0], 1;
      hash, hashing, nbHashed := [1, 1, 0, 0], true, 0;
      firstSym, firstStr, errors, rels := 0, 0, 0, [];
      new;
      assert strs[0] == 0;
      assert Contents()[0] == Entry([], NO_ATTRS);
    }

    method PutStr(name: Name) returns (offset: nat)
      requires nstr <= |strs| && 0 !in name
      modifies this`strs, this`nstr
      ensures offset == old(nstr) && nstr == offset + |name| + 1 <= |strs|
      ensures strs[..offset] == old(strs[..nstr])
      ensures strs[offset..nstr] == name + [0]
      ensures nstr <= |old(strs)| ==> |strs| == |old(strs)|
      ensures forall p :: nstr <= p < |old(strs)| ==> strs[p] == old(strs)[p]
    {
      offset := nstr;
      strs := Room(strs, nstr + |name| + 1, 0);
      strs := strs[..nstr] + name + [0] + strs[nstr + |name| + 1..];
      nstr := nstr + |name| + 1;
    }

    /** Counts the buckets anew and threads every non-local entry onto its chain again. */
    method RebuildHash(nbNew: nat)
      requires Buffers() && (nbNew == 0 ==> |hash| >= 1 && hash[0] > 0)
      modifies this`hash
      ensures Hashed(Contents(), hash)
      ensures hash[0] == if nbNew == 0 then old(hash[0]) else nbNew
    {
      hide Bucket, ElfHash;
      ghost var t := Contents();
      hide Bucket, Recent, Link, Terminated, NamesEnd, CStr;
      var nb := if nbNew == 0 then hash[0] else nbNew;
      hash := Cleared(hash, nb, nsyms);
      NothingThreaded(t, hash);
      var i := 1;
      while i < nsyms
        invariant 1 <= i <= nsyms && Threaded(t, hash, i) && hash[0] == nb
      {
        ghost var before := hash;
        var name := CStr(strs, syms[i].name);
        assert t[i] == Entry(name, syms[i].a);
        if syms[i].a.bind != STB_LOCAL {
          var h := Bucket(name, nb);
          hash := hash[2 + nb + i := hash[2 + h]];
          hash := hash[2 + h := i];
        } else {
          hash := hash[2 + nb + i := 0];
        }
        assert hash == Thread(before, t[i], i);
        ThreadStep(t, before, i);
        i := i + 1;
      }
    }

    /** find_elf_sym follows a chain: it finds what the linear scan finds. */
    method FindSym(name: Name) returns (j: nat)
      requires Valid()
      ensures j == Find(Contents(), name)
    {
      hide Bucket, Recent, Scan, Terminated, NamesEnd, CStr;
      ghost var t := Contents();
      var nb := hash[0];
      var h := Bucket(name, nb);
      ChainStarts(t, hash, name);
      j := hash[2 + h];
      while j != 0
        invariant j < |t| && (j != 0 ==> !t[j].Local() && Bucket(t[j].name, nb) == h)
        invariant Find(t, name) == Scan(t, name, if j == 0 then 1 else j + 1)
        decreases j
      {
        assert t[j].name == CStr(strs, syms[j].name);
        if CStr(strs, syms[j].name) == name {
          ScanHit(t, name, j);
          return;
        }
        ScanMiss(t, name, j);
        ChainContinues(t, hash, name, j);
        j := hash[2 + nb + j];
      }
    }

    /** Appends a record and its name, without the index. */
    method PutRecord(name: Name, a: Attrs) returns (j: nat)
      requires Buffers() && 0 !in name
      modifies this`syms, this`nsyms, this`strs, this`nstr
      ensures Buffers() && j == old(nsyms) && nsyms == j + 1 && Contents() == old(Contents()) + [Entry(name, a)]
      ensures nstr == old(nstr) + (if name == [] then 0 else |name| + 1)
      ensures syms[..j] == old(syms[..nsyms]) && strs[..old(nstr)] == old(strs[..nstr])
      ensures syms[j].name == (if name == [] then 0 else old(nstr))
      ensures KeepsBeyond(old(syms), syms, nsyms) && KeepsBeyond(old(strs), strs, nstr)
    {
      ghost var rs, ss, n, m := syms, strs, nsyms, nstr;
      syms := Room(syms, nsyms + 1, NO_RECORD);
      j := nsyms;
      var offset := 0;
      if name != [] {
        offset := PutStr(name);
      }
      syms := syms[j := Record(offset, a)];
      nsyms := nsyms + 1;
      Appended(rs[..n], ss, m, strs, nstr, name, offset, a);
      assert syms[..nsyms] == rs[..n] + [Record(offset, a)];
      assert strs[0] == strs[..m][0];
    }

    /** put_elf_sym */
    method PutSym(name: Name, a: Attrs) returns (j: nat)
      requires Valid() && 0 !in name
      modifies this`syms, this`nsyms, this`strs, this`nstr, this`hash, this`nbHashed
      ensures Valid() && j == old(nsyms) && nsyms == j + 1 && Contents() == old(Contents()) + [Entry(name, a)]
      ensures nstr == old(nstr) + (if name == [] then 0 else |name| + 1)
      ensures KeepsBeyond(old(syms), syms, nsyms) && KeepsBeyond(old(strs), strs, nstr)
    {
      hide Bucket, Recent, Terminated, CStr, KeepsBeyond, Threaded;
      ghost var t, words := Contents(), hash;
      j := PutRecord(name, a);
      ghost var u := Contents();
      assert u[j] == Entry(name, a);
      RoomForOne(t, hash, Entry(name, a), 0);
      assert Shaped(hash, |t|) by { ShapeOf(t, hash); }
      hash := hash + [0];
      hash := hash[1 := hash[1] + 1];
      ghost var roomy := hash;
      ThreadStep(u, roomy, j);
      if a.bind != STB_LOCAL {
        var nb := hash[0];
        var h := Bucket(name, nb);
        hash := hash[2 + nb + j := hash[2 + h]];
        hash := hash[2 + h := j];
        assert hash == Thread(roomy, u[j], j);
        nbHashed := nbHashed + 1;
        if nbHashed > 2 * nb {
          RebuildHash(2 * nb);
        }
      } else {
        assert hash == Thread(roomy, u[j], j);
      }
    }

    /** The part of set_elf_sym that meets an existing entry: visibility first, then whose definition stands. */
    method MergeInto(j: nat, x: Attrs)
      requires j < |syms|
      modifies this`syms, this`errors
      ensures var (m, twice) := Merge(old(syms)[j].a, x, bss);
              && syms == old(syms)[j := Record(old(syms)[j].name, m)]
              && errors == old(errors) + if twice then 1 else 0
    {
      var e := syms[j].a;
      if e == x {
        return;
      }
      var other, patch := x.other, false;
      if e.shndx != SHN_UNDEF {
        var esymVis, symVis := e.Visibility(), x.Visibility();
        var newVis;
        if esymVis == STV_DEFAULT {
          newVis := symVis;
        } else if symVis == STV_DEFAULT {
          newVis := esymVis;
        } else {
          newVis := if esymVis < symVis then esymVis else symVis;
        }
        syms := syms[j := syms[j].(a := e.(other := e.other - e.other % 4 + newVis))];
        other := syms[j].a.other;
        if x.shndx == SHN_UNDEF {
        } else if x.bind == STB_GLOBAL && e.bind == STB_WEAK {
          patch := true;
        } else if x.bind == STB_WEAK && e.bind == STB_GLOBAL {
        } else if x.bind == STB_WEAK && e.bind == STB_WEAK {
        } else if symVis == STV_HIDDEN || symVis == STV_INTERNAL {
        } else if (e.shndx == SHN_COMMON || e.shndx == bss) && x.shndx < SHN_LORESERVE && x.shndx != bss {
          patch := true;
        } else if x.shndx == SHN_COMMON || x.shndx == bss {
        } else if syms[j].a.AsmSet() {
          patch := true;
        } else {
          errors := errors + 1;
        }
      } else {
        patch := true;
      }
      if patch {
        syms := syms[j := syms[j].(a := Attrs(x.value, x.size, x.bind, x.typ, other, x.shndx))];
      }
    }

    /** set_elf_sym: adds a symbol, or merges it into the entry its name already has, in place. */
    method SetSym(name: Name, x: Attrs) returns (j: nat)
      requires Valid() && 0 !in name
      modifies this`syms, this`nsyms, this`strs, this`nstr, this`hash, this`nbHashed, this`errors
      ensures Valid()
      ensures var d := Add(old(Contents()), name, x, bss);
              && Contents() == d.table && j == d.index
              && errors == old(errors) + if d.twice then 1 else 0
      ensures old(nsyms) <= nsyms <= old(nsyms) + 1
      ensures old(nstr) <= nstr <= old(nstr) + (if name == [] then 0 else |name| + 1)
      ensures KeepsBeyond(old(syms), syms, nsyms) && KeepsBeyond(old(strs), strs, nstr)
    {
      hide Bucket, Recent, Terminated, CStr, Threaded;
      ghost var t, rs := Contents(), syms;
      j := 0;
      if x.bind != STB_LOCAL {
        j := FindSym(name);
      }
      if j == 0 {
        j := PutSym(name, x);
        return;
      }
      assert t[j].a == syms[j].a && t[j].Named(name);
      MergeInto(j, x);
      ghost var m := Merge(rs[j].a, x, bss).0;
      Patched(rs[..nsyms], strs, nstr, j, m);
      assert syms[..nsyms] == rs[..nsyms][j := Record(rs[j].name, m)];
      PatchKeepsHashed(t, hash, j, Entry(t[j].name, m));
    }

    // ------------------------------------------------------------ one source file

    /** The entries from before the file being compiled. */
    ghost function Base(): Table
      reads this
      requires firstSym <= |syms|
    {
      Entries(syms[..firstSym], strs)
    }

    /** The entries of the file being compiled. */
    ghost function FileEntries(): Table
      reads this
      requires firstSym <= nsyms <= |syms|
    {
      Entries(syms[firstSym..nsyms], strs)
    }

    /** While a file is being compiled its symbols pile up past `firstSym`, unindexed and unmerged. */
    ghost predicate FileOpen()
      reads this
    {
      && Buffers() && !hashing && 1 <= firstSym <= nsyms && 1 <= firstStr <= nstr
      && NamesEnd(syms[..firstSym], strs, firstStr) && Hashed(Base(), hash)
      && Laid(syms[firstSym..nsyms], strs, firstStr, nstr)
      && (forall s :: 0 <= s < |rels| && rels[s].ofSymtab ==> rels[s].InFile(firstSym, nsyms))
    }

    /** tccelf_begin_file: remembers the cursors and turns the index off. */
    method BeginFile()
      requires Valid()
      requires forall s :: 0 <= s < |rels| ==> rels[s].start <= |rels[s].rels|
      modifies this`firstSym, this`firstStr, this`hashing, this`rels
      ensures FileOpen() && Base() == Contents() == old(Contents()) && FileEntries() == []
      ensures |rels| == |old(rels)|
      ensures forall s :: 0 <= s < |rels| ==> rels[s] == old(rels)[s].(start := |old(rels)[s].rels|)
    {
      hide Recent, Bucket, Threaded;
      rels := seq(|rels|, s requires 0 <= s < |rels| reads this => rels[s].(start := |rels[s].rels|));
      firstSym, firstStr := nsyms, nstr;
      hashing := false;
    }

    /** put_elf_sym with the index off. */
    method PutFileSym(name: Name, a: Attrs) returns (j: nat)
      requires FileOpen() && 0 !in name
      modifies this`syms, this`nsyms, this`strs, this`nstr
      ensures FileOpen() && j == old(nsyms) && Base() == old(Base())
      ensures FileEntries() == old(FileEntries()) + [Entry(name, a)]
    {
      hide Recent, Bucket, Threaded;
      ghost var rs, ss, n, m := syms, strs, nsyms, nstr;
      ghost var fs := syms[firstSym..nsyms];
      j := PutRecord(name, a);
      assert syms[..firstSym] == syms[..j][..firstSym] == rs[..firstSym];
      assert strs[..firstStr] == strs[..m][..firstStr] == ss[..m][..firstStr] == ss[..firstStr];
      EntriesFrame(rs[..firstSym], ss, strs, firstStr);
      assert syms[firstSym..nsyms] == fs + [syms[j]] by {
        assert syms[firstSym..j] == syms[..j][firstSym..] == rs[..n][firstSym..] == fs;
      }
      assert Entry(CStr(strs, syms[j].name), syms[j].a) == Contents()[j] == Entry(name, a);
      LaidAppended(fs, ss, m, strs, nstr, name, syms[j], firstStr);
      assert FileEntries() == Entries(fs, strs) + [Entry(name, a)];
    }

    /** A later change to the fields of one of the file's symbols; its name stays. */
    method SetFileSym(j: nat, a: Attrs)
      requires FileOpen() && firstSym <= j < nsyms
      modifies this`syms
      ensures FileOpen() && Base() == old(Base())
      ensures FileEntries() == old(FileEntries())[j - firstSym := Entry(old(FileEntries())[j - firstSym].name, a)]
    {
      hide Recent, Bucket, Threaded;
      ghost var rs := syms;
      ghost var fs := syms[firstSym..nsyms];
      syms := syms[j := syms[j].(a := a)];
      assert syms[..firstSym] == rs[..firstSym];
      assert syms[..nsyms] == rs[..nsyms][j := Record(rs[j].name, a)];
      assert syms[firstSym..nsyms] == fs[j - firstSym := Record(rs[j].name, a)];
    }

    /** put_elf_reloca: a relocation against a symbol of the file. */
    method PutReloc(s: nat, r: Reloc)
      requires FileOpen() && s < |rels| && rels[s].ofSymtab && firstSym <= r.sym < nsyms
      modifies this`rels
      ensures FileOpen() && Base() == old(Base()) && FileEntries() == old(FileEntries())
      ensures rels == old(rels)[s := old(rels)[s].(rels := old(rels)[s].rels + [r])]
    {
      hide Recent, Bucket, Threaded;
      rels := rels[s := rels[s].(rels := rels[s].rels + [r])];
    }

    /** What is still unread of the file past the cursors: its records from `i` on, and every name from there on,
        in the buffers `fs` and `ss` held when the file ended. */
    ghost predicate Unread(fs: seq<Record>, ss: seq<bv8>, hi: nat, i: nat)
      reads this
      requires i <= |fs|
    {
      && nsyms <= firstSym + i && firstSym + |fs| <= |syms|
      && (forall k :: i <= k < |fs| ==> syms[firstSym + k] == fs[k])
      && nstr <= hi <= |strs| == |ss| && (forall p :: nstr <= p < |ss| ==> strs[p] == ss[p])
      && (forall k :: i <= k < |fs| && fs[k].name != 0 ==> nstr <= fs[k].name)
      && NamesEnd(fs, ss, hi) && Laid(fs, ss, firstStr, hi) && |ss| > 0 && ss[0] == 0
    }

    lemma UnreadFits(fs: seq<Record>, ss: seq<bv8>, hi: nat, i: nat)
      requires i <= |fs| && Unread(fs, ss, hi, i)
      ensures |strs| == |ss|
    {
    }

    /** One turn of the replay: reads symbol `i` of the file out of the buffers and adds it through them. */
    method ReplaySym(i: nat, ghost fs: seq<Record>, ghost ss: seq<bv8>, ghost hi: nat) returns (j: nat)
      requires Valid() && i < |fs| && Unread(fs, ss, hi, i)
      modifies this`syms, this`nsyms, this`strs, this`nstr, this`hash, this`nbHashed, this`errors
      ensures Valid() && Unread(fs, ss, hi, i + 1) && |syms| == |old(syms)|
      ensures var x := GlobalisedEntry(Entry(CStr(ss, fs[i].name), fs[i].a));
              var d := Add(old(Contents()), x.name, x.a, bss);
              Contents() == d.table && j == d.index && errors == old(errors) + if d.twice then 1 else 0
    {
      hide Recent, Bucket, Threaded, Terminated, Add;
      ReadsOriginal(fs, ss, firstStr, hi, strs, nstr, i);
      var sym := Globalise(firstSym + i);
      j := SetSym(CStr(strs, sym.name), sym.a);
    }

    /** An undefined local symbol of a file becomes global, in place. */
    method Globalise(k: nat) returns (sym: Record)
      requires Valid() && nsyms <= k < |syms|
      modifies this`syms
      ensures Valid() && Contents() == old(Contents()) && syms == old(syms)[k := sym]
      ensures sym.name == old(syms[k].name) && Entry([], sym.a) == GlobalisedEntry(Entry([], old(syms[k].a)))
    {
      ghost var rs := syms[..nsyms];
      if syms[k].a.shndx == SHN_UNDEF && syms[k].a.bind == STB_LOCAL {
        syms := syms[k := syms[k].(a := syms[k].a.(bind := STB_GLOBAL))];
      }
      assert syms[..nsyms] == rs;
      sym := syms[k];
    }

    /** The relocation loop of tccelf_end_file: in place, section by section. */
    method RedirectRelocs(tr: seq<nat>)
      requires forall s :: 0 <= s < |rels| && rels[s].ofSymtab ==> rels[s].InFile(firstSym, firstSym + |tr|)
      modifies this`rels
      ensures |rels| == |old(rels)|
      ensures forall s :: 0 <= s < |rels| ==> rels[s] == Redirected(old(rels)[s], tr, firstSym)
    {
      var s := 0;
      while s < |rels|
        invariant 0 <= s <= |rels| == |old(rels)|
        invariant forall q :: 0 <= q < s ==> rels[q] == Redirected(old(rels)[q], tr, firstSym)
        invariant forall q :: s <= q < |rels| ==> rels[q] == old(rels)[q]
      {
        if rels[s].ofSymtab {
          var rs, k := rels[s].rels, rels[s].start;
          ghost var done := Redirected(rels[s], tr, firstSym).rels;
          while k < |rs|
            invariant rels[s].start <= k <= |rs| == |done|
            invariant forall q :: 0 <= q < k ==> rs[q] == done[q]
            invariant forall q :: k <= q < |rs| ==> rs[q] == rels[s].rels[q]
          {
            rs := rs[k := rs[k].(sym := tr[rs[k].sym - firstSym])];
            k := k + 1;
          }
          assert rs == done;
          rels := rels[s := rels[s].(rels := rs)];
        }
        s := s + 1;
      }
    }

    /** The replay loop. */
    method ReplayFile(nbSyms: nat, ghost fs: seq<Record>, ghost ss: seq<bv8>, ghost hi: nat) returns (tr: seq<nat>)
      requires Valid() && nbSyms == |fs| && Unread(fs, ss, hi, 0)
      modifies this`syms, this`nsyms, this`strs, this`nstr, this`hash, this`nbHashed, this`errors
      ensures Valid() && |syms| == |old(syms)| && |strs| == |ss|
      ensures var r := AddAll(old(Contents()), Globalised(Entries(fs, ss)), bss);
              Contents() == r.table && tr == r.indices && errors == old(errors) + r.errors
    {
      hide Recent, Bucket, Threaded, Terminated, NamesEnd, AddAll, Add, Globalised, GlobalisedEntry, Entries, Unread;
      ghost var base, xs := Contents(), Globalised(Entries(fs, ss));
      assert |xs| == |fs| && forall k :: 0 <= k < |fs| ==> xs[k] == GlobalisedEntry(Entry(CStr(ss, fs[k].name), fs[k].a)) by {
        GlobalisedAt(fs, ss);
      }
      AddAllNothing(base, bss);
      assert xs[..0] == [];
      tr := [];
      var i := 0;
      while i < nbSyms
        invariant 0 <= i <= nbSyms && Valid() && Unread(fs, ss, hi, i) && |syms| == |old(syms)|
        invariant Contents() == AddAll(base, xs[..i], bss).table
        invariant tr == AddAll(base, xs[..i], bss).indices
        invariant errors == old(errors) + AddAll(base, xs[..i], bss).errors
      {
        AddAllStep(base, xs, i, bss);
        var j := ReplaySym(i, fs, ss, hi);
        tr := tr + [j];
        i := i + 1;
      }
      assert xs[..nbSyms] == xs;
      UnreadFits(fs, ss, hi, nbSyms);
    }

    /** tccelf_end_file: both cursors go back to where the file started, and the file's symbols - still in the
        buffers, past the cursors - are added one by one through set_elf_sym, which writes into the same
        buffers.  Relocations of the file are redirected to the entries the symbols went to. */
    method EndFile() returns (tr: seq<nat>)
      requires FileOpen()
      modifies this
      ensures Valid()
      ensures var r := AddAll(old(Base()), Globalised(old(FileEntries())), bss);
              Contents() == r.table && tr == r.indices && errors == old(errors) + r.errors
      ensures |syms| == |old(syms)| && |strs| == |old(strs)|
      ensures |rels| == |old(rels)|
      ensures forall s :: 0 <= s < |rels| ==> rels[s] == Redirected(old(rels)[s], tr, old(firstSym))
    {
      hide Recent, Bucket, Threaded, Terminated, AddAll;
      ghost var ss, hi, fs := strs, nstr, syms[firstSym..nsyms];
      var nbSyms := nsyms - firstSym;
      nsyms, nstr, hashing := firstSym, firstStr, true;
      tr := ReplayFile(nbSyms, fs, ss, hi);
      RedirectRelocs(tr);
    }
  }
}
