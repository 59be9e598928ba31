/** Identifiers and scopes of the compiler: a stack of local symbols and, for each token, a chain of the symbols that
    shadow one another. Symbols are records in an arena and name each other by index; 0 is the null pointer. */
module Scopes {

  /** `key` is the token table's entry that the symbol is recorded under, if any: identifier or struct tag. */
  datatype Sym = Sym(key: Key, prev: nat, prevTok: nat, scope: nat)

  datatype Key = Unrecorded | Recorded(k: nat)

  /** A place on the local stack: the symbol, whether it still is in its token's chain, the place of the symbol it
      shadowed (-1 if that was global), and whether a global of its name was pushed since it left the chain. */
  datatype Local = Local(at: nat, key: Key, active: bool, link: int, stale: bool)

  /** The innermost active local of `k` below `n`, or -1. */
  function Top(st: seq<Local>, k: nat, n: nat): (i: int)
    requires n <= |st|
    ensures -1 <= i < n
    ensures i >= 0 ==> st[i].active && st[i].key == Recorded(k)
    ensures forall j :: i < j < n ==> !(st[j].active && st[j].key == Recorded(k))
  {
    if n == 0 then -1
    else if st[n - 1].active && st[n - 1].key == Recorded(k) then n - 1
    else Top(st, k, n - 1)
  }

  /** The outermost local of `k` at or above `m`, active or not, or -1. */
  function First(st: seq<Local>, k: nat, m: nat): (i: int)
    requires m <= |st|
    ensures i == -1 || m <= i < |st|
    ensures i >= 0 ==> st[i].key == Recorded(k)
    ensures forall j :: m <= j < (if i < 0 then |st| else i) ==> st[j].key != Recorded(k)
    decreases |st| - m
  {
    if m == |st| then -1 else if st[m].key == Recorded(k) then m else First(st, k, m + 1)
  }

  /** The symbol at place `i` of the stack. */
  ghost predicate PlaceOk(arena: seq<Sym>, st: seq<Local>, i: nat)
    requires i < |st|
  {
    0 < st[i].at < |arena| && arena[st[i].at].key == st[i].key && (st[i].key.Recorded? ==> arena[st[i].at].scope > 0)
    && arena[st[i].at].prevTok < |arena|
    && arena[st[i].at].prev == (if i == 0 then 0 else st[i - 1].at)
  }

  /** The local stack is threaded through the arena. */
  ghost predicate Stacked(arena: seq<Sym>, st: seq<Local>) {
    (forall i :: 0 <= i < |st| ==> PlaceOk(arena, st, i))
    && (forall i, j :: 0 <= i < j < |st| ==> st[i].at != st[j].at)
  }

  /** What a name means at `n`: its innermost active local, or the global. */
  function Means(st: seq<Local>, base: map<nat, nat>, k: nat, n: nat): nat
    requires n <= |st|
  {
    var i := Top(st, k, n);
    if i >= 0 then st[i].at else Base(base, k)
  }

  function Base(base: map<nat, nat>, k: nat): nat { if k in base then base[k] else 0 }

  function PrevTok(arena: seq<Sym>, p: nat): nat { if p < |arena| then arena[p].prevTok else 0 }

  /** An active symbol is followed by what its name meant before; so is one that has left its chain, unless a global
      was pushed since. */
  ghost predicate LinkOk(arena: seq<Sym>, st: seq<Local>, base: map<nat, nat>, i: nat)
    requires i < |st| && st[i].key.Recorded?
  {
    && -1 <= st[i].link < i
    && (st[i].link >= 0 ==> st[st[i].link].key == st[i].key && PrevTok(arena, st[i].at) == st[st[i].link].at && !st[i].stale)
    && (st[i].link < 0 ==> (PrevTok(arena, st[i].at) == Base(base, st[i].key.k) <==> !st[i].stale))
    && (st[i].active ==> !st[i].stale && st[i].link == Top(st, st[i].key.k, i))
  }

  ghost predicate Chained(arena: seq<Sym>, st: seq<Local>, base: map<nat, nat>)
  {
    forall i :: 0 <= i < |st| && st[i].key.Recorded? ==> LinkOk(arena, st, base, i)
  }

  /** Globals are records of scope 0. */
  ghost predicate Globals(arena: seq<Sym>, base: map<nat, nat>) {
    |arena| > 0 && arena[0].scope == 0 && forall k :: Base(base, k) < |arena| && arena[Base(base, k)].scope == 0
  }

  /** Above the mark of an open scope the first symbol of a name shadows what the name means below the mark. */
  ghost predicate OpenAt(st: seq<Local>, m: nat)
    requires m <= |st|
  {
    forall k :: First(st, k, m) >= 0 ==> st[First(st, k, m)].link == Top(st, k, m)
  }

  // ---------------------------------------------------------------- pushing

  lemma {:induction false} TopPush(st: seq<Local>, x: Local, k: nat, n: nat)
    requires n <= |st|
    ensures Top(st + [x], k, n) == Top(st, k, n)
  {
    if n > 0 {
      TopPush(st, x, k, n - 1);
    }
  }

  lemma {:induction false} FirstPush(st: seq<Local>, x: Local, k: nat, m: nat)
    requires m <= |st|
    ensures First(st + [x], k, m)
         == if First(st, k, m) >= 0 then First(st, k, m) else if x.key == Recorded(k) then |st| else -1
    decreases |st| - m
  {
    if m < |st| {
      FirstPush(st, x, k, m + 1);
    }
  }

  /** No symbol of the name in between: the meaning is the same at both ends. */
  lemma {:induction false} TopSkips(st: seq<Local>, k: nat, m: nat, n: nat)
    requires m <= n <= |st| && forall j :: m <= j < n ==> !(st[j].active && st[j].key == Recorded(k))
    ensures Top(st, k, n) == Top(st, k, m)
  {
    if m < n {
      TopSkips(st, k, m, n - 1);
    }
  }

  lemma {:induction false} OpenPush(st: seq<Local>, x: Local, m: nat)
    requires m <= |st| && OpenAt(st, m) && x.active && (x.key.Recorded? ==> x.link == Top(st, x.key.k, |st|))
    ensures OpenAt(st + [x], m)
  {
    forall k | First(st + [x], k, m) >= 0
      ensures (st + [x])[First(st + [x], k, m)].link == Top(st + [x], k, m)
    {
      FirstPush(st, x, k, m);
      TopPush(st, x, k, m);
      if First(st, k, m) < 0 {
        TopSkips(st, k, m, |st|);
      }
    }
  }

  lemma {:induction false} StackedPush(arena: seq<Sym>, st: seq<Local>, s: Sym, x: Local)
    requires Stacked(arena, st) && (s.key.Recorded? ==> s.scope > 0) && s.key == x.key && s.prev == (if st == [] then 0 else st[|st| - 1].at)
    requires x.at == |arena| > 0 && s.prevTok <= |arena|
    ensures Stacked(arena + [s], st + [x])
  {
    var a, t := arena + [s], st + [x];
    forall i | 0 <= i < |t|
      ensures PlaceOk(a, t, i)
    {
      if i < |st| { assert PlaceOk(arena, st, i); }
    }
    forall i, j | 0 <= i < j < |t|
      ensures t[i].at != t[j].at
    {
      assert PlaceOk(arena, st, i);
    }
  }

  /** Stacked does not depend on what a lookup needs besides. */
  lemma {:induction false} StackedSame(arena: seq<Sym>, st: seq<Local>, r: seq<Local>)
    requires Stacked(arena, st) && |r| <= |st| && forall i :: 0 <= i < |r| ==> r[i].at == st[i].at && r[i].key == st[i].key
    ensures Stacked(arena, r)
  {
    forall i | 0 <= i < |r|
      ensures PlaceOk(arena, r, i)
    {
      assert PlaceOk(arena, st, i);
    }
  }

  lemma {:induction false} LinkPush(arena: seq<Sym>, st: seq<Local>, base: map<nat, nat>, s: Sym, x: Local, i: nat)
    requires i < |st| && st[i].at < |arena| && st[i].key.Recorded? && LinkOk(arena, st, base, i)
    ensures LinkOk(arena + [s], st + [x], base, i)
  {
    TopPush(st, x, st[i].key.k, i);
  }

  lemma {:induction false} ChainedPush(arena: seq<Sym>, st: seq<Local>, base: map<nat, nat>, s: Sym, x: Local)
    requires Stacked(arena, st) && Chained(arena, st, base)
    requires (s.key.Recorded? ==> s.scope > 0) && s.key == x.key && s.prev == (if st == [] then 0 else st[|st| - 1].at)
    requires x.at == |arena| > 0 && x.active && !x.stale && s.prevTok <= |arena|
    requires s.key.Recorded? ==> x.link == Top(st, s.key.k, |st|) && s.prevTok == Means(st, base, s.key.k, |st|)
    ensures Stacked(arena + [s], st + [x]) && Chained(arena + [s], st + [x], base)
  {
    hide Top;
    StackedPush(arena, st, s, x);
    var a, t := arena + [s], st + [x];
    forall i | 0 <= i < |t| && t[i].key.Recorded?
      ensures LinkOk(a, t, base, i)
    {
      if i < |st| {
        assert PlaceOk(arena, st, i);
        LinkPush(arena, st, base, s, x, i);
      } else {
        TopPush(st, x, x.key.k, |st|);
      }
    }
  }

  // ---------------------------------------------------------------- popping

  /** The token table after the symbols from `m` up were taken off, the topmost first. */
  function Popped(arena: seq<Sym>, st: seq<Local>, ident: map<nat, nat>, m: nat, k: nat): nat
    requires m <= |st|
  {
    var i := First(st, k, m);
    if i >= 0 then PrevTok(arena, st[i].at) else Base(ident, k)
  }

  /** A name is lost when the outermost symbol of it that goes was stale. */
  predicate Lost(st: seq<Local>, m: nat, k: nat)
    requires m <= |st|
  {
    First(st, k, m) >= 0 && st[First(st, k, m)].stale
  }

  ghost predicate Heads(ident: map<nat, nat>, st: seq<Local>, base: map<nat, nat>) {
    forall k :: Base(ident, k) == Means(st, base, k, |st|)
  }

  /** Leaving a scope gives every name the meaning it has below the mark, if and only if it is not lost. */
  lemma {:induction false} PopRestores(arena: seq<Sym>, st: seq<Local>, ident: map<nat, nat>, base: map<nat, nat>, m: nat, k: nat)
    requires m <= |st| && Stacked(arena, st) && Chained(arena, st, base) && Heads(ident, st, base) && OpenAt(st, m)
    ensures Popped(arena, st, ident, m, k) == Means(st, base, k, m) <==> !Lost(st, m, k)
  {
    var i := First(st, k, m);
    if i < 0 {
      TopSkips(st, k, m, |st|);
    }
  }

  /** Where no symbol that goes has left its chain before, no name is lost. */
  lemma {:induction false} ActiveNotLost(arena: seq<Sym>, st: seq<Local>, base: map<nat, nat>, m: nat, k: nat)
    requires m <= |st| && Chained(arena, st, base) && forall i :: m <= i < |st| ==> st[i].active
    ensures !Lost(st, m, k)
  {
    var i := First(st, k, m);
    if i >= 0 {
      assert LinkOk(arena, st, base, i);
    }
  }

  lemma {:induction false} ActiveNoneLost(arena: seq<Sym>, st: seq<Local>, base: map<nat, nat>, m: nat)
    requires m <= |st| && Chained(arena, st, base) && forall i :: m <= i < |st| ==> st[i].active
    ensures forall k :: !Lost(st, m, k)
  {
    forall k
      ensures !Lost(st, m, k)
    {
      ActiveNotLost(arena, st, base, m, k);
    }
  }

  /** Places of a stack that differ in nothing that a lookup sees. */
  predicate SamePlaces(a: seq<Local>, b: seq<Local>, n: nat)
    requires n <= |a| && n <= |b|
  {
    forall i :: 0 <= i < n ==> a[i] == b[i].(stale := a[i].stale)
  }

  lemma {:induction false} SameTop(a: seq<Local>, b: seq<Local>, k: nat, n: nat)
    requires n <= |a| && n <= |b| && SamePlaces(a, b, n)
    ensures Top(a, k, n) == Top(b, k, n)
    decreases n
  {
    if n > 0 {
      SameTop(a, b, k, n - 1);
    }
  }

  lemma {:induction false} SameFirst(a: seq<Local>, b: seq<Local>, k: nat, m: nat)
    requires m <= |a| == |b| && forall i :: m <= i < |a| ==> a[i].key == b[i].key
    ensures First(a, k, m) == First(b, k, m)
    decreases |a| - m
  {
    if m < |a| {
      SameFirst(a, b, k, m + 1);
    }
  }

  /** The places from `m` up have left their chains, but stay on the stack. */
  function PutAside(st: seq<Local>, m: nat): (r: seq<Local>)
    requires m <= |st|
    ensures |r| == |st|
  {
    seq(|st|, i requires 0 <= i < |st| => if i < m then st[i] else st[i].(active := false))
  }

  lemma {:induction false} AsideKeeps(arena: seq<Sym>, st: seq<Local>, base: map<nat, nat>, m: nat, m': nat)
    requires m' <= m <= |st| && Stacked(arena, st) && Chained(arena, st, base) && OpenAt(st, m')
    ensures Stacked(arena, PutAside(st, m)) && Chained(arena, PutAside(st, m), base) && OpenAt(PutAside(st, m), m')
    ensures forall k :: Means(PutAside(st, m), base, k, |st|) == Means(st, base, k, m)
  {
    hide Top, First;
    var r := PutAside(st, m);
    assert SamePlaces(st, r, m);
    StackedSame(arena, st, r);
    forall i | 0 <= i < |r| && r[i].key.Recorded?
      ensures LinkOk(arena, r, base, i)
    {
      assert PlaceOk(arena, st, i);
      AsideLink(arena, st, base, m, i);
    }
    forall k
      ensures Means(r, base, k, |st|) == Means(st, base, k, m)
      ensures First(r, k, m') == First(st, k, m') && Top(r, k, m') == Top(st, k, m')
    {
      TopSkips(r, k, m, |st|);
      SameTop(st, r, k, m);
      SameFirst(st, r, k, m');
      SameTop(st, r, k, m');
    }
  }

  lemma {:induction false} AsideLink(arena: seq<Sym>, st: seq<Local>, base: map<nat, nat>, m: nat, i: nat)
    requires m <= |st| && i < |st| && st[i].at < |arena| && st[i].key.Recorded? && LinkOk(arena, st, base, i)
    ensures LinkOk(arena, PutAside(st, m), base, i)
  {
    hide Top;
    if i < m {
      assert SamePlaces(st, PutAside(st, m), i);
      SameTop(st, PutAside(st, m), st[i].key.k, i);
    }
  }

  lemma {:induction false} FirstCut(st: seq<Local>, k: nat, m': nat, m: nat)
    requires m' <= m <= |st|
    ensures First(st[..m], k, m') == if First(st, k, m') < m then First(st, k, m') else -1
    decreases m - m'
  {
    if m' < m {
      FirstCut(st, k, m' + 1, m);
    }
  }

  lemma {:induction false} CutKeeps(arena: seq<Sym>, st: seq<Local>, base: map<nat, nat>, m: nat, m': nat)
    requires m' <= m <= |st| && Stacked(arena, st) && Chained(arena, st, base) && OpenAt(st, m')
    ensures Stacked(arena, st[..m]) && Chained(arena, st[..m], base) && OpenAt(st[..m], m')
    ensures forall k :: Means(st[..m], base, k, m) == Means(st, base, k, m)
  {
    var r := st[..m];
    assert SamePlaces(st, r, m);
    StackedSame(arena, st, r);
    forall i | 0 <= i < |r| && r[i].key.Recorded?
      ensures LinkOk(arena, r, base, i)
    {
      assert LinkOk(arena, st, base, i);
      SameTop(st, r, st[i].key.k, i);
    }
    forall k
      ensures Means(r, base, k, m) == Means(st, base, k, m)
      ensures First(r, k, m') >= 0 ==> r[First(r, k, m')].link == Top(r, k, m')
    {
      SameTop(st, r, k, m);
      FirstCut(st, k, m', m);
      SameTop(st, r, k, m');
    }
  }

  // ---------------------------------------------------------------- pushing a global under the locals

  /** Symbols of `k` that have left their chain and pointed to the old global are stale now. */
  function MarkStale(st: seq<Local>, k: nat): (r: seq<Local>)
    ensures |r| == |st|
  {
    seq(|st|, i requires 0 <= i < |st| =>
      if !st[i].active && st[i].key == Recorded(k) && st[i].link < 0 then st[i].(stale := true) else st[i])
  }

  /** The arena with the new global at its end and, if there is an active local of `k`, the outermost one before it. */
  function Inserted(arena: seq<Sym>, st: seq<Local>, s: Sym, d: int): (r: seq<Sym>)
    requires -1 <= d < |st| && (d >= 0 ==> st[d].at < |arena|)
    ensures |r| == |arena| + 1
  {
    (if d >= 0 then arena[st[d].at := arena[st[d].at].(prevTok := |arena|)] else arena) + [s]
  }

  lemma {:induction false} InsertedLinks(arena: seq<Sym>, st: seq<Local>, base: map<nat, nat>, s: Sym, k: nat, d: int, i: nat)
    requires Stacked(arena, st) && Chained(arena, st, base) && Globals(arena, base) && i < |st| && st[i].key.Recorded?
    requires Outermost(st, k, d)
    ensures d >= 0 ==> st[d].at < |arena|
    ensures LinkOk(Inserted(arena, st, s, d), MarkStale(st, k), base[k := |arena|], i)
  {
    assert d >= 0 ==> PlaceOk(arena, st, d);
    assert PlaceOk(arena, st, i);
    var r := MarkStale(st, k);
    assert LinkOk(arena, st, base, i);
    assert SamePlaces(r, st, |st|);
    SameTop(r, st, st[i].key.k, i);
    if st[i].key == Recorded(k) && st[i].active && d >= 0 && i != d {
      assert LinkOk(arena, st, base, d);
    }
  }

  lemma {:induction false} InsertedStack(arena: seq<Sym>, st: seq<Local>, s: Sym, k: nat, d: int)
    requires Stacked(arena, st) && -1 <= d < |st| && s.prevTok <= |arena|
    ensures d >= 0 ==> st[d].at < |arena|
    ensures Stacked(Inserted(arena, st, s, d), MarkStale(st, k))
  {
    assert d >= 0 ==> PlaceOk(arena, st, d);
    var a, r := Inserted(arena, st, s, d), MarkStale(st, k);
    forall i | 0 <= i < |r|
      ensures PlaceOk(a, r, i)
    {
      assert PlaceOk(arena, st, i);
    }
  }

  lemma {:induction false} StillGlobals(arena: seq<Sym>, st: seq<Local>, base: map<nat, nat>, s: Sym, k: nat, d: int)
    requires Stacked(arena, st) && Globals(arena, base) && s.scope == 0 && -1 <= d < |st|
    ensures d >= 0 ==> st[d].at < |arena|
    ensures Globals(Inserted(arena, st, s, d), base[k := |arena|])
  {
    assert d >= 0 ==> PlaceOk(arena, st, d);
    var a, b := Inserted(arena, st, s, d), base[k := |arena|];
    forall j
      ensures Base(b, j) < |a| && a[Base(b, j)].scope == 0
    {
      assert Base(b, j) == if j == k then |arena| else Base(base, j);
    }
  }

  lemma {:induction false} InsertedHeads(st: seq<Local>, base: map<nat, nat>, ident: map<nat, nat>, k: nat, g: nat)
    requires Heads(ident, st, base)
    ensures Heads(if Top(st, k, |st|) >= 0 then ident else ident[k := g], MarkStale(st, k), base[k := g])
  {
    var r, id, b := MarkStale(st, k), if Top(st, k, |st|) >= 0 then ident else ident[k := g], base[k := g];
    assert SamePlaces(r, st, |st|);
    forall j
      ensures Base(id, j) == Means(r, b, j, |r|)
    {
      SameTop(r, st, j, |st|);
      assert Base(ident, j) == Means(st, base, j, |st|);
    }
  }

  lemma {:induction false} StaleOpen(st: seq<Local>, k: nat, m: nat)
    requires m <= |st| && OpenAt(st, m)
    ensures OpenAt(MarkStale(st, k), m)
  {
    hide Top, First;
    var r := MarkStale(st, k);
    assert SamePlaces(r, st, m);
    forall j
      ensures First(r, j, m) == First(st, j, m) && Top(r, j, m) == Top(st, j, m)
    {
      SameFirst(r, st, j, m);
      SameTop(r, st, j, m);
    }
  }

  /** The outermost active local of a name, where the new global goes. */
  ghost predicate Outermost(st: seq<Local>, k: nat, d: int) {
    if d >= 0 then d < |st| && st[d].active && st[d].key == Recorded(k) && st[d].link < 0 else d == -1 && Top(st, k, |st|) < 0
  }

  lemma {:induction false} InsertedKeeps(arena: seq<Sym>, st: seq<Local>, base: map<nat, nat>, s: Sym, k: nat, d: int)
    requires Stacked(arena, st) && Chained(arena, st, base) && Globals(arena, base) && Outermost(st, k, d) && s.prevTok <= |arena|
    ensures d >= 0 ==> st[d].at < |arena|
    ensures var a, r, b := Inserted(arena, st, s, d), MarkStale(st, k), base[k := |arena|]; Stacked(a, r) && Chained(a, r, b)
  {
    hide Top, Globals;
    InsertedStack(arena, st, s, k, d);
    var a, r, b := Inserted(arena, st, s, d), MarkStale(st, k), base[k := |arena|];
    forall i | 0 <= i < |r| && r[i].key.Recorded?
      ensures LinkOk(a, r, b, i)
    {
      InsertedLinks(arena, st, base, s, k, d, i);
    }
  }

  // ---------------------------------------------------------------- the tables

  function TopOf(st: seq<Local>, n: nat): nat
    requires n <= |st|
  {
    if n == 0 then 0 else st[n - 1].at
  }

  function ScopeOf(arena: seq<Sym>, p: nat): nat { if p < |arena| then arena[p].scope else 0 }

  /** A scope entered when the stack was `was`, with its lstk: nothing below its mark has changed since that a lookup
      sees, and the first symbol of a name above it shadows what is below. */
  ghost predicate OpenScope(st: seq<Local>, was: seq<Local>, lstk: nat) {
    |was| <= |st| && OpenAt(st, |was|) && lstk == TopOf(st, |was|) && SamePlaces(was, st, |was|)
  }

  ghost predicate Nested(entered: seq<seq<Local>>) {
    forall i, j :: 0 <= i <= j < |entered| ==> |entered[i]| <= |entered[j]|
  }

  ghost predicate Open(st: seq<Local>, entered: seq<seq<Local>>, scopes: seq<nat>) {
    |scopes| == |entered| && Nested(entered) && forall i :: 0 <= i < |scopes| ==> OpenScope(st, entered[i], scopes[i])
  }

  lemma {:induction false} OpenScopesPush(st: seq<Local>, entered: seq<seq<Local>>, scopes: seq<nat>, x: Local)
    requires Open(st, entered, scopes) && x.active && (x.key.Recorded? ==> x.link == Top(st, x.key.k, |st|))
    ensures Open(st + [x], entered, scopes)
  {
    forall i | 0 <= i < |scopes|
      ensures OpenScope(st + [x], entered[i], scopes[i])
    {
      assert OpenScope(st, entered[i], scopes[i]);
      OpenPush(st, x, |entered[i]|);
    }
  }

  lemma {:induction false} OpenScopesStale(st: seq<Local>, entered: seq<seq<Local>>, scopes: seq<nat>, k: nat)
    requires Open(st, entered, scopes)
    ensures Open(MarkStale(st, k), entered, scopes)
  {
    forall i | 0 <= i < |scopes|
      ensures OpenScope(MarkStale(st, k), entered[i], scopes[i])
    {
      assert OpenScope(st, entered[i], scopes[i]);
      StaleOpen(st, k, |entered[i]|);
    }
  }

  /** Leaving the innermost scope keeps the outer ones open. */
  lemma {:induction false} OpenScopesPop(arena: seq<Sym>, st: seq<Local>, base: map<nat, nat>, entered: seq<seq<Local>>, scopes: seq<nat>, keep: bool)
    requires Stacked(arena, st) && Chained(arena, st, base) && Open(st, entered, scopes) && scopes != []
    ensures var n := |scopes| - 1; |entered[n]| <= |st|
    ensures var n := |scopes| - 1;
            var r := if keep then PutAside(st, |entered[n]|) else st[..|entered[n]|];
            Stacked(arena, r) && Chained(arena, r, base) && Open(r, entered[..n], scopes[..n])
  {
    var n := |scopes| - 1;
    var m := |entered[n]|;
    assert OpenScope(st, entered[n], scopes[n]);
    AsideKeeps(arena, st, base, m, m);
    CutKeeps(arena, st, base, m, m);
    forall i | 0 <= i < n
      ensures OpenScope(if keep then PutAside(st, m) else st[..m], entered[i], scopes[i])
    {
      assert OpenScope(st, entered[i], scopes[i]);
      AsideKeeps(arena, st, base, m, |entered[i]|);
      CutKeeps(arena, st, base, m, |entered[i]|);
    }
  }

  class Symbols {
    var arena: seq<Sym>
    var localStack: nat
    var globalStack: nat
    /** sym_identifier and sym_struct of the token table. */
    var ident: map<nat, nat>
    var localScope: nat
    /** lstk of the open scopes. */
    var scopes: seq<nat>
    ghost var st: seq<Local>
    ghost var base: map<nat, nat>
    /** The local stack as it was when each open scope was entered. */
    ghost var entered: seq<seq<Local>>

    ghost predicate Valid()
      reads this
    {
      && Stacked(arena, st) && Chained(arena, st, base) && Globals(arena, base) && Heads(ident, st, base)
      && localStack == TopOf(st, |st|) && Open(st, entered, scopes)
    }

    /** What the token table gives for a name. */
    function Lookup(k: nat): nat
      reads this
    {
      Base(ident, k)
    }

    constructor ()
      ensures Valid() && st == [] && scopes == [] && localScope == 0
      ensures forall k :: Lookup(k) == 0
    {
      arena, localStack, globalStack := [Sym(Unrecorded, 0, 0, 0)], 0, 0;
      ident, localScope, scopes := map[], 0, [];
      st, base, entered := [], map[], [];
    }

    /** A symbol declared while a function is being compiled shadows what its name meant; `ok` unless the name was
        declared in the same scope. */
    method SymPushLocal(key: Key) returns (s: nat, ok: bool)
      requires Valid() && (key.Recorded? ==> localScope > 0)
      modifies this`arena, this`localStack, this`ident, this`st
      ensures Valid() && s == |old(arena)|
      ensures st == old(st) + [Local(s, key, true, if key.Recorded? then Top(old(st), key.k, |old(st)|) else -1, false)]
      ensures key.Recorded? ==> Lookup(key.k) == s && PrevTok(arena, s) == old(Lookup(key.k))
      ensures forall k :: key != Recorded(k) ==> Lookup(k) == old(Lookup(k))
      ensures ok == !(key.Recorded? && old(Lookup(key.k)) != 0 && ScopeOf(old(arena), old(Lookup(key.k))) == localScope)
    {
      hide Top, First, LinkOk, Open, Stacked, Chained;
      s := |arena|;
      var shadowed := if key.Recorded? then Base(ident, key.k) else 0;
      var sym := Sym(key, localStack, shadowed, if key.Recorded? then localScope else 0);
      ghost var x := Local(s, key, true, if key.Recorded? then Top(st, key.k, |st|) else -1, false);
      ok := !(key.Recorded? && shadowed != 0 && ScopeOf(arena, shadowed) == localScope);
      MeansInArena(arena, st, base, ident, key);
      ChainedPush(arena, st, base, sym, x);
      PushHeads(st, base, ident, key, x);
      GlobalsPush(arena, base, sym);
      OpenScopesPush(st, entered, scopes, x);
      arena, localStack, st := arena + [sym], s, st + [x];
      if key.Recorded? {
        ident := ident[key.k := s];
      }
    }

    /** global_identifier_push: the new global goes under the active locals of its name. Whatever a local of the name is
        in force, the name still means it; otherwise it means the new global. */
    method GlobalIdentifierPush(k: nat) returns (s: nat)
      requires Valid()
      modifies this`arena, this`globalStack, this`ident, this`st, this`base
      ensures Valid() && s == |old(arena)| && base == old(base)[k := s] && st == MarkStale(old(st), k)
      ensures Lookup(k) == if Top(old(st), k, |old(st)|) >= 0 then old(Lookup(k)) else s
      ensures forall j :: j != k ==> Lookup(j) == old(Lookup(j))
    {
      hide Top, First, LinkOk, Open, Stacked, Chained, Globals, Heads;
      s := |arena|;
      ghost var d;
      var p;
      p, d := LastLocal(k);
      var sym := Sym(Recorded(k), globalStack, if p == 0 then Base(ident, k) else PrevTok(arena, p), 0);
      InsertedKeeps(arena, st, base, sym, k, d);
      StillGlobals(arena, st, base, sym, k, d);
      InsertedHeads(st, base, ident, k, s);
      OpenScopesStale(st, entered, scopes, k);
      TopStays(st, k);
      arena := (if p == 0 then arena else arena[p := arena[p].(prevTok := s)]) + [sym];
      if p == 0 {
        ident := ident[k := s];
      }
      globalStack := s;
      st, base := MarkStale(st, k), base[k := s];
    }

    /** A symbol declared outside functions shadows the global before it. */
    method SymPushGlobal(key: Key) returns (s: nat)
      requires Valid() && localStack == 0 && localScope == 0
      modifies this`arena, this`globalStack, this`ident, this`base
      ensures Valid() && s == |old(arena)|
      ensures key.Recorded? ==> Lookup(key.k) == s && PrevTok(arena, s) == old(Lookup(key.k))
      ensures forall k :: key != Recorded(k) ==> Lookup(k) == old(Lookup(k))
    {
      EmptyStack(arena, st);
      s := |arena|;
      var sym := Sym(key, globalStack, if key.Recorded? then Base(ident, key.k) else 0, 0);
      GlobalsPush(arena, base, sym);
      if key.Recorded? {
        StillGlobals(arena, [], base, sym, key.k, -1);
        InsertedHeads([], base, ident, key.k, s);
        assert MarkStale([], key.k) == [];
        ident, base := ident[key.k := s], base[key.k := s];
      }
      arena, globalStack := arena + [sym], s;
    }

    method NewScope()
      requires Valid()
      modifies this`scopes, this`entered, this`localScope
      ensures Valid() && entered == old(entered) + [st] && scopes == old(scopes) + [localStack] && localScope == old(localScope) + 1
    {
      OpensHere(st, entered, scopes);
      scopes, entered, localScope := scopes + [localStack], entered + [st], localScope + 1;
    }

    /** sym_pop: takes the symbols above `b`, the m-th place, out of their chains from the top down. */
    method SymPop(b: nat, ghost m: nat, keep: bool)
      requires Valid() && m <= |st| && b == TopOf(st, m)
      modifies this`ident, this`localStack
      ensures forall k :: Lookup(k) == Popped(arena, st, old(ident), m, k)
      ensures localStack == if keep then old(localStack) else b
    {
      hide Open, Popped, Heads, Chained, Globals;
      ghost var p := |st|;
      var s := localStack;
      NothingPopped(arena, st, ident);
      TopsDiffer(arena, st, m, p);
      while s != b
        invariant localStack == old(localStack)
        invariant m <= p <= |st| && s == TopOf(st, p) && (s == b <==> p == m)
        invariant forall k :: Base(ident, k) == Popped(arena, st, old(ident), p, k)
        decreases p
      {
        p := p - 1;
        assert PlaceOk(arena, st, p);
        TopsDiffer(arena, st, m, p);
        PopOne(arena, st, old(ident), ident, p);
        if arena[s].key.Recorded? {
          ident := ident[arena[s].key.k := arena[s].prevTok];
        }
        s := arena[s].prev;
      }
      if !keep {
        localStack := b;
      }
    }

    /** Leaves the innermost scope; the value of a statement expression keeps its symbols on the stack. A name means
        again what it meant when the scope was entered - the same local, or else its global - if and only if it is not
        lost; if no name is, the tables are in order again. */
    method PrevScope(keep: bool)
      requires Valid() && scopes != [] && localScope > 0
      modifies this`ident, this`localStack, this`scopes, this`entered, this`localScope, this`st
      ensures var was := old(entered)[|old(entered)| - 1];
              && |was| <= |old(st)|
              && (forall k :: Lookup(k) == Means(was, base, k, |was|) <==> !Lost(old(st), |was|, k))
              && ((forall k :: !Lost(old(st), |was|, k)) ==> Valid())
              && st == if keep then PutAside(old(st), |was|) else old(st)[..|was|]
      ensures scopes == old(scopes)[..|old(scopes)| - 1] && entered == old(entered)[..|old(scopes)| - 1]
    {
      hide Top, First, Popped, Chained;
      var n := |scopes| - 1;
      ghost var was := entered[n];
      ghost var m, ident0, st0 := |was|, ident, st;
      assert OpenScope(st, was, scopes[n]);
      OpenScopesPop(arena, st, base, entered, scopes, keep);
      SymPop(scopes[n], m, keep);
      AsideKeeps(arena, st, base, m, m);
      CutKeeps(arena, st, base, m, m);
      st := if keep then PutAside(st0, m) else st0[..m];
      scopes, entered, localScope := scopes[..n], entered[..n], localScope - 1;
      forall k
        ensures Means(was, base, k, m) == Means(st0, base, k, m) == Means(st, base, k, |st|)
        ensures Lookup(k) == Means(was, base, k, m) <==> !Lost(st0, m, k)
      {
        SameTop(was, st0, k, m);
        PopRestores(arena, st0, ident0, base, m, k);
      }
    }

    /** The end of a function: all local symbols go. */
    method PopFunction()
      requires Valid() && scopes == []
      modifies this`ident, this`localStack, this`st
      ensures forall k :: Lookup(k) == Base(base, k) <==> !Lost(old(st), 0, k)
      ensures (forall k :: !Lost(old(st), 0, k)) ==> Valid()
      ensures st == [] && localStack == 0
    {
      hide Top, First, Popped, Chained;
      ghost var ident0, st0 := ident, st;
      OpenAtBottom(arena, st, base);
      SymPop(0, 0, false);
      forall k
        ensures Lookup(k) == Base(base, k) <==> !Lost(st0, 0, k)
      {
        PopRestores(arena, st0, ident0, base, 0, k);
      }
      CutKeeps(arena, st0, base, 0, 0);
      st := [];
      assert st0[..0] == [];
    }

    /** The outermost local in the chain of `k`, or 0. */
    method LastLocal(k: nat) returns (p: nat, ghost d: int)
      requires Valid()
      ensures Outermost(st, k, d) && (d >= 0 <==> Top(st, k, |st|) >= 0)
      ensures if d < 0 then p == 0 else p == st[d].at && 0 < p < |arena|
      ensures (if p == 0 then Base(ident, k) else PrevTok(arena, p)) < |arena|
    {
      p := 0;
      d := -1;
      ghost var i := Top(st, k, |st|);
      var q := Base(ident, k);
      assert q == Means(st, base, k, |st|);
      while q != 0 && ScopeOf(arena, q) > 0
        invariant -1 <= i < |st| && q == (if i >= 0 then st[i].at else Base(base, k))
        invariant i >= 0 ==> st[i].active && st[i].key == Recorded(k) && PlaceOk(arena, st, i)
        invariant (p != 0 <==> d >= 0) && (d >= 0 ==> d < |st| && p == st[d].at && st[d].active && st[d].key == Recorded(k) && st[d].link == i)
        invariant d < 0 ==> d == -1 && i == Top(st, k, |st|)
        invariant d >= 0 ==> Top(st, k, |st|) >= 0
        decreases i
      {
        assert LinkOk(arena, st, base, i);
        p, d := q, i;
        i := st[i].link;
        q := PrevTok(arena, q);
      }
      if d >= 0 {
        assert PlaceOk(arena, st, d);
      }
    }
  }

  lemma {:induction false} EmptyStack(arena: seq<Sym>, st: seq<Local>)
    requires Stacked(arena, st)
    ensures TopOf(st, |st|) == 0 <==> st == []
  {
    if st != [] {
      assert PlaceOk(arena, st, |st| - 1);
    }
  }

  lemma {:induction false} OpensHere(st: seq<Local>, entered: seq<seq<Local>>, scopes: seq<nat>)
    requires Open(st, entered, scopes)
    ensures Open(st, entered + [st], scopes + [TopOf(st, |st|)])
  {
    forall i | 0 <= i < |scopes|
      ensures |entered[i]| <= |st|
    {
      assert OpenScope(st, entered[i], scopes[i]);
    }
    assert forall k :: First(st, k, |st|) == -1;
  }

  lemma {:induction false} OpenAtBottom(arena: seq<Sym>, st: seq<Local>, base: map<nat, nat>)
    requires Chained(arena, st, base)
    ensures OpenAt(st, 0)
  {
    forall k | First(st, k, 0) >= 0
      ensures st[First(st, k, 0)].link == Top(st, k, 0)
    {
      assert LinkOk(arena, st, base, First(st, k, 0));
    }
  }

  /** A global that is lost: a statement expression declares x and ends, the same function then uses x as an undeclared
      function, so that a global x is pushed; when the function ends, x is no longer known. */
  method LosesAGlobal() returns (g: nat, found: nat)
    ensures g != 0 && found != g
  {
    var t := new Symbols();
    var s, ok := t.SymPushLocal(Unrecorded);
    t.NewScope();
    ghost var outside := t.st;
    s, ok := t.SymPushLocal(Recorded(7));
    assert t.st[1].link == -1;
    ActiveNoneLost(t.arena, t.st, t.base, 1);
    t.PrevScope(true);
    assert t.st == PutAside(outside + [Local(s, Recorded(7), true, -1, false)], 1);
    g := t.GlobalIdentifierPush(7);
    assert t.st[1].stale && t.st[0].key == Unrecorded;
    assert First(t.st, 7, 0) == 1;
    assert Base(t.base, 7) == g;
    t.PopFunction();
    found := t.Lookup(7);
  }

  lemma {:induction false} NothingPopped(arena: seq<Sym>, st: seq<Local>, ident: map<nat, nat>)
    ensures forall k :: Popped(arena, st, ident, |st|, k) == Base(ident, k)
  {
  }

  lemma {:induction false} PopOne(arena: seq<Sym>, st: seq<Local>, ident0: map<nat, nat>, ident: map<nat, nat>, p: nat)
    requires p < |st| && forall k :: Base(ident, k) == Popped(arena, st, ident0, p + 1, k)
    ensures var id := if st[p].key.Recorded? then ident[st[p].key.k := PrevTok(arena, st[p].at)] else ident;
            forall k :: Base(id, k) == Popped(arena, st, ident0, p, k)
  {
    var id := if st[p].key.Recorded? then ident[st[p].key.k := PrevTok(arena, st[p].at)] else ident;
    forall k
      ensures Base(id, k) == Popped(arena, st, ident0, p, k)
    {
      assert Base(ident, k) == Popped(arena, st, ident0, p + 1, k);
    }
  }

  lemma {:induction false} TopsDiffer(arena: seq<Sym>, st: seq<Local>, m: nat, p: nat)
    requires Stacked(arena, st) && m <= p <= |st|
    ensures TopOf(st, p) == TopOf(st, m) <==> p == m
  {
    if m < p {
      assert PlaceOk(arena, st, p - 1);
    }
  }

  lemma {:induction false} TopStays(st: seq<Local>, k: nat)
    ensures forall j :: Top(MarkStale(st, k), j, |st|) == Top(st, j, |st|)
  {
    assert SamePlaces(MarkStale(st, k), st, |st|);
    forall j
      ensures Top(MarkStale(st, k), j, |st|) == Top(st, j, |st|)
    {
      SameTop(MarkStale(st, k), st, j, |st|);
    }
  }

  lemma {:induction false} GlobalsPush(arena: seq<Sym>, base: map<nat, nat>, s: Sym)
    requires Globals(arena, base)
    ensures Globals(arena + [s], base)
  {
  }

  lemma {:induction false} MeansInArena(arena: seq<Sym>, st: seq<Local>, base: map<nat, nat>, ident: map<nat, nat>, key: Key)
    requires Stacked(arena, st) && Globals(arena, base) && Heads(ident, st, base)
    ensures key.Recorded? ==> Base(ident, key.k) == Means(st, base, key.k, |st|) < |arena|
  {
    if key.Recorded? {
      var i := Top(st, key.k, |st|);
      if i >= 0 { assert PlaceOk(arena, st, i); }
    }
  }

  lemma {:induction false} PushHeads(st: seq<Local>, base: map<nat, nat>, ident: map<nat, nat>, key: Key, x: Local)
    requires Heads(ident, st, base) && x.key == key && x.active
    ensures Heads(if key.Recorded? then ident[key.k := x.at] else ident, st + [x], base)
  {
    var id, t := if key.Recorded? then ident[key.k := x.at] else ident, st + [x];
    forall k
      ensures Base(id, k) == Means(t, base, k, |t|)
    {
      TopPush(st, x, k, |st|);
      assert Base(ident, k) == Means(st, base, k, |st|);
    }
  }
}
