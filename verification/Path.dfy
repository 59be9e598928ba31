/** Path names of the kernel: resolving a path against the working directory, in a buffer of 128 bytes. A C string is
    the sequence of its characters without the final NUL. */
module Path {

  const PATH_MAX_LOCAL := 128

  type Name = seq<char>

  // ---------------------------------------------------------------- components

  /** The characters up to the next slash. */
  function First(s: seq<char>): (c: Name)
    ensures |c| <= |s| && c == s[..|c|]
    ensures forall k :: 0 <= k < |c| ==> c[k] != '/'
    ensures |c| < |s| ==> s[|c|] == '/'
  {
    if s == [] || s[0] == '/' then [] else [s[0]] + First(s[1..])
  }

  /** The names between slashes, empty ones left out. */
  function Components(s: seq<char>): seq<Name>
    decreases |s|
  {
    if s == [] then []
    else if s[0] == '/' then Components(s[1..])
    else [First(s)] + Components(s[|First(s)|..])
  }

  lemma FirstNonEmpty(s: seq<char>)
    requires s != [] && s[0] != '/'
    ensures First(s) != []
  {
  }

  /** A directory is the list of names that leads to it from the root. */
  function Enter(dir: seq<Name>, name: Name): seq<Name> {
    if name == "." then dir
    else if name == ".." then (if dir == [] then [] else dir[..|dir| - 1])
    else dir + [name]
  }

  function EnterAll(dir: seq<Name>, names: seq<Name>): seq<Name>
    decreases |names|
  {
    if names == [] then dir else EnterAll(Enter(dir, names[0]), names[1..])
  }

  predicate IsName(n: Name) { n != "" && n != "." && n != ".." && forall k :: 0 <= k < |n| ==> n[k] != '/' && n[k] != '\0' }

  predicate Canonical(dir: seq<Name>) { forall i :: 0 <= i < |dir| ==> IsName(dir[i]) }

  /** The directory as text, without a leading slash. */
  function Text(dir: seq<Name>): seq<char> {
    if dir == [] then []
    else if |dir| == 1 then dir[0]
    else Text(dir[..|dir| - 1]) + "/" + dir[|dir| - 1]
  }

  // ---------------------------------------------------------------- the same on text, cut off at the buffer's end

  function DropName(s: seq<char>): (r: seq<char>)
    ensures |r| <= |s| && r == s[..|r|] && (r == [] || r[|r| - 1] == '/')
  {
    if s == [] || s[|s| - 1] == '/' then s else DropName(s[..|s| - 1])
  }

  function Up(s: seq<char>): seq<char> {
    var d := DropName(s);
    if d == [] then [] else d[..|d| - 1]
  }

  function Clip(s: seq<char>): (r: seq<char>)
    ensures |r| < PATH_MAX_LOCAL
  {
    if |s| < PATH_MAX_LOCAL then s else s[..PATH_MAX_LOCAL - 1]
  }

  function Step(s: seq<char>, name: Name): seq<char> {
    if name == "." then s
    else if name == ".." then Up(s)
    else Clip(if s == [] then name else s + "/" + name)
  }

  function Walk(s: seq<char>, names: seq<Name>): seq<char>
    decreases |names|
  {
    if names == [] then s else Walk(Step(s, names[0]), names[1..])
  }

  function StartText(input: seq<char>, base: seq<char>): seq<char> {
    if input != [] && input[0] == '/' then []
    else Clip(if base != [] && base[0] == '/' then base[1..] else base)
  }

  /** What resolve_path leaves in the buffer, for every input and base. */
  function Resolved(input: seq<char>, base: seq<char>): seq<char> { Walk(StartText(input, base), Components(input)) }

  // ---------------------------------------------------------------- text and directory agree

  lemma {:induction false} DropNameOf(s: seq<char>, name: Name)
    requires forall k :: 0 <= k < |name| ==> name[k] != '/'
    requires s == [] || s[|s| - 1] == '/'
    ensures DropName(s + name) == s
  {
    if name == [] {
      assert s + name == s;
    } else {
      assert (s + name)[..|s + name| - 1] == s + name[..|name| - 1];
      DropNameOf(s, name[..|name| - 1]);
    }
  }

  lemma TextNonEmpty(dir: seq<Name>)
    requires Canonical(dir)
    ensures Text(dir) == [] <==> dir == []
  {
  }

  lemma UpIsParent(dir: seq<Name>)
    requires Canonical(dir) && dir != []
    ensures Up(Text(dir)) == Text(dir[..|dir| - 1])
  {
    var last := dir[|dir| - 1];
    assert IsName(last);
    if |dir| == 1 {
      assert [] + last == last;
      DropNameOf([], last);
    } else {
      DropNameOf(Text(dir[..|dir| - 1]) + "/", last);
    }
  }

  lemma EnterCanonical(dir: seq<Name>, name: Name)
    requires Canonical(dir) && name != "" && (forall k :: 0 <= k < |name| ==> name[k] != '/' && name[k] != '\0')
    ensures Canonical(Enter(dir, name))
  {
  }

  /** One name: the text follows the directory as long as it fits. */
  lemma StepFollows(dir: seq<Name>, name: Name)
    requires Canonical(dir) && name != "" && |Text(Enter(dir, name))| < PATH_MAX_LOCAL
    ensures Step(Text(dir), name) == Text(Enter(dir, name))
  {
    TextNonEmpty(dir);
    if name == ".." {
      if dir != [] { UpIsParent(dir); }
    } else if name != "." {
      assert (dir + [name])[..|dir|] == dir;
    }
  }

  /** Nothing is cut off: every directory on the way fits in the buffer. */
  predicate Fits(dir: seq<Name>, names: seq<Name>)
    decreases |names|
  {
    |Text(dir)| < PATH_MAX_LOCAL && (names != [] ==> Fits(Enter(dir, names[0]), names[1..]))
  }

  predicate Proper(names: seq<Name>) {
    forall i :: 0 <= i < |names| ==> names[i] != "" && forall k :: 0 <= k < |names[i]| ==> names[i][k] != '/' && names[i][k] != '\0'
  }

  lemma {:induction false} WalkFollows(dir: seq<Name>, names: seq<Name>)
    requires Canonical(dir) && Proper(names) && Fits(dir, names)
    ensures Walk(Text(dir), names) == Text(EnterAll(dir, names)) && Canonical(EnterAll(dir, names))
    decreases |names|
  {
    if names != [] {
      EnterCanonical(dir, names[0]);
      StepFollows(dir, names[0]);
      WalkFollows(Enter(dir, names[0]), names[1..]);
    }
  }

  predicate NoNul(s: seq<char>) { forall k :: 0 <= k < |s| ==> s[k] != '\0' }

  lemma {:induction false} ComponentsProper(s: seq<char>)
    requires NoNul(s)
    ensures Proper(Components(s))
    decreases |s|
  {
    if s != [] {
      if s[0] == '/' {
        ComponentsProper(s[1..]);
      } else {
        FirstNonEmpty(s);
        ComponentsProper(s[|First(s)|..]);
      }
    }
  }

  // ---------------------------------------------------------------- what the dots mean

  /** A name goes down, two dots undo that and stay at the root, and one dot stays. */
  lemma DotsMean(dir: seq<Name>, n: Name)
    requires IsName(n)
    ensures EnterAll(dir, [n]) == dir + [n]
    ensures EnterAll(dir, [n, ".."]) == dir && EnterAll([], [".."]) == []
    ensures EnterAll(dir, ["."]) == dir
  {
    assert [n, ".."][1..] == [".."] && [".."][1..] == [] && ["."][1..] == [] && [n][1..] == [];
    assert Enter(dir, n) == dir + [n] && (dir + [n])[..|dir|] == dir;
    assert EnterAll(dir, [n]) == EnterAll(Enter(dir, n), []);
    assert EnterAll(dir, [n, ".."]) == EnterAll(dir + [n], [".."]) == EnterAll(Enter(dir + [n], ".."), []);
    assert EnterAll([], [".."]) == EnterAll(Enter([], ".."), []);
    assert EnterAll(dir, ["."]) == EnterAll(Enter(dir, "."), []);
  }

  /** A component by itself. */
  lemma OneComponent(n: Name)
    requires n != "" && forall k :: 0 <= k < |n| ==> n[k] != '/'
    ensures Components(n) == [n]
  {
    FirstIsAll(n);
    assert n[|n|..] == [];
  }

  /** The same on paths: a/n/.. names what a names, and so does a/. */
  lemma UpUndoesDown(a: seq<char>, n: Name, cwd: seq<Name>)
    requires a != [] && IsName(n)
    ensures Destination(a + "/" + n, cwd) == Destination(a, cwd) + [n]
    ensures Destination(a + "/" + n + "/..", cwd) == Destination(a, cwd)
    ensures Destination(a + "/.", cwd) == Destination(a, cwd)
    ensures Components(a + "/" + n + "/..") == Components(a) + [n, ".."]
  {
    hide Components, EnterAll;
    var dir := Destination(a, cwd);
    DotsMean(dir, n);
    OneComponent(n);
    OneComponent("..");
    OneComponent(".");
    ComponentsOfJoin(a, n);
    ComponentsOfJoin(a + "/" + n, "..");
    ComponentsOfJoin(a, ".");
    assert a + "/" + n + "/.." == (a + "/" + n) + "/" + ".." && a + "/." == a + "/" + ".";
    assert (a + "/" + n)[0] == a[0] && (a + "/" + n + "/..")[0] == a[0] && (a + "/.")[0] == a[0];
    assert Components(a) + [n] + [".."] == Components(a) + [n, ".."];
    EnterAllSplits(Start(a, cwd), Components(a), [n]);
    EnterAllSplits(Start(a, cwd), Components(a), [n, ".."]);
    EnterAllSplits(Start(a, cwd), Components(a), ["."]);
  }

  /** ... and so in the buffer, when nothing is cut off; from the root two dots lead nowhere. */
  lemma ResolvingUp(a: seq<char>, n: Name, cwd: seq<Name>)
    requires a != [] && NoNul(a) && IsName(n) && Canonical(cwd) && Fits(Start(a, cwd), Components(a) + [n, ".."])
    ensures Resolved(a + "/" + n + "/..", "/" + Text(cwd)) == Resolved(a, "/" + Text(cwd))
    ensures Resolved("..", "/") == Resolved("/..", "/" + Text(cwd)) == ""
  {
    hide Components, EnterAll, Walk, Text;
    UpUndoesDown(a, n, cwd);
    FitsSplits(Start(a, cwd), Components(a), [n, ".."]);
    assert (a + "/" + n + "/..")[0] == a[0];
    JoinedNoNul(a, n);
    JoinedNoNul(a + "/" + n, "..");
    assert a + "/" + n + "/.." == (a + "/" + n) + "/" + "..";
    ResolvesToDestination(a, cwd);
    ResolvesToDestination(a + "/" + n + "/..", cwd);
    UpAtRoot(cwd);
  }

  lemma UpAtRoot(cwd: seq<Name>)
    ensures Resolved("..", "/") == Resolved("/..", "/" + Text(cwd)) == ""
  {
    hide Text;
    OneComponent("..");
    SkipSlash("/..");
    assert "/.."[1..] == ".." && "/"[1..] == "" && [".."][1..] == [];
    assert Walk("", [".."]) == Walk(Step("", ".."), []);
  }

  function Start(input: seq<char>, cwd: seq<Name>): seq<Name> { if input != [] && input[0] == '/' then [] else cwd }

  /** The directory that a path names. */
  function Destination(input: seq<char>, cwd: seq<Name>): seq<Name> { EnterAll(Start(input, cwd), Components(input)) }

  /** Resolving a path against a canonical working directory gives the text of the directory it names, unless something
      on the way is cut off. */
  lemma ResolvesToDestination(input: seq<char>, cwd: seq<Name>)
    requires NoNul(input) && Canonical(cwd) && Fits(Start(input, cwd), Components(input))
    ensures Resolved(input, "/" + Text(cwd)) == Text(Destination(input, cwd))
    ensures Canonical(Destination(input, cwd))
  {
    ComponentsProper(input);
    WalkFollows(Start(input, cwd), Components(input));
    assert ("/" + Text(cwd))[1..] == Text(cwd);
  }

  lemma {:induction false} FirstOfJoin(a: seq<char>, b: seq<char>)
    ensures First(a + "/" + b) == First(a)
  {
    if a != [] && a[0] != '/' {
      assert (a + "/" + b)[1..] == a[1..] + "/" + b;
      FirstOfJoin(a[1..], b);
    }
  }

  /** The components of a/b are those of a, then those of b. */
  lemma {:induction false} ComponentsOfJoin(a: seq<char>, b: seq<char>)
    ensures Components(a + "/" + b) == Components(a) + Components(b)
    decreases |a|
  {
    var s := a + "/" + b;
    if a == [] {
      assert s[1..] == b;
    } else if a[0] == '/' {
      assert s[1..] == a[1..] + "/" + b;
      ComponentsOfJoin(a[1..], b);
    } else {
      FirstOfJoin(a, b);
      FirstNonEmpty(a);
      var n := |First(a)|;
      assert s[n..] == a[n..] + "/" + b;
      ComponentsOfJoin(a[n..], b);
      assert [First(a)] + (Components(a[n..]) + Components(b)) == Components(a) + Components(b);
    }
  }

  lemma {:induction false} EnterAllSplits(dir: seq<Name>, a: seq<Name>, b: seq<Name>)
    ensures EnterAll(dir, a + b) == EnterAll(EnterAll(dir, a), b)
    decreases |a|
  {
    if a == [] {
      assert a + b == b;
    } else {
      assert (a + b)[1..] == a[1..] + b;
      EnterAllSplits(Enter(dir, a[0]), a[1..], b);
    }
  }

  /** Changing directory to a and then naming b is naming a/b. */
  lemma ChangingIsJoining(a: seq<char>, b: seq<char>, cwd: seq<Name>)
    requires a != [] && (b == [] || b[0] != '/')
    ensures Destination(b, Destination(a, cwd)) == Destination(a + "/" + b, cwd)
  {
    ComponentsOfJoin(a, b);
    EnterAllSplits(Start(a, cwd), Components(a), Components(b));
  }

  lemma FirstIsAll(n: Name)
    requires forall k :: 0 <= k < |n| ==> n[k] != '/'
    ensures First(n) == n
  {
  }

  /** The text of a directory has exactly the directory's names as components: no dots, no empty names. */
  lemma {:induction false} TextReadsBack(dir: seq<Name>)
    requires Canonical(dir)
    ensures Components(Text(dir)) == dir
  {
    if |dir| == 1 {
      assert IsName(dir[0]);
      FirstIsAll(dir[0]);
      assert dir[0][|dir[0]|..] == [];
      assert dir == [dir[0]];
    } else if dir != [] {
      var init, last := dir[..|dir| - 1], dir[|dir| - 1];
      TextReadsBack(init);
      ComponentsOfJoin(Text(init), last);
      assert IsName(last);
      FirstIsAll(last);
      assert last[|last|..] == [];
      assert dir == init + [last];
    }
  }

  lemma TextStart(dir: seq<Name>)
    requires Canonical(dir) && dir != []
    ensures Text(dir) != [] && Text(dir)[0] != '/' && Text(dir)[|Text(dir)| - 1] != '/'
  {
    assert IsName(dir[|dir| - 1]);
    assert IsName(dir[0]);
  }

  lemma {:induction false} EnterAllNames(dir: seq<Name>, names: seq<Name>)
    requires Canonical(names)
    ensures EnterAll(dir, names) == dir + names
    decreases |names|
  {
    if names != [] {
      assert IsName(names[0]);
      EnterAllNames(dir + [names[0]], names[1..]);
      assert dir + [names[0]] + names[1..] == dir + names;
    }
  }

  /** Resolving is idempotent: a resolved path, made absolute, names the same directory. */
  lemma ResolvedStays(dir: seq<Name>, cwd: seq<Name>)
    requires Canonical(dir)
    ensures Destination("/" + Text(dir), cwd) == dir
  {
    assert "/" + Text(dir) == [] + "/" + Text(dir);
    ComponentsOfJoin([], Text(dir));
    TextReadsBack(dir);
    EnterAllNames([], dir);
  }

  lemma {:induction false} FitsSplits(dir: seq<Name>, a: seq<Name>, b: seq<Name>)
    ensures Fits(dir, a + b) <==> Fits(dir, a) && Fits(EnterAll(dir, a), b)
    decreases |a|
  {
    if a == [] {
      assert a + b == b;
    } else {
      assert (a + b)[1..] == a[1..] + b;
      FitsSplits(Enter(dir, a[0]), a[1..], b);
    }
  }

  lemma JoinedNoNul(a: seq<char>, b: seq<char>)
    requires NoNul(a) && NoNul(b)
    ensures NoNul(a + "/" + b)
  {
  }

  /** Resolving b after changing to a is resolving a/b at once, when nothing is cut off. */
  lemma ChangeThenResolve(a: seq<char>, b: seq<char>, cwd: seq<Name>)
    requires NoNul(a) && NoNul(b) && Canonical(cwd) && a != [] && (b == [] || b[0] != '/')
    requires Fits(Start(a, cwd), Components(a + "/" + b))
    ensures Resolved(b, "/" + Resolved(a, "/" + Text(cwd))) == Resolved(a + "/" + b, "/" + Text(cwd))
  {
    hide Components, Fits, Text, Resolved, NoNul, Canonical, EnterAll;
    assert NoNul(a + "/" + b) by { JoinedNoNul(a, b); }
    assert (a + "/" + b)[0] == a[0];
    ComponentsOfJoin(a, b);
    FitsSplits(Start(a, cwd), Components(a), Components(b));
    ResolvesToDestination(a, cwd);
    ResolvesToDestination(b, Destination(a, cwd));
    ResolvesToDestination(a + "/" + b, cwd);
    ChangingIsJoining(a, b, cwd);
  }

  // ---------------------------------------------------------------- the buffer

  lemma SkipSlash(s: seq<char>)
    requires s != [] && s[0] == '/'
    ensures Components(s) == Components(s[1..])
  {
  }

  lemma NextName(s: seq<char>, name: Name, rest: seq<char>)
    requires s == name + rest && First(s) == name && name != []
    ensures Components(s) == [name] + Components(rest)
  {
    assert s[|name|..] == rest;
    assert s[0] == name[0];
  }

  lemma FirstIs(s: seq<char>, k: nat)
    requires k <= |s| && (forall m :: 0 <= m < k ==> s[m] != '/') && (k < |s| ==> s[k] == '/')
    ensures First(s) == s[..k]
  {
    hide First;
    assert |First(s)| == k;
  }

  lemma DropOne(s: seq<char>)
    requires s != [] && s[|s| - 1] != '/'
    ensures DropName(s) == DropName(s[..|s| - 1])
  {
  }

  /** resolve_path: writes the resolved path and its NUL into the buffer, and nothing outside. */
  method ResolvePath(out: array<char>, input: seq<char>, base: seq<char>) returns (n: nat)
    requires out.Length == PATH_MAX_LOCAL
    modifies out
    ensures n < PATH_MAX_LOCAL && out[..n] == Resolved(input, base) && out[n] == '\0'
  {
    hide Components, First, Walk, DropName;
    n := 0;
    if input == [] || input[0] != '/' {
      var b := if base != [] && base[0] == '/' then base[1..] else base;
      while n < |b| && n < PATH_MAX_LOCAL - 1
        invariant n <= |b| && n < PATH_MAX_LOCAL && out[..n] == b[..n]
      {
        out[n] := b[n];
        n := n + 1;
      }
    }
    assert out[..n] == StartText(input, base);
    var i := 0;
    assert input[0..] == input;
    while i < |input|
      invariant i <= |input| && n < PATH_MAX_LOCAL
      invariant Walk(out[..n], Components(input[i..])) == Resolved(input, base)
    {
      var start := SkipSlashes(input, i);
      i := EndOfName(input, start);
      var name := input[start..i];
      ghost var s := out[..n];
      if name == "" {
        assert input[i..] == input[start..];
        continue;
      }
      NextName(input[start..], name, input[i..]);
      WalkStep(s, name, Components(input[i..]));
      if name == "." { continue; }
      if name == ".." {
        n := GoUp(out, n);
        continue;
      }
      n := Append(out, n, name);
    }
    assert input[i..] == [];
    WalkNothing(out[..n]);
    ghost var text := out[..n];
    out[n] := '\0';
    assert out[..n] == text;
  }

  method SkipSlashes(input: seq<char>, i0: nat) returns (i: nat)
    requires i0 < |input|
    ensures i0 <= i <= |input| && Components(input[i..]) == Components(input[i0..])
    ensures (i < |input| ==> input[i] != '/') && (i == i0 ==> input[i] != '/')
  {
    hide Components;
    i := i0;
    while i < |input| && input[i] == '/'
      invariant i0 <= i <= |input| && Components(input[i..]) == Components(input[i0..])
    {
      SkipSlash(input[i..]);
      assert input[i..][1..] == input[i + 1..];
      i := i + 1;
    }
  }

  method EndOfName(input: seq<char>, start: nat) returns (i: nat)
    requires start <= |input|
    ensures start <= i <= |input| && input[start..i] == First(input[start..])
    ensures start < |input| && input[start] != '/' ==> start < i
  {
    hide First;
    i := start;
    while i < |input| && input[i] != '/'
      invariant start <= i <= |input| && forall m :: start <= m < i ==> input[m] != '/'
    {
      i := i + 1;
    }
    ghost var rest := input[start..];
    FirstIs(rest, i - start);
    assert input[start..i] == rest[..i - start];
  }

  method GoUp(out: array<char>, n0: nat) returns (n: nat)
    requires out.Length == PATH_MAX_LOCAL && n0 < PATH_MAX_LOCAL
    ensures n < PATH_MAX_LOCAL && out[..n] == Up(out[..n0])
  {
    hide DropName;
    n := n0;
    while n > 0 && out[n - 1] != '/'
      invariant n < PATH_MAX_LOCAL && DropName(out[..n]) == DropName(out[..n0])
    {
      assert out[..n][..n - 1] == out[..n - 1];
      DropOne(out[..n]);
      n := n - 1;
    }
    Dropped(out[..n]);
    ghost var d := out[..n];
    if n > 0 { n := n - 1; }
    assert d != [] ==> out[..n] == d[..|d| - 1];
  }

  /** A slash, unless the path is empty, and the name, as far as there is room. */
  method Append(out: array<char>, n0: nat, name: Name) returns (n: nat)
    requires out.Length == PATH_MAX_LOCAL && n0 < PATH_MAX_LOCAL
    modifies out
    ensures n < PATH_MAX_LOCAL && out[..n] == Clip(if n0 == 0 then name else old(out[..n0]) + "/" + name)
  {
    n := n0;
    ghost var prefix := out[..n0];
    if n > 0 && n < PATH_MAX_LOCAL - 1 {
      out[n] := '/';
      n := n + 1;
      prefix := prefix + "/";
    }
    ghost var m := n;
    assert out[..m] == prefix;
    var j := 0;
    while j < |name| && n < PATH_MAX_LOCAL - 1
      invariant j <= |name| && n < PATH_MAX_LOCAL && n == m + j && out[..n] == prefix + name[..j]
    {
      out[n] := name[j];
      n, j := n + 1, j + 1;
    }
  }

  lemma WalkStep(s: seq<char>, name: Name, names: seq<Name>)
    ensures Walk(s, [name] + names) == Walk(Step(s, name), names)
  {
    assert ([name] + names)[1..] == names;
  }

  lemma WalkNothing(s: seq<char>)
    ensures Walk(s, Components([])) == s
  {
  }

  lemma Dropped(s: seq<char>)
    requires s == [] || s[|s| - 1] == '/'
    ensures DropName(s) == s
  {
  }

  // ---------------------------------------------------------------- the working directory

  /** Neither the path nor a directory on the way is cut off. */
  predicate Whole(path: seq<char>, cwd: seq<Name>) {
    |path| < PATH_MAX_LOCAL && Fits(Start(path, cwd), Components(path)) && |Text(Destination(path, cwd))| < PATH_MAX_LOCAL - 1
  }

  class Process {
    /** The working directory as a C string: a slash and the directory's text. */
    var cwd: seq<char>

    ghost predicate IsAt(dir: seq<Name>)
      reads this
    {
      Canonical(dir) && cwd == "/" + Text(dir)
    }

    constructor ()
      ensures IsAt([])
    {
      cwd := "/";
    }

    /** sys_chdir: `isDir` is what the file system says of a resolved path. The working directory becomes the one that
        the path names; where a path or a directory is cut off, this tells what it becomes instead. */
    method Chdir(userPath: seq<char>, isDir: seq<char> -> bool) returns (ok: bool)
      requires NoNul(userPath)
      modifies this
      ensures ok == isDir(Resolved(Clip(userPath), old(cwd)))
      ensures cwd == if ok then Clip("/" + Resolved(Clip(userPath), old(cwd))) else old(cwd)
      ensures forall dir :: ok && old(IsAt(dir)) && Whole(userPath, dir) ==> IsAt(Destination(userPath, dir))
    {
      hide Fits, Components, Walk, Canonical, Text;
      var path := new char[PATH_MAX_LOCAL];
      var n := ResolvePath(path, Clip(userPath), cwd);
      ok := isDir(path[..n]);
      if ok {
        ghost var was := cwd;
        ghost var text := path[..n];
        var absolute, i := "/", 0;
        while i < n && |absolute| < PATH_MAX_LOCAL - 1
          invariant i <= n && path[..n] == text && absolute == "/" + path[..i] && |absolute| <= PATH_MAX_LOCAL - 1
        {
          absolute, i := absolute + [path[i]], i + 1;
        }
        cwd := absolute;
        assert cwd == Clip("/" + text) by { assert path[..i] == text[..i]; }
        forall dir | Canonical(dir) && was == "/" + Text(dir) && Whole(userPath, dir)
          ensures IsAt(Destination(userPath, dir))
        {
          ResolvesToDestination(userPath, dir);
        }
      }
    }
  }
}
