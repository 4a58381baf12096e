/**
 AK/LexicalPath.cpp: canonical paths, and relative paths that absolute_path undoes.
 */
module LexicalPath {
  import opened Words

  type Parts = seq<string>

  // ----- splitting and joining -----

  /** The first slash, or the end. */
  function Slash(s: string): (i: nat)
    ensures i <= |s| && (i < |s| ==> s[i] == '/') && forall k :: 0 <= k < i ==> s[k] != '/'
  {
    if s == "" || s[0] == '/' then 0 else 1 + Slash(s[1..])
  }

  /** The nonempty pieces between slashes. */
  function Split(s: string): Parts
    decreases |s|
  {
    var i := Slash(s);
    if s == "" then [] else if i == 0 then Split(s[1..]) else [s[..i]] + Split(s[i..])
  }

  function Join(parts: Parts): string {
    if parts == [] then "" else if |parts| == 1 then parts[0] else parts[0] + "/" + Join(parts[1..])
  }

  /** What can stand between slashes. */
  predicate IsPart(part: string) { part != "" && '/' !in part }

  ghost predicate AreParts(parts: Parts) { forall i :: 0 <= i < |parts| ==> IsPart(parts[i]) }

  lemma SlashUnique(s: string, i: nat)
    requires i <= |s| && (i < |s| ==> s[i] == '/') && forall k :: 0 <= k < i ==> s[k] != '/'
    ensures Slash(s) == i
  {
  }

  lemma {:induction false} SplitParts(s: string)
    ensures AreParts(Split(s))
    decreases |s|
  {
    if s != "" {
      var i := Slash(s);
      SplitParts(if i == 0 then s[1..] else s[i..]);
    }
  }

  lemma SplitOne(part: string)
    requires IsPart(part)
    ensures Split(part) == [part]
  {
    SlashUnique(part, |part|);
    assert part[..|part|] == part && part[|part|..] == "";
  }

  lemma SplitSlash(s: string)
    ensures Split("/" + s) == Split(s)
  {
  }

  /** A slash separates: the pieces of both sides. */
  lemma {:induction false} SplitConcat(a: string, b: string)
    ensures Split(a + "/" + b) == Split(a) + Split(b)
    decreases |a|
  {
    hide Slash, Split;
    var s := a + "/" + b;
    var i := Slash(a);
    SlashUnique(s, i);
    SplitStep(s);
    if a == "" {
      SplitEmpty();
      assert s[1..] == b;
    } else {
      SplitStep(a);
      var n := if i == 0 then 1 else i;
      assert s[n..] == a[n..] + "/" + b && s[..i] == a[..i];
      SplitConcat(a[n..], b);
    }
  }

  lemma SplitStep(s: string)
    requires s != ""
    ensures Split(s) == if Slash(s) == 0 then Split(s[1..]) else [s[..Slash(s)]] + Split(s[Slash(s)..])
  {
  }

  lemma {:induction false} SplitJoin(parts: Parts)
    requires AreParts(parts)
    ensures Split(Join(parts)) == parts
  {
    if |parts| == 1 {
      SplitOne(parts[0]);
    } else if |parts| > 1 {
      SplitJoin(parts[1..]);
      SplitOne(parts[0]);
      SplitConcat(parts[0], Join(parts[1..]));
    }
  }

  lemma {:induction false} JoinConcat(a: Parts, b: Parts)
    requires a != [] && b != []
    ensures Join(a + b) == Join(a) + "/" + Join(b)
  {
    if |a| == 1 {
      assert (a + b)[1..] == b;
    } else {
      JoinConcat(a[1..], b);
      assert (a + b)[1..] == a[1..] + b;
    }
  }

  lemma JoinStart(parts: Parts)
    requires AreParts(parts) && parts != []
    ensures Join(parts) != "" && Join(parts)[0] != '/'
  {
  }

  /** split_view('/') */
  method SplitView(s: string) returns (v: Parts)
    ensures v == Split(s)
  {
    hide Split;
    SplitEmpty();
    if s == "" {
      return [];
    }
    v := [];
    var start: nat := 0;
    assert s[0..] == s && v + Split(s[0..]) == Split(s);
    for i := 0 to |s|
      invariant start <= i && Split(s) == v + Split(s[start..]) && forall k :: start <= k < i ==> s[k] != '/'
    {
      if s[i] == '/' {
        SplitAt(s, start, i);
        if i - start != 0 {
          v := v + [s[start..i]];
        }
        start := i + 1;
      }
    }
    var tail := |s| - start;
    assert tail == 0 ==> s[start..] == "";
    if tail != 0 {
      SplitOne(s[start..]);
      v := v + [s[start..]];
    }
  }

  lemma SplitEmpty()
    ensures Split("") == []
  {
  }

  lemma SplitAt(s: string, start: nat, i: nat)
    requires start <= i < |s| && s[i] == '/' && forall k :: start <= k < i ==> s[k] != '/'
    ensures Split(s[start..]) == (if i == start then [] else [s[start..i]]) + Split(s[i + 1..])
  {
    SlashUnique(s[start..], i - start);
    assert s[start..][..i - start] == s[start..i] && s[start..][i - start..] == s[i..];
    assert s[i..] == "/" + s[i + 1..];
    SplitSlash(s[i + 1..]);
  }

  // ----- canonical paths -----

  predicate IsAbsolute(path: string) { path != "" && path[0] == '/' }

  /** One part against the parts kept so far. */
  function Step(absolute: bool, kept: Parts, part: string): Parts {
    if part == "." then kept
    else if part == ".." && kept == [] && absolute then kept
    else if part == ".." && kept != [] && kept[|kept| - 1] != ".." then kept[..|kept| - 1]
    else kept + [part]
  }

  function Reduce(absolute: bool, kept: Parts, parts: Parts): Parts
    decreases |parts|
  {
    if parts == [] then kept else Reduce(absolute, Step(absolute, kept, parts[0]), parts[1..])
  }

  function Render(absolute: bool, parts: Parts): string {
    if absolute then "/" + Join(parts) else if parts == [] then "." else Join(parts)
  }

  /** The canonical path, without the shortcut. */
  function Canonical(path: string): string {
    if path == "" then "." else Render(IsAbsolute(path), Reduce(IsAbsolute(path), [], Split(path)))
  }

  /** No "."; ".." only at the front, and not at all in absolute paths. */
  ghost predicate IsNormal(absolute: bool, parts: Parts) {
    && AreParts(parts)
    && (forall i :: 0 <= i < |parts| ==> parts[i] != ".")
    && (forall i :: 0 <= i < |parts| && parts[i] == ".." ==> !absolute)
    && forall i :: 0 < i < |parts| && parts[i] == ".." ==> parts[i - 1] == ".."
  }

  lemma {:induction false} ReduceNormal(absolute: bool, kept: Parts, parts: Parts)
    requires IsNormal(absolute, kept) && AreParts(parts)
    ensures IsNormal(absolute, Reduce(absolute, kept, parts))
    decreases |parts|
  {
    if parts != [] { ReduceNormal(absolute, Step(absolute, kept, parts[0]), parts[1..]); }
  }

  lemma {:induction false} ReduceConcat(absolute: bool, kept: Parts, a: Parts, b: Parts)
    ensures Reduce(absolute, kept, a + b) == Reduce(absolute, Reduce(absolute, kept, a), b)
    decreases |a|
  {
    if a == [] {
      assert a + b == b;
    } else {
      ReduceConcat(absolute, Step(absolute, kept, a[0]), a[1..], b);
      assert (a + b)[1..] == a[1..] + b;
    }
  }

  /** Normal parts are kept as they are. */
  lemma {:induction false} ReduceKeeps(absolute: bool, kept: Parts, parts: Parts)
    requires IsNormal(absolute, kept + parts)
    ensures Reduce(absolute, kept, parts) == kept + parts
    decreases |parts|
  {
    if parts == [] {
      assert kept + parts == kept;
    } else {
      var whole := kept + parts;
      assert whole[|kept|] == parts[0] && (kept != [] ==> whole[|kept| - 1] == kept[|kept| - 1]);
      assert (kept + [parts[0]]) + parts[1..] == whole;
      ReduceKeeps(absolute, kept + [parts[0]], parts[1..]);
    }
  }

  /** The parts of a canonical path. */
  function PartsOf(path: string): (p: Parts) { Reduce(IsAbsolute(path), [], Split(path)) }

  lemma PartsNormal(path: string)
    ensures IsNormal(IsAbsolute(path), PartsOf(path))
  {
    SplitParts(path);
    ReduceNormal(IsAbsolute(path), [], Split(path));
  }

  /** Rendering and splitting again. */
  lemma RenderParts(absolute: bool, parts: Parts)
    requires IsNormal(absolute, parts)
    ensures var r := Render(absolute, parts); r != "" && IsAbsolute(r) == absolute && PartsOf(r) == parts
  {
    var r := Render(absolute, parts);
    SplitJoin(parts);
    ReduceKeeps(absolute, [], parts);
    assert [] + parts == parts;
    if absolute {
      SplitSlash(Join(parts));
    } else if parts == [] {
      SplitOne(".");
    } else {
      JoinStart(parts);
    }
  }

  /** canonicalized_path is idempotent. */
  lemma CanonicalIdempotent(path: string)
    ensures Canonical(Canonical(path)) == Canonical(path)
  {
    hide Reduce, Split, Join;
    PartsNormal(path);
    RenderParts(IsAbsolute(path), PartsOf(path));
    if path == "" { RenderParts(false, []); }
  }

  // ----- the shortcut -----

  predicate HasDoubleSlash(path: string) {
    exists i: nat :: i + 1 < |path| && path[i] == '/' && path[i + 1] == '/'
  }

  /** Already canonical: no dot, no empty part, no slash at the end. */
  predicate IsPlain(path: string) {
    path != "" && '.' !in path && !HasDoubleSlash(path) && path[|path| - 1] != '/'
  }

  /** Joining the parts of a plain path gives it back. */
  lemma {:induction false} JoinSplit(path: string)
    requires IsPlain(path) && path[0] != '/'
    ensures Join(Split(path)) == path && Split(path) != []
    decreases |path|
  {
    hide Slash, Split, Join;
    var i := Slash(path);
    SplitStep(path);
    if i == |path| {
      assert path[..i] == path && path[i..] == "";
      SplitEmpty();
      JoinFirst(path, []);
      assert [path] + [] == [path];
    } else {
      var rest := path[i + 1..];
      assert i + 1 < |path| && path[i + 1] != '/';
      PlainRest(path, i);
      JoinSplit(rest);
      assert path[i..] == "/" + rest;
      SplitSlash(rest);
      JoinFirst(path[..i], Split(rest));
      assert path == path[..i] + "/" + rest;
    }
  }

  lemma PlainRest(path: string, i: nat)
    requires IsPlain(path) && i + 1 < |path|
    ensures IsPlain(path[i + 1..])
  {
  }

  lemma {:induction false} NoDots(path: string)
    requires '.' !in path
    ensures forall i :: 0 <= i < |Split(path)| ==> '.' !in Split(path)[i]
    decreases |path|
  {
    if path != "" {
      var i := Slash(path);
      NoDots(if i == 0 then path[1..] else path[i..]);
    }
  }

  /** The shortcut returns what the general case would. */
  lemma PlainIsCanonical(path: string)
    requires IsPlain(path)
    ensures Canonical(path) == path
  {
    hide Split, Join, Reduce;
    var parts := Split(path);
    NoDots(path);
    SplitParts(path);
    assert IsNormal(IsAbsolute(path), [] + parts) by { DotFree(parts, IsAbsolute(path)); }
    ReduceKeeps(IsAbsolute(path), [], parts);
    assert [] + parts == parts;
    if IsAbsolute(path) {
      var rest := path[1..];
      assert path == "/" + rest;
      SplitSlash(rest);
      assert |path| > 1 && rest[0] == path[1] != '/';
      PlainRest(path, 0);
      JoinSplit(rest);
    } else {
      JoinSplit(path);
    }
  }

  lemma DotFree(parts: Parts, absolute: bool)
    requires AreParts(parts) && forall i :: 0 <= i < |parts| ==> '.' !in parts[i]
    ensures IsNormal(absolute, [] + parts)
  {
  }

  /** canonicalized_path */
  method CanonicalizedPath(path: string) returns (r: string)
    ensures r == Canonical(path)
  {
    hide Split, Join, Reduce;
    if path == "" {
      return ".";
    }
    if '.' !in path && !HasDoubleSlash(path) && path[|path| - 1] != '/' {
      PlainIsCanonical(path);
      return path;
    }
    var absolute := path[0] == '/';
    var parts := SplitView(path);
    var kept: Parts := [];
    assert parts[0..] == parts;
    for i := 0 to |parts|
      invariant Reduce(absolute, [], parts) == Reduce(absolute, kept, parts[i..])
    {
      var part := parts[i];
      ReduceStep(absolute, kept, parts, i);
      if part == "." {
        continue;
      }
      if part == ".." {
        if kept == [] {
          if absolute {
            continue;
          }
        } else {
          if kept[|kept| - 1] != ".." {
            kept := kept[..|kept| - 1];
            continue;
          }
        }
      }
      kept := kept + [part];
    }
    ReduceEnd(absolute, kept, parts);
    if kept == [] && !absolute {
      kept := kept + ["."];
      JoinDot();
    }
    r := if absolute then "/" + Join(kept) else Join(kept);
  }

  lemma ReduceStep(absolute: bool, kept: Parts, parts: Parts, i: nat)
    requires i < |parts|
    ensures Reduce(absolute, kept, parts[i..]) == Reduce(absolute, Step(absolute, kept, parts[i]), parts[i + 1..])
  {
  }

  lemma ReduceEnd(absolute: bool, kept: Parts, parts: Parts)
    ensures Reduce(absolute, kept, parts[|parts|..]) == kept
  {
  }

  lemma JoinDot()
    ensures Join([] + ["."]) == "."
  {
  }

  // ----- meaning -----

  /** One step from a directory, given as the stack of names from the root. */
  function Go(at: Parts, part: string): Parts {
    if part == "." then at
    else if part != ".." then at + [part]
    else if at == [] then at else at[..|at| - 1]
  }

  function Walk(at: Parts, parts: Parts): Parts
    decreases |parts|
  {
    if parts == [] then at else Walk(Go(at, parts[0]), parts[1..])
  }

  /** Where a path leads from a working directory. */
  function Location(path: string, directory: Parts): Parts {
    Walk(if IsAbsolute(path) then [] else directory, Split(path))
  }

  lemma {:induction false} WalkConcat(at: Parts, a: Parts, b: Parts)
    ensures Walk(at, a + b) == Walk(Walk(at, a), b)
    decreases |a|
  {
    if a == [] {
      assert a + b == b;
    } else {
      WalkConcat(Go(at, a[0]), a[1..], b);
      assert (a + b)[1..] == a[1..] + b;
    }
  }

  /** Cancelling parts does not change where the walk ends. */
  lemma {:induction false} WalkReduce(absolute: bool, at: Parts, kept: Parts, parts: Parts)
    requires IsNormal(absolute, kept) && AreParts(parts) && (absolute ==> at == [])
    ensures Walk(at, Reduce(absolute, kept, parts)) == Walk(Walk(at, kept), parts)
    decreases |parts|
  {
    if parts != [] {
      hide IsNormal;
      var next := Step(absolute, kept, parts[0]);
      StepNormal(absolute, kept, parts[0]);
      WalkReduce(absolute, at, next, parts[1..]);
      WalkStep(absolute, at, kept, parts[0]);
    }
  }

  lemma StepNormal(absolute: bool, kept: Parts, part: string)
    requires IsNormal(absolute, kept) && IsPart(part)
    ensures IsNormal(absolute, Step(absolute, kept, part))
  {
  }

  lemma WalkStep(absolute: bool, at: Parts, kept: Parts, part: string)
    requires IsNormal(absolute, kept) && IsPart(part) && (absolute ==> at == [])
    ensures Walk(at, Step(absolute, kept, part)) == Walk(Walk(at, kept), [part])
  {
    WalkConcat(at, kept, [part]);
    if part == ".." && kept != [] && kept[|kept| - 1] != ".." {
      var n := |kept| - 1;
      assert kept == kept[..n] + [kept[n]];
      WalkConcat(at, kept[..n], [kept[n]]);
    }
  }

  /** A path and its canonical form lead to the same place from every directory. */
  lemma CanonicalLocation(path: string, directory: Parts)
    ensures Location(Canonical(path), directory) == Location(path, directory)
  {
    hide Reduce, Split, Walk, Join;
    var absolute := IsAbsolute(path);
    var at := if absolute then [] else directory;
    var parts := PartsOf(path);
    PartsNormal(path);
    RenderParts(absolute, parts);
    SplitParts(path);
    WalkReduce(absolute, at, [], Split(path));
    WalkNothing(at);
    RenderWalk(absolute, parts, at);
    if path == "" { SplitEmpty(); RenderWalk(false, [], directory); }
  }

  lemma WalkNothing(at: Parts)
    ensures Walk(at, []) == at && Walk(at, ["."]) == at
  {
  }

  lemma RenderWalk(absolute: bool, parts: Parts, at: Parts)
    requires IsNormal(absolute, parts)
    ensures Walk(at, Split(Render(absolute, parts))) == Walk(at, parts)
  {
    hide Split, Join, Walk;
    SplitJoin(parts);
    if absolute {
      SplitSlash(Join(parts));
    } else if parts == [] {
      SplitOne(".");
      WalkNothing(at);
    }
  }

  /** Leading ".." parts. */
  function UpCount(parts: Parts): (n: nat)
    ensures n <= |parts| && (forall i :: 0 <= i < n ==> parts[i] == "..") && (n < |parts| ==> parts[n] != "..")
  {
    if parts == [] || parts[0] != ".." then 0 else 1 + UpCount(parts[1..])
  }

  lemma {:induction false} WalkUps(at: Parts, parts: Parts, n: nat)
    requires n <= |parts| && n <= |at| && forall i :: 0 <= i < n ==> parts[i] == ".."
    ensures Walk(at, parts) == Walk(at[..|at| - n], parts[n..])
  {
    if n > 0 {
      var shorter := at[..|at| - 1];
      WalkUps(shorter, parts[1..], n - 1);
      assert shorter[..|shorter| - (n - 1)] == at[..|at| - n] && parts[1..][n - 1..] == parts[n..];
    } else {
      assert at[..|at|] == at;
    }
  }

  /** From deep enough, normal parts leave some directories and enter others. */
  lemma WalkNormal(at: Parts, parts: Parts)
    requires IsNormal(false, parts) && UpCount(parts) <= |at|
    ensures Walk(at, parts) == at[..|at| - UpCount(parts)] + parts[UpCount(parts)..]
  {
    hide Walk, UpCount;
    var n := UpCount(parts);
    WalkUps(at, parts, n);
    AfterUps(parts, n);
    WalkNames(at[..|at| - n], parts[n..]);
  }

  lemma {:induction false} AfterUps(parts: Parts, n: nat)
    requires IsNormal(false, parts) && n <= |parts| && (n < |parts| ==> parts[n] != "..")
    ensures IsNormal(true, parts[n..])
  {
    forall i | n <= i < |parts| ensures parts[i] != ".." { NoUpAfter(parts, n, i); }
  }

  lemma {:induction false} NoUpAfter(parts: Parts, n: nat, i: nat)
    requires IsNormal(false, parts) && n <= i < |parts| && parts[n] != ".."
    ensures parts[i] != ".."
  {
    if i > n { NoUpAfter(parts, n, i - 1); }
  }

  /** A directory name longer than every part. */
  function LongName(n: nat): string { seq(n + 1, _ => 'x') }

  ghost function TotalLength(parts: Parts): nat {
    if parts == [] then 0 else |parts[0]| + TotalLength(parts[1..])
  }

  lemma {:induction false} PartLength(parts: Parts, i: nat)
    requires i < |parts|
    ensures |parts[i]| <= TotalLength(parts)
  {
    if i > 0 { PartLength(parts[1..], i - 1); }
  }

  /** Normal parts that lead to the same place from one deep unfamiliar directory are equal. */
  lemma NormalUnique(a: Parts, b: Parts, at: Parts, name: string)
    requires IsNormal(false, a) && IsNormal(false, b) && UpCount(a) <= UpCount(b) <= |at|
    requires (forall i :: 0 <= i < |at| ==> at[i] == name) && |name| > TotalLength(b) && Walk(at, a) == Walk(at, b)
    ensures a == b
  {
    hide Walk, UpCount, IsNormal, TotalLength;
    WalkNormal(at, a);
    WalkNormal(at, b);
    var m, n := UpCount(a), UpCount(b);
    var x, y := at[..|at| - m] + a[m..], at[..|at| - n] + b[n..];
    forall i | 0 <= i < |b| ensures b[i] != name { PartLength(b, i); }
    assert forall i :: 0 <= i < |at| - m ==> x[i] == name;
    assert n < |b| ==> y[|at| - n] == b[n];
    assert m == n;
    assert a[m..] == x[|at| - m..] && b[m..] == y[|at| - m..];
    assert forall i :: 0 <= i < m ==> a[i] == b[i];
    assert a == a[..m] + a[m..] && b == b[..m] + b[m..];
  }

  /** A directory of n long names. */
  ghost function Deep(n: nat, name: string): (at: Parts) { seq(n, _ => name) }

  lemma LongNameIsName(n: nat, k: nat)
    ensures IsNormal(true, Deep(k, LongName(n))) && |LongName(n)| > n
  {
    var name := LongName(n);
    assert name[0] == 'x' && '/' !in name;
    assert name != "." && name != "..";
  }

  ghost predicate SamePlace(p: string, q: string) {
    forall directory: Parts :: IsNormal(true, directory) ==> Location(p, directory) == Location(q, directory)
  }

  lemma RelativeLocation(p: string, directory: Parts)
    requires !IsAbsolute(p)
    ensures Location(p, directory) == Walk(directory, PartsOf(p))
  {
    hide Reduce, Split, Walk;
    SplitParts(p);
    WalkReduce(false, directory, [], Split(p));
    WalkNothing(directory);
  }

  lemma RelativeUnique(p: string, q: string)
    requires !IsAbsolute(p) && !IsAbsolute(q) && SamePlace(p, q)
    ensures PartsOf(p) == PartsOf(q)
  {
    hide Reduce, Split, Walk, UpCount, PartsOf;
    var a, b := PartsOf(p), PartsOf(q);
    PartsNormal(p);
    PartsNormal(q);
    var n := TotalLength(a) + TotalLength(b);
    var at := Deep(UpCount(a) + UpCount(b), LongName(n));
    LongNameIsName(n, UpCount(a) + UpCount(b));
    RelativeLocation(p, at);
    RelativeLocation(q, at);
    if UpCount(a) <= UpCount(b) {
      NormalUnique(a, b, at, LongName(n));
    } else {
      NormalUnique(b, a, at, LongName(n));
    }
  }

  /**
   Two paths have the same canonical form exactly when both or neither are absolute and they lead to the same
   place from every directory.
   */
  lemma CanonicalUnique(p: string, q: string)
    ensures Canonical(p) == Canonical(q) <==> IsAbsolute(p) == IsAbsolute(q) && SamePlace(p, q)
  {
    hide Reduce, Split, Walk, Join, PartsOf, Canonical, Location;
    CanonicalAbsolute(p);
    CanonicalAbsolute(q);
    CanonicalRender(p);
    CanonicalRender(q);
    forall directory: Parts | Canonical(p) == Canonical(q) ensures Location(p, directory) == Location(q, directory) {
      CanonicalLocation(p, directory);
      CanonicalLocation(q, directory);
    }
    if IsAbsolute(p) == IsAbsolute(q) && SamePlace(p, q) {
      if IsAbsolute(p) {
        AbsoluteLocation(p);
        AbsoluteLocation(q);
      } else {
        RelativeUnique(p, q);
      }
    }
  }

  lemma CanonicalRender(p: string)
    ensures Canonical(p) == Render(IsAbsolute(p), PartsOf(p))
  {
  }

  lemma AbsoluteLocation(p: string)
    requires IsAbsolute(p)
    ensures Location(p, []) == PartsOf(p)
  {
    hide Reduce, Split, Walk, Join;
    PartsNormal(p);
    SplitParts(p);
    WalkReduce(true, [], [], Split(p));
    WalkNothing([]);
    WalkNames([], PartsOf(p));
    assert [] + PartsOf(p) == PartsOf(p);
  }

  lemma {:induction false} WalkNames(at: Parts, parts: Parts)
    requires IsNormal(true, parts)
    ensures Walk(at, parts) == at + parts
    decreases |parts|
  {
    if parts != [] {
      WalkNames(at + [parts[0]], parts[1..]);
    }
  }

  // ----- the canonical path is the shortest name -----

  /** The characters of the parts, with one slash each. */
  function Weight(parts: Parts): nat {
    if parts == [] then 0 else Weight(parts[..|parts| - 1]) + |parts[|parts| - 1]| + 1
  }

  lemma WeightPush(parts: Parts, part: string)
    ensures Weight(parts + [part]) == Weight(parts) + |part| + 1
  {
    assert (parts + [part])[..|parts|] == parts;
  }

  lemma {:induction false} WeightConcat(a: Parts, b: Parts)
    ensures Weight(a + b) == Weight(a) + Weight(b)
    decreases |b|
  {
    if b == [] {
      assert a + b == a;
    } else {
      var n := |b| - 1;
      assert a + b == (a + b[..n]) + [b[n]];
      WeightConcat(a, b[..n]);
      WeightPush(a + b[..n], b[n]);
    }
  }

  lemma {:induction false} JoinLength(parts: Parts)
    ensures |Join(parts)| == if parts == [] then 0 else Weight(parts) - 1
  {
    if parts != [] {
      WeightFirst(parts);
      JoinLength(parts[1..]);
    }
  }

  /** Reducing drops characters unless it keeps every part. */
  lemma {:induction false} ReduceWeight(absolute: bool, kept: Parts, parts: Parts)
    ensures var r := Reduce(absolute, kept, parts);
            && Weight(r) <= Weight(kept) + Weight(parts)
            && (Weight(r) == Weight(kept) + Weight(parts) ==> r == kept + parts)
    decreases |parts|
  {
    hide Weight, Reduce, Step;
    if parts == [] {
      assert kept + parts == kept && parts[|parts|..] == parts;
      ReduceEnd(absolute, kept, parts);
      WeightNothing();
    } else {
      var next, rest := Step(absolute, kept, parts[0]), parts[1..];
      assert parts[0..] == parts;
      ReduceStep(absolute, kept, parts, 0);
      ReduceWeight(absolute, next, rest);
      WeightFirst(parts);
      StepWeight(absolute, kept, parts[0]);
      assert next == kept + [parts[0]] ==> next + rest == kept + parts;
    }
  }

  lemma WeightFirst(parts: Parts)
    requires parts != []
    ensures Weight(parts) == |parts[0]| + 1 + Weight(parts[1..])
  {
    assert parts == [parts[0]] + parts[1..] && [] + [parts[0]] == [parts[0]];
    WeightConcat([parts[0]], parts[1..]);
    WeightPush([], parts[0]);
  }

  lemma StepWeight(absolute: bool, kept: Parts, part: string)
    ensures var next := Step(absolute, kept, part);
            && Weight(next) <= Weight(kept) + |part| + 1
            && (Weight(next) == Weight(kept) + |part| + 1 ==> next == kept + [part])
  {
    WeightPush(kept, part);
  }

  /** A text has room for its parts, and is their join when there is no more room than needed. */
  lemma {:induction false} SplitWeight(s: string)
    ensures Weight(Split(s)) <= |s| + 1
    ensures Weight(Split(s)) == |s| + 1 ==> s == Join(Split(s)) && Split(s) != []
    decreases |s|
  {
    hide Slash, Weight, Join;
    if s == "" {
      WeightNothing();
    } else {
      var i := Slash(s);
      SplitStep(s);
      if i == 0 {
        SplitWeight(s[1..]);
      } else {
        WeightFirst(Split(s));
        WeightNothing();
        JoinFirst(s[..i], Split(s[i..]));
        if i == |s| {
          assert s[i..] == "" && s[..i] == s;
        } else {
          var t := s[i + 1..];
          assert s[i..] == "/" + t && s == s[..i] + "/" + t;
          SplitSlash(t);
          SplitWeight(t);
        }
      }
    }
  }

  lemma WeightNothing()
    ensures Weight([]) == 0
  {
  }

  lemma JoinFirst(part: string, parts: Parts)
    ensures Join([part] + parts) == if parts == [] then part else part + "/" + Join(parts)
  {
    assert ([part] + parts)[1..] == parts;
  }

  /** No path is shorter than its canonical form, and one of the same length is that form. */
  lemma CanonicalLength(path: string)
    requires path != ""
    ensures |Canonical(path)| <= |path| && (|Canonical(path)| == |path| ==> Canonical(path) == path)
  {
    hide Reduce, Split, Join, Weight;
    var absolute, parts := IsAbsolute(path), PartsOf(path);
    ReduceWeight(absolute, [], Split(path));
    WeightNothing();
    assert [] + Split(path) == Split(path);
    JoinLength(parts);
    SplitWeight(path);
    if absolute {
      var rest := path[1..];
      assert path == "/" + rest;
      SplitSlash(rest);
      SplitWeight(rest);
    } else if parts == [] && |path| == 1 {
      if path != "." {
        SplitOne(path);
        ReduceOne(path);
      }
    }
  }

  lemma ReduceOne(part: string)
    requires part != "." && part != ".."
    ensures Reduce(false, [], [part]) == [part]
  {
    assert [] + [part] == [part];
  }

  /**
   The canonical path is the shortest name of its place: every other nonempty path of its kind that leads there
   from every directory is longer.
   */
  lemma CanonicalShortest(path: string, name: string)
    requires name != "" && IsAbsolute(name) == IsAbsolute(path) && SamePlace(name, path)
    ensures |Canonical(path)| < |name| || Canonical(path) == name
  {
    hide Canonical, SamePlace;
    CanonicalUnique(name, path);
    CanonicalLength(name);
  }

  // ----- relative and absolute paths -----

  /** absolute_path; join renders a LexicalPath, so the target is canonicalized twice. */
  function Absolute(directory: string, target: string): string {
    if IsAbsolute(Canonical(target)) then Canonical(target) else Canonical(Canonical(directory + "/" + target))
  }

  method AbsolutePath(directory: string, target: string) returns (r: string)
    ensures r == Absolute(directory, target)
  {
    hide Canonical;
    var lexical := CanonicalizedPath(target);
    if IsAbsolute(lexical) {
      r := CanonicalizedPath(target);
      return;
    }
    var joined := CanonicalizedPath(directory + "/" + target);
    r := CanonicalizedPath(joined);
  }

  function Ups(n: nat): string {
    if n == 0 then "" else "../" + Ups(n - 1)
  }

  /** path is below prefix, as strings */
  predicate Below(path: string, prefix: string) {
    |prefix| < |path| && path[..|prefix|] == prefix && path[|prefix|] == '/'
  }

  function Relative(path: string, prefix: string): string {
    var p, q := Canonical(path), Canonical(prefix);
    if !IsAbsolute(path) || !IsAbsolute(prefix) then ""
    else if path == prefix || p == q then "."
    else if q == "/" then p[1..]
    else if Below(p, q) then p[|q| + 1..]
    else
      var n := CommonPrefix(Split(p), Split(q));
      Ups(|Split(q)| - n) + Join(Split(p)[n..])
  }

  method RelativePath(path: string, prefix: string) returns (r: string)
    ensures r == Relative(path, prefix)
    ensures !IsAbsolute(path) || !IsAbsolute(prefix) ==> r == ""
    ensures IsAbsolute(path) && IsAbsolute(prefix) && Canonical(path) == Canonical(prefix) ==> r == "."
  {
    hide Canonical, Split, Join, Ups, CommonPrefix;
    if !IsAbsolute(path) || !IsAbsolute(prefix) {
      return "";
    }
    if path == prefix {
      return ".";
    }
    var p := CanonicalizedPath(path);
    var q := CanonicalizedPath(prefix);
    if p == q {
      return ".";
    }
    CanonicalAbsolute(path);
    if q == "/" {
      return p[1..];
    }
    if q <= p {
      // the paths differ, so there is a character after the prefix
      assert |q| < |p| && p[..|q|] == q;
      if p[|q|] == '/' {
        return p[|q| + 1..];
      }
    }
    var parts := SplitView(p);
    var prefixParts := SplitView(q);
    var n: nat := 0;
    while n < |parts| && n < |prefixParts| && parts[n] == prefixParts[n]
      invariant n <= |parts| && n <= |prefixParts| && parts[..n] == prefixParts[..n]
    {
      n := n + 1;
    }
    CommonPrefixUnique(parts, prefixParts, n);
    r := Climb(parts, prefixParts, n);
  }

  /** One "../" for each part of the prefix from n on, then the parts of the path from there. */
  method Climb(parts: Parts, prefixParts: Parts, n: nat) returns (r: string)
    requires n <= |parts| && n <= |prefixParts|
    ensures r == Ups(|prefixParts| - n) + Join(parts[n..])
  {
    hide Join, Ups;
    r := "";
    UpsNothing();
    for i := n to |prefixParts|
      invariant r == Ups(i - n)
    {
      UpsPush(i - n);
      r := r + "../";
    }
    ghost var ups := r;
    JoinNothing(parts, n);
    for i := n to |parts|
      invariant r == ups + (if i == n then "" else Join(parts[n..i]) + (if i < |parts| then "/" else ""))
    {
      JoinPush(parts, n, i);
      r := r + parts[i];
      if i != |parts| - 1 {
        r := r + "/";
      }
    }
    assert parts[n..|parts|] == parts[n..];
  }

  lemma UpsNothing()
    ensures Ups(0) == ""
  {
  }

  lemma {:induction false} UpsPush(n: nat)
    ensures Ups(n + 1) == Ups(n) + "../"
  {
    if n > 0 { UpsPush(n - 1); }
  }

  lemma JoinNothing(parts: Parts, n: nat)
    requires n <= |parts|
    ensures Join(parts[n..n]) == ""
  {
  }

  lemma JoinPush(parts: Parts, n: nat, i: nat)
    requires n <= i < |parts|
    ensures Join(parts[n..i + 1]) == (if i == n then "" else Join(parts[n..i]) + "/") + parts[i]
  {
    assert parts[n..i + 1] == parts[n..i] + [parts[i]];
    if i > n {
      JoinConcat(parts[n..i], [parts[i]]);
    }
  }

  lemma CanonicalAbsolute(path: string)
    ensures Canonical(path) != "" && IsAbsolute(Canonical(path)) == IsAbsolute(path)
  {
    hide Reduce, Split, Join;
    PartsNormal(path);
    RenderParts(IsAbsolute(path), PartsOf(path));
    if path == "" { RenderParts(false, []); }
  }

  /** A relative target continues the reduction of the directory. */
  lemma AbsoluteOf(directory: string, target: string)
    requires IsAbsolute(directory) && !IsAbsolute(target)
    ensures Absolute(directory, target) == "/" + Join(Reduce(true, PartsOf(directory), Split(target)))
  {
    hide Reduce, Split, Join;
    CanonicalAbsolute(target);
    var whole := directory + "/" + target;
    CanonicalIdempotent(whole);
    SplitConcat(directory, target);
    ReduceConcat(true, [], Split(directory), Split(target));
  }

  /** What absolute_path should mean: the target, seen from where the directory leads. */
  ghost predicate LeadsToTarget(directory: string, target: string, at: Parts) {
    Location(Absolute(directory, target), at)
    == if IsAbsolute(target) then Location(target, at) else Location(target, Location(directory, at))
  }

  /** absolute_path means that from every directory exactly when it is not given an empty path to go from. */
  lemma AbsoluteMeaning(directory: string, target: string)
    ensures (forall at: Parts :: IsNormal(true, at) ==> LeadsToTarget(directory, target, at))
            <==> directory != "" || IsAbsolute(target)
  {
    hide Canonical, Location, IsNormal, Walk, Split;
    if directory != "" || IsAbsolute(target) {
      forall at: Parts ensures LeadsToTarget(directory, target, at) { AbsoluteLeads(directory, target, at); }
    } else {
      var at := EmptyDirectoryMisleads(target);
    }
  }

  lemma AbsoluteLeads(directory: string, target: string, at: Parts)
    requires directory != "" || IsAbsolute(target)
    ensures LeadsToTarget(directory, target, at)
  {
    hide Canonical, Walk, Split;
    CanonicalAbsolute(target);
    if IsAbsolute(target) {
      CanonicalLocation(target, at);
    } else {
      var whole := directory + "/" + target;
      CanonicalIdempotent(whole);
      CanonicalLocation(whole, at);
      SplitConcat(directory, target);
      WalkConcat(if IsAbsolute(directory) then [] else at, Split(directory), Split(target));
    }
  }

  /** absolute_path answers in canonical form, so its meaning leaves one text. */
  lemma AbsoluteIsCanonical(directory: string, target: string)
    ensures Canonical(Absolute(directory, target)) == Absolute(directory, target)
    ensures IsAbsolute(Absolute(directory, target)) <==> directory == "" || IsAbsolute(directory) || IsAbsolute(target)
  {
    hide Canonical;
    var whole := directory + "/" + target;
    CanonicalAbsolute(target);
    CanonicalAbsolute(whole);
    CanonicalIdempotent(target);
    CanonicalIdempotent(whole);
  }

  /** From the empty path a relative target starts at the root, and from deep enough that is elsewhere. */
  lemma EmptyDirectoryMisleads(target: string) returns (at: Parts)
    requires !IsAbsolute(target)
    ensures IsNormal(true, at) && !LeadsToTarget("", target, at)
  {
    hide Canonical, Walk, Split, Reduce;
    var parts := PartsOf(target);
    var n := UpCount(parts);
    at := Deep(n + 1, LongName(0));
    LongNameIsName(0, n + 1);
    PartsNormal(target);
    CanonicalAbsolute(target);
    var whole := "" + "/" + target;
    CanonicalIdempotent(whole);
    CanonicalLocation(whole, at);
    SplitConcat("", target);
    SplitEmpty();
    assert [] + Split(target) == Split(target);
    WalkNothing(at);
    assert Location(Absolute("", target), at) == Location(target, []);
    assert Location("", at) == at;
    RelativeLocation(target, []);
    RelativeLocation(target, at);
    WalkNormal(at, parts);
    WalkFromRoot(parts);
  }

  /** At the root, leading ".." parts do nothing. */
  lemma WalkFromRoot(parts: Parts)
    requires IsNormal(false, parts)
    ensures Walk([], parts) == parts[UpCount(parts)..]
  {
    hide Walk, UpCount;
    var n := UpCount(parts);
    WalkRootUps(parts, n);
    AfterUps(parts, n);
    WalkNames([], parts[n..]);
    assert [] + parts[n..] == parts[n..];
  }

  lemma {:induction false} WalkRootUps(parts: Parts, n: nat)
    requires n <= |parts| && forall i :: 0 <= i < n ==> parts[i] == ".."
    ensures Walk([], parts) == Walk([], parts[n..])
  {
    if n > 0 {
      WalkRootUps(parts[1..], n - 1);
      assert parts[1..][n - 1..] == parts[n..];
    } else {
      assert parts[0..] == parts;
    }
  }

  /** absolute_path("", "a") is "/a", although "" means the working directory. */
  lemma EmptyDirectoryExample()
    ensures Absolute("", "a") == "/a" && Location("a", Location("", ["home"])) == ["home", "a"]
    ensures Location(Absolute("", "a"), ["home"]) == ["a"]
  {
    SplitOne("a");
    SplitEmpty();
    SplitConcat("", "a");
    assert "" + "/" + "a" == "/a";
    assert Reduce(false, [], ["a"]) == [] + ["a"] == ["a"];
    assert Reduce(true, [], ["a"]) == [] + ["a"] == ["a"];
    assert Canonical("a") == "a" && Canonical("/a") == "/a";
    assert [] + ["a"] == ["a"] && ["home"] + ["a"] == ["home", "a"];
    assert Walk(["home"], []) == ["home"];
    assert Walk(["home"], ["a"]) == Walk(["home"] + ["a"], []);
    assert Walk([], ["a"]) == Walk([] + ["a"], []);
  }

  /** Popping the parts that differ, then pushing the others. */
  lemma {:induction false} ReduceUps(kept: Parts, n: nat, parts: Parts)
    requires IsNormal(true, kept) && n <= |kept| && IsNormal(true, kept[..|kept| - n] + parts)
    ensures Reduce(true, kept, seq(n, _ => "..") + parts) == kept[..|kept| - n] + parts
  {
    if n == 0 {
      assert seq(0, _ => "..") + parts == parts && kept[..|kept|] == kept;
      ReduceKeeps(true, kept, parts);
    } else {
      var ups := seq(n, _ => "..");
      assert (ups + parts)[1..] == seq(n - 1, _ => "..") + parts;
      var shorter := kept[..|kept| - 1];
      assert shorter[..|shorter| - (n - 1)] == kept[..|kept| - n];
      ReduceUps(shorter, n - 1, parts);
    }
  }

  lemma {:induction false} SplitUps(n: nat, s: string)
    ensures Split(Ups(n) + s) == seq(n, _ => "..") + Split(s)
  {
    hide Split;
    if n > 0 {
      SplitUps(n - 1, s);
      SplitConcat("..", Ups(n - 1) + s);
      assert Ups(n) + s == ".." + "/" + (Ups(n - 1) + s);
      SplitOne("..");
      assert seq(n, _ => "..") == [".."] + seq(n - 1, _ => "..");
    } else {
      assert Ups(0) + s == s;
    }
  }

  lemma CanonicalOf(path: string)
    requires IsAbsolute(path)
    ensures IsNormal(true, PartsOf(path)) && Canonical(path) == "/" + Join(PartsOf(path))
    ensures Split(Canonical(path)) == PartsOf(path)
  {
    hide Reduce, Split, Join;
    PartsNormal(path);
    SplitJoin(PartsOf(path));
    SplitSlash(Join(PartsOf(path)));
  }

  lemma ToSame(prefix: string)
    requires IsAbsolute(prefix)
    ensures Absolute(prefix, ".") == Canonical(prefix)
  {
    hide Split, Join;
    AbsoluteOf(prefix, ".");
    SplitOne(".");
    ReduceDot(PartsOf(prefix));
  }

  lemma ReduceDot(kept: Parts)
    ensures Reduce(true, kept, ["."]) == kept
  {
  }

  /** Appending names to the directory. */
  lemma ToBelow(prefix: string, names: Parts)
    requires IsAbsolute(prefix) && names != [] && IsNormal(true, PartsOf(prefix) + names)
    ensures Absolute(prefix, Join(names)) == "/" + Join(PartsOf(prefix) + names)
  {
    hide Reduce, Split, Join;
    var whole := PartsOf(prefix) + names;
    assert names == whole[|PartsOf(prefix)|..];
    NormalRest(whole, |PartsOf(prefix)|);
    JoinStart(names);
    AbsoluteOf(prefix, Join(names));
    SplitJoin(names);
    ReduceKeeps(true, PartsOf(prefix), names);
  }

  lemma NormalRest(parts: Parts, n: nat)
    requires IsNormal(true, parts) && n <= |parts|
    ensures AreParts(parts[n..])
  {
  }

  /** Leaving n directories and entering others. */
  lemma ToElsewhere(prefix: string, n: nat, names: Parts)
    requires IsAbsolute(prefix) && 0 < n <= |PartsOf(prefix)|
    requires IsNormal(true, PartsOf(prefix)[..|PartsOf(prefix)| - n] + names)
    ensures Absolute(prefix, Ups(n) + Join(names)) == "/" + Join(PartsOf(prefix)[..|PartsOf(prefix)| - n] + names)
  {
    hide Reduce, Split, Join, PartsOf, IsNormal;
    var kept := PartsOf(prefix)[..|PartsOf(prefix)| - n];
    assert names == (kept + names)[|kept|..];
    NormalRest(kept + names, |kept|);
    UpsStart(n, Join(names));
    AbsoluteOf(prefix, Ups(n) + Join(names));
    SplitUps(n, Join(names));
    SplitJoin(names);
    CanonicalOf(prefix);
    ReduceUps(PartsOf(prefix), n, names);
  }

  lemma UpsStart(n: nat, s: string)
    requires n > 0
    ensures !IsAbsolute(Ups(n) + s)
  {
  }

  /** As strings or as parts: one canonical path continues another. */
  lemma BelowParts(p: Parts, q: Parts)
    requires IsNormal(true, p) && IsNormal(true, q) && q != []
    ensures Below("/" + Join(p), "/" + Join(q)) <==> |q| < |p| && p[..|q|] == q
    ensures Below("/" + Join(p), "/" + Join(q)) ==> ("/" + Join(p))[|Join(q)| + 2..] == Join(p[|q|..])
  {
    hide Split, Join, IsNormal;
    var s, t := "/" + Join(p), "/" + Join(q);
    if |q| < |p| && p[..|q|] == q {
      assert p == q + p[|q|..];
      JoinConcat(q, p[|q|..]);
      assert s == t + "/" + Join(p[|q|..]);
    } else if Below(s, t) {
      var rest := s[|t| + 1..];
      assert s == t + "/" + rest;
      BelowOnly(p, q, rest);
    }
  }

  lemma BelowOnly(p: Parts, q: Parts, rest: string)
    requires IsNormal(true, p) && IsNormal(true, q) && "/" + Join(p) == "/" + Join(q) + "/" + rest
    ensures |q| < |p| && p[..|q|] == q
  {
    hide Split, Join;
    SplitConcat("/" + Join(q), rest);
    SplitSlash(Join(q));
    SplitSlash(Join(p));
    SplitJoin(p);
    SplitJoin(q);
    assert p == q + Split(rest);
    assert |Split(rest)| == 0 ==> p == q;
  }

  /** absolute_path undoes relative_path, for all absolute paths. */
  lemma RelativeUndone(path: string, prefix: string)
    requires IsAbsolute(path) && IsAbsolute(prefix)
    ensures Absolute(prefix, Relative(path, prefix)) == Canonical(path)
  {
    hide Split, Join, Ups, CommonPrefix, Canonical, Absolute, PartsOf, IsNormal, Below;
    var p, q := PartsOf(path), PartsOf(prefix);
    CanonicalOf(path);
    CanonicalOf(prefix);
    if path == prefix || Canonical(path) == Canonical(prefix) {
      ToSame(prefix);
    } else if Canonical(prefix) == "/" {
      EmptyJoin(q);
      assert [] + p == p;
      NonemptyJoin(p);
      assert Canonical(path)[1..] == Join(p);
      ToBelow(prefix, p);
    } else {
      NonemptyJoin(q);
      BelowParts(p, q);
      if Below(Canonical(path), Canonical(prefix)) {
        assert p == q + p[|q|..];
        ToBelow(prefix, p[|q|..]);
      } else {
        var n := CommonPrefix(p, q);
        assert q[..n] + p[n..] == p[..n] + p[n..] == p;
        assert p[..|p|] == p && q[..|q|] == q;
        assert n < |q|;
        assert |q| - (|q| - n) == n;
        ToElsewhere(prefix, |q| - n, p[n..]);
      }
    }
  }

  // ----- the relative path is the shortest way -----

  /** Steps from one directory to another: leave what they do not share, enter the rest. */
  function Apart(p: Parts, q: Parts): nat {
    |p| + |q| - 2 * CommonPrefix(p, q)
  }

  /** The parts that leave what the directories do not share, and those that enter the rest. */
  function Shortest(p: Parts, q: Parts): Parts {
    var n := CommonPrefix(p, q);
    seq(|q| - n, _ => "..") + p[n..]
  }

  /** One part brings the reduction at most one step closer, and closer only by the part of the shortest way. */
  lemma StepApart(p: Parts, q: Parts, part: string)
    requires IsNormal(true, q)
    ensures var next := Step(true, q, part);
            && Apart(p, q) <= Apart(p, next) + 1
            && (Apart(p, q) == Apart(p, next) + 1 ==> Shortest(p, q) == [part] + Shortest(p, next))
  {
    hide CommonPrefix;
  }

  /** Every reduction from q to p has as many parts as they are apart; with just as many there is one choice. */
  lemma {:induction false} ReduceApart(p: Parts, q: Parts, parts: Parts)
    requires IsNormal(true, q) && AreParts(parts) && Reduce(true, q, parts) == p
    ensures Apart(p, q) <= |parts|
    ensures |parts| == Apart(p, q) ==> parts == Shortest(p, q)
    decreases |parts|
  {
    hide Reduce, Step, CommonPrefix, Shortest, Apart, IsNormal;
    if parts == [] {
      assert parts[|parts|..] == parts;
      ReduceEnd(true, q, parts);
      NothingApart(p);
    } else {
      var next, rest := Step(true, q, parts[0]), parts[1..];
      assert parts[0..] == parts;
      ReduceStep(true, q, parts, 0);
      StepNormal(true, q, parts[0]);
      ReduceApart(p, next, rest);
      StepApart(p, q, parts[0]);
      if |parts| == Apart(p, q) {
        assert parts == [parts[0]] + rest;
      }
    }
  }

  lemma NothingApart(p: Parts)
    ensures Apart(p, p) == 0 && Shortest(p, p) == []
  {
    CommonPrefixUnique(p, p, |p|);
  }

  /** All branches alike: leave what the prefix does not share with the path, enter the rest. */
  lemma RelativeText(path: string, prefix: string)
    requires IsAbsolute(path) && IsAbsolute(prefix) && Canonical(path) != Canonical(prefix)
    ensures var p, q := PartsOf(path), PartsOf(prefix); var n := CommonPrefix(p, q);
            && IsNormal(true, p) && n <= |q| && (n == |q| ==> n < |p|)
            && Relative(path, prefix) == Ups(|q| - n) + Join(p[n..])
  {
    hide Split, Join, Ups, CommonPrefix, Canonical, PartsOf, IsNormal, Below;
    var p, q := PartsOf(path), PartsOf(prefix);
    CanonicalOf(path);
    CanonicalOf(prefix);
    var n := CommonPrefix(p, q);
    assert p[..|p|] == p && q[..|q|] == q;
    UpsNothing();
    if Canonical(prefix) == "/" {
      EmptyJoin(q);
      assert Canonical(path)[1..] == Join(p) && p[0..] == p;
    } else {
      NonemptyJoin(q);
      BelowParts(p, q);
      if Below(Canonical(path), Canonical(prefix)) { CommonPrefixUnique(p, q, |q|); }
    }
  }

  lemma RelativeParts(path: string, prefix: string)
    requires IsAbsolute(path) && IsAbsolute(prefix) && Canonical(path) != Canonical(prefix)
    ensures Split(Relative(path, prefix)) == Shortest(PartsOf(path), PartsOf(prefix))
  {
    hide Split, Join, Ups, CommonPrefix, Canonical, PartsOf, IsNormal, Relative;
    RelativeText(path, prefix);
    var p, q := PartsOf(path), PartsOf(prefix);
    var n := CommonPrefix(p, q);
    SplitTail(p, n);
    SplitUps(|q| - n, Join(p[n..]));
  }

  lemma SplitTail(parts: Parts, n: nat)
    requires IsNormal(true, parts) && n <= |parts|
    ensures Split(Join(parts[n..])) == parts[n..]
  {
    NormalRest(parts, n);
    SplitJoin(parts[n..]);
  }

  /**
   relative_path has the fewest parts: any other relative path that absolute_path takes from the prefix to the path
   has more, or the same parts spelled otherwise.
   */
  lemma RelativeFewest(path: string, prefix: string, other: string)
    requires IsAbsolute(path) && IsAbsolute(prefix) && Canonical(path) != Canonical(prefix)
    requires !IsAbsolute(other) && Absolute(prefix, other) == Canonical(path)
    ensures |Split(Relative(path, prefix))| < |Split(other)| || Split(Relative(path, prefix)) == Split(other)
  {
    hide Split, Join, Canonical, Absolute, Relative, PartsOf, IsNormal, Reduce, Shortest, Apart;
    var p, q := PartsOf(path), PartsOf(prefix);
    CanonicalOf(path);
    CanonicalOf(prefix);
    AbsoluteOf(prefix, other);
    SplitParts(other);
    var r := Reduce(true, q, Split(other));
    ReduceNormal(true, q, Split(other));
    assert r == p by { JoinUnique(r, p); }
    ReduceApart(p, q, Split(other));
    RelativeParts(path, prefix);
    ShortestSize(p, q);
  }

  lemma ShortestSize(p: Parts, q: Parts)
    ensures |Shortest(p, q)| == Apart(p, q)
  {
  }

  lemma JoinUnique(a: Parts, b: Parts)
    requires IsNormal(true, a) && IsNormal(true, b) && "/" + Join(a) == "/" + Join(b)
    ensures a == b
  {
    hide Join, Split;
    assert Join(a) == ("/" + Join(a))[1..] == ("/" + Join(b))[1..] == Join(b);
    SplitJoin(a);
    SplitJoin(b);
  }

  /**
   How the parts are spelled: no empty ones, and a slash at the end exactly when the last part leaves a directory.
   With RelativeFewest this leaves one text.
   */
  lemma RelativeSpelling(path: string, prefix: string)
    requires IsAbsolute(path) && IsAbsolute(prefix) && Canonical(path) != Canonical(prefix)
    ensures var r := Relative(path, prefix); var parts := Split(r);
            parts != [] && r == Join(parts) + if parts[|parts| - 1] == ".." then "/" else ""
  {
    hide Split, Join, Ups, CommonPrefix, Canonical, PartsOf, IsNormal, Relative;
    RelativeText(path, prefix);
    RelativeParts(path, prefix);
    var p, q := PartsOf(path), PartsOf(prefix);
    var n := CommonPrefix(p, q);
    LastIsName(p);
    if n == |q| {
      UpsNothing();
      assert seq(0, _ => "..") + p[n..] == p[n..];
    } else {
      UpsJoin(|q| - n, p[n..]);
    }
  }

  lemma LastIsName(parts: Parts)
    requires IsNormal(true, parts)
    ensures parts != [] ==> parts[|parts| - 1] != ".."
  {
  }

  lemma {:induction false} UpsJoin(n: nat, names: Parts)
    requires n > 0
    ensures Ups(n) + Join(names) == Join(seq(n, _ => "..") + names) + if names == [] then "/" else ""
  {
    hide Join;
    var rest := seq(n - 1, _ => "..") + names;
    assert seq(n, _ => "..") + names == [".."] + rest;
    JoinFirst("..", rest);
    if n == 1 {
      assert rest == names;
      UpsNothing();
      assert Ups(1) == "../";
      if names == [] { JoinEmpty(); }
    } else {
      UpsJoin(n - 1, names);
      assert Ups(n) + Join(names) == "../" + (Ups(n - 1) + Join(names));
    }
  }

  lemma JoinEmpty()
    ensures Join([]) == ""
  {
  }

  lemma EmptyJoin(parts: Parts)
    requires IsNormal(true, parts) && "/" + Join(parts) == "/"
    ensures parts == []
  {
  }

  lemma NonemptyJoin(parts: Parts)
    requires "/" + Join(parts) != "/"
    ensures parts != []
  {
  }
}
