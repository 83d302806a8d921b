/** Lexical path handling on '/'-separated paths, as Go's path/filepath does it
    on a Unix host: Split, Clean, Base, Dir, Join and Abs.  Absolute, cleaned paths
    are also represented by their sequence of segments (`Segs`), which is how the
    extractor's file-system map is keyed. */
module Paths {

  /** A cleaned absolute path, as its segments: "/a/b" is ["a", "b"], "/" is []. */
  type Segs = seq<string>

  predicate IsName(s: string) {
    s != "" && s != "." && s != ".." && '/' !in s
  }

  /** Segments of a cleaned absolute path: names only, no "", "." or "..". */
  predicate Canonical(p: Segs) {
    forall i :: 0 <= i < |p| ==> IsName(p[i])
  }

  predicate IsAbs(s: string) {
    |s| > 0 && s[0] == '/'
  }

  /** strings.Split(s, "/"). */
  function Split(s: string): (r: seq<string>)
    ensures |r| >= 1
    ensures forall i :: 0 <= i < |r| ==> '/' !in r[i]
    decreases |s|
  {
    if s == [] then [""]
    else if s[0] == '/' then [""] + Split(s[1..])
    else
      var t := Split(s[1..]);
      [[s[0]] + t[0]] + t[1..]
  }

  /** strings.Join(segs, "/"). */
  function JoinSegs(segs: seq<string>): string
    decreases |segs|
  {
    if segs == [] then ""
    else if |segs| == 1 then segs[0]
    else segs[0] + "/" + JoinSegs(segs[1..])
  }

  /** One step of lexical cleaning: `stack` holds the names kept so far. A ".."
      removes the last kept name; at the root of a rooted path it is dropped,
      and at the start of a relative path it is kept. */
  function Step(stack: seq<string>, rooted: bool, seg: string): seq<string> {
    if seg == "" || seg == "." then stack
    else if seg == ".." then
      if |stack| > 0 && stack[|stack| - 1] != ".." then stack[..|stack| - 1]
      else if rooted then stack
      else stack + [".."]
    else stack + [seg]
  }

  function Resolve(stack: seq<string>, rooted: bool, segs: seq<string>): seq<string>
    decreases |segs|
  {
    if segs == [] then stack else Resolve(Step(stack, rooted, segs[0]), rooted, segs[1..])
  }

  function Render(rooted: bool, segs: seq<string>): string {
    if rooted then "/" + JoinSegs(segs)
    else if segs == [] then "."
    else JoinSegs(segs)
  }

  /** filepath.Clean: the shortest lexically equivalent path. */
  function Clean(s: string): string {
    Render(IsAbs(s), Resolve([], IsAbs(s), Split(s)))
  }

  /** filepath.Join of two elements: empty elements are ignored, the rest is cleaned. */
  function Join(a: string, b: string): string {
    if a != "" then Clean(a + "/" + b)
    else if b != "" then Clean(b)
    else ""
  }

  /** filepath.Abs with `cwd` standing for the process working directory: a
      relative path is joined to it, then everything is cleaned.  The result is
      given as segments; `AbsIsJoinClean` shows its rendering is Go's string. */
  function Abs(cwd: Segs, p: string): Segs {
    Resolve(if IsAbs(p) then [] else cwd, true, Split(p))
  }

  /** Index of the last '/' in `s`, or -1. */
  function LastSlash(s: string): (i: int)
    ensures -1 <= i < |s|
    ensures i >= 0 ==> s[i] == '/'
    ensures forall j :: i < j < |s| ==> s[j] != '/'
    decreases |s|
  {
    if s == [] then -1
    else if s[|s| - 1] == '/' then |s| - 1
    else LastSlash(s[..|s| - 1])
  }

  /** filepath.Dir: everything before the last separator, cleaned. */
  function Dir(p: string): string {
    Clean(p[..LastSlash(p) + 1])
  }

  function TrimTrailingSlashes(s: string): (r: string)
    ensures r <= s
    ensures r == [] || r[|r| - 1] != '/'
    ensures forall j :: |r| <= j < |s| ==> s[j] == '/'
    decreases |s|
  {
    if s != [] && s[|s| - 1] == '/' then TrimTrailingSlashes(s[..|s| - 1]) else s
  }

  /** filepath.Base: the last element after trailing slashes are removed;
      "." for the empty path and "/" for a path of slashes only. */
  function Base(p: string): (r: string)
    ensures r != ""
    ensures r == "/" || '/' !in r
  {
    if p == "" then "."
    else
      var q := TrimTrailingSlashes(p);
      if q == "" then "/" else q[LastSlash(q) + 1..]
  }

  // ---------------------------------------------------------------------------
  // Facts about Split

  lemma {:induction false} SplitNoSlash(s: string)
    requires '/' !in s
    ensures Split(s) == [s]
    decreases |s|
  {
    if s != [] {
      SplitNoSlash(s[1..]);
      assert [s[0]] + s[1..] == s;
    }
  }

  lemma {:induction false} SplitAppend(a: string, b: string)
    ensures Split(a + "/" + b) == Split(a) + Split(b)
    decreases |a|
  {
    if a == [] {
      assert a + "/" + b == "/" + b;
      assert ("/" + b)[1..] == b;
    } else {
      assert (a + "/" + b)[0] == a[0];
      assert (a + "/" + b)[1..] == a[1..] + "/" + b;
      SplitAppend(a[1..], b);
    }
  }

  lemma {:induction false} SplitJoin(segs: seq<string>)
    requires |segs| >= 1
    requires forall i :: 0 <= i < |segs| ==> '/' !in segs[i]
    ensures Split(JoinSegs(segs)) == segs
    decreases |segs|
  {
    if |segs| == 1 {
      SplitNoSlash(segs[0]);
    } else {
      SplitJoin(segs[1..]);
      SplitAppend(segs[0], JoinSegs(segs[1..]));
      SplitNoSlash(segs[0]);
    }
  }

  lemma SplitAtLastSlash(p: string)
    requires LastSlash(p) >= 0
    ensures Split(p) == Split(p[..LastSlash(p)]) + [p[LastSlash(p) + 1..]]
    ensures Split(p[..LastSlash(p) + 1]) == Split(p[..LastSlash(p)]) + [""]
  {
    var i := LastSlash(p);
    assert p == p[..i] + "/" + p[i + 1..];
    SplitAppend(p[..i], p[i + 1..]);
    SplitNoSlash(p[i + 1..]);
    assert p[..i + 1] == p[..i] + "/" + "";
    SplitAppend(p[..i], "");
  }

  // ---------------------------------------------------------------------------
  // Facts about Resolve

  lemma {:induction false} ResolveAppend(st: seq<string>, rooted: bool, xs: seq<string>, ys: seq<string>)
    ensures Resolve(st, rooted, xs + ys) == Resolve(Resolve(st, rooted, xs), rooted, ys)
    decreases |xs|
  {
    if xs != [] {
      assert (xs + ys)[0] == xs[0];
      assert (xs + ys)[1..] == xs[1..] + ys;
      ResolveAppend(Step(st, rooted, xs[0]), rooted, xs[1..], ys);
    } else {
      assert xs + ys == ys;
    }
  }

  lemma ResolveSnoc(st: seq<string>, rooted: bool, xs: seq<string>, y: string)
    ensures Resolve(st, rooted, xs + [y]) == Step(Resolve(st, rooted, xs), rooted, y)
  {
    ResolveAppend(st, rooted, xs, [y]);
  }

  /** Resolving names only appends them. */
  lemma {:induction false} ResolveNames(st: seq<string>, rooted: bool, names: Segs)
    requires Canonical(names)
    ensures Resolve(st, rooted, names) == st + names
    decreases |names|
  {
    if names != [] {
      ResolveNames(st + [names[0]], rooted, names[1..]);
      assert st + [names[0]] + names[1..] == st + names;
    }
  }

  /** Rooted resolution keeps a canonical stack canonical. */
  lemma {:induction false} ResolveRootedCanonical(st: Segs, segs: seq<string>)
    requires Canonical(st)
    requires forall i :: 0 <= i < |segs| ==> '/' !in segs[i]
    ensures Canonical(Resolve(st, true, segs))
    decreases |segs|
  {
    if segs != [] {
      ResolveRootedCanonical(Step(st, true, segs[0]), segs[1..]);
    }
  }

  /** A relative stack: no "" or "." entries, and every ".." comes before every name. */
  predicate RelStack(r: seq<string>) {
    (forall i :: 0 <= i < |r| ==> r[i] != "" && r[i] != "." && '/' !in r[i])
    && (forall i, j :: 0 <= i < j < |r| && r[j] == ".." ==> r[i] == "..")
  }

  lemma StepKeepsRelStack(r: seq<string>, x: string)
    requires RelStack(r) && '/' !in x
    ensures RelStack(Step(r, false, x))
  {
  }

  lemma StepCommutes(st: Segs, r: seq<string>, x: string)
    requires Canonical(st) && RelStack(r) && '/' !in x
    ensures RelStack(Step(r, false, x))
    ensures Resolve(st, true, Step(r, false, x)) == Step(Resolve(st, true, r), true, x)
  {
    StepKeepsRelStack(r, x);
    if x == "" || x == "." {
    } else if x == ".." {
      if |r| > 0 && r[|r| - 1] != ".." {
        var r0, last := r[..|r| - 1], r[|r| - 1];
        assert r == r0 + [last];
        assert last != "" && last != ".";
        ResolveSnoc(st, true, r0, last);
        var s0 := Resolve(st, true, r0);
        assert Resolve(st, true, r) == s0 + [last];
        assert (s0 + [last])[..|s0|] == s0;
        assert Step(r, false, x) == r0;
      } else {
        ResolveSnoc(st, true, r, x);
      }
    } else {
      ResolveSnoc(st, true, r, x);
    }
  }

  /** Cleaning a relative path first and then resolving it against an absolute
      stack gives the same as resolving the raw segments. */
  lemma {:induction false} ResolveThroughRelative(st: Segs, r: seq<string>, xs: seq<string>)
    requires Canonical(st) && RelStack(r)
    requires forall i :: 0 <= i < |xs| ==> '/' !in xs[i]
    ensures Resolve(st, true, Resolve(r, false, xs)) == Resolve(Resolve(st, true, r), true, xs)
    decreases |xs|
  {
    if xs != [] {
      StepCommutes(st, r, xs[0]);
      ResolveThroughRelative(st, Step(r, false, xs[0]), xs[1..]);
    }
  }

  lemma {:induction false} ResolveRelStack(r: seq<string>, xs: seq<string>)
    requires RelStack(r)
    requires forall i :: 0 <= i < |xs| ==> '/' !in xs[i]
    ensures RelStack(Resolve(r, false, xs))
    decreases |xs|
  {
    if xs != [] {
      StepCommutes([], r, xs[0]);
      ResolveRelStack(Step(r, false, xs[0]), xs[1..]);
    }
  }

  // ---------------------------------------------------------------------------
  // Abs, Clean and Dir

  /** The segments returned by Abs render to exactly what filepath.Abs returns:
      Clean(p) for an absolute p, Join(cwd, p) otherwise. */
  lemma AbsIsJoinClean(cwd: Segs, p: string)
    requires Canonical(cwd)
    ensures Canonical(Abs(cwd, p))
    ensures Render(true, Abs(cwd, p)) == if IsAbs(p) then Clean(p) else Join(Render(true, cwd), p)
  {
    var base := if IsAbs(p) then [] else cwd;
    ResolveRootedCanonical(base, Split(p));
    if !IsAbs(p) {
      var c := Render(true, cwd);
      var s := c + "/" + p;
      assert c == "" + "/" + JoinSegs(cwd);
      SplitAppend("", JoinSegs(cwd));
      SplitAppend(c, p);
      assert IsAbs(s);
      if cwd == [] {
        assert Split(s) == [""] + [""] + Split(p);
        ResolveAppend([], true, [""] + [""], Split(p));
      } else {
        SplitJoin(cwd);
        assert Split(s) == ([""] + cwd) + Split(p);
        ResolveAppend([], true, [""] + cwd, Split(p));
        ResolveNames([], true, cwd);
        assert ([""] + cwd)[1..] == cwd;
        assert Resolve([], true, [""] + cwd) == cwd;
      }
      assert Join(c, p) == Render(true, Resolve([], true, Split(s)));
    }
  }

  /** Resolving an already cleaned path against cwd changes nothing. */
  lemma AbsClean(cwd: Segs, z: string)
    requires Canonical(cwd)
    ensures Abs(cwd, Clean(z)) == Abs(cwd, z)
  {
    if IsAbs(z) {
      var k := Resolve([], true, Split(z));
      ResolveRootedCanonical([], Split(z));
      assert Clean(z) == "" + "/" + JoinSegs(k);
      SplitAppend("", JoinSegs(k));
      assert IsAbs(Clean(z));
      if k == [] {
        assert Split(Clean(z)) == [""] + [""];
        assert Step([], true, "") == [];
        assert Resolve([], true, [""]) == [] by {
          assert [""][1..] == [];
        }
        assert ([""] + [""])[1..] == [""];
      } else {
        SplitJoin(k);
        assert ([""] + k)[0] == "" && ([""] + k)[1..] == k;
        assert Step([], true, "") == [];
        ResolveNames([], true, k);
        assert Resolve([], true, [""] + k) == k;
      }
    } else {
      var r := Resolve([], false, Split(z));
      ResolveRelStack([], Split(z));
      ResolveThroughRelative(cwd, [], Split(z));
      if r == [] {
        assert Clean(z) == ".";
        SplitNoSlash(".");
      } else {
        assert JoinSegs(r)[0] == r[0][0] by { JoinHead(r); }
        SplitJoin(r);
      }
    }
  }

  lemma JoinHead(r: seq<string>)
    requires |r| >= 1 && r[0] != ""
    ensures |JoinSegs(r)| > 0 && JoinSegs(r)[0] == r[0][0]
  {
  }

  /** The absolute form of a path is its absolute directory, stepped by its last
      element: the parent of the path, the path itself, or (for "..") a child. */
  lemma AbsOfDir(cwd: Segs, p: string)
    requires Canonical(cwd)
    ensures Abs(cwd, p) == Step(Abs(cwd, Dir(p)), true, p[LastSlash(p) + 1..])
  {
    var i := LastSlash(p);
    AbsClean(cwd, p[..i + 1]);
    if i >= 0 {
      AbsOfDirSlash(cwd, p);
    } else {
      SplitNoSlash(p);
      assert p[..0] == "";
      assert Split("") == [""];
      assert Abs(cwd, "") == cwd;
      assert Abs(cwd, p) == Resolve(cwd, true, [p]);
    }
  }

  lemma AbsOfDirSlash(cwd: Segs, p: string)
    requires Canonical(cwd)
    requires LastSlash(p) >= 0
    ensures Abs(cwd, p) == Step(Abs(cwd, p[..LastSlash(p) + 1]), true, p[LastSlash(p) + 1..])
  {
    var i := LastSlash(p);
    SplitAtLastSlash(p);
    var z := p[..i + 1];
    assert IsAbs(z) == IsAbs(p) by {
      if i == 0 { assert z == "/"; } else { assert z[0] == p[0]; }
    }
    var base := if IsAbs(p) then [] else cwd;
    ResolveSnoc(base, true, Split(p[..i]), "");
    ResolveSnoc(base, true, Split(p[..i]), p[i + 1..]);
  }

  /** Cleaning keeps a path absolute or relative, and never yields "". */
  lemma CleanKeepsRootedness(s: string)
    ensures IsAbs(Clean(s)) == IsAbs(s)
    ensures Clean(s) != ""
  {
    if !IsAbs(s) {
      var r := Resolve([], false, Split(s));
      ResolveRelStack([], Split(s));
      if r != [] {
        JoinHead(r);
      }
    }
  }

  /** Joining onto a non-empty path keeps it absolute or relative, and non-empty. */
  lemma JoinKeepsRootedness(a: string, b: string)
    requires a != ""
    ensures IsAbs(Join(a, b)) == IsAbs(a)
    ensures Join(a, b) != ""
  {
    CleanKeepsRootedness(a + "/" + b);
    assert (a + "/" + b)[0] == a[0];
  }

  // ---------------------------------------------------------------------------
  // Base

  lemma BaseOfName(dir: string, name: string)
    requires IsName(name)
    ensures Base(dir + "/" + name) == name
  {
    var p := dir + "/" + name;
    assert p[|p| - 1] == name[|name| - 1];
    assert TrimTrailingSlashes(p) == p;
    var i := LastSlash(p);
    assert p[|dir|] == '/';
    assert i == |dir| by {
      forall j | |dir| < j < |p| ensures p[j] != '/' {
        assert p[j] == name[j - |dir| - 1];
      }
    }
    assert p[i + 1..] == name;
  }

  /** A single name is its own base name. */
  lemma BaseOfPlainName(name: string)
    requires IsName(name)
    ensures Base(name) == name
  {
    assert name[|name| - 1] != '/';
    assert TrimTrailingSlashes(name) == name;
    assert LastSlash(name) == -1;
    assert name[0..] == name;
  }

  /** A trailing separator does not change the base name of a non-empty path. */
  lemma BaseIgnoresTrailingSlash(s: string)
    requires s != ""
    ensures Base(s + "/") == Base(s)
  {
    assert (s + "/")[..|s|] == s;
    assert TrimTrailingSlashes(s + "/") == TrimTrailingSlashes(s);
  }

  /** The name of a directory entry, which ends in '/', has the directory's own
      name as its base name, with or without leading directories. */
  lemma BaseOfDirectoryName(dir: string, name: string)
    requires IsName(name)
    ensures Base(name + "/") == name
    ensures Base(dir + "/" + name + "/") == name
  {
    BaseIgnoresTrailingSlash(name);
    BaseOfPlainName(name);
    BaseIgnoresTrailingSlash(dir + "/" + name);
    BaseOfName(dir, name);
  }

  /** The empty path has base name ".", and a path of separators only has "/". */
  lemma BaseOfEmptyAndSlashes(s: string)
    requires forall i :: 0 <= i < |s| ==> s[i] == '/'
    ensures Base(s) == if s == "" then "." else "/"
  {
  }

  lemma BaseIdempotent(p: string)
    ensures Base(Base(p)) == Base(p)
  {
    var b := Base(p);
    if b == "/" {
    } else {
      assert b[|b| - 1] != '/';
      assert TrimTrailingSlashes(b) == b;
      assert LastSlash(b) == -1;
      assert b[0..] == b;
    }
  }

  // ---------------------------------------------------------------------------
  // Rendering canonical paths

  lemma {:induction false} JoinSegsAppend(xs: seq<string>, ys: seq<string>)
    requires xs != [] && ys != []
    ensures JoinSegs(xs + ys) == JoinSegs(xs) + "/" + JoinSegs(ys)
    decreases |xs|
  {
    if |xs| == 1 {
      assert (xs + ys)[1..] == ys;
    } else {
      assert (xs + ys)[1..] == xs[1..] + ys;
      JoinSegsAppend(xs[1..], ys);
    }
  }

  /** A canonical path renders to a string it can be read back from. */
  lemma RenderCanonical(p: Segs)
    requires Canonical(p) && p != []
    ensures Split(JoinSegs(p)) == p
    ensures |JoinSegs(p)| > 0 && JoinSegs(p)[0] != '/'
  {
    SplitJoin(p);
    JoinHead(p);
  }

  /** A name joined onto a directory lands directly inside it. */
  lemma AbsJoinName(cwd: Segs, dir: string, n: string)
    requires Canonical(cwd) && dir != "" && IsName(n)
    ensures Abs(cwd, Join(dir, n)) == Abs(cwd, dir) + [n]
  {
    var s := dir + "/" + n;
    AbsClean(cwd, s);
    assert s[0] == dir[0];
    SplitAppend(dir, n);
    SplitNoSlash(n);
    ResolveSnoc(if IsAbs(dir) then [] else cwd, true, Split(dir), n);
  }
}
