/** POSIX paths as Node's `path.resolve` and `path.dirname` compute them, and
    the page path computation both plugins share. */
module Paths {

  /** An absolute path, as its segments below the root: "/a/b" is
      Path(["a", "b"]) and "/" is Path([]). */
  datatype Path = Path(segments: seq<string>)

  const Root := Path([])

  /** A segment that can stand in a normalised path. */
  predicate IsName(s: string) {
    s != "" && s != "." && s != ".." && '/' !in s
  }

  predicate AllNames(segs: seq<string>) {
    forall i :: 0 <= i < |segs| ==> IsName(segs[i])
  }

  /** What `path.resolve` returns: no empty, "." or ".." segment, no trailing '/'. */
  predicate Normalized(p: Path) {
    AllNames(p.segments)
  }

  predicate IsRooted(s: string) {
    |s| > 0 && s[0] == '/'
  }

  /** Splits a path string at every '/': "" gives [""], "/a" gives ["", "a"]. */
  function Split(s: string): (r: seq<string>)
    ensures |r| >= 1
    ensures forall i :: 0 <= i < |r| ==> '/' !in r[i]
  {
    if s == [] then [""]
    else
      var tail := Split(s[1..]);
      if s[0] == '/' then [""] + tail else [[s[0]] + tail[0]] + tail[1..]
  }

  /** Puts segments back together with '/' between them. */
  function Join(segs: seq<string>): string {
    if segs == [] then ""
    else if |segs| == 1 then segs[0]
    else segs[0] + "/" + Join(segs[1..])
  }

  /** One segment of the normalisation `path.resolve` applies: "" and "." stay
      put, ".." goes up (and stays at the root), a name goes down. */
  function Step(dir: seq<string>, seg: string): seq<string> {
    if seg == "" || seg == "." then dir
    else if seg == ".." then (if dir == [] then [] else dir[..|dir| - 1])
    else dir + [seg]
  }

  /** Walks the segments one by one from directory `dir`. */
  function Walk(dir: seq<string>, segs: seq<string>): (r: seq<string>)
    ensures AllNames(dir) && (forall j :: 0 <= j < |segs| ==> '/' !in segs[j]) ==> AllNames(r)
    decreases |segs|
  {
    if segs == [] then dir else Walk(Step(dir, segs[0]), segs[1..])
  }

  /** `path.resolve(base, src)`: a `src` starting with '/' starts again from
      the filesystem root; any other is joined to the string form of `base`
      with '/'. The joined string is then normalised. */
  function Resolve(base: Path, src: string): (r: Path)
    ensures Normalized(r)
    ensures Normalized(base) && src == "" ==> r == base
  {
    if IsRooted(src) then Path(Walk([], Split(src)))
    else
      assert Normalized(base) ==> Walk([], Split(Print(base) + "/" + src)) == Walk(base.segments, Split(src)) by {
        if Normalized(base) { WalkPrintedBase(base, src); }
      }
      assert Split("") == [""];
      assert [""][1..] == [];
      Path(Walk([], Split(Print(base) + "/" + src)))
  }

  /** `path.dirname` of a normalised path: its parent, and "/" for "/". */
  function Dirname(p: Path): (r: Path)
    ensures r.segments <= p.segments
    ensures |r.segments| == if p.segments == [] then 0 else |p.segments| - 1
    ensures Normalized(p) ==> Normalized(r)
  {
    if p.segments == [] then p else Path(p.segments[..|p.segments| - 1])
  }

  /** The string form of a path, as `path.resolve` prints it. */
  function Print(p: Path): string {
    "/" + Join(p.segments)
  }

  /** `s.replace(/^\/+/, '')`: drops every leading '/'. */
  function StripLeadingSlashes(s: string): (r: string)
    ensures |r| <= |s| && r == s[|s| - |r|..]
    ensures !IsRooted(r)
    ensures forall i :: 0 <= i < |s| - |r| ==> s[i] == '/'
  {
    if IsRooted(s) then StripLeadingSlashes(s[1..]) else s
  }

  /** The page's file: its logical path with the leading slashes stripped,
      resolved against the site root. */
  function PageFile(root: Path, pagePath: string): Path {
    Resolve(root, StripLeadingSlashes(pagePath))
  }

  /** The base directory the inliner starts from for a page. */
  function PageBaseDir(root: Path, pagePath: string): Path {
    Dirname(PageFile(root, pagePath))
  }

  // ---------------------------------------------------------------------------
  // Split and Join

  lemma {:induction false} JoinSplit(s: string)
    ensures Join(Split(s)) == s
  {
    if s != [] {
      var tail := Split(s[1..]);
      JoinSplit(s[1..]);
      if s[0] == '/' {
        assert Split(s) == [""] + tail;
      } else if |tail| == 1 {
        assert Split(s) == [[s[0]] + tail[0]];
      } else {
        assert Join(tail) == tail[0] + "/" + Join(tail[1..]);
        assert Split(s)[1..] == tail[1..];
      }
    }
  }

  lemma {:induction false} SplitNoSlash(s: string)
    requires '/' !in s
    ensures Split(s) == [s]
  {
    if s != [] {
      assert '/' !in s[1..] by {
        forall i | 0 <= i < |s[1..]| ensures s[1..][i] != '/' {
          assert s[1..][i] == s[i + 1];
        }
      }
      SplitNoSlash(s[1..]);
      assert [s[0]] + s[1..] == s;
    }
  }

  lemma {:induction false} SplitAppend(a: string, b: string)
    ensures Split(a + "/" + b) == Split(a) + Split(b)
  {
    if a == [] {
      assert (a + "/" + b)[1..] == b;
    } else {
      assert (a + "/" + b)[1..] == a[1..] + "/" + b;
      SplitAppend(a[1..], b);
    }
  }

  lemma {:induction false} SplitJoin(segs: seq<string>)
    requires |segs| >= 1
    requires forall i :: 0 <= i < |segs| ==> '/' !in segs[i]
    ensures Split(Join(segs)) == segs
  {
    if |segs| == 1 {
      SplitNoSlash(segs[0]);
    } else {
      SplitAppend(segs[0], Join(segs[1..]));
      SplitNoSlash(segs[0]);
      SplitJoin(segs[1..]);
    }
  }

  // ---------------------------------------------------------------------------
  // Walk and Resolve

  lemma {:induction false} WalkAppend(dir: seq<string>, xs: seq<string>, ys: seq<string>)
    ensures Walk(dir, xs + ys) == Walk(Walk(dir, xs), ys)
    decreases |xs|
  {
    if xs != [] {
      assert (xs + ys)[0] == xs[0] && (xs + ys)[1..] == xs[1..] + ys;
      WalkAppend(Step(dir, xs[0]), xs[1..], ys);
    } else {
      assert xs + ys == ys;
    }
  }

  /** Walking down names only appends them. */
  lemma {:induction false} WalkNames(dir: seq<string>, segs: seq<string>)
    requires AllNames(segs)
    ensures Walk(dir, segs) == dir + segs
    decreases |segs|
  {
    if segs != [] {
      WalkNames(dir + [segs[0]], segs[1..]);
      assert dir + [segs[0]] + segs[1..] == dir + segs;
    }
  }

  /** Without "..", walking never leaves the starting directory. */
  lemma {:induction false} WalkStaysBelow(dir: seq<string>, segs: seq<string>)
    requires forall i :: 0 <= i < |segs| ==> segs[i] != ".."
    ensures dir <= Walk(dir, segs)
    decreases |segs|
  {
    if segs != [] {
      WalkStaysBelow(Step(dir, segs[0]), segs[1..]);
    }
  }

  /** The string form of a normalised path walks back to it. */
  lemma WalkPrinted(p: Path)
    requires Normalized(p)
    ensures Walk([], Split(Print(p))) == p.segments
  {
    var s := Print(p);
    assert s[1..] == Join(p.segments);
    if p.segments == [] {
      assert s == "/";
      assert Split(s) == ["", ""];
      assert Walk([], ["", ""]) == Walk([], [""]) == Walk([], []);
    } else {
      SplitJoin(p.segments);
      assert Split(s) == [""] + p.segments;
      WalkNames([], p.segments);
    }
  }

  /** Joining a relative `src` to a normalised base walks `src` from the base. */
  lemma WalkPrintedBase(base: Path, src: string)
    requires Normalized(base)
    ensures Walk([], Split(Print(base) + "/" + src)) == Walk(base.segments, Split(src))
  {
    SplitAppend(Print(base), src);
    WalkAppend([], Split(Print(base)), Split(src));
    WalkPrinted(base);
  }

  /** A src starting with '/' names the same file from every base directory:
      it is read from the filesystem root. */
  lemma ResolveRootedFromFsRoot(base: Path, rest: string)
    ensures Resolve(base, "/" + rest) == Resolve(Root, rest)
  {
    assert ("/" + rest)[1..] == rest;
    assert Split("/" + rest) == [""] + Split(rest);
    if !IsRooted(rest) {
      WalkPrintedBase(Root, rest);
    }
  }

  /** `src="b.html"` in a file of directory `dir` names `dir/b.html`, whose
      directory is `dir` again. */
  lemma ResolveName(dir: Path, name: string)
    requires Normalized(dir) && IsName(name)
    ensures Resolve(dir, name) == Path(dir.segments + [name])
    ensures Dirname(Resolve(dir, name)) == dir
  {
    SplitNoSlash(name);
    WalkPrintedBase(dir, name);
    WalkNames(dir.segments, [name]);
  }

  /** Resolving "x/y" is resolving "x" and then "y" from there. */
  lemma ResolveCompose(base: Path, x: string, y: string)
    requires x != "" && !IsRooted(y)
    ensures Resolve(base, x + "/" + y) == Resolve(Resolve(base, x), y)
  {
    SplitAppend(x, y);
    assert (x + "/" + y)[0] == x[0];
    WalkPrintedBase(Resolve(base, x), y);
    if IsRooted(x) {
      WalkAppend([], Split(x), Split(y));
    } else {
      var b := Print(base);
      assert b + "/" + (x + "/" + y) == (b + "/" + x) + "/" + y;
      SplitAppend(b + "/" + x, y);
      WalkAppend([], Split(b + "/" + x), Split(y));
    }
  }

  /** `src=".."` names the parent of the including file's directory. */
  lemma ResolveParent(dir: Path)
    requires Normalized(dir)
    ensures Resolve(dir, "..") == Dirname(dir)
  {
    WalkPrintedBase(dir, "..");
    SplitNoSlash("..");
  }

  /** `src="."` names the including file's directory itself. */
  lemma ResolveDot(dir: Path)
    requires Normalized(dir)
    ensures Resolve(dir, ".") == dir
  {
    WalkPrintedBase(dir, ".");
    SplitNoSlash(".");
  }

  /** A relative `src` is resolved from the base as `path.resolve` would
      normalise it first: any "." or ".." inside the base counts. */
  lemma ResolveBaseNormalised(base: Path, src: string)
    requires !IsRooted(src)
    ensures Resolve(base, src) == Resolve(Resolve(Root, Print(base)), src)
  {
    ResolveCompose(Root, Print(base), src);
    assert (Print(base) + "/" + src)[0] == '/';
  }

  /** The printed form of a normalised path resolves back to it, from any base. */
  lemma ResolvePrint(base: Path, p: Path)
    requires Normalized(p)
    ensures Resolve(base, Print(p)) == p
  {
    WalkPrinted(p);
  }

  lemma {:induction false} WalkStripped(dir: seq<string>, s: string)
    ensures Walk(dir, Split(StripLeadingSlashes(s))) == Walk(dir, Split(s))
    decreases |s|
  {
    if IsRooted(s) {
      WalkStripped(dir, s[1..]);
      assert Split(s) == [""] + Split(s[1..]);
    }
  }

  /** The page path is resolved below the site root even though it begins
      with '/': leading slashes are stripped first and add nothing. */
  lemma PageFileFromRoot(root: Path, pagePath: string)
    requires Normalized(root)
    ensures PageFile(root, pagePath) == Path(Walk(root.segments, Split(pagePath)))
  {
    WalkPrintedBase(root, StripLeadingSlashes(pagePath));
    WalkStripped(root.segments, pagePath);
  }

  /** A page path without ".." names a file below the site root. */
  lemma PageFileBelowRoot(root: Path, pagePath: string)
    requires Normalized(root)
    requires forall i :: 0 <= i < |Split(pagePath)| ==> Split(pagePath)[i] != ".."
    ensures root.segments <= PageFile(root, pagePath).segments
  {
    PageFileFromRoot(root, pagePath);
    WalkStaysBelow(root.segments, Split(pagePath));
  }
}
