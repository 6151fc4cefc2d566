/** Node's `path.posix.basename` and `path.posix.dirname` (without the
    extension argument), which the server applies to the paths it receives
    unnormalised. */
module PosixPath {
  import opened Strings
  import opened PathNormalizer

  /** `p` without its trailing slashes. */
  function StripTrailingSlashes(p: string): (r: string)
    ensures |r| <= |p| && r == p[..|r|]
    ensures r == "" || r[|r| - 1] != '/'
    ensures forall i :: |r| <= i < |p| ==> p[i] == '/'
    decreases |p|
  {
    if |p| > 0 && p[|p| - 1] == '/' then StripTrailingSlashes(p[..|p| - 1]) else p
  }

  /** `path.posix.basename(p)`: the last component, ignoring trailing
      slashes; empty for `""` and for a path of slashes only. */
  function Basename(p: string): (r: string)
    ensures '/' !in r
  {
    var s := StripTrailingSlashes(p);
    s[LastIndexOf(s, '/') + 1..]
  }

  /** `path.posix.dirname(p)`: everything before the last component, `.` when
      there is no slash before it, `/` (or `//`) when the slash is the root's. */
  function Dirname(p: string): (r: string)
    ensures r != ""
  {
    if p == "" then "."
    else
      var s := StripTrailingSlashes(p);
      var k := LastIndexOf(s, '/');
      if k < 1 then (if p[0] == '/' then "/" else ".")
      else if p[0] == '/' && k == 1 then "//"
      else s[..k]
  }

  /** The last `c` of `a + [c] + b` is the one at `|a|` when `b` has none. */
  lemma {:induction false} LastIndexOfSeparator(a: string, b: string, c: char)
    requires c !in b
    ensures LastIndexOf(a + [c] + b, c) == |a|
    decreases |b|
  {
    var s := a + [c] + b;
    if |b| > 0 {
      assert s[|s| - 1] == b[|b| - 1];
      assert s[..|s| - 1] == a + [c] + b[..|b| - 1];
      LastIndexOfSeparator(a, b[..|b| - 1], c);
    }
  }

  /** For a normalised absolute path other than `/`, the server's two helpers
      agree with the browser's segments: the base name is the last segment
      and the directory name is the rendering of the others. */
  lemma NormalPathParts(c: string)
    requires IsNormal(c) && IsAbsolute(c) && c != "/"
    ensures var segs := Segments(c);
      && |segs| > 0
      && Basename(c) == Last(segs)
      && Dirname(c) == Render(segs[..|segs| - 1], true)
  {
    var segs := Segments(c);
    assert c == Render(segs, true);
    assert |segs| > 0;
    var last := Last(segs);
    var front := segs[..|segs| - 1];
    assert segs == front + [last];
    if |front| == 0 {
      assert segs == [last];
      OneSegment(last);
    } else {
      JoinAppend(front, last, '/');
      assert IsPart(segs[0]) && front[0] == segs[0];
      SeveralSegments(front, last);
    }
  }

  lemma OneSegment(x: string)
    requires IsPart(x)
    ensures Basename("/" + x) == x && Dirname("/" + x) == "/"
  {
    var c := "/" + x;
    LastIndexOfSeparator("", x, '/');
    assert c == "" + ['/'] + x;
    assert StripTrailingSlashes(c) == c;
  }

  lemma SeveralSegments(front: seq<string>, x: string)
    requires |front| > 0 && front[0] != "" && IsPart(x)
    ensures var c := "/" + (Join(front, '/') + ['/'] + x);
      Basename(c) == x && Dirname(c) == Render(front, true)
  {
    var j := Join(front, '/');
    JoinStartsWithFirst(front);
    var a := "/" + j;
    assert Render(front, true) == a;
    LastComponent(a, x, "/" + (j + ['/'] + x));
  }

  lemma JoinStartsWithFirst(xs: seq<string>)
    requires |xs| > 0 && xs[0] != ""
    ensures |Join(xs, '/')| >= |xs[0]| > 0
  {
  }

  /** A path `c` that is `a/x`, with `a` rooted and longer than `/` and `x` a
      proper name: `x` is its base name and `a` its directory. */
  lemma LastComponent(a: string, x: string, c: string)
    requires |a| >= 2 && a[0] == '/' && IsPart(x) && c == a + ['/'] + x
    ensures Basename(c) == x && Dirname(c) == a
  {
    assert c[|c| - 1] == x[|x| - 1];
    assert StripTrailingSlashes(c) == c;
    LastIndexOfSeparator(a, x, '/');
    assert c[|a| + 1..] == x;
    assert c[..|a|] == a;
  }

  /** Applied to `/` both helpers say nothing useful: the base name is empty
      and the directory is `/` itself. */
  lemma RootParts()
    ensures Basename("/") == "" && Dirname("/") == "/"
  {
    assert StripTrailingSlashes("/") == "";
  }

  /** A trailing slash does not change either helper's answer. */
  lemma TrailingSlashIgnored(p: string)
    requires p != ""
    ensures Basename(p + "/") == Basename(p)
    ensures Dirname(p + "/") == Dirname(p)
  {
    assert (p + "/")[..|p + "/"| - 1] == p;
  }

  /** A relative name without any slash lives in `.`. */
  lemma PlainNameParts(name: string)
    requires name != "" && '/' !in name
    ensures Basename(name) == name && Dirname(name) == "."
  {
    assert StripTrailingSlashes(name) == name;
    assert name[0..] == name;
  }
}
