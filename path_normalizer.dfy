/** The browser's path normaliser (`normalizePath`, public/js/client.js): the
    one place in the system where `.` and `..` are resolved, repeated
    separators collapsed and backslashes turned into slashes. Every file
    operation of the client builds its request path through it. */
module PathNormalizer {
  import opened Strings

  /** `p.replace(/\\/g, '/')`. */
  function ReplaceBackslashes(s: string): (r: string)
    ensures |r| == |s| && '\\' !in r
    ensures '\\' !in s ==> r == s
    ensures |s| > 0 ==> (r[0] == '/' <==> s[0] == '/' || s[0] == '\\')
  {
    seq(|s|, i requires 0 <= i < |s| => if s[i] == '\\' then '/' else s[i])
  }

  /** No two adjacent slashes. */
  predicate NoDoubleSlash(s: string)
    decreases |s|
  {
    |s| < 2 || (!(s[0] == '/' && s[1] == '/') && NoDoubleSlash(s[1..]))
  }

  /** `p.replace(/\/\/+/g, '/')`: every run of two or more slashes becomes one slash. */
  function CollapseSlashes(s: string): (r: string)
    ensures |r| <= |s|
    ensures |s| > 0 ==> |r| > 0 && r[0] == s[0]
    ensures NoDoubleSlash(s) ==> r == s
    decreases |s|
  {
    if |s| < 2 then s
    else if s[0] == '/' && s[1] == '/' then CollapseSlashes(s[1..])
    else
      assert s == [s[0]] + s[1..];
      [s[0]] + CollapseSlashes(s[1..])
  }

  lemma {:induction false} CollapseKeepsAbsent(s: string, c: char)
    requires c !in s
    ensures c !in CollapseSlashes(s)
    decreases |s|
  {
    if |s| >= 2 {
      assert c !in s[1..] by { assert s == [s[0]] + s[1..]; }
      CollapseKeepsAbsent(s[1..], c);
    }
  }

  /** `p.startsWith('/')`, asked of the string after the two replacements. */
  predicate IsAbsolute(p: string) {
    |p| > 0 && p[0] == '/'
  }

  /** `p.split('/').filter(part => part !== '')`. */
  function Segments(p: string): seq<string> {
    NonEmpty(Split(p, '/'))
  }

  /** What a segment can be once it has come out of `Segments`. */
  predicate IsPart(x: string) {
    x != "" && '/' !in x && '\\' !in x
  }

  /** One iteration of the loop over the segments: `..` pops the previous
      segment unless there is none or it is itself `..`; then an absolute path
      discards the `..` and a relative one keeps it; `.` is dropped; anything
      else is pushed. */
  function Step(stack: seq<string>, part: string, abs: bool): seq<string> {
    if part == ".." then
      if |stack| > 0 && Last(stack) != ".." then stack[..|stack| - 1]
      else if abs then stack
      else stack + [part]
    else if part != "." then stack + [part]
    else stack
  }

  /** The loop itself, from a given stack over the remaining segments. */
  function Resolve(stack: seq<string>, parts: seq<string>, abs: bool): seq<string>
    decreases |parts|
  {
    if |parts| == 0 then stack else Resolve(Step(stack, parts[0], abs), parts[1..], abs)
  }

  /** The final assembly: a leading `/` for absolute paths, the segments joined
      by `/`, and `/` for an empty result. */
  function Render(parts: seq<string>, abs: bool): string {
    var n := if abs then "/" + Join(parts, '/') else Join(parts, '/');
    if n == "" then "/" else n
  }

  /** `normalizePath(p)` as a value. */
  function Normalize(p: string): (r: string)
    ensures r != ""
    ensures p == "" ==> r == "/"
  {
    if p == "" then "/"
    else
      var q := CollapseSlashes(ReplaceBackslashes(p));
      Render(Resolve([], Segments(q), IsAbsolute(q)), IsAbsolute(q))
  }

  /** `normalizePath` as the client runs it: a loop that pushes and pops
      segments on `normalizedParts`, then the assembly of the result. */
  method NormalizePath(p: string) returns (r: string)
    ensures r == Normalize(p)
  {
    if p == "" {
      return "/";
    }
    var q := CollapseSlashes(ReplaceBackslashes(p));
    var abs := IsAbsolute(q);
    var normalizedParts := ResolveSegments(Segments(q), abs);
    var normalized := if abs then "/" + Join(normalizedParts, '/') else Join(normalizedParts, '/');
    r := if normalized == "" then "/" else normalized;
  }

  /** The loop over the segments. */
  method ResolveSegments(parts: seq<string>, abs: bool) returns (normalizedParts: seq<string>)
    ensures normalizedParts == Resolve([], parts, abs)
  {
    normalizedParts := [];
    for i := 0 to |parts|
      invariant Resolve(normalizedParts, parts[i..], abs) == Resolve([], parts, abs)
    {
      var part := parts[i];
      ghost var before := normalizedParts;
      ResolveAt(before, parts, i, abs);
      if part == ".." {
        if |normalizedParts| > 0 && normalizedParts[|normalizedParts| - 1] != ".." {
          normalizedParts := normalizedParts[..|normalizedParts| - 1];
        } else if abs {
          continue;
        } else {
          normalizedParts := normalizedParts + [part];
        }
      } else if part != "." {
        normalizedParts := normalizedParts + [part];
      }
      assert normalizedParts == Step(before, part, abs);
    }
    assert parts[|parts|..] == [];
  }

  lemma ResolveAt(stack: seq<string>, parts: seq<string>, i: nat, abs: bool)
    requires i < |parts|
    ensures Resolve(stack, parts[i..], abs) == Resolve(Step(stack, parts[i], abs), parts[i + 1..], abs)
  {
    assert parts[i..][0] == parts[i] && parts[i..][1..] == parts[i + 1..];
  }

  /** The shape of a resolved segment list: no empty, `.`, slash or backslash
      segment; `..` only in a leading run; and no `..` at all when absolute. */
  predicate Reduced(xs: seq<string>, abs: bool) {
    && (forall i :: 0 <= i < |xs| ==> IsPart(xs[i]) && xs[i] != ".")
    && (forall i, j :: 0 <= i < j < |xs| && xs[j] == ".." ==> xs[i] == "..")
    && (abs ==> forall i :: 0 <= i < |xs| ==> xs[i] != "..")
  }

  lemma StepReduced(stack: seq<string>, part: string, abs: bool)
    requires Reduced(stack, abs) && IsPart(part)
    ensures Reduced(Step(stack, part, abs), abs)
  {
    if part == ".." && !(|stack| > 0 && Last(stack) != "..") && !abs {
      var s := stack + [part];
      forall i, j | 0 <= i < j < |s| && s[j] == ".." ensures s[i] == ".." {
        if j == |stack| && i < |stack| - 1 {
          assert stack[|stack| - 1] == "..";
        }
      }
    }
  }

  lemma {:induction false} ResolveReduced(stack: seq<string>, parts: seq<string>, abs: bool)
    requires Reduced(stack, abs)
    requires forall i :: 0 <= i < |parts| ==> IsPart(parts[i])
    ensures Reduced(Resolve(stack, parts, abs), abs)
    decreases |parts|
  {
    if |parts| > 0 {
      StepReduced(stack, parts[0], abs);
      ResolveReduced(Step(stack, parts[0], abs), parts[1..], abs);
    }
  }

  /** On a list that is already in reduced shape the loop changes nothing. */
  lemma {:induction false} ResolveIdentity(stack: seq<string>, rest: seq<string>, abs: bool)
    requires Reduced(stack + rest, abs)
    ensures Resolve(stack, rest, abs) == stack + rest
    decreases |rest|
  {
    if |rest| > 0 {
      var all := stack + rest;
      assert all[|stack|] == rest[0];
      if rest[0] == ".." && |stack| > 0 {
        assert all[|stack| - 1] == stack[|stack| - 1];
      }
      assert Step(stack, rest[0], abs) == stack + [rest[0]];
      assert (stack + [rest[0]]) + rest[1..] == all;
      ResolveIdentity(stack + [rest[0]], rest[1..], abs);
    }
  }

  lemma {:induction false} ResolveAppend(stack: seq<string>, a: seq<string>, b: seq<string>, abs: bool)
    ensures Resolve(stack, a + b, abs) == Resolve(Resolve(stack, a, abs), b, abs)
    decreases |a|
  {
    if |a| == 0 {
      assert a + b == b;
    } else {
      assert (a + b)[0] == a[0] && (a + b)[1..] == a[1..] + b;
      ResolveAppend(Step(stack, a[0], abs), a[1..], b, abs);
    }
  }

  lemma {:induction false} SplitKeepsAbsent(s: string, sep: char, c: char)
    requires c !in s
    ensures forall i :: 0 <= i < |Split(s, sep)| ==> c !in Split(s, sep)[i]
    decreases |s|
  {
    if |s| > 0 {
      assert c !in s[1..] by { assert s == [s[0]] + s[1..]; }
      SplitKeepsAbsent(s[1..], sep, c);
    }
  }

  lemma SegmentsAreParts(q: string)
    requires '\\' !in q
    ensures forall i :: 0 <= i < |Segments(q)| ==> IsPart(Segments(q)[i])
  {
    SplitKeepsAbsent(q, '/', '\\');
  }

  lemma {:induction false} NoDoubleSlashConcat(a: string, b: string)
    requires NoDoubleSlash(a) && NoDoubleSlash(b)
    requires !(|a| > 0 && |b| > 0 && a[|a| - 1] == '/' && b[0] == '/')
    ensures NoDoubleSlash(a + b)
    decreases |a|
  {
    if |a| > 0 {
      var t := a[1..];
      assert NoDoubleSlash(t);
      assert !(|t| > 0 && |b| > 0 && t[|t| - 1] == '/' && b[0] == '/');
      NoDoubleSlashConcat(t, b);
      var s := a + b;
      assert s[1..] == t + b;
      if |s| >= 2 {
        assert s[0] == a[0];
        assert s[1] == if |a| > 1 then a[1] else b[0];
        assert !(s[0] == '/' && s[1] == '/');
      }
    } else {
      assert a + b == b;
    }
  }

  lemma {:induction false} SlashFreeNoDoubleSlash(s: string)
    requires '/' !in s
    ensures NoDoubleSlash(s)
    decreases |s|
  {
    if |s| >= 2 {
      assert '/' !in s[1..] by { assert s == [s[0]] + s[1..]; }
      SlashFreeNoDoubleSlash(s[1..]);
    }
  }

  /** The string `Join(xs, '/')` of proper segments: non-empty, no slash at
      either end, no double slash and no backslash. */
  lemma {:induction false} JoinedParts(xs: seq<string>)
    requires |xs| > 0
    requires forall i :: 0 <= i < |xs| ==> IsPart(xs[i])
    ensures var j := Join(xs, '/');
      && j != "" && j[0] != '/' && j[|j| - 1] != '/'
      && NoDoubleSlash(j) && '\\' !in j
    decreases |xs|
  {
    assert IsPart(xs[0]);
    SlashFreeNoDoubleSlash(xs[0]);
    if |xs| > 1 {
      JoinedParts(xs[1..]);
      var rest := Join(xs[1..], '/');
      NoDoubleSlashConcat(xs[0], ['/']);
      NoDoubleSlashConcat(xs[0] + ['/'], rest);
      assert Join(xs, '/') == (xs[0] + ['/']) + rest;
      assert Join(xs, '/')[0] == xs[0][0];
    }
  }

  lemma {:induction false} JoinAppend(xs: seq<string>, y: string, sep: char)
    requires |xs| > 0
    ensures Join(xs + [y], sep) == Join(xs, sep) + [sep] + y
    decreases |xs|
  {
    if |xs| == 1 {
      assert xs + [y] == [xs[0], y];
    } else {
      assert (xs + [y])[1..] == xs[1..] + [y];
      JoinAppend(xs[1..], y, sep);
    }
  }

  /** A rendered list of proper segments passes through both replacements
      unchanged and splits back into the same segments with the same
      absoluteness. */
  lemma RenderedFacts(xs: seq<string>, abs: bool)
    requires |xs| > 0
    requires forall i :: 0 <= i < |xs| ==> IsPart(xs[i])
    ensures var s := (if abs then "/" else "") + Join(xs, '/');
      && s == Render(xs, abs)
      && CollapseSlashes(ReplaceBackslashes(s)) == s
      && Segments(s) == xs
      && IsAbsolute(s) == abs
  {
    JoinedParts(xs);
    var j := Join(xs, '/');
    var s := (if abs then "/" else "") + j;
    SplitJoin(xs, '/');
    NonEmptyIdentity(xs);
    if abs {
      NoDoubleSlashConcat("/", j);
      assert s[1..] == j;
    } else {
      assert s == j;
    }
  }

  /** Normalising a rendered list of proper segments runs the loop on exactly
      those segments. */
  lemma NormalizeRendered(xs: seq<string>, abs: bool)
    requires |xs| > 0
    requires forall i :: 0 <= i < |xs| ==> IsPart(xs[i])
    ensures Normalize((if abs then "/" else "") + Join(xs, '/')) == Render(Resolve([], xs, abs), abs)
  {
    RenderedFacts(xs, abs);
  }

  /** The shape of every result of `normalizePath`: the rendering of its own
      segments, which are in reduced shape. */
  predicate IsNormal(c: string) {
    Reduced(Segments(c), IsAbsolute(c)) && c == Render(Segments(c), IsAbsolute(c))
  }

  /** Every result of `normalizePath` is normal. */
  lemma NormalForm(p: string)
    ensures IsNormal(Normalize(p))
  {
    var c := Normalize(p);
    assert Split("/", '/') == ["", ""];
    if p != "" {
      var q := CollapseSlashes(ReplaceBackslashes(p));
      CollapseKeepsAbsent(ReplaceBackslashes(p), '\\');
      SegmentsAreParts(q);
      var parts := Resolve([], Segments(q), IsAbsolute(q));
      ResolveReduced([], Segments(q), IsAbsolute(q));
      if |parts| > 0 {
        RenderedFacts(parts, IsAbsolute(q));
      }
    }
  }

  /** A normal path is a fixed point of `normalizePath`. */
  lemma NormalIsFixedPoint(c: string)
    requires IsNormal(c)
    ensures Normalize(c) == c
  {
    var parts := Segments(c);
    if |parts| > 0 {
      RenderedFacts(parts, IsAbsolute(c));
      ResolveIdentity([], parts, IsAbsolute(c));
      assert [] + parts == parts;
    } else {
      RootIsFixed(c);
    }
  }

  lemma RootIsFixed(c: string)
    requires c == "/"
    ensures Normalize(c) == c
  {
    assert Split("/", '/') == ["", ""];
    NormalizeVia(c, "/");
  }

  lemma Idempotent(p: string)
    ensures Normalize(Normalize(p)) == Normalize(p)
  {
    NormalForm(p);
    NormalIsFixedPoint(Normalize(p));
  }

  lemma AppendToRoot(name: string)
    requires IsPart(name)
    ensures Normalize("/" + "/" + name) == Render(Step([], name, true), true)
  {
    var s := "/" + "/" + name;
    var x := "/" + Join([name], '/');
    assert '\\' !in s;
    assert ReplaceBackslashes(s) == s;
    assert s[1..] == x;
    assert CollapseSlashes(s) == CollapseSlashes(x);
    RenderedFacts([name], true);
    assert ReplaceBackslashes(x) == x;
    assert CollapseSlashes(ReplaceBackslashes(s)) == x;
    assert Resolve([], [name], true) == Resolve(Step([], name, true), [], true);
  }

  lemma AppendToRendered(parts: seq<string>, abs: bool, name: string)
    requires |parts| > 0 && Reduced(parts, abs) && IsPart(name)
    ensures Normalize((if abs then "/" else "") + Join(parts, '/') + "/" + name)
         == Render(Step(parts, name, abs), abs)
  {
    var pre := if abs then "/" else "";
    AppendedString(parts, pre, name);
    assert forall i :: 0 <= i < |parts + [name]| ==> IsPart((parts + [name])[i]);
    NormalizeRendered(parts + [name], abs);
    ResolveOneMore(parts, name, abs);
  }

  lemma AppendedString(parts: seq<string>, pre: string, name: string)
    requires |parts| > 0
    ensures pre + Join(parts, '/') + "/" + name == pre + Join(parts + [name], '/')
  {
    JoinAppend(parts, name, '/');
    SlashAssoc(pre, Join(parts, '/'), name);
  }

  lemma SlashAssoc(pre: string, j: string, name: string)
    ensures pre + j + "/" + name == pre + (j + ['/'] + name)
  {
  }

  /** Resolving a reduced list and one more segment is one more step. */
  lemma ResolveOneMore(parts: seq<string>, name: string, abs: bool)
    requires Reduced(parts, abs)
    ensures Resolve([], parts + [name], abs) == Step(parts, name, abs)
  {
    ResolveAppend([], parts, [name], abs);
    ResolveIdentity([], parts, abs);
    assert [] + parts == parts;
  }

  /** Appending `'/' + name` to a normalised path and normalising again performs
      one more loop iteration on `name`: a plain name is appended, `.` changes
      nothing and `..` goes up one level. This is how the client builds every
      child path (`currentPath + '/' + name`). */
  lemma AppendSegment(c: string, name: string)
    requires IsNormal(c) && IsPart(name)
    ensures Normalize(c + "/" + name) == Render(Step(Segments(c), name, IsAbsolute(c)), IsAbsolute(c))
  {
    var parts := Segments(c);
    var abs := IsAbsolute(c);
    if |parts| == 0 {
      assert c == "/";
      AppendToRoot(name);
    } else {
      assert c == (if abs then "/" else "") + Join(parts, '/');
      AppendToRendered(parts, abs, name);
    }
  }

  /** The parent-directory entry of the listing: `normalizePath(currentPath +
      '/..')` drops exactly the last segment of an absolute `currentPath`
      other than `/` (and of a relative one whose last segment is not `..`). */
  lemma ParentDropsLastSegment(c: string)
    requires IsNormal(c) && c != "/"
    ensures var segs := Segments(c);
      && |segs| > 0
      && (IsAbsolute(c) || Last(segs) != ".." ==>
           Normalize(c + "/..") == Render(segs[..|segs| - 1], IsAbsolute(c)))
  {
    NonRootHasSegments(c);
    ParentStep(c, c + "/..");
    if IsAbsolute(c) || Last(Segments(c)) != ".." {
      StepDotDotPops(Segments(c), IsAbsolute(c));
    }
  }

  lemma NonRootHasSegments(c: string)
    requires IsNormal(c) && c != "/"
    ensures |Segments(c)| > 0
  {
  }

  lemma ParentStep(c: string, p: string)
    requires IsNormal(c) && p == c + "/.."
    ensures Normalize(p) == Render(Step(Segments(c), "..", IsAbsolute(c)), IsAbsolute(c))
  {
    assert p == c + "/" + "..";
    AppendSegment(c, "..");
  }

  lemma StepDotDotPops(segs: seq<string>, abs: bool)
    requires Reduced(segs, abs) && |segs| > 0 && (abs || Last(segs) != "..")
    ensures Step(segs, "..", abs) == segs[..|segs| - 1]
  {
    if abs {
      assert segs[|segs| - 1] != "..";
    }
  }

  /** An input that starts with a slash or backslash gives a path that starts
      with `/`, has no empty, `.` or `..` segment and no trailing `/` unless
      it is exactly `/`. */
  lemma AbsoluteInputGivesCleanPath(p: string)
    requires IsAbsolute(ReplaceBackslashes(p))
    ensures var r := Normalize(p);
      && r[0] == '/'
      && (r == "/" || r[|r| - 1] != '/')
      && (r == "/" || forall seg :: seg in Split(r[1..], '/') ==> seg != "" && seg != "." && seg != "..")
  {
    var r := Normalize(p);
    var q := CollapseSlashes(ReplaceBackslashes(p));
    CollapseKeepsAbsent(ReplaceBackslashes(p), '\\');
    SegmentsAreParts(q);
    var parts := Resolve([], Segments(q), true);
    ResolveReduced([], Segments(q), true);
    if |parts| > 0 {
      JoinedParts(parts);
      SplitJoin(parts, '/');
      assert r == "/" + Join(parts, '/');
      assert r[1..] == Join(parts, '/');
    }
  }

  /** A relative input gives `/` or a relative path whose segments are in
      reduced shape: no `.` segment, and `..` only as a leading run that had
      nothing to cancel. */
  lemma RelativeInputKeepsLeadingDotDot(p: string)
    requires p != "" && !IsAbsolute(ReplaceBackslashes(p))
    ensures var r := Normalize(p);
      r == "/" || (r[0] != '/' && Reduced(Split(r, '/'), false))
  {
    var r := Normalize(p);
    var q := CollapseSlashes(ReplaceBackslashes(p));
    CollapseKeepsAbsent(ReplaceBackslashes(p), '\\');
    SegmentsAreParts(q);
    var parts := Resolve([], Segments(q), false);
    ResolveReduced([], Segments(q), false);
    if |parts| > 0 {
      JoinedParts(parts);
      SplitJoin(parts, '/');
    }
  }

  /** `..` cannot climb above `/`. */
  lemma ExampleRootParent()
    ensures Normalize("/..") == "/"
  {
    NormalizeRendered([".."], true);
  }

  /** `..` cancels the segment before it. */
  lemma ExampleDotDotCancels()
    ensures Normalize("/a/b/../c") == "/a/c"
  {
    var xs := ["a", "b", "..", "c"];
    JoinDotDotExample(xs);
    NormalizeRendered(xs, true);
    ResolveDotDotExample(xs);
    assert Render(["a", "c"], true) == "/a/c";
  }

  lemma JoinDotDotExample(xs: seq<string>)
    requires xs == ["a", "b", "..", "c"]
    ensures "/" + Join(xs, '/') == "/a/b/../c"
  {
    assert Join(xs[3..], '/') == "c";
    assert Join(xs[2..], '/') == "../c";
    assert Join(xs[1..], '/') == "b/../c";
  }

  lemma ResolveDotDotExample(xs: seq<string>)
    requires xs == ["a", "b", "..", "c"]
    ensures Resolve([], xs, true) == ["a", "c"]
  {
    assert xs[1..] == ["b", "..", "c"] && xs[2..] == ["..", "c"] && xs[3..] == ["c"];
    assert Step([], "a", true) == ["a"];
    assert Step(["a"], "b", true) == ["a", "b"];
    assert Step(["a", "b"], "..", true) == ["a"];
    assert Step(["a"], "c", true) == ["a", "c"];
    assert Resolve(["a", "c"], [], true) == ["a", "c"];
    assert Resolve(["a"], ["c"], true) == ["a", "c"];
    assert Resolve(["a", "b"], ["..", "c"], true) == ["a", "c"];
    assert Resolve(["a"], ["b", "..", "c"], true) == ["a", "c"];
  }

  lemma CollapseExample()
    ensures CollapseSlashes(ReplaceBackslashes("/a//b/./c/")) == "/a/b/./c/"
  {
    var s := "/a//b/./c/";
    assert '\\' !in s;
    assert ReplaceBackslashes(s) == s;
    CollapseSteps();
  }

  lemma CollapseSteps()
    ensures CollapseSlashes("/a//b/./c/") == "/a/b/./c/"
  {
    var t := "/b/./c/";
    CollapseBuilt(t);
    ExampleSpelled(t);
  }

  lemma ExampleSpelled(t: string)
    requires t == "/b/./c/"
    ensures ['/'] + (['a'] + (['/'] + t)) == "/a//b/./c/"
    ensures ['/'] + (['a'] + t) == "/a/b/./c/"
  {
    var u := ['/'] + t;
    assert |u| == 8 && u[0] == '/' && u[1..] == t;
    var v := ['a'] + u;
    assert v[0] == 'a' && v[1..] == u;
  }

  lemma CollapseBuilt(t: string)
    requires t == "/b/./c/"
    ensures CollapseSlashes(['/'] + (['a'] + (['/'] + t))) == ['/'] + (['a'] + t)
  {
    CollapseTail(t);
    CollapseDuplicate(t);
    CollapseKeep('a', ['/'] + t);
    CollapseKeep('/', ['a'] + (['/'] + t));
  }

  /** A slash before a slash is dropped. */
  lemma CollapseDuplicate(rest: string)
    requires |rest| > 0 && rest[0] == '/'
    ensures CollapseSlashes(['/'] + rest) == CollapseSlashes(rest)
  {
    assert (['/'] + rest)[1..] == rest;
  }

  /** Any other character is kept. */
  lemma CollapseKeep(x: char, rest: string)
    requires |rest| > 0 && !(x == '/' && rest[0] == '/')
    ensures CollapseSlashes([x] + rest) == [x] + CollapseSlashes(rest)
  {
    assert ([x] + rest)[1..] == rest;
  }

  lemma CollapseTail(t: string)
    requires t == "/b/./c/"
    ensures CollapseSlashes(t) == t
  {
    assert NoDoubleSlash("./c/") && NoDoubleSlash("/b/");
    NoDoubleSlashConcat("/b/", "./c/");
    assert "/b/" + "./c/" == t;
  }

  lemma {:induction false} SplitTrailingSeparator(s: string, sep: char)
    ensures Split(s + [sep], sep) == Split(s, sep) + [""]
    decreases |s|
  {
    if |s| == 0 {
      assert s + [sep] == [sep];
      assert [sep][1..] == [];
    } else {
      var t := s[1..];
      var u := s + [sep];
      SplitTrailingSeparator(t, sep);
      assert u[0] == s[0] && u[1..] == t + [sep];
      var rest := Split(t + [sep], sep);
      var old_rest := Split(t, sep);
      assert rest == old_rest + [""];
      if s[0] == sep {
        assert Split(u, sep) == [""] + rest;
        assert Split(s, sep) == [""] + old_rest;
      } else {
        assert Split(u, sep) == [[s[0]] + rest[0]] + rest[1..];
        assert Split(s, sep) == [[s[0]] + old_rest[0]] + old_rest[1..];
        assert rest[0] == old_rest[0] && rest[1..] == old_rest[1..] + [""];
      }
    }
  }

  lemma {:induction false} NonEmptyDropsTrailingEmpty(xs: seq<string>)
    ensures NonEmpty(xs + [""]) == NonEmpty(xs)
    decreases |xs|
  {
    if |xs| == 0 {
      assert [] + [""] == [""];
    } else {
      NonEmptyDropsTrailingEmpty(xs[1..]);
      assert (xs + [""])[1..] == xs[1..] + [""];
    }
  }

  /** A trailing `/` adds no segment. */
  lemma SegmentsIgnoreTrailingSlash(s: string)
    ensures Segments(s + "/") == Segments(s)
  {
    SplitTrailingSeparator(s, '/');
    NonEmptyDropsTrailingEmpty(Split(s, '/'));
  }

  /** Empty and `.` segments vanish, and so does a trailing `/`. */
  lemma ExampleEmptyAndDot()
    ensures Normalize("/a//b/./c/") == "/a/b/c"
  {
    CollapseExample();
    NormalizeCollapsedTo("/a//b/./c/");
  }

  lemma NormalizeCollapsedTo(p: string)
    requires CollapseSlashes(ReplaceBackslashes(p)) == "/a/b/./c/"
    ensures Normalize(p) == "/a/b/c"
  {
    var q := "/a/b/./c/";
    var segs := ["a", "b", ".", "c"];
    NormalizeVia(p, q);
    SegmentsOfExample(q, segs);
    ResolveDotExample(segs);
    RenderAbc();
  }

  lemma RenderAbc()
    ensures Render(["a", "b", "c"], true) == "/a/b/c"
  {
    assert Join(["c"], '/') == "c";
    assert Join(["b", "c"], '/') == "b/c";
  }

  /** `normalizePath` of a non-empty input, in terms of its string after the
      two replacements. */
  lemma NormalizeVia(p: string, q: string)
    requires p != "" && CollapseSlashes(ReplaceBackslashes(p)) == q
    ensures Normalize(p) == Render(Resolve([], Segments(q), IsAbsolute(q)), IsAbsolute(q))
  {
  }

  lemma SegmentsOfExample(q: string, segs: seq<string>)
    requires q == "/a/b/./c/" && segs == ["a", "b", ".", "c"]
    ensures Segments(q) == segs && IsAbsolute(q)
  {
    assert Join(segs[3..], '/') == "c";
    assert Join(segs[2..], '/') == "./c";
    assert Join(segs[1..], '/') == "b/./c";
    assert "/" + Join(segs, '/') + "/" == q;
    SegmentsIgnoreTrailingSlash("/" + Join(segs, '/'));
    RenderedFacts(segs, true);
  }

  lemma ResolveDotExample(segs: seq<string>)
    requires segs == ["a", "b", ".", "c"]
    ensures Resolve([], segs, true) == ["a", "b", "c"]
  {
    assert segs[1..] == ["b", ".", "c"] && segs[2..] == [".", "c"] && segs[3..] == ["c"];
    assert Step([], "a", true) == ["a"];
    assert Step(["a"], "b", true) == ["a", "b"];
    assert Step(["a", "b"], ".", true) == ["a", "b"];
    assert Step(["a", "b"], "c", true) == ["a", "b", "c"];
    assert Resolve(["a", "b", "c"], [], true) == ["a", "b", "c"];
    assert Resolve(["a", "b"], ["c"], true) == ["a", "b", "c"];
    assert Resolve(["a", "b"], [".", "c"], true) == ["a", "b", "c"];
    assert Resolve(["a"], ["b", ".", "c"], true) == ["a", "b", "c"];
  }

  /** Leading `..` of a relative path have nothing to cancel and stay. */
  lemma ExampleRelativeDotDotStays()
    ensures Normalize("../../a") == "../../a"
  {
    var xs := ["..", "..", "a"];
    JoinRelativeExample(xs);
    NormalizeRendered(xs, false);
    ResolveRelativeExample(xs);
  }

  lemma JoinRelativeExample(xs: seq<string>)
    requires xs == ["..", "..", "a"]
    ensures "" + Join(xs, '/') == "../../a"
    ensures Render(xs, false) == "../../a"
  {
    assert Join(xs[2..], '/') == "a";
    assert Join(xs[1..], '/') == "../a";
    assert Join(xs, '/') == "../../a";
  }

  lemma ResolveRelativeExample(xs: seq<string>)
    requires xs == ["..", "..", "a"]
    ensures Resolve([], xs, false) == xs
  {
    assert xs[1..] == ["..", "a"] && xs[2..] == ["a"];
    assert Step([], "..", false) == [] + [".."] == [".."];
    assert Step([".."], "..", false) == [".."] + [".."] == ["..", ".."];
    assert Step(["..", ".."], "a", false) == ["..", ".."] + ["a"] == xs;
    assert Resolve([], xs, false) == Resolve([".."], xs[1..], false);
    assert Resolve([".."], xs[1..], false) == Resolve(["..", ".."], xs[2..], false);
    assert Resolve(["..", ".."], xs[2..], false) == xs;
  }

  /** A relative path that cancels out entirely becomes `/`, and a plain
      relative name stays relative: not every result starts with `/`. */
  lemma ExampleRelativeResults()
    ensures Normalize("a/..") == "/"
    ensures Normalize("a") == "a"
  {
    var xs := ["a", ".."];
    assert "" + Join(xs, '/') == "a/..";
    NormalizeRendered(xs, false);
    assert Resolve([], xs, false) == Resolve(["a"], xs[1..], false);
    assert Resolve(["a"], xs[1..], false) == [];
    assert "" + Join(["a"], '/') == "a";
    NormalizeRendered(["a"], false);
  }
}
