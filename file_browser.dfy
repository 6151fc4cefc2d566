/** The browser-side file panel: the current directory, the check boxes of
    the listed entries, the set of selected paths, the select-all box and the
    package-download button. */
module FileBrowser {
  import opened Wrappers
  import opened Strings
  import opened PathNormalizer
  import opened NameChecks
  import opened UriEncoding

  predicate Distinct<T(==)>(s: seq<T>) {
    forall i, j :: 0 <= i < j < |s| ==> s[i] != s[j]
  }

  /** `set.add(x)` on an insertion-ordered set: a new element goes last, an
      existing one keeps its place. */
  function SetAdd(s: seq<string>, x: string): (r: seq<string>)
    ensures forall y :: y in r <==> y in s || y == x
    ensures Distinct(s) ==> Distinct(r)
    ensures x in s ==> r == s
    ensures x !in s ==> r == s + [x]
  {
    if x in s then s else s + [x]
  }

  /** `set.delete(x)`: the others keep their order. */
  function SetDelete(s: seq<string>, x: string): (r: seq<string>)
    ensures forall y :: y in r <==> y in s && y != x
    ensures Distinct(s) ==> Distinct(r)
    ensures |r| <= |s|
    decreases |s|
  {
    if |s| == 0 then []
    else if s[0] == x then SetDelete(s[1..], x)
    else
      var rest := SetDelete(s[1..], x);
      assert Distinct(s) ==> s[0] !in s[1..] && Distinct(s[1..]) by {
        if Distinct(s) {
          forall i, j | 0 <= i < j < |s[1..]| ensures s[1..][i] != s[1..][j] {
            assert s[1..][i] == s[i + 1] && s[1..][j] == s[j + 1];
          }
        }
      }
      [s[0]] + rest
  }

  /** The elements of `xs` that are not in `ys`, in their order in `xs`. */
  function Outside(xs: seq<string>, ys: seq<string>): (r: seq<string>)
    ensures forall y :: y in r <==> y in xs && y !in ys
    decreases |xs|
  {
    if |xs| == 0 then []
    else
      var rest := Outside(xs[1..], ys);
      assert forall y :: y in xs <==> y == xs[0] || y in xs[1..];
      (if xs[0] in ys then [] else [xs[0]]) + rest
  }

  lemma {:induction false} OutsideNothing(xs: seq<string>)
    ensures Outside(xs, []) == xs
    decreases |xs|
  {
    if |xs| > 0 {
      OutsideNothing(xs[1..]);
    }
  }

  lemma {:induction false} OutsideSnoc(xs: seq<string>, x: string, ys: seq<string>)
    ensures Outside(xs + [x], ys) == Outside(xs, ys) + (if x in ys then [] else [x])
    decreases |xs|
  {
    if |xs| == 0 {
      assert [x][1..] == [];
    } else {
      assert (xs + [x])[1..] == xs[1..] + [x];
      OutsideSnoc(xs[1..], x, ys);
    }
  }

  /** Ticking one more box `x` of a list without repeats: the new paths
      stay in box order after the old selection. */
  lemma AddStep(s: seq<string>, ps: seq<string>, x: string)
    requires x !in ps
    ensures SetAdd(s + Outside(ps, s), x) == s + Outside(ps + [x], s)
  {
    OutsideSnoc(ps, x, s);
    if x !in s {
      assert x !in s + Outside(ps, s);
    }
  }

  /** Unticking one more box `x`: the selection is filtered once more. */
  lemma {:induction false} DeleteStep(s: seq<string>, ys: seq<string>, x: string)
    ensures SetDelete(Outside(s, ys), x) == Outside(s, ys + [x])
    decreases |s|
  {
    if |s| > 0 {
      var a := s[0];
      var rest := Outside(s[1..], ys);
      DeleteStep(s[1..], ys, x);
      assert a in ys + [x] <==> a in ys || a == x;
      if a in ys {
        assert Outside(s, ys) == rest;
        assert Outside(s, ys + [x]) == Outside(s[1..], ys + [x]);
      } else {
        var o := [a] + rest;
        assert Outside(s, ys) == o;
        assert o[0] == a && o[1..] == rest;
        if a == x {
          assert SetDelete(o, x) == SetDelete(rest, x);
          assert Outside(s, ys + [x]) == Outside(s[1..], ys + [x]);
        } else {
          assert SetDelete(o, x) == [a] + SetDelete(rest, x);
          assert Outside(s, ys + [x]) == [a] + Outside(s[1..], ys + [x]);
        }
      }
    }
  }

  /** How many boxes are ticked. */
  function Count(bs: seq<bool>): (k: nat)
    ensures k <= |bs|
    decreases |bs|
  {
    if |bs| == 0 then 0 else (if bs[0] then 1 else 0) + Count(bs[1..])
  }

  lemma {:induction false} CountUniform(n: nat, b: bool)
    ensures Count(seq(n, _ => b)) == if b then n else 0
    decreases n
  {
    if n > 0 {
      CountUniform(n - 1, b);
      assert seq(n, _ => b)[1..] == seq(n - 1, _ => b);
    }
  }

  /** The select-all box as computed after a single box changes: checked when
      every one of the `n` boxes is ticked, indeterminate when some but not all are. */
  function SelectAllFlags(n: nat, k: nat): (bool, bool) {
    (n > 0 && k == n, k > 0 && k < n)
  }

  /** For `k <= n` ticked boxes the select-all box is in exactly one of three
      states: clear (none ticked), checked (all of at least one ticked) or
      indeterminate (some); never checked and indeterminate together. */
  lemma SelectAllStates(n: nat, k: nat)
    requires k <= n
    ensures var (all, some) := SelectAllFlags(n, k);
      && !(all && some)
      && (!all && !some <==> k == 0)
      && (all <==> n > 0 && k == n)
      && (some <==> 0 < k < n)
  {
  }

  /** The path of each listed entry: the normalised child of the directory. */
  function ChildPaths(dir: string, names: seq<string>): (r: seq<string>)
    ensures |r| == |names|
    ensures forall i :: 0 <= i < |names| ==> r[i] == Normalize(dir + "/" + names[i])
  {
    seq(|names|, i requires 0 <= i < |names| => Normalize(dir + "/" + names[i]))
  }

  /** Names as a directory listing gives them: distinct, no separator, and
      neither `.` nor `..`. */
  predicate PlainNames(names: seq<string>) {
    Distinct(names) && forall i :: 0 <= i < |names| ==> IsPart(names[i]) && names[i] != "." && names[i] != ".."
  }

  /** Distinct plain names in a normalised directory give distinct paths, so
      a path identifies one box. */
  lemma ChildPathsDistinct(dir: string, names: seq<string>)
    requires IsNormal(dir) && PlainNames(names)
    ensures Distinct(ChildPaths(dir, names))
  {
    var ps := ChildPaths(dir, names);
    forall i, j | 0 <= i < j < |ps| ensures ps[i] != ps[j] {
      ChildrenDiffer(dir, names[i], names[j]);
    }
  }

  /** Two different plain names give two different child paths. */
  lemma ChildrenDiffer(dir: string, a: string, b: string)
    requires IsNormal(dir) && a != b
    requires IsPart(a) && a != "." && a != ".."
    requires IsPart(b) && b != "." && b != ".."
    ensures Normalize(dir + "/" + a) != Normalize(dir + "/" + b)
  {
    var segs := Segments(dir);
    var abs := IsAbsolute(dir);
    AcceptedNameIsChild(dir, a);
    AcceptedNameIsChild(dir, b);
    ChildParts(dir, a);
    ChildParts(dir, b);
    RenderedFacts(segs + [a], abs);
    RenderedFacts(segs + [b], abs);
    LastDiffers(segs, a, b);
  }

  lemma ChildParts(dir: string, x: string)
    requires IsNormal(dir) && IsPart(x)
    ensures var xs := Segments(dir) + [x];
      forall i :: 0 <= i < |xs| ==> IsPart(xs[i])
  {
    assert Reduced(Segments(dir), IsAbsolute(dir));
  }

  lemma LastDiffers(segs: seq<string>, a: string, b: string)
    requires a != b
    ensures segs + [a] != segs + [b]
  {
    assert (segs + [a])[|segs|] == a;
    assert (segs + [b])[|segs|] == b;
  }

  /** One more name, one more path at the end. */
  lemma ChildPathsSnoc(dir: string, names: seq<string>, i: nat)
    requires i < |names|
    ensures ChildPaths(dir, names[..i + 1]) == ChildPaths(dir, names[..i]) + [Normalize(dir + "/" + names[i])]
  {
    assert names[..i + 1] == names[..i] + [names[i]];
  }

  /** The select-all handler's `forEach` over the boxes: each box takes the
      select-all box's tick, and its path joins the set (after the paths
      already there, in box order) or leaves it (the rest keeping their
      order). */
  method TickEvery(bs: seq<string>, ticks: seq<bool>, sel: seq<string>, nowChecked: bool)
    returns (ticks': seq<bool>, sel': seq<string>)
    requires |ticks| == |bs| && Distinct(sel)
    ensures ticks' == seq(|bs|, _ => nowChecked)
    ensures forall p :: p in sel' <==> if nowChecked then p in sel || p in bs else p in sel && p !in bs
    ensures nowChecked && Distinct(bs) ==> sel' == sel + Outside(bs, sel)
    ensures !nowChecked ==> sel' == Outside(sel, bs)
    ensures Distinct(sel')
  {
    ticks', sel' := ticks, sel;
    var j := 0;
    OutsideNothing(sel);
    while j < |bs|
      invariant 0 <= j <= |bs| == |ticks'|
      invariant forall m :: 0 <= m < j ==> ticks'[m] == nowChecked
      invariant forall p :: p in sel' <==>
        if nowChecked then p in sel || p in bs[..j] else p in sel && p !in bs[..j]
      invariant Distinct(sel')
      invariant nowChecked && Distinct(bs) ==> sel' == sel + Outside(bs[..j], sel)
      invariant !nowChecked ==> sel' == Outside(sel, bs[..j])
    {
      ticks' := ticks'[j := nowChecked];
      assert bs[..j + 1] == bs[..j] + [bs[j]];
      if nowChecked {
        if Distinct(bs) {
          assert bs[j] !in bs[..j];
          AddStep(sel, bs[..j], bs[j]);
        }
        sel' := SetAdd(sel', bs[j]);
      } else {
        DeleteStep(sel, bs[..j], bs[j]);
        sel' := SetDelete(sel', bs[j]);
      }
      j := j + 1;
    }
    assert bs[..j] == bs;
    assert ticks' == seq(|bs|, _ => nowChecked);
  }

  class Browser {
    /** The directory shown, always a result of `normalizePath`. */
    var currentPath: string
    /** The `..` entry, present unless the directory is `/`. */
    var parentLink: Option<string>
    /** The path behind each displayed check box (the `..` entry has none). */
    var boxes: seq<string>
    /** Whether each displayed box is ticked. */
    var checked: seq<bool>
    /** The selected paths in insertion order (a JavaScript `Set`). */
    var selected: seq<string>
    var selectAll: bool
    var indeterminate: bool
    var downloadDisabled: bool
    /** The number shown in the download button's label. */
    var downloadCount: nat

    /** What every handler keeps: one tick per box, a duplicate-free set, a
        button that is disabled exactly when nothing is selected and shows
        the selection's size, and a select-all box never both checked and
        indeterminate. */
    ghost predicate Valid()
      reads this
    {
      && |checked| == |boxes|
      && Distinct(selected)
      && downloadDisabled == (|selected| == 0)
      && downloadCount == |selected|
      && !(selectAll && indeterminate)
    }

    /** The ticks are exactly the selection: every box is ticked iff its path
        is selected, and every selected path has a box. */
    ghost predicate Consistent()
      reads this
    {
      && Valid()
      && Distinct(boxes)
      && (forall i :: 0 <= i < |boxes| ==> (checked[i] <==> boxes[i] in selected))
      && (forall p :: p in selected ==> p in boxes)
    }

    /** The select-all box reflects the ticks. */
    ghost predicate FlagsMatch()
      reads this
    {
      (selectAll, indeterminate) == SelectAllFlags(|boxes|, Count(checked))
    }

    /** Start-up: the directory saved in the cookie, normalised, or `/root`
        when there is none or it is empty. */
    constructor (savedPath: Option<string>)
      ensures currentPath == Normalize(if savedPath.Some? && savedPath.value != "" then savedPath.value else "/root")
      ensures parentLink == None && boxes == [] && checked == [] && selected == []
      ensures !selectAll && !indeterminate && downloadDisabled && downloadCount == 0
      ensures Valid() && Consistent() && FlagsMatch()
    {
      var start := if savedPath.Some? && savedPath.value != "" then savedPath.value else "/root";
      var p := NormalizePath(start);
      currentPath := p;
      parentLink := None;
      boxes := [];
      checked := [];
      selected := [];
      selectAll := false;
      indeterminate := false;
      downloadDisabled := true;
      downloadCount := 0;
    }

    /** `updateDownloadSelectedButtonState`. */
    method UpdateDownloadButton()
      modifies this
      ensures downloadDisabled == (|selected| == 0) && downloadCount == |selected|
      ensures currentPath == old(currentPath) && parentLink == old(parentLink)
      ensures boxes == old(boxes) && checked == old(checked) && selected == old(selected)
      ensures selectAll == old(selectAll) && indeterminate == old(indeterminate)
    {
      downloadDisabled := |selected| == 0;
      downloadCount := |selected|;
    }

    /** `clearSelection`: empty the set, untick every box, clear both flags. */
    method ClearSelection()
      requires |checked| == |boxes|
      modifies this
      ensures selected == [] && checked == seq(|boxes|, _ => false)
      ensures !selectAll && !indeterminate && downloadDisabled && downloadCount == 0
      ensures currentPath == old(currentPath) && parentLink == old(parentLink) && boxes == old(boxes)
      ensures Valid() && FlagsMatch()
      ensures Distinct(boxes) ==> Consistent()
    {
      selected := [];
      var i := 0;
      while i < |checked|
        invariant 0 <= i <= |checked| == |boxes|
        invariant forall j :: 0 <= j < i ==> !checked[j]
        invariant selected == [] && boxes == old(boxes)
        invariant currentPath == old(currentPath) && parentLink == old(parentLink)
      {
        checked := checked[i := false];
        i := i + 1;
      }
      assert checked == seq(|boxes|, _ => false);
      CountUniform(|boxes|, false);
      selectAll := false;
      indeterminate := false;
      UpdateDownloadButton();
    }

    /** `fetchAndDisplayFiles(pathStr)` up to the request: the list,
        the `..` entry included, is replaced by a loading line and the
        selection cleared; the request is
        for the normalised path. */
    method Navigate(pathStr: string) returns (url: string)
      modifies this
      ensures url == "/api/files?path=" + Encode(Normalize(pathStr))
      ensures boxes == [] && checked == [] && selected == []
      ensures !selectAll && !indeterminate && downloadDisabled && downloadCount == 0
      ensures currentPath == old(currentPath) && parentLink.None?
      ensures Consistent() && FlagsMatch()
    {
      parentLink := None;
      boxes := [];
      checked := [];
      ClearSelection();
      var p := NormalizePath(pathStr);
      url := "/api/files?path=" + Encode(p);
    }

    /** A listing failed: the list shows only the error line, with neither
        boxes nor the `..` entry. */
    method ListingFailed()
      requires Valid()
      modifies this
      ensures boxes == [] && checked == [] && parentLink.None?
      ensures selected == old(selected) && currentPath == old(currentPath)
      ensures selectAll == old(selectAll) && indeterminate == old(indeterminate)
      ensures downloadDisabled == old(downloadDisabled) && downloadCount == old(downloadCount)
      ensures Valid()
    {
      parentLink := None;
      boxes := [];
      checked := [];
    }

    /** A listing arrived: the directory becomes the server's path,
        normalised, and the entries are drawn. */
    method ListingLoaded(serverPath: string, names: seq<string>)
      requires Valid()
      modifies this
      ensures currentPath == Normalize(serverPath)
      ensures boxes == ChildPaths(currentPath, names) && |checked| == |boxes|
      ensures forall i :: 0 <= i < |boxes| ==> (checked[i] <==> boxes[i] in selected)
      ensures selected == old(selected) && selectAll == old(selectAll) && indeterminate == old(indeterminate)
      ensures Valid()
      ensures old(selected) == [] && PlainNames(names) ==> Consistent()
    {
      var p := NormalizePath(serverPath);
      currentPath := p;
      NormalForm(serverPath);
      Render(names);
    }

    /** `renderFileList`: the `..` entry unless at `/`, then one box per
        entry, ticked when its path is already selected. */
    method Render(names: seq<string>)
      requires Valid()
      modifies this
      ensures parentLink == if currentPath != "/" then Some(Normalize(currentPath + "/..")) else None
      ensures boxes == ChildPaths(currentPath, names) && |checked| == |boxes|
      ensures forall i :: 0 <= i < |boxes| ==> (checked[i] <==> boxes[i] in selected)
      ensures currentPath == old(currentPath) && selected == old(selected)
      ensures selectAll == old(selectAll) && indeterminate == old(indeterminate)
      ensures Valid()
      ensures old(selected) == [] && IsNormal(currentPath) && PlainNames(names) ==> Consistent()
    {
      if currentPath != "/" {
        var up := NormalizePath(currentPath + "/..");
        parentLink := Some(up);
      } else {
        parentLink := None;
      }
      DrawBoxes(names);
      UpdateDownloadButton();
      if old(selected) == [] && IsNormal(currentPath) && PlainNames(names) {
        ChildPathsDistinct(currentPath, names);
      }
    }

    /** The loop of `renderFileList`: one box per entry, ticked when its path
        is already selected. */
    method DrawBoxes(names: seq<string>)
      modifies this
      ensures boxes == ChildPaths(currentPath, names) && |checked| == |boxes|
      ensures forall i :: 0 <= i < |boxes| ==> (checked[i] <==> boxes[i] in selected)
      ensures currentPath == old(currentPath) && parentLink == old(parentLink) && selected == old(selected)
      ensures selectAll == old(selectAll) && indeterminate == old(indeterminate)
      ensures downloadDisabled == old(downloadDisabled) && downloadCount == old(downloadCount)
    {
      boxes := [];
      checked := [];
      for i := 0 to |names|
        invariant boxes == ChildPaths(currentPath, names[..i])
        invariant |checked| == i
        invariant forall j :: 0 <= j < i ==> (checked[j] <==> boxes[j] in selected)
        invariant currentPath == old(currentPath) && parentLink == old(parentLink) && selected == old(selected)
        invariant selectAll == old(selectAll) && indeterminate == old(indeterminate)
        invariant downloadDisabled == old(downloadDisabled) && downloadCount == old(downloadCount)
      {
        var fullPath := NormalizePath(currentPath + "/" + names[i]);
        ChildPathsSnoc(currentPath, names, i);
        boxes := boxes + [fullPath];
        checked := checked + [fullPath in selected];
      }
      assert names[..|names|] == names;
    }

    /** A box was ticked or unticked: its path joins or leaves the set, and
        the select-all box is recomputed from the ticks. */
    method ToggleBox(i: nat, nowChecked: bool)
      requires Valid() && i < |boxes|
      modifies this
      ensures boxes == old(boxes) && currentPath == old(currentPath) && parentLink == old(parentLink)
      ensures checked == old(checked)[i := nowChecked]
      ensures selected == if nowChecked then SetAdd(old(selected), boxes[i]) else SetDelete(old(selected), boxes[i])
      ensures (selectAll, indeterminate) == SelectAllFlags(|boxes|, Count(checked))
      ensures Valid() && FlagsMatch()
      ensures old(Consistent()) ==> Consistent()
    {
      checked := checked[i := nowChecked];
      if nowChecked {
        selected := SetAdd(selected, boxes[i]);
      } else {
        selected := SetDelete(selected, boxes[i]);
      }
      var n := |boxes|;
      var k := Count(checked);
      selectAll := n > 0 && k == n;
      indeterminate := k > 0 && k < n;
      UpdateDownloadButton();
      SelectAllStates(n, k);
    }

    /** The select-all box was clicked to `nowChecked`: every box follows it,
        its path joins or leaves the set, and the indeterminate mark goes. */
    method SelectAllChanged(nowChecked: bool)
      requires Valid()
      modifies this
      ensures checked == seq(|boxes|, _ => nowChecked)
      ensures forall p :: p in selected <==>
        if nowChecked then p in old(selected) || p in boxes else p in old(selected) && p !in boxes
      ensures nowChecked && Distinct(boxes) ==> selected == old(selected) + Outside(boxes, old(selected))
      ensures !nowChecked ==> selected == Outside(old(selected), boxes)
      ensures selectAll == nowChecked && !indeterminate
      ensures boxes == old(boxes) && currentPath == old(currentPath) && parentLink == old(parentLink)
      ensures Valid()
      ensures FlagsMatch() <==> !(nowChecked && |boxes| == 0)
      ensures old(Consistent()) ==> Consistent()
    {
      checked, selected := TickEvery(boxes, checked, selected, nowChecked);
      CountUniform(|boxes|, nowChecked);
      indeterminate := false;
      selectAll := nowChecked;
      UpdateDownloadButton();
    }

    /** The download button: with nothing selected only a warning; otherwise
        the browser goes to the package URL carrying every selected path in
        insertion order, and the selection is cleared. */
    method DownloadSelected() returns (url: Option<string>)
      requires Valid()
      modifies this
      ensures old(selected) == [] ==> url == None && selected == old(selected)
      ensures old(selected) != [] ==>
        url == Some("/api/package-download?" + PackageQuery(old(selected))) && selected == []
      ensures old(selected) != [] ==>
        checked == seq(|boxes|, _ => false) && !selectAll && !indeterminate && downloadDisabled && downloadCount == 0
      ensures old(selected) == [] ==>
        checked == old(checked) && selectAll == old(selectAll) && indeterminate == old(indeterminate)
        && downloadDisabled == old(downloadDisabled) && downloadCount == old(downloadCount)
      ensures boxes == old(boxes) && currentPath == old(currentPath) && parentLink == old(parentLink)
      ensures Valid()
    {
      if |selected| == 0 {
        return None;
      }
      var pathsToZip := selected;
      url := Some("/api/package-download?" + PackageQuery(pathsToZip));
      ClearSelection();
    }
  }
}
