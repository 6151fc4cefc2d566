/** The checks the browser applies to a name typed for rename, new folder and
    new file, and the path it then sends. */
module NameChecks {
  import opened Wrappers
  import opened Strings
  import opened PathNormalizer

  /** `name.split('/').pop().split('\\').pop()`: what is left after the last
      separator of either kind. */
  function CleanName(name: string): string {
    Last(Split(Last(Split(name, '/')), '\\'))
  }

  /** The cleaned name equals the typed one exactly when it holds neither
      separator. */
  lemma CleanNameIffNoSeparator(name: string)
    ensures CleanName(name) == name <==> '/' !in name && '\\' !in name
  {
    var a := Last(Split(name, '/'));
    LastPieceIsSuffix(name, '/');
    LastPieceIsSuffix(a, '\\');
    if '/' !in name {
      assert a == name[0..];
    }
    if CleanName(name) == name {
      assert |a| == |name|;
      assert a == name[0..];
    }
  }

  /** What the rename button does: nothing, a separator error, or a request
      to move `oldPath` to `newPath`. */
  datatype RenameOutcome = RenameIgnored | RenameRejected | RenameTo(oldPath: string, newPath: string)

  /** The rename handler. `oldPath` is empty when no entry was right-clicked;
      `answer` is `None` when the prompt was cancelled. */
  function RenameRequest(oldPath: string, oldName: string, answer: Option<string>, currentPath: string): RenameOutcome {
    if oldPath == "" then RenameIgnored
    else match answer
      case None => RenameIgnored
      case Some(newName) =>
        if newName == "" || Trim(newName) == "" || newName == oldName then RenameIgnored
        else
          var clean := CleanName(newName);
          if clean != newName then RenameRejected
          else RenameTo(oldPath, Normalize(currentPath + "/" + clean))
  }

  /** A name that passes the emptiness checks: not empty, not only white space. */
  predicate Blank(name: string) {
    name == "" || Trim(name) == ""
  }

  /** A rename request is sent exactly when an entry is selected and the new
      name is non-blank, differs from the old one and contains no separator;
      it then moves the entry to the normalised child of the current directory. */
  lemma RenameSentIff(oldPath: string, oldName: string, answer: Option<string>, currentPath: string)
    ensures var r := RenameRequest(oldPath, oldName, answer, currentPath);
      r.RenameTo? <==>
        (oldPath != "" && answer.Some? && !Blank(answer.value) && answer.value != oldName
         && '/' !in answer.value && '\\' !in answer.value)
    ensures var r := RenameRequest(oldPath, oldName, answer, currentPath);
      r.RenameTo? ==> r.oldPath == oldPath && r.newPath == Normalize(currentPath + "/" + answer.value)
    ensures var r := RenameRequest(oldPath, oldName, answer, currentPath);
      r.RenameRejected? <==>
        (oldPath != "" && answer.Some? && !Blank(answer.value) && answer.value != oldName
         && ('/' in answer.value || '\\' in answer.value))
  {
    if answer.Some? {
      CleanNameIffNoSeparator(answer.value);
    }
  }

  /** What the new-folder and new-file buttons create. */
  datatype CreateKind = Folder | File

  /** The endpoint each kind of creation is posted to. */
  function CreateEndpoint(kind: CreateKind): string {
    match kind
    case Folder => "/api/mkdir"
    case File => "/api/touch"
  }

  datatype CreateOutcome = CreateEmpty | CreateRejected | CreateAt(kind: CreateKind, path: string)

  /** The new-folder handler; the new-file handler runs the same checks. */
  function CreateRequest(kind: CreateKind, answer: Option<string>, currentPath: string): CreateOutcome {
    match answer
    case None => CreateEmpty
    case Some(name) =>
      if name == "" || Trim(name) == "" then CreateEmpty
      else if '/' in name || '\\' in name then CreateRejected
      else CreateAt(kind, Normalize(currentPath + "/" + name))
  }

  /** A creation request is sent exactly when the name is non-blank and holds
      no separator, and then for the normalised child of the current directory. */
  lemma CreateSentIff(kind: CreateKind, answer: Option<string>, currentPath: string)
    ensures var r := CreateRequest(kind, answer, currentPath);
      r.CreateAt? <==> answer.Some? && !Blank(answer.value) && '/' !in answer.value && '\\' !in answer.value
    ensures var r := CreateRequest(kind, answer, currentPath);
      r.CreateAt? ==> r.kind == kind && r.path == Normalize(currentPath + "/" + answer.value)
    ensures var r := CreateRequest(kind, answer, currentPath);
      r.CreateEmpty? <==> answer.None? || Blank(answer.value)
  {
  }

  /** Rename and creation apply the same separator rule, the one through
      split-and-pop and the other through `includes`, and aim at the same path. */
  lemma SameSeparatorRule(oldPath: string, oldName: string, name: string, currentPath: string, kind: CreateKind)
    requires oldPath != "" && !Blank(name) && name != oldName
    ensures RenameRequest(oldPath, oldName, Some(name), currentPath).RenameTo?
        <==> CreateRequest(kind, Some(name), currentPath).CreateAt?
    ensures RenameRequest(oldPath, oldName, Some(name), currentPath).RenameTo? ==>
        RenameRequest(oldPath, oldName, Some(name), currentPath).newPath
        == CreateRequest(kind, Some(name), currentPath).path
  {
    RenameSentIff(oldPath, oldName, Some(name), currentPath);
    CreateSentIff(kind, Some(name), currentPath);
  }

  /** From a normalised current directory, an accepted plain name (neither
      `.` nor `..`) yields that directory with the name appended. */
  lemma AcceptedNameIsChild(currentPath: string, name: string)
    requires IsNormal(currentPath) && IsPart(name) && name != "." && name != ".."
    ensures Normalize(currentPath + "/" + name)
        == Render(Segments(currentPath) + [name], IsAbsolute(currentPath))
  {
    AppendSegment(currentPath, name);
  }

  /** The separator checks let `..` through: from an absolute directory other
      than `/`, renaming to, or creating, `..` targets the parent directory. */
  lemma DotDotTargetsParent(oldPath: string, oldName: string, currentPath: string, kind: CreateKind)
    requires IsNormal(currentPath) && IsAbsolute(currentPath) && currentPath != "/"
    requires oldPath != "" && oldName != ".."
    ensures var segs := Segments(currentPath);
      && |segs| > 0
      && RenameRequest(oldPath, oldName, Some(".."), currentPath)
         == RenameTo(oldPath, Render(segs[..|segs| - 1], true))
      && CreateRequest(kind, Some(".."), currentPath) == CreateAt(kind, Render(segs[..|segs| - 1], true))
  {
    DotDotRequests(oldPath, oldName, currentPath, kind, "..");
    ParentDropsLastSegment(currentPath);
  }

  lemma DotDotRequests(oldPath: string, oldName: string, currentPath: string, kind: CreateKind, n: string)
    requires n == ".." && oldPath != "" && oldName != n
    ensures RenameRequest(oldPath, oldName, Some(n), currentPath) == RenameTo(oldPath, Normalize(currentPath + "/.."))
    ensures CreateRequest(kind, Some(n), currentPath) == CreateAt(kind, Normalize(currentPath + "/.."))
  {
    DotDotPasses(n);
    SlashDotDot(currentPath, n);
    AcceptedRename(oldPath, oldName, n, currentPath);
    AcceptedCreate(kind, n, currentPath);
  }

  lemma SlashDotDot(c: string, n: string)
    requires n == ".."
    ensures c + "/" + n == c + "/.."
  {
    var l := c + "/" + n;
    var r := c + "/..";
    assert |l| == |r|;
    forall i | 0 <= i < |l| ensures l[i] == r[i] {
      if i < |c| {
        assert l[i] == c[i] && r[i] == c[i];
      }
    }
  }

  lemma AcceptedRename(oldPath: string, oldName: string, n: string, currentPath: string)
    requires oldPath != "" && oldName != n && !Blank(n) && '/' !in n && '\\' !in n
    ensures RenameRequest(oldPath, oldName, Some(n), currentPath) == RenameTo(oldPath, Normalize(currentPath + "/" + n))
  {
    RenameSentIff(oldPath, oldName, Some(n), currentPath);
  }

  lemma AcceptedCreate(kind: CreateKind, n: string, currentPath: string)
    requires !Blank(n) && '/' !in n && '\\' !in n
    ensures CreateRequest(kind, Some(n), currentPath) == CreateAt(kind, Normalize(currentPath + "/" + n))
  {
  }

  lemma DotDotPasses(n: string)
    requires n == ".."
    ensures !Blank(n) && '/' !in n && '\\' !in n
  {
    assert n[0] == '.' && n[1] == '.' && |n| == 2;
    assert !IsSpace(n[0]);
    assert TrimStart(n) == n;
    assert TrimEnd(n) == n;
  }
}
