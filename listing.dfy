/** The `/api/files` answer body: every `readdir` entry becomes a
    name/type/size/modified record, and the records are sorted directories
    first, then by name. */
module Listing {
  datatype Kind = Dir | File

  /** One entry as `sftp.readdir` reports it: the attributes say whether it
      is a directory; `mtime` is in seconds. */
  datatype DirEntry = DirEntry(filename: string, isDir: bool, size: nat, mtime: int)

  /** One entry as the browser receives it; `modified` is in milliseconds. */
  datatype FileInfo = FileInfo(name: string, kind: Kind, size: nat, modified: int)

  /** The `list.map(...)` step. */
  function ToInfo(e: DirEntry): FileInfo {
    FileInfo(e.filename, if e.isDir then Dir else File, e.size, e.mtime * 1000)
  }

  function MapInfo(list: seq<DirEntry>): (r: seq<FileInfo>)
    ensures |r| == |list|
    ensures forall i :: 0 <= i < |list| ==> r[i] == ToInfo(list[i])
  {
    seq(|list|, i requires 0 <= i < |list| => ToInfo(list[i]))
  }

  /** Code-point order on names, standing for `localeCompare`: a prefix comes
      first, otherwise the first differing character decides. */
  predicate LexLe(a: string, b: string)
    decreases |a|
  {
    |a| == 0 || (|b| > 0 && (a[0] < b[0] || (a[0] == b[0] && LexLe(a[1..], b[1..]))))
  }

  lemma {:induction false} LexTotal(a: string, b: string)
    ensures LexLe(a, b) || LexLe(b, a)
    decreases |a|
  {
    if |a| > 0 && |b| > 0 && a[0] == b[0] {
      LexTotal(a[1..], b[1..]);
    }
  }

  lemma {:induction false} LexTrans(a: string, b: string, c: string)
    requires LexLe(a, b) && LexLe(b, c)
    ensures LexLe(a, c)
    decreases |a|
  {
    if |a| > 0 && a[0] == b[0] && b[0] == c[0] {
      LexTrans(a[1..], b[1..], c[1..]);
    }
  }

  lemma {:induction false} LexAntisymmetric(a: string, b: string)
    requires LexLe(a, b) && LexLe(b, a)
    ensures a == b
    decreases |a|
  {
    if |a| > 0 {
      LexAntisymmetric(a[1..], b[1..]);
      assert a == [a[0]] + a[1..] && b == [b[0]] + b[1..];
    }
  }

  /** The sort comparator as the handler writes it: a negative result puts
      `a` first. The name comparison stands for `localeCompare`. */
  function Compare(a: FileInfo, b: FileInfo): int {
    if a.kind == Dir && b.kind == File then -1
    else if a.kind == File && b.kind == Dir then 1
    else if a.name == b.name then 0
    else if LexLe(a.name, b.name) then -1
    else 1
  }

  /** `a` may precede `b`: a directory before a file, and within one type
      the name order. */
  predicate Before(a: FileInfo, b: FileInfo) {
    (a.kind == Dir && b.kind == File) || (a.kind == b.kind && LexLe(a.name, b.name))
  }

  /** The comparator allows `a` first exactly when `a` may precede `b`. */
  lemma CompareMeansBefore(a: FileInfo, b: FileInfo)
    ensures Compare(a, b) <= 0 <==> Before(a, b)
    ensures Compare(a, b) == -Compare(b, a)
  {
    if a.kind == b.kind {
      LexTotal(a.name, b.name);
      if a.name == b.name {
        LexTotal(a.name, a.name);
      } else if LexLe(a.name, b.name) && LexLe(b.name, a.name) {
        LexAntisymmetric(a.name, b.name);
      }
    }
  }

  lemma BeforeTotal(a: FileInfo, b: FileInfo)
    ensures Before(a, b) || Before(b, a)
  {
    LexTotal(a.name, b.name);
  }

  lemma BeforeTrans(a: FileInfo, b: FileInfo, c: FileInfo)
    requires Before(a, b) && Before(b, c)
    ensures Before(a, c)
  {
    if a.kind == b.kind && b.kind == c.kind {
      LexTrans(a.name, b.name, c.name);
    }
  }

  predicate Sorted(s: seq<FileInfo>) {
    forall i, j :: 0 <= i < j < |s| ==> Before(s[i], s[j])
  }

  /** Insert `x` before the first element it may precede; it goes before its
      equals, which came after it in the input, so the sort is stable. */
  function Insert(x: FileInfo, ys: seq<FileInfo>): (r: seq<FileInfo>)
    ensures multiset(r) == multiset(ys) + multiset{x}
    ensures |r| == |ys| + 1
    decreases |ys|
  {
    if |ys| == 0 then [x]
    else if Before(x, ys[0]) then [x] + ys
    else
      assert ys == [ys[0]] + ys[1..];
      [ys[0]] + Insert(x, ys[1..])
  }

  lemma {:induction false} InsertSorted(x: FileInfo, ys: seq<FileInfo>)
    requires Sorted(ys)
    ensures Sorted(Insert(x, ys))
    decreases |ys|
  {
    if |ys| == 0 {
    } else if Before(x, ys[0]) {
      forall j | 0 <= j < |ys| ensures Before(x, ys[j]) {
        if j > 0 {
          BeforeTrans(x, ys[0], ys[j]);
        }
      }
      PrependSorted(x, ys);
    } else {
      BeforeTotal(x, ys[0]);
      var tail := ys[1..];
      TailSorted(ys);
      InsertSorted(x, tail);
      forall k | 0 <= k < |tail| ensures Before(ys[0], tail[k]) {
        assert tail[k] == ys[k + 1];
      }
      InsertKeepsLowerBound(ys[0], x, tail);
      PrependSorted(ys[0], Insert(x, tail));
    }
  }

  /** A sorted list stays sorted with an element in front that may precede
      all of it. */
  lemma PrependSorted(x: FileInfo, ys: seq<FileInfo>)
    requires Sorted(ys) && forall j :: 0 <= j < |ys| ==> Before(x, ys[j])
    ensures Sorted([x] + ys)
  {
    var r := [x] + ys;
    forall i, j | 0 <= i < j < |r| ensures Before(r[i], r[j]) {
      assert r[j] == ys[j - 1];
      if i > 0 {
        assert r[i] == ys[i - 1];
      }
    }
  }

  lemma TailSorted(ys: seq<FileInfo>)
    requires Sorted(ys) && |ys| > 0
    ensures Sorted(ys[1..])
  {
    var tail := ys[1..];
    forall i, j | 0 <= i < j < |tail| ensures Before(tail[i], tail[j]) {
      assert tail[i] == ys[i + 1] && tail[j] == ys[j + 1];
    }
  }

  /** What may precede `x` and all of `tail` may precede all of the result
      of inserting `x` there. */
  lemma InsertKeepsLowerBound(y: FileInfo, x: FileInfo, tail: seq<FileInfo>)
    requires Before(y, x) && forall k :: 0 <= k < |tail| ==> Before(y, tail[k])
    ensures forall j :: 0 <= j < |Insert(x, tail)| ==> Before(y, Insert(x, tail)[j])
  {
    var rest := Insert(x, tail);
    forall j | 0 <= j < |rest| ensures Before(y, rest[j]) {
      assert rest[j] in multiset(rest);
      if rest[j] != x {
        assert rest[j] in multiset(tail);
        var k :| 0 <= k < |tail| && tail[k] == rest[j];
      }
    }
  }

  /** `.sort(comparator)`: insertion sort. */
  function Sort(xs: seq<FileInfo>): (r: seq<FileInfo>)
    ensures multiset(r) == multiset(xs)
    ensures |r| == |xs|
    decreases |xs|
  {
    if |xs| == 0 then []
    else
      assert xs == [xs[0]] + xs[1..];
      Insert(xs[0], Sort(xs[1..]))
  }

  lemma {:induction false} SortSorted(xs: seq<FileInfo>)
    ensures Sorted(Sort(xs))
    decreases |xs|
  {
    if |xs| > 0 {
      SortSorted(xs[1..]);
      InsertSorted(xs[0], Sort(xs[1..]));
    }
  }

  /** The body of the listing answer. */
  function Files(list: seq<DirEntry>): seq<FileInfo> {
    Sort(MapInfo(list))
  }

  /** The listing holds exactly the mapped entries, each as often as
      `readdir` reported it, and nothing else. */
  lemma FilesPermutation(list: seq<DirEntry>)
    ensures |Files(list)| == |list|
    ensures forall e :: e in list ==> ToInfo(e) in Files(list)
    ensures forall i :: 0 <= i < |list| ==>
      multiset(Files(list))[ToInfo(list[i])] == multiset(MapInfo(list))[ToInfo(list[i])]
  {
    var m := MapInfo(list);
    forall e | e in list ensures ToInfo(e) in Files(list) {
      var k :| 0 <= k < |list| && list[k] == e;
      assert m[k] == ToInfo(e);
      assert ToInfo(e) in multiset(m);
    }
  }

  /** Every listed record comes from one `readdir` entry: same name and
      size, type `dir` exactly for a directory, the time in milliseconds. */
  lemma FilesFromEntries(list: seq<DirEntry>) returns (from: seq<nat>)
    ensures |from| == |Files(list)|
    ensures forall i :: 0 <= i < |from| ==> from[i] < |list|
    ensures forall i :: 0 <= i < |from| ==>
      var f := Files(list)[i];
      var e := list[from[i]];
      && f.name == e.filename && f.size == e.size
      && (f.kind == Dir <==> e.isDir)
      && f.modified == e.mtime * 1000
  {
    var r := Files(list);
    from := [];
    for i := 0 to |r|
      invariant |from| == i
      invariant forall j :: 0 <= j < i ==> from[j] < |list| && r[j] == ToInfo(list[from[j]])
    {
      var k := EntryOf(list, r[i]);
      from := from + [k];
    }
  }

  /** The entry a listed record was made from. */
  lemma EntryOf(list: seq<DirEntry>, x: FileInfo) returns (k: nat)
    requires x in Files(list)
    ensures k < |list| && x == ToInfo(list[k])
  {
    var m := MapInfo(list);
    assert x in multiset(Files(list));
    assert x in multiset(m);
    k :| 0 <= k < |m| && m[k] == x;
  }

  /** Every directory precedes every file. */
  lemma DirsBeforeFiles(list: seq<DirEntry>)
    ensures var r := Files(list);
      forall i, j :: 0 <= i < j < |r| && r[i].kind == File ==> r[j].kind == File
  {
    SortSorted(MapInfo(list));
  }

  /** Within one type the names ascend. */
  lemma NamesAscendWithinType(list: seq<DirEntry>)
    ensures var r := Files(list);
      forall i, j :: 0 <= i < j < |r| && r[i].kind == r[j].kind ==> LexLe(r[i].name, r[j].name)
  {
    SortSorted(MapInfo(list));
  }

  /** Consecutive records are in the order the comparator asks for. */
  lemma ComparatorRespected(list: seq<DirEntry>)
    ensures var r := Files(list);
      forall i :: 0 <= i < |r| - 1 ==> Compare(r[i], r[i + 1]) <= 0
  {
    var r := Files(list);
    SortSorted(MapInfo(list));
    forall i | 0 <= i < |r| - 1 ensures Compare(r[i], r[i + 1]) <= 0 {
      CompareMeansBefore(r[i], r[i + 1]);
    }
  }
}
