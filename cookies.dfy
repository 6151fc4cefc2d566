/** Reading one value out of the browser's cookie string. */
module Cookies {
  import opened Wrappers
  import opened Strings

  /** Drops the leading run of plain spaces (only `' '`, not other white space). */
  function DropSpaces(c: string): (r: string)
    ensures |r| <= |c| && r == c[|c| - |r|..]
    ensures |r| == 0 || r[0] != ' '
    ensures (forall i :: 0 <= i < |c| ==> c[i] != ' ') ==> r == c
    decreases |c|
  {
    if |c| > 0 && c[0] == ' ' then DropSpaces(c[1..]) else c
  }

  /** The value of the first entry that, once its leading spaces are dropped,
      begins with `nameEq`; `None` when no entry does. */
  function FirstMatch(entries: seq<string>, nameEq: string): (r: Option<string>)
    decreases |entries|
  {
    if |entries| == 0 then None
    else
      var c := DropSpaces(entries[0]);
      if StartsWith(c, nameEq) then Some(c[|nameEq|..])
      else FirstMatch(entries[1..], nameEq)
  }

  /** The lookup: split the cookie string on `;` and take the first entry
      naming `name`. */
  function CookieValue(cookie: string, name: string): Option<string> {
    FirstMatch(Split(cookie, ';'), name + "=")
  }

  /** The lookup as the browser runs it: a loop over the `;`-separated
      entries, each stripped of leading spaces by an inner loop. */
  method GetCookie(cookie: string, name: string) returns (r: Option<string>)
    ensures r == CookieValue(cookie, name)
  {
    var nameEq := name + "=";
    var ca := Split(cookie, ';');
    for i := 0 to |ca|
      invariant FirstMatch(ca[i..], nameEq) == FirstMatch(ca, nameEq)
    {
      var c := ca[i];
      while |c| > 0 && c[0] == ' '
        invariant DropSpaces(c) == DropSpaces(ca[i])
        decreases |c|
      {
        c := c[1..];
      }
      assert ca[i..][0] == ca[i] && ca[i..][1..] == ca[i + 1..];
      if StartsWith(c, nameEq) {
        return Some(c[|nameEq|..]);
      }
    }
    return None;
  }

  /** The value found belongs to the first entry that names the cookie: the
      lemma returns that entry's index. */
  lemma {:induction false} FirstMatchFound(entries: seq<string>, nameEq: string, v: string) returns (i: nat)
    requires FirstMatch(entries, nameEq) == Some(v)
    ensures i < |entries| && DropSpaces(entries[i]) == nameEq + v
    ensures forall j :: 0 <= j < i ==> !StartsWith(DropSpaces(entries[j]), nameEq)
    decreases |entries|
  {
    var c := DropSpaces(entries[0]);
    if StartsWith(c, nameEq) {
      MatchSplits(c, nameEq);
      i := 0;
    } else {
      var t := entries[1..];
      var k := FirstMatchFound(t, nameEq, v);
      i := k + 1;
      ShiftMisses(entries, t, nameEq, k);
    }
  }

  lemma MatchSplits(c: string, nameEq: string)
    requires StartsWith(c, nameEq)
    ensures c == nameEq + c[|nameEq|..]
  {
    assert c == c[..|nameEq|] + c[|nameEq|..];
  }

  /** Misses in the tail, and a miss at the head, are misses in the list. */
  lemma ShiftMisses(entries: seq<string>, t: seq<string>, nameEq: string, k: nat)
    requires |entries| > 0 && t == entries[1..] && k < |t|
    requires !StartsWith(DropSpaces(entries[0]), nameEq)
    requires forall j :: 0 <= j < k ==> !StartsWith(DropSpaces(t[j]), nameEq)
    ensures entries[k + 1] == t[k]
    ensures forall j :: 0 <= j < k + 1 ==> !StartsWith(DropSpaces(entries[j]), nameEq)
  {
    forall j | 0 <= j < k + 1 ensures !StartsWith(DropSpaces(entries[j]), nameEq) {
      if j > 0 {
        assert entries[j] == t[j - 1];
      }
    }
  }

  /** Nothing is found exactly when no entry names the cookie. */
  lemma {:induction false} FirstMatchNone(entries: seq<string>, nameEq: string)
    ensures FirstMatch(entries, nameEq) == None
      <==> forall i :: 0 <= i < |entries| ==> !StartsWith(DropSpaces(entries[i]), nameEq)
    decreases |entries|
  {
    if |entries| > 0 && !StartsWith(DropSpaces(entries[0]), nameEq) {
      var t := entries[1..];
      FirstMatchNone(t, nameEq);
      forall i | 1 <= i < |entries| ensures entries[i] == t[i - 1] {
      }
      NoMatchInTail(entries, nameEq);
    }
  }

  lemma NoMatchInTail(entries: seq<string>, nameEq: string)
    requires |entries| > 0 && !StartsWith(DropSpaces(entries[0]), nameEq)
    ensures (forall i :: 0 <= i < |entries| ==> !StartsWith(DropSpaces(entries[i]), nameEq))
        <==> (forall i :: 0 <= i < |entries| - 1 ==> !StartsWith(DropSpaces(entries[1..][i]), nameEq))
  {
    var t := entries[1..];
    if forall i :: 0 <= i < |t| ==> !StartsWith(DropSpaces(t[i]), nameEq) {
      forall i | 1 <= i < |entries| ensures !StartsWith(DropSpaces(entries[i]), nameEq) {
        assert entries[i] == t[i - 1];
      }
    }
  }

  /** A cookie string in the browser's `k1=v1; k2=v2` form. */
  function Jar(pairs: seq<(string, string)>): string
    decreases |pairs|
  {
    if |pairs| == 0 then ""
    else if |pairs| == 1 then pairs[0].0 + "=" + pairs[0].1
    else pairs[0].0 + "=" + pairs[0].1 + "; " + Jar(pairs[1..])
  }

  predicate WellFormedPair(p: (string, string)) {
    |p.0| > 0 && p.0[0] != ' ' && '=' !in p.0 && ';' !in p.0 && ';' !in p.1
  }

  /** An entry `k=v` begins with `name=` exactly when `k` is `name`. */
  lemma EntryNames(k: string, v: string, name: string)
    requires '=' !in k && '=' !in name
    ensures StartsWith(k + "=" + v, name + "=") <==> k == name
  {
    var e := k + "=" + v;
    var q := name + "=";
    assert e[|k|] == '=' && forall i :: 0 <= i < |k| ==> e[i] == k[i];
    assert FirstIndex(e, '=') == |k|;
    if StartsWith(e, q) {
      assert q[|name|] == '=' && forall i :: 0 <= i < |name| ==> e[i] == q[i] == name[i];
      assert FirstIndex(e, '=') == |name|;
      assert k == e[..|k|] == q[..|name|] == name;
    }
  }

  /** Looking up a name in a jar built from well-formed pairs finds the value
      of the first pair with that name, and nothing when no pair has it. */
  lemma {:induction false} LookupInJar(pairs: seq<(string, string)>, name: string)
    requires forall i :: 0 <= i < |pairs| ==> WellFormedPair(pairs[i])
    requires '=' !in name
    ensures CookieValue(Jar(pairs), name) == FirstValue(pairs, name)
    decreases |pairs|
  {
    if |pairs| == 0 {
      assert Split("", ';') == [""];
      assert [""][1..] == [];
      assert FirstMatch([""][1..], name + "=") == None;
    } else {
      var p := pairs[0];
      var head := p.0 + "=" + p.1;
      assert ';' !in head;
      assert DropSpaces(head) == head;
      EntryNames(p.0, p.1, name);
      if p.0 == name {
        assert head == (name + "=") + p.1;
        assert head[|name + "="|..] == p.1;
      }
      if |pairs| == 1 {
        assert Split(head, ';') == SplitNoSep(head, ';');
        assert [head][1..] == [] && pairs[1..] == [];
        assert FirstMatch([head][1..], name + "=") == None;
      } else {
        var rest := Jar(pairs[1..]);
        assert Jar(pairs) == head + [';'] + (" " + rest);
        SplitAfterPiece(head, ';', " " + rest);
        LookupInJar(pairs[1..], name);
        SpaceBeforeJar(pairs[1..], name);
      }
    }
  }

  /** The leading space after each `;` does not disturb the lookup. */
  lemma SpaceBeforeJar(pairs: seq<(string, string)>, name: string)
    requires |pairs| > 0 && WellFormedPair(pairs[0])
    ensures FirstMatch(Split(" " + Jar(pairs), ';'), name + "=")
      == FirstMatch(Split(Jar(pairs), ';'), name + "=")
  {
    var j := Jar(pairs);
    var a := Split(" " + j, ';');
    var b := Split(j, ';');
    SpaceSplit(j);
    assert a[0] == " " + b[0] && a[1..] == b[1..];
    assert DropSpaces(a[0]) == DropSpaces(b[0]) by {
      assert (" " + b[0])[1..] == b[0];
    }
  }

  /** A leading space stays with the first `;`-separated piece. */
  lemma SpaceSplit(s: string)
    ensures |Split(" " + s, ';')| == |Split(s, ';')|
    ensures Split(" " + s, ';')[0] == " " + Split(s, ';')[0]
    ensures Split(" " + s, ';')[1..] == Split(s, ';')[1..]
  {
    assert (" " + s)[1..] == s;
  }

  /** The reference lookup over name/value pairs. */
  function FirstValue(pairs: seq<(string, string)>, name: string): Option<string>
    decreases |pairs|
  {
    if |pairs| == 0 then None
    else if pairs[0].0 == name then Some(pairs[0].1)
    else FirstValue(pairs[1..], name)
  }

  /** The saved working directory survives being read back. */
  lemma SavedPathReadBack(key: string, path: string)
    requires |key| > 0 && key[0] != ' ' && '=' !in key && ';' !in key && ';' !in path
    ensures CookieValue(key + "=" + path, key) == Some(path)
  {
    var pairs := [(key, path)];
    assert Jar(pairs) == key + "=" + path;
    LookupInJar(pairs, key);
  }
}
