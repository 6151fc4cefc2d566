/** The handful of JavaScript string operations that the client and the server
    build their logic from: `split` on one character and on runs of white
    space, `join`, `startsWith`, `trim`, `lastIndexOf`, `toLowerCase` and
    `parseInt`. Each is defined here once, with JavaScript's edge cases. */
module Strings {
  import opened Wrappers

  /** The last element of a non-empty sequence (JavaScript's `Array.prototype.pop`
      result, without the mutation). */
  function Last<T>(xs: seq<T>): T
    requires |xs| > 0
  {
    xs[|xs| - 1]
  }

  predicate StartsWith(s: string, prefix: string) {
    |prefix| <= |s| && s[..|prefix|] == prefix
  }

  /** `s.split(sep)` for a one-character separator: the pieces between the
      separators, so there is always at least one piece and `n` separators
      give `n + 1` pieces. */
  function Split(s: string, sep: char): (r: seq<string>)
    ensures |r| >= 1
    ensures forall i :: 0 <= i < |r| ==> sep !in r[i]
    ensures (|r| == 1) == (sep !in s)
    decreases |s|
  {
    if |s| == 0 then [""]
    else if s[0] == sep then [""] + Split(s[1..], sep)
    else
      var rest := Split(s[1..], sep);
      assert s == [s[0]] + s[1..];
      [[s[0]] + rest[0]] + rest[1..]
  }

  /** `xs.join(sep)` for a one-character separator. */
  function Join(xs: seq<string>, sep: char): string
    decreases |xs|
  {
    if |xs| == 0 then ""
    else if |xs| == 1 then xs[0]
    else xs[0] + [sep] + Join(xs[1..], sep)
  }

  /** `xs.filter(part => part !== '')`. */
  function NonEmpty(xs: seq<string>): (r: seq<string>)
    ensures |r| <= |xs|
    ensures forall i :: 0 <= i < |r| ==> r[i] != "" && r[i] in xs
    ensures forall x :: x in xs && x != "" ==> x in r
    decreases |xs|
  {
    if |xs| == 0 then []
    else if xs[0] == "" then NonEmpty(xs[1..])
    else [xs[0]] + NonEmpty(xs[1..])
  }

  lemma {:induction false} NonEmptyIdentity(xs: seq<string>)
    requires forall i :: 0 <= i < |xs| ==> xs[i] != ""
    ensures NonEmpty(xs) == xs
    decreases |xs|
  {
    if |xs| > 0 {
      NonEmptyIdentity(xs[1..]);
    }
  }

  function SplitNoSep(s: string, sep: char): (r: seq<string>)
    requires sep !in s
    ensures r == [s] && Split(s, sep) == r
    decreases |s|
  {
    if |s| == 0 then [""]
    else
      assert sep !in s[1..] by {
        forall i | 0 <= i < |s[1..]| ensures s[1..][i] != sep { assert s[1..][i] == s[i + 1]; }
      }
      var rest := SplitNoSep(s[1..], sep);
      assert s == [s[0]] + s[1..];
      [s]
  }

  lemma {:induction false} SplitAfterPiece(a: string, sep: char, b: string)
    requires sep !in a
    ensures Split(a + [sep] + b, sep) == [a] + Split(b, sep)
    decreases |a|
  {
    if |a| == 0 {
      assert a + [sep] + b == [sep] + b;
      assert ([sep] + b)[1..] == b;
    } else {
      assert a == [a[0]] + a[1..];
      SplitAfterPiece(a[1..], sep, b);
      var s := a + [sep] + b;
      assert s[0] == a[0] && s[1..] == a[1..] + [sep] + b;
      var rest := Split(s[1..], sep);
      assert rest == [a[1..]] + Split(b, sep);
      assert Split(s, sep) == [[a[0]] + rest[0]] + rest[1..];
    }
  }

  /** Splitting a joined list gives the list back when no element contains
      the separator. */
  lemma {:induction false} SplitJoin(xs: seq<string>, sep: char)
    requires |xs| >= 1
    requires forall i :: 0 <= i < |xs| ==> sep !in xs[i]
    ensures Split(Join(xs, sep), sep) == xs
    decreases |xs|
  {
    if |xs| == 1 {
      var _ := SplitNoSep(xs[0], sep);
    } else {
      SplitJoin(xs[1..], sep);
      SplitAfterPiece(xs[0], sep, Join(xs[1..], sep));
      assert [xs[0]] + xs[1..] == xs;
    }
  }

  /** The last piece of `s.split(c)` is a suffix of `s`, and a proper one
      exactly when `c` occurs in `s`. */
  lemma {:induction false} LastPieceIsSuffix(s: string, c: char)
    ensures |Last(Split(s, c))| <= |s|
    ensures Last(Split(s, c)) == s[|s| - |Last(Split(s, c))|..]
    ensures c in s <==> |Last(Split(s, c))| < |s|
    decreases |s|
  {
    if |s| > 0 {
      LastPieceIsSuffix(s[1..], c);
      LastPieceStep(s, c);
    }
  }

  /** One step of `LastPieceIsSuffix`: from the tail of `s` to `s`. */
  lemma LastPieceStep(s: string, c: char)
    requires |s| > 0
    requires var t := Last(Split(s[1..], c));
      |t| <= |s| - 1 && t == s[1..][|s| - 1 - |t|..] && (c in s[1..] <==> |t| < |s| - 1)
    ensures |Last(Split(s, c))| <= |s|
    ensures Last(Split(s, c)) == s[|s| - |Last(Split(s, c))|..]
    ensures c in s <==> |Last(Split(s, c))| < |s|
  {
    var tail := Last(Split(s[1..], c));
    assert s[1..][|s| - 1 - |tail|..] == s[|s| - |tail|..];
    InOrTail(s, c);
    if s[0] == c || c in s[1..] {
      LastPieceOfTail(s, c);
    } else {
      WholeLastPiece(s, c);
    }
  }

  lemma InOrTail(s: string, c: char)
    requires |s| > 0
    ensures c in s <==> s[0] == c || c in s[1..]
  {
    assert s == [s[0]] + s[1..];
  }

  /** A separator in `s` leaves the last piece to the tail. */
  lemma LastPieceOfTail(s: string, c: char)
    requires |s| > 0 && (s[0] == c || c in s[1..])
    ensures Last(Split(s, c)) == Last(Split(s[1..], c))
  {
    var rest := Split(s[1..], c);
    if s[0] != c {
      assert |rest| > 1;
      var r := [[s[0]] + rest[0]] + rest[1..];
      assert Split(s, c) == r;
      assert r[|r| - 1] == rest[|rest| - 1];
    }
  }

  /** Without any `c`, the only piece is `s` itself. */
  lemma WholeLastPiece(s: string, c: char)
    requires |s| > 0 && s[0] != c && c !in s[1..]
    requires Last(Split(s[1..], c)) == s[1..]
    ensures Last(Split(s, c)) == s
  {
    assert s == [s[0]] + s[1..];
  }

  /** The characters JavaScript's `\s` and `String.prototype.trim` treat as
      white space or line terminators. */
  predicate IsSpace(c: char) {
    c == ' ' || c == '\t' || c == '\n' || c == '\r' || c == '\U{0B}' || c == '\U{0C}'
    || c == '\U{A0}' || c == '\U{1680}' || ('\U{2000}' <= c <= '\U{200A}')
    || c == '\U{2028}' || c == '\U{2029}' || c == '\U{202F}' || c == '\U{205F}'
    || c == '\U{3000}' || c == '\U{FEFF}'
  }

  /** Drops the leading run of white space. */
  function TrimStart(s: string): (r: string)
    ensures |r| <= |s| && r == s[|s| - |r|..]
    ensures |s| > 0 && IsSpace(s[0]) ==> |r| < |s|
    ensures |r| == 0 || !IsSpace(r[0])
    decreases |s|
  {
    if |s| > 0 && IsSpace(s[0]) then TrimStart(s[1..]) else s
  }

  /** Drops the trailing run of white space. */
  function TrimEnd(s: string): (r: string)
    ensures |r| <= |s| && r == s[..|r|]
    ensures |r| == 0 || !IsSpace(r[|r| - 1])
    decreases |s|
  {
    if |s| > 0 && IsSpace(s[|s| - 1]) then TrimEnd(s[..|s| - 1]) else s
  }

  /** `s.trim()`. */
  function Trim(s: string): string {
    TrimEnd(TrimStart(s))
  }

  /** Trimming leaves nothing exactly when the string is all white space
      (`s.trim() === ''`). */
  lemma TrimEmptyIffAllSpace(s: string)
    ensures Trim(s) == "" <==> forall i :: 0 <= i < |s| ==> IsSpace(s[i])
  {
    var t := TrimStart(s);
    TrimStartAllSpace(s);
    if Trim(s) == "" && |t| > 0 {
      TrimEndEmpty(t);
    }
  }

  lemma {:induction false} TrimStartAllSpace(s: string)
    ensures TrimStart(s) == "" <==> forall i :: 0 <= i < |s| ==> IsSpace(s[i])
    decreases |s|
  {
    if |s| > 0 {
      TrimStartAllSpace(s[1..]);
      assert (forall i :: 0 <= i < |s| ==> IsSpace(s[i])) <==>
        IsSpace(s[0]) && (forall i :: 0 <= i < |s[1..]| ==> IsSpace(s[1..][i])) by {
        if forall i :: 0 <= i < |s[1..]| ==> IsSpace(s[1..][i]) {
          forall i | 1 <= i < |s| ensures IsSpace(s[i]) { assert s[i] == s[1..][i - 1]; }
        }
      }
    }
  }

  lemma {:induction false} TrimEndEmpty(s: string)
    requires TrimEnd(s) == ""
    ensures forall i :: 0 <= i < |s| ==> IsSpace(s[i])
    decreases |s|
  {
    if |s| > 0 {
      TrimEndEmpty(s[..|s| - 1]);
      forall i | 0 <= i < |s| ensures IsSpace(s[i]) {
        if i < |s| - 1 { assert s[..|s| - 1][i] == s[i]; }
      }
    }
  }

  /** `s.split(/\s+/)`: the pieces between maximal runs of white space; a
      leading run gives an empty first piece, a trailing run an empty last one. */
  function SplitSpaces(s: string): (r: seq<string>)
    ensures |r| >= 1
    ensures forall i :: 0 <= i < |r| ==> forall j :: 0 <= j < |r[i]| ==> !IsSpace(r[i][j])
    decreases |s|
  {
    if |s| == 0 then [""]
    else if IsSpace(s[0]) then [""] + SplitSpaces(TrimStart(s))
    else
      var rest := SplitSpaces(s[1..]);
      [[s[0]] + rest[0]] + rest[1..]
  }

  /** The index of the first `c` in `s`, or `|s|` when there is none. */
  function FirstIndex(s: string, c: char): (r: nat)
    ensures r <= |s|
    ensures r < |s| ==> s[r] == c
    ensures forall i :: 0 <= i < r ==> s[i] != c
    decreases |s|
  {
    if |s| == 0 || s[0] == c then 0 else 1 + FirstIndex(s[1..], c)
  }

  /** `s.lastIndexOf(c)`: the largest index holding `c`, or -1. */
  function LastIndexOf(s: string, c: char): (r: int)
    ensures -1 <= r < |s|
    ensures r >= 0 ==> s[r] == c
    ensures forall i :: r < i < |s| ==> s[i] != c
    decreases |s|
  {
    if |s| == 0 then -1
    else if s[|s| - 1] == c then |s| - 1
    else LastIndexOf(s[..|s| - 1], c)
  }

  function LowerChar(c: char): char {
    if 'A' <= c <= 'Z' then (c as int + 32) as char else c
  }

  /** `s.toLowerCase()` on the ASCII letters. */
  function Lower(s: string): (r: string)
    ensures |r| == |s|
    ensures forall i :: 0 <= i < |s| ==> r[i] == LowerChar(s[i])
  {
    seq(|s|, i requires 0 <= i < |s| => LowerChar(s[i]))
  }

  lemma LowerIdempotent(s: string)
    ensures Lower(Lower(s)) == Lower(s)
  {
  }

  predicate IsDigit(c: char) {
    '0' <= c <= '9'
  }

  /** The value of a string of decimal digits. */
  function DigitsValue(ds: string): (v: nat)
    requires forall i :: 0 <= i < |ds| ==> IsDigit(ds[i])
    decreases |ds|
  {
    if |ds| == 0 then 0
    else 10 * DigitsValue(ds[..|ds| - 1]) + DigitValue(ds[|ds| - 1])
  }

  function DigitValue(c: char): (d: nat)
    requires IsDigit(c)
    ensures d <= 9
  {
    if c == '0' then 0 else if c == '1' then 1 else if c == '2' then 2
    else if c == '3' then 3 else if c == '4' then 4 else if c == '5' then 5
    else if c == '6' then 6 else if c == '7' then 7 else if c == '8' then 8 else 9
  }

  /** The length of the longest prefix of `s` made of decimal digits. */
  function DigitRun(s: string): (n: nat)
    ensures n <= |s|
    ensures forall i :: 0 <= i < n ==> IsDigit(s[i])
    ensures n == |s| || !IsDigit(s[n])
    decreases |s|
  {
    if |s| > 0 && IsDigit(s[0]) then 1 + DigitRun(s[1..]) else 0
  }

  /** `parseInt(s, 10)`: leading white space, an optional sign, then the
      longest run of digits; `None` stands for `NaN` (no digit at all). */
  function ParseInt(s: string): (r: Option<int>)
  {
    var t := TrimStart(s);
    if |t| > 0 && t[0] in "+-" then
      var n := DigitRun(t[1..]);
      if n == 0 then None
      else
        var v: int := DigitsValue(t[1..][..n]);
        Some(if t[0] == '-' then -v else v)
    else
      var n := DigitRun(t);
      if n == 0 then None else Some(DigitsValue(t[..n]))
  }

  /** Concatenation of a list of chunks, the value of an `out += chunk` loop. */
  /** String concatenation regrouped. */
  lemma ConcatAssoc(a: string, b: string, c: string)
    ensures (a + b) + c == a + (b + c)
  {
  }

  function Concat(chunks: seq<string>): string
    decreases |chunks|
  {
    if |chunks| == 0 then "" else Concat(chunks[..|chunks| - 1]) + chunks[|chunks| - 1]
  }

  lemma {:induction false} ConcatLength(chunks: seq<string>, k: nat)
    requires forall i :: 0 <= i < |chunks| ==> |chunks[i]| == k
    ensures |Concat(chunks)| == k * |chunks|
    decreases |chunks|
  {
    if |chunks| > 0 {
      ConcatLength(chunks[..|chunks| - 1], k);
    }
  }

  lemma {:induction false} ConcatAppend(a: seq<string>, b: seq<string>)
    ensures Concat(a + b) == Concat(a) + Concat(b)
    decreases |b|
  {
    if |b| == 0 {
      assert a + b == a;
    } else {
      ConcatAppend(a, b[..|b| - 1]);
      assert (a + b)[..|a + b| - 1] == a + b[..|b| - 1];
    }
  }
}
