/** How a POSIX shell splits a simple command line into words (section 2.2,
    "Quoting", of the Shell Command Language in POSIX.1-2017), for the
    fragment the server's remote commands use: blanks between words,
    backslash escapes, single quotes and double quotes. Anything outside
    that fragment (an expansion, an operator, a pattern, an unterminated
    quote) makes the reader give up with `None`. */
module ShellWords {
  import opened Wrappers

  /** A character that stands for itself outside quotes anywhere in a
      word: a letter, a digit, or one of `-./_+,:@%`. */
  predicate Plain(c: char) {
    ('a' <= c <= 'z') || ('A' <= c <= 'Z') || ('0' <= c <= '9')
    || c == '-' || c == '.' || c == '/' || c == '_' || c == '+' || c == ',' || c == ':' || c == '@' || c == '%'
  }

  /** A character that stands for itself inside double quotes. */
  predicate DqPlain(c: char) {
    c != '"' && c != '\\' && c != '$' && c != '`'
  }

  /** The characters a backslash escapes inside double quotes. */
  predicate DqEscapable(c: char) {
    c == '"' || c == '\\' || c == '$' || c == '`'
  }

  /** The words of a command line. */
  function Words(s: string): Option<seq<string>> {
    Scan(s, "", false, [])
  }

  /** Reading outside quotes; `cur` is the word being read, `inWord` says
      whether one has begun, `acc` holds the words already complete. */
  function Scan(s: string, cur: string, inWord: bool, acc: seq<string>): Option<seq<string>>
    decreases |s|
  {
    if |s| == 0 then Some(if inWord then acc + [cur] else acc)
    else if s[0] == ' ' then Scan(s[1..], "", false, if inWord then acc + [cur] else acc)
    else if s[0] == '\'' then SingleQ(s[1..], cur, acc)
    else if s[0] == '"' then DoubleQ(s[1..], cur, acc)
    else if s[0] == '\\' then
      if |s| >= 2 && s[1] != '\n' then Scan(s[2..], cur + [s[1]], true, acc) else None
    else if Plain(s[0]) then Scan(s[1..], cur + [s[0]], true, acc)
    else None
  }

  /** Inside single quotes every character but `'` stands for itself. */
  function SingleQ(s: string, cur: string, acc: seq<string>): Option<seq<string>>
    decreases |s|
  {
    if |s| == 0 then None
    else if s[0] == '\'' then Scan(s[1..], cur, true, acc)
    else SingleQ(s[1..], cur + [s[0]], acc)
  }

  /** Inside double quotes `$` and `` ` `` still expand and a backslash
      escapes only `"`, `\`, `$` and `` ` ``. */
  function DoubleQ(s: string, cur: string, acc: seq<string>): Option<seq<string>>
    decreases |s|
  {
    if |s| == 0 then None
    else if s[0] == '"' then Scan(s[1..], cur, true, acc)
    else if s[0] == '\\' then
      if |s| >= 2 && DqEscapable(s[1]) then DoubleQ(s[2..], cur + [s[1]], acc)
      else if |s| >= 2 && s[1] == '\n' then None
      else DoubleQ(s[1..], cur + ['\\'], acc)
    else if DqPlain(s[0]) then DoubleQ(s[1..], cur + [s[0]], acc)
    else None
  }

  /** One word of a command as a program writes it: bare, in double quotes
      without escaping, or in single quotes with each `'` written `'\''`. */
  datatype Arg = Bare(text: string) | Dq(text: string) | Sq(text: string)

  /** `'` + the text with every `'` replaced by `'\''` + `'`. */
  function SingleQuoted(t: string): string {
    "'" + EscapeQuotes(t) + "'"
  }

  function EscapeQuotes(t: string): string
    decreases |t|
  {
    if |t| == 0 then ""
    else if t[0] == '\'' then "'\\''" + EscapeQuotes(t[1..])
    else [t[0]] + EscapeQuotes(t[1..])
  }

  function ArgText(a: Arg): string {
    match a
    case Bare(t) => t
    case Dq(t) => "\"" + t + "\""
    case Sq(t) => SingleQuoted(t)
  }

  /** An argument the reader takes back as its text: a bare word of plain
      characters, a double-quoted text free of `"`, `\`, `$` and `` ` ``, or
      any single-quoted text. */
  predicate WellFormed(a: Arg) {
    match a
    case Bare(t) => |t| > 0 && forall i :: 0 <= i < |t| ==> Plain(t[i])
    case Dq(t) => forall i :: 0 <= i < |t| ==> DqPlain(t[i])
    case Sq(_) => true
  }

  /** The arguments, separated by single spaces. */
  function CommandLine(args: seq<Arg>): string
    decreases |args|
  {
    if |args| == 0 then ""
    else if |args| == 1 then ArgText(args[0])
    else ArgText(args[0]) + " " + CommandLine(args[1..])
  }

  function Texts(args: seq<Arg>): (r: seq<string>)
    ensures |r| == |args|
    ensures forall i :: 0 <= i < |args| ==> r[i] == args[i].text
  {
    seq(|args|, i requires 0 <= i < |args| => args[i].text)
  }

  lemma {:induction false} BareWord(t: string, rest: string, cur: string, inWord: bool, acc: seq<string>)
    requires forall i :: 0 <= i < |t| ==> Plain(t[i])
    ensures Scan(t + rest, cur, inWord, acc) == Scan(rest, cur + t, inWord || |t| > 0, acc)
    decreases |t|
  {
    if |t| == 0 {
      assert t + rest == rest && cur + t == cur;
    } else {
      var s := t + rest;
      assert s[0] == t[0] && s[1..] == t[1..] + rest;
      BareWord(t[1..], rest, cur + [t[0]], true, acc);
      assert cur + [t[0]] + t[1..] == cur + t;
    }
  }

  lemma {:induction false} DoubleQuotedText(t: string, rest: string, cur: string, acc: seq<string>)
    requires forall i :: 0 <= i < |t| ==> DqPlain(t[i])
    ensures DoubleQ(t + "\"" + rest, cur, acc) == Scan(rest, cur + t, true, acc)
    decreases |t|
  {
    var s := t + "\"" + rest;
    if |t| == 0 {
      assert s[0] == '"' && s[1..] == rest && cur + t == cur;
    } else {
      assert s[0] == t[0] && s[1..] == t[1..] + "\"" + rest;
      DoubleQuotedText(t[1..], rest, cur + [t[0]], acc);
      assert cur + [t[0]] + t[1..] == cur + t;
    }
  }

  lemma {:induction false} SingleQuotedText(t: string, rest: string, cur: string, acc: seq<string>)
    ensures SingleQ(EscapeQuotes(t) + "'" + rest, cur, acc) == Scan(rest, cur + t, true, acc)
    decreases |t|
  {
    var s := EscapeQuotes(t) + "'" + rest;
    if |t| == 0 {
      assert s[0] == '\'' && s[1..] == rest && cur + t == cur;
    } else if t[0] == '\'' {
      var tail := EscapeQuotes(t[1..]) + "'" + rest;
      assert s == "'\\''" + tail;
      EscapedQuote(tail, cur, acc);
      SingleQuotedText(t[1..], rest, cur + "'", acc);
      assert cur + "'" + t[1..] == cur + t;
    } else {
      assert s[0] == t[0] && s[1..] == EscapeQuotes(t[1..]) + "'" + rest;
      SingleQuotedText(t[1..], rest, cur + [t[0]], acc);
      assert cur + [t[0]] + t[1..] == cur + t;
    }
  }

  /** `'\''` inside single quotes: close, an escaped quote, reopen. */
  lemma EscapedQuote(tail: string, cur: string, acc: seq<string>)
    ensures SingleQ("'\\''" + tail, cur, acc) == SingleQ(tail, cur + "'", acc)
  {
    var s := "'\\''" + tail;
    assert s[0] == '\'' && s[1..] == "\\''" + tail;
    var s1 := s[1..];
    assert s1[0] == '\\' && s1[1] == '\'' && s1[2..] == "'" + tail;
    var s2 := s1[2..];
    assert s2[0] == '\'' && s2[1..] == tail;
    assert SingleQ(s, cur, acc) == Scan(s1, cur, true, acc);
    assert Scan(s1, cur, true, acc) == Scan(s2, cur + [s1[1]], true, acc);
    assert cur + [s1[1]] == cur + "'";
    assert Scan(s2, cur + "'", true, acc) == SingleQ(tail, cur + "'", acc);
  }

  /** One argument is read back as its text. */
  lemma ArgRead(a: Arg, rest: string, cur: string, inWord: bool, acc: seq<string>)
    requires WellFormed(a)
    ensures Scan(ArgText(a) + rest, cur, inWord, acc) == Scan(rest, cur + a.text, true, acc)
  {
    match a
    case Bare(t) =>
      BareWord(t, rest, cur, inWord, acc);
    case Dq(t) =>
      var s := "\"" + t + "\"" + rest;
      assert s[0] == '"' && s[1..] == t + "\"" + rest;
      DoubleQuotedText(t, rest, cur, acc);
    case Sq(t) =>
      var s := SingleQuoted(t) + rest;
      assert s[0] == '\'' && s[1..] == EscapeQuotes(t) + "'" + rest;
      SingleQuotedText(t, rest, cur, acc);
  }

  lemma SpaceEndsWord(rest: string, cur: string, acc: seq<string>)
    ensures Scan(" " + rest, cur, true, acc) == Scan(rest, "", false, acc + [cur])
  {
    assert (" " + rest)[0] == ' ' && (" " + rest)[1..] == rest;
  }

  /** Two command lines joined by a space are the command line of all their
      arguments. */
  lemma {:induction false} CommandLineAppend(pre: seq<Arg>, rest: seq<Arg>)
    requires |pre| > 0 && |rest| > 0
    ensures CommandLine(pre + rest) == CommandLine(pre) + " " + CommandLine(rest)
    decreases |pre|
  {
    var x := pre[0];
    if |pre| == 1 {
      assert pre + rest == [x] + rest;
      CommandLineCons(x, rest);
    } else {
      var p1 := pre[1..];
      assert pre == [x] + p1;
      assert pre + rest == [x] + (p1 + rest);
      CommandLineCons(x, p1 + rest);
      CommandLineAppend(p1, rest);
      CommandLineCons(x, p1);
      JoinAssoc(ArgText(x), CommandLine(p1), CommandLine(rest));
    }
  }

  lemma JoinAssoc(a: string, b: string, c: string)
    ensures a + " " + (b + " " + c) == (a + " " + b) + " " + c
  {
  }

  lemma CommandLineCons(a: Arg, rest: seq<Arg>)
    requires |rest| > 0
    ensures CommandLine([a] + rest) == ArgText(a) + " " + CommandLine(rest)
  {
    assert ([a] + rest)[0] == a && ([a] + rest)[1..] == rest;
  }

  /** A command line of well-formed arguments reads back as their texts. */
  lemma LineWords(args: seq<Arg>)
    requires |args| > 0 && forall i :: 0 <= i < |args| ==> WellFormed(args[i])
    ensures Words(CommandLine(args)) == Some(Texts(args))
  {
    CommandLineWords(args, []);
    assert [] + Texts(args) == Texts(args);
  }

  /** A command line of well-formed arguments reads back as exactly their
      texts: one word per argument, in order. */
  lemma {:induction false} CommandLineWords(args: seq<Arg>, acc: seq<string>)
    requires |args| > 0 && forall i :: 0 <= i < |args| ==> WellFormed(args[i])
    ensures Scan(CommandLine(args), "", false, acc) == Some(acc + Texts(args))
    decreases |args|
  {
    if |args| == 1 {
      OneArgWord(args, acc);
    } else {
      TailWellFormed(args);
      CommandLineWords(args[1..], acc + [args[0].text]);
      NextArgWord(args, acc);
    }
  }

  lemma OneArgWord(args: seq<Arg>, acc: seq<string>)
    requires |args| == 1 && WellFormed(args[0])
    ensures Scan(CommandLine(args), "", false, acc) == Some(acc + Texts(args))
  {
    var a := args[0];
    ArgRead(a, "", "", false, acc);
    assert ArgText(a) + "" == ArgText(a);
    assert "" + a.text == a.text;
    assert Texts(args) == [a.text];
  }

  /** The first argument's word, then the words of the rest. */
  lemma NextArgWord(args: seq<Arg>, acc: seq<string>)
    requires |args| > 1 && WellFormed(args[0])
    requires Scan(CommandLine(args[1..]), "", false, acc + [args[0].text])
          == Some(acc + [args[0].text] + Texts(args[1..]))
    ensures Scan(CommandLine(args), "", false, acc) == Some(acc + Texts(args))
  {
    var a := args[0];
    var tail := args[1..];
    var line := CommandLine(tail);
    calc {
      Scan(CommandLine(args), "", false, acc);
      { assert args == [a] + tail; CommandLineCons(a, tail); SpaceJoin(ArgText(a), line); }
      Scan(ArgText(a) + (" " + line), "", false, acc);
      { ArgRead(a, " " + line, "", false, acc); assert "" + a.text == a.text; }
      Scan(" " + line, a.text, true, acc);
      { SpaceEndsWord(line, a.text, acc); }
      Scan(line, "", false, acc + [a.text]);
      Some(acc + [a.text] + Texts(tail));
      { TextsCons(args); assert acc + [a.text] + Texts(tail) == acc + ([a.text] + Texts(tail)); }
      Some(acc + Texts(args));
    }
  }

  lemma SpaceJoin(x: string, y: string)
    ensures x + " " + y == x + (" " + y)
  {
  }

  lemma TailWellFormed(args: seq<Arg>)
    requires |args| > 0 && forall i :: 0 <= i < |args| ==> WellFormed(args[i])
    ensures forall i :: 0 <= i < |args| - 1 ==> WellFormed(args[1..][i])
  {
    forall i | 0 <= i < |args| - 1 ensures WellFormed(args[1..][i]) {
      assert args[1..][i] == args[i + 1];
    }
  }

  lemma TextsCons(args: seq<Arg>)
    requires |args| > 0
    ensures Texts(args) == [args[0].text] + Texts(args[1..])
  {
    var l := Texts(args);
    var r := [args[0].text] + Texts(args[1..]);
    forall i | 0 <= i < |l| ensures l[i] == r[i] {
      if i > 0 {
        assert args[1..][i - 1] == args[i];
      }
    }
  }
}
